# vc4 hang-state decoder, modelled in Dafny

`vc4_dump_parse` reads a hang-state file captured from a Broadcom VC4 GPU
and prints what the GPU was executing when it hung. The file holds:

- a version word;
- the kernel's hang-state record, with the bin and render control-list bounds;
- one descriptor per buffer object (handle, physical address, size);
- the contents of every buffer, one after the other.

The parser proceeds in four steps:

1. It lays the buffers out over the file (`set_bo_maps`).
2. It translates GPU physical addresses into positions in the file and back.
3. It walks the bin and the render control lists packet by packet. A static
   `packet_info` table gives each opcode a name, a size and an optional
   field decoder.
4. It walks every registered memory area.

This project models those parts and proves their properties:

| file | module | what it models |
|---|---|---|
| `bytes.dfy` | `Bytes` | The machine integers. Little-endian reads and writes of 16- and 32-bit words. |
| `field_decoders.dfy` | `FieldDecoders` | The `dump_VC4_PACKET_*` field decoders as pure functions. Three of them (STORE_TILE_BUFFER_GENERAL, TILE_RENDERING_MODE_CONFIG, TILE_COORDINATES) have an encoder, and their round trips prove that every field comes from its own bits. The other decoders read one or two words, and `WordDecodersRoundTrip` shows that each gives back the words encoded at its offsets. |
| `packets.dfy` | `Packets` | The `packet_info` table: its length, which slots are empty, its sizes and decoders. Also the opcode lookup. |
| `control_list.dfy` | `ControlList` | `vc4_dump_cl` as an imperative method, proved equal to the specification function `WalkFrom`. `WalkFrom` gives a list of report events and the reason the walk stopped. The lemmas cover termination, tiling, the stop reasons, overflow at the range end, and the terminal packets. |
| `snapshot.dfy` | `Snapshot` | The file layout: the loader (`Load`) and the capture tool's writer (`WriteHangState`), with the round trip between the two. |
| `address_map.dfy` | `AddressMap` | The three translators as first-match scans. `EndPaddrAgrees` holds for every descriptor table. `PaddrRoundTrip` needs buffer contents that do not overlap in the file, which holds for every loaded file. `RunToEnd` needs physical ranges that do not overlap. `PointerRoundTrip` needs both kinds of disjointness, and no buffer that wraps. |
| `dump_parse.dfy` | `DumpParse` | The global `dump` state as the class `Dump`. Its methods cover `set_bo_maps`, the translator loops, the memory-area registry, `parse_cls` and `parse_sublists`. |

The walker reports in events rather than text:

- `Header(addr, opcode)` for the packet-name line;
- `Fields(addr, opcode, decoded)` for a field decoder's output;
- `Raw(addr, byte)` for a byte printed by the fallback loop;
- `Overflow(addr)` for "CL overflow!";
- `Unknown(addr, opcode)` for "Unknown packet".

A walk ends with one of five stops:

- `RangeEnd`: the `while` condition failed.
- `UnknownPacket`, `ClOverflow`, `Terminal`: the three early returns.
- `Fault`: a read beyond the loaded file, which is undefined behaviour in the C code.

A pointer into the mapped file is modelled as its position in the file, and NULL as `None`.

## Model

| member | source | states |
|---|---|---|
| FieldDecoders.DecodeStoreTileBufferGeneral | tools/vc4_dump_parse_cl.c:48-124 | The printed address is 16-byte aligned and differs from the word at payload 2 by exactly the low nibble (`*addr & ~15`). The !color/!zs/!vgmask flags are set only when the buffer is "full" (code 5). |
| FieldDecoders.StoreCodesInverse | tools/vc4_dump_parse_cl.c:59-110 | The three `switch` tables map codes to names one to one: buffer codes 0-5, tiling codes 0-2 and format codes 0-2. Only code 5 means "full". |
| FieldDecoders.FlagBits | tools/vc4_dump_parse_cl.c:77-82 | Bits 0-3 of the address word are the !color, !zs, !vgmask and EOF flags, bit by bit. |
| FieldDecoders.StoreWordFields | tools/vc4_dump_parse_cl.c:120-123 | In an aligned address plus flag bits, `& ~15` recovers the address and bit 3 is the EOF flag. |
| FieldDecoders.StoreTileBufferGeneralRoundTrip | tools/vc4_dump_parse_cl.c:59-123 | Decoding the encoding of any decodable field set gives the same fields back. The buffer comes from `b0 & 7`, the tiling from `(b0 >> 4) & 7`, the format from `b1 & 3`, the address from `word & ~15`, and the flags from bits 0-3. |
| FieldDecoders.DecodeTileRenderingModeConfig | tools/vc4_dump_parse_cl.c:175-242 | The format is "64bit" exactly when the TILE_BUFFER_64BIT bit of the u16 at payload 8 is set. Early-z is "disabled" exactly when bit 3 of byte 9 is set. |
| FieldDecoders.Byte8Fields | tools/vc4_dump_parse_cl.c:195-226 | Byte 8 is split into four fields: the multisample flag in bit 0, the TILE_BUFFER_64BIT flag in bit 1, the format code in bits 2-3 and the tiling code in bits 6-7. Each is recovered on its own, for every byte the encoder produces. In those bytes the 64-bit flag and a non-zero format code are never both set: bits 1-3 hold 0, 2, 4 or 8. |
| FieldDecoders.RenderCodesInverse | tools/vc4_dump_parse_cl.c:194-220 | The format and tiling `switch` tables map codes to names one to one. The "64bit" override is the only name without a code. |
| FieldDecoders.TileRenderingModeConfigRoundTrip | tools/vc4_dump_parse_cl.c:178-241 | Decoding an encoded configuration gives it back: color offset (u32 at 0), width and height (u16 at 4 and 6), format with the 64-bit override, tiling, ms/ss, and early-z from bits 3 and 2 of byte 9. |
| FieldDecoders.TileCoordinatesRoundTrip | tools/vc4_dump_parse_cl.c:244-251 | The decoder reports the column and row bytes it was given. |
| FieldDecoders.Decode | tools/vc4_dump_parse_cl.c:331-334 | The `p->dump_func(cmds + 1, offset + 1)` dispatch: the report is always that of the packet's own decoder. |
| FieldDecoders.WordDecodersRoundTrip | tools/vc4_dump_parse_cl.c:32-167 | The word decoders report the values stored at their fixed payload offsets. `dump_float`, BRANCH_TO_SUB_LIST and FLAT_SHADE_FLAGS read one uint32_t at 0. VIEWPORT_OFFSET reads two uint16_t at 0 and 2. CLIPPER_XY_SCALING and the corrected CLIPPER_Z_SCALING read two uint32_t at 0 and 4. Each recovers exactly the words encoded there. |
| FieldDecoders.ClipperZScalingAsWrittenReadsPastPayload | tools/vc4_dump_parse_cl.c:158-173 | The as-written decoder depends on the byte after the 8-byte payload. Two inputs with the same payload, which `Decode` decodes alike, print differently when that byte differs. The `translate` words it prints are the two words `Decode` gives. |
| Packets.PacketTable | tools/vc4_dump_parse_cl.c:253-308 | The table has ARRAY_SIZE = 116 slots: the last initializer is TILE_COORDINATES, opcode 115. Every populated slot's size counts its opcode (at least 1). Every field decoder reads exactly that size minus one bytes. |
| Packets.EntryWellFormed | tools/vc4_dump_parse_cl.c:261-307 | Each designated initializer satisfies the two facts above. |
| Packets.Lookup | tools/vc4_dump_parse_cl.c:319-326 | With the corrected bound, a lookup fails exactly when the opcode is at least ARRAY_SIZE or names an empty slot. Otherwise it gives that slot's entry. |
| Packets.AsWrittenBoundsCheckAdmitsArraySize | tools/vc4_dump_parse_cl.c:319 | The check `header > ARRAY_SIZE` lets opcode 116 through, one past the table. |
| Packets.CorrectedBoundsCheckRejectsArraySize | tools/vc4_dump_parse_cl.c:319-320 | With `>=`, opcode 116 is an unknown packet. |
| Packets.ClipperZScalingReadsPastPacket | tools/vc4_dump_parse_cl.c:158-173 | The table's CLIPPER_Z_SCALING entry has an 8-byte payload (size 9, line 302), and its as-written decoder depends on the byte after the packet. Two packets whose payloads agree print differently when that byte differs. |
| ControlList.FitsAsWrittenWraps | tools/vc4_dump_parse_cl.c:331 | The uint32_t test `offset + p->size <= end` passes for offset 0xFFFFFFFE, size 7 and end 0xFFFFFFFF, although the packet does not fit. |
| ControlList.PacketStep | tools/vc4_dump_parse_cl.c:316-356 | A step that goes on moves the cursor strictly forward. A step that stops stays at its packet and gives a reason other than reaching the range end. |
| ControlList.DumpRawBytes | tools/vc4_dump_parse_cl.c:335-344 | The `for` loop over a packet's bytes gives exactly the events and outcome of the specification `RawBytes`. |
| ControlList.DumpPacketBody | tools/vc4_dump_parse_cl.c:331-345 | The payload step is the field decoder when the packet fits and has one, and the byte loop otherwise. It equals `PacketBody`. |
| ControlList.DumpPacket | tools/vc4_dump_parse_cl.c:317-356 | One iteration of the `while` body, with its early returns, equals `PacketStep`. |
| ControlList.DumpCl | tools/vc4_dump_parse_cl.c:310-358 | The imperative walker's report equals `WalkFrom` over the same bytes and range. |
| ControlList.WalkAtEnd | tools/vc4_dump_parse_cl.c:316 | A cursor at or past `end` reports nothing and stops at `RangeEnd`. |
| ControlList.EmptyRange | tools/vc4_dump_parse_cl.c:313-316 | A list with `end <= start` reports nothing. |
| ControlList.UnknownOpcodeStops | tools/vc4_dump_parse_cl.c:317-324 | An opcode without a table entry is reported once, and the walk stops there. |
| ControlList.RawBytesFacts | tools/vc4_dump_parse_cl.c:335-344 | The byte loop reports only in-range bytes, or an overflow at exactly `end`. It overflows only when the packet crosses `end`, and then its last event is `Overflow(end)`. When it completes, the packet fits. |
| ControlList.RawBytesInRange | tools/vc4_dump_parse_cl.c:335-344 | A packet that fits and lies in the file has its bytes 1 .. size-1 reported in order. |
| ControlList.RawBytesCrossing | tools/vc4_dump_parse_cl.c:335-340 | A packet that crosses `end` has every byte before `end` reported, then the overflow at `end`. |
| ControlList.BodyFacts | tools/vc4_dump_parse_cl.c:331-345 | No payload event is a name line, and each lies above `offset` with its span ending by `end`. An overflow is reported only at `end`. A body that completes, including every field-decoder run, means `offset + size <= end` without wrap-around. A body that overflows means the packet does not fit, and its last event is `Overflow(end)`. |
| ControlList.PacketFits | tools/vc4_dump_parse_cl.c:326-356 | A known packet that fits is reported as its name and its payload. The walk then stops if the packet is HALT or STORE_MS_TILE_BUFFER_AND_EOF, and otherwise continues at `offset + size`. |
| ControlList.PacketCrossesEnd | tools/vc4_dump_parse_cl.c:326-340 | A known packet that crosses `end` is reported as its name, each byte before `end`, and the overflow at `end`. The walk then stops with `ClOverflow`. |
| ControlList.StepWithinRange | tools/vc4_dump_parse_cl.c:316-356 | One step reports only addresses in `[offset, end)` and an overflow only at `end`. A step that goes on does not pass `end`. |
| ControlList.WalkAdvances | tools/vc4_dump_parse_cl.c:316-356 | A walk is its first step's report, followed by the walk from the next packet when the step goes on. |
| ControlList.AdvanceFacts | tools/vc4_dump_parse_cl.c:326-356 | A step that goes on has found a known, non-terminal packet that fits. It reported that packet's name line once and moved the cursor by exactly the packet's size. |
| ControlList.WalkReadsWithinRange | tools/vc4_dump_parse_cl.c:310-358 | Every event of a walk lies in `[start, end)`, except an overflow, which is at exactly `end`. |
| ControlList.WalkFinalOffset | tools/vc4_dump_parse_cl.c:313-357 | The cursor never passes `end`, and a walk stops at `RangeEnd` exactly when its cursor is `end`. |
| ControlList.WalkTiles | tools/vc4_dump_parse_cl.c:313-357 | When the loop runs out, its packets tile `[start, end)`. Each packet starts where the previous one ended, and the last one ends exactly at `end`. |
| ControlList.WalkEndsWithStop | tools/vc4_dump_parse_cl.c:319-353 | A walk that does not run to `end` stopped inside the range. Its report ends with the report of the packet that stopped it. |
| ControlList.StepStopExplained | tools/vc4_dump_parse_cl.c:319-353 | Each stop of a single step has its cause. An unknown stop follows an opcode with no entry, and its last event reports it. A terminal stop follows a HALT or STORE_MS_TILE_BUFFER_AND_EOF packet that fits. An overflow stop follows a packet that does not fit, and its last event is `Overflow(end)`. |
| ControlList.WalkStopReason | tools/vc4_dump_parse_cl.c:316-353 | The causes above hold for the stop of the whole walk. |
| ControlList.HaltEntry | tools/vc4_dump_parse_cl.c:261 | HALT is a one-byte packet without a decoder. |
| ControlList.StoreAndEofEntry | tools/vc4_dump_parse_cl.c:274 | STORE_MS_TILE_BUFFER_AND_EOF is a one-byte packet without a decoder. |
| ControlList.BranchEntry | tools/vc4_dump_parse_cl.c:270 | BRANCH is a five-byte packet without a decoder. |
| ControlList.HaltEndsWalk | tools/vc4_dump_parse_cl.c:347-350 | A HALT inside the range is reported, and the walk ends there, whatever follows. |
| ControlList.StoreAndEofEndsWalk | tools/vc4_dump_parse_cl.c:347-350 | STORE_MS_TILE_BUFFER_AND_EOF is reported, and the walk ends there, whatever follows. |
| ControlList.BranchContinues | tools/vc4_dump_parse_cl.c:335-356 | A BRANCH that fits is reported as its name and four bytes, and the walk goes on five bytes later. It does not follow the branch. |
| Snapshot.Load | tools/vc4_dump_parse.c:163-184 | A version other than 0 is refused with that version. A file with version 0, a whole header and a whole descriptor table loads. The state and descriptors are read from their fixed offsets, and buffer `i` is placed at `ContentStart(i)`. |
| Snapshot.ContentStartsAdjacent | tools/vc4_dump_parse.c:179-183 | The first buffer starts right after the descriptor table, and each buffer's contents end where the next buffer's begin. |
| Snapshot.LoadFinds | tools/vc4_dump_parse.c:166-183 | A file with version 0 whose hang-state record announces the descriptors that follow it loads to exactly those descriptors. |
| Snapshot.WrittenHeader | tools/vc4_dump_hang_state.c:125-129 | A written file starts with the version word 0. The hang-state fields the loader parses from it (bo_count, start_bin, start_render, ct0ca, ct0ea, ct1ca, ct1ea) are those parsed from the record the tool was given. |
| Snapshot.WrittenTable | tools/vc4_dump_hang_state.c:131 | Every descriptor in a written file parses back to the one written. |
| Snapshot.WrittenContents | tools/vc4_dump_hang_state.c:133-134 | In a written file, buffer `i`'s bytes start at `4 + sizeof(hang state) + bo_count * sizeof(descriptor) + the sizes of buffers 0 .. i-1`. They are exactly the bytes written for it. |
| Snapshot.LoadOfWritten | tools/vc4_dump_hang_state.c:125-134 | The loader accepts every file the capture tool writes. It finds the tool's hang state and descriptors, and places each buffer where the tool wrote it. |
| AddressMap.FirstCovering | tools/vc4_dump_parse.c:98-102 | The scan finds the first buffer, in descriptor order, whose `[paddr, paddr + size)` (uint32_t sum) covers the address, or reports that none does. |
| AddressMap.FirstHolding | tools/vc4_dump_parse.c:113-117 | The reverse scan finds the first buffer whose contents hold the file position, or reports that none does. |
| AddressMap.CoversInRange | tools/vc4_dump_parse.c:99-100 | A covered address lies in a buffer whose `paddr + size` did not wrap, at an offset below its size. |
| AddressMap.OnlyCovering | tools/vc4_dump_parse.c:96-102 | With non-overlapping buffers, the buffer covering an address is the one the scan returns. |
| AddressMap.OnlyHolding | tools/vc4_dump_parse.c:111-117 | With non-overlapping contents, the buffer holding a position is the one the reverse scan returns. |
| AddressMap.EndPaddrAgrees | tools/vc4_dump_parse.c:125-139 | `vc4_get_end_paddr` finds an end (non-zero) exactly when `vc4_paddr_to_pointer` translates. The end belongs to the same buffer, is strictly above the address, and lies as far past it as the buffer's last position lies past the translation. |
| AddressMap.RunToEnd | tools/vc4_dump_parse.c:125-139 | With non-overlapping buffers, every address from `addr` up to its end translates to the matching position after `addr`'s, and has the same end. |
| AddressMap.PaddrRoundTrip | tools/vc4_dump_parse.c:95-123 | For any translatable address, when contents do not overlap, `pointer_to_paddr(paddr_to_pointer(a)) == a`. |
| AddressMap.PointerRoundTrip | tools/vc4_dump_parse.c:95-123 | Take byte `off < size` of buffer `i`, with buffers that overlap in neither space and do not wrap. It maps to `paddr_i + off`, and that address maps back to the same position. |
| AddressMap.LoadedMapsDisjoint | tools/vc4_dump_parse.c:179-183 | The positions `set_bo_maps` assigns never overlap, so `PaddrRoundTrip` applies to every loaded file. |
| DumpParse.Dump.constructor | tools/vc4_dump_parse.c:73-79 | The zero-initialised `dump` struct: no buffers and an empty area list. |
| DumpParse.Dump.SetBoMaps | tools/vc4_dump_parse.c:163-184 | The `next_map` loop leaves exactly what `Load` specifies: the state, the descriptors and each buffer's position. On an error it returns that error and changes nothing. |
| DumpParse.Dump.PaddrToPointer | tools/vc4_dump_parse.c:95-108 | The scanning loop returns `AddressMap.PaddrToPointer`. |
| DumpParse.Dump.PointerToPaddr | tools/vc4_dump_parse.c:110-123 | The scanning loop returns `AddressMap.PointerToPaddr`, with 0 for NULL. |
| AddressMap.PointerToPaddrZero | tools/vc4_dump_parse.c:110-123 | When no buffer wraps, a 0 result means exactly that no buffer holds the position, or that the position is the first byte of a buffer at physical address 0. |
| DumpParse.Dump.GetEndPaddr | tools/vc4_dump_parse.c:125-139 | The scanning loop returns `AddressMap.GetEndPaddr`, with 0 when nothing covers the address. |
| DumpParse.Dump.AddMemAreaSized | tools/vc4_dump_parse.c:141-154 | The area list grows by exactly one record at its tail: the type, the translated pointer, the paddr and the size. Earlier records are unchanged. |
| DumpParse.Dump.AddMemArea | tools/vc4_dump_parse.c:156-161 | It appends one record whose size is `end_paddr - paddr` in uint32_t arithmetic. |
| DumpParse.AreaWithinBo | tools/vc4_dump_parse.c:156-161 | At a translatable address the area is not empty, `[paddr, paddr + size)` lies inside the one covering buffer, and its end is that buffer's end. |
| DumpParse.UnresolvedAreaWalksNothing | tools/vc4_dump_parse.c:156-161 | At an address no buffer covers, the NULL end gives size `0 - paddr`. The area's walk then ends at 0 and reports nothing. |
| DumpParse.Dump.DumpList | tools/vc4_dump_parse_cl.c:311-316 | The walk translates `start` and reads the file from that position. It equals `ListWalk`. |
| DumpParse.UntranslatableListFaults | tools/vc4_dump_parse_cl.c:313-317 | When no buffer covers `start`, `cmds` is NULL. A non-empty range then reports nothing and stops at `start` with `Fault`, and an empty range reports nothing and stops with `RangeEnd`. |
| DumpParse.WalkBytesAreTranslated | tools/vc4_dump_parse_cl.c:314-356 | With non-overlapping buffers, the byte the walker reads through `cmds` at address `a`, up to the end of the start's buffer, is the file byte `vc4_paddr_to_pointer(a)` names. It is present exactly when that position lies in the file. |
| DumpParse.Dump.ParseCls | tools/vc4_dump_parse.c:186-196 | The bin list `[start_bin, ct0ea)` is walked exactly when `start_bin != ct0ea`. The render list `[start_render, ct1ea)` is always walked. |
| DumpParse.Dump.ParseSublists | tools/vc4_dump_parse.c:198-207 | Every registered area is walked exactly once, in list order, over `[paddr, paddr + size)` (uint32_t sum). |
| DumpParse.AreaWalkStaysInBo | tools/vc4_dump_parse.c:198-207 | The walk of an area added by `vc4_parse_add_mem_area` reports only addresses inside the buffer that covers the area's start, and never moves past that buffer's end. |

## Left out

- Text output is not modelled: the `printf` layout, the float conversions (`dump_float`, `uif`), and the messages "Couldn't translate" and `dump_bo_list`. Field decoders keep the raw integers and the chosen names.
- `dump_registers`, `usage` and `map_input` are left out. The mapped file is the `input` parameter.
- Allocation failure (`calloc` returning NULL) and `exit` are left out. `SetBoMaps` returns the error instead of exiting.
- Snapshot.Load: a file too short for its header or descriptor table gives `Truncated`. The C code has no such check and would read past the mapping.
- The walker faults when it reads past the end of the file. The C code dereferences whatever memory lies there, or NULL for an untranslatable start. Past the end of a buffer the walker reads on into the following bytes of the file, as the C code does.
- The hang-state and descriptor record sizes (160 and 16 bytes), their field offsets, the opcode values, and the two render-config flag masks come from `vc4_drm.h` and `vc4_packet.h`. Those headers are not part of this model; the values are those of the Linux kernel's copies.
- `vc4_dump_hang_state.c` is modelled only for the file layout it writes. The DRM ioctls, `mmap` and error handling are not part of this model.
- The compressed-primitive sub-grammar, `prim_mode` tracking and shader-record registration are not modelled. The header declares them (`vc4_parse_add_sublist`, `vc4_parse_add_compressed_list`, `vc4_parse_add_gl_shader_rec`), but none of the modelled source files implements them. COMPRESSED_PRIMITIVE packets keep their fixed table sizes of 48 and 49.
- The `is_render` parameter of `vc4_dump_cl` is unused, so it is left out.
- The area list appends without deduplication, as the code does. `parse_sublists` walks areas of every type.
- ControlList.DumpCl: the cursor is a `nat`. With the corrected fit test every advance stays below `end < 2^32`, so the uint32_t `offset += size` never wraps in the model.
- ControlList.DumpCl: the walker takes the packet table as a parameter with the facts it relies on (`WellFormedTable`). `Dump` passes it `PacketTable()` through its `table` field.
- The shape of the `mem_areas` linked list (`list_addtail`, `list_for_each_entry`) is modelled as a sequence in list order.

## Findings

| source | as written | input that shows it | evidently intended | confidence | as-written member | corrected member |
|---|---|---|---|---|---|---|
| tools/vc4_dump_parse_cl.c:319 | `header > ARRAY_SIZE(packet_info)` lets `header == ARRAY_SIZE` index one past the table | opcode byte 116 (0x74) | `header >= ARRAY_SIZE(packet_info)`, so 116 is an unknown packet | not executed | Packets.AsWrittenBoundsCheckAdmitsArraySize | Packets.CorrectedBoundsCheckRejectsArraySize |
| tools/vc4_dump_parse_cl.c:331 | `offset + p->size <= end` is computed in uint32_t and wraps | offset 0xFFFFFFFE, end 0xFFFFFFFF, a STORE_TILE_BUFFER_GENERAL packet (size 7) | the packet fits only when `offset + size <= end` without wrap-around, so this one is an overflow | not executed | ControlList.FitsAsWrittenWraps | ControlList.BodyFacts |
| tools/vc4_dump_parse_cl.c:158-173 | the CLIPPER_Z_SCALING decoder reads two words at `cl` and two more at `cl + 8`, 16 bytes of an 8-byte payload (size 9 at line 302) | any CLIPPER_Z_SCALING packet: bytes 9-16 after its opcode are read as "scale" | decode the two words of the payload only | not executed | FieldDecoders.ClipperZScalingAsWrittenReadsPastPayload | Packets.PacketTable |
