/** The static `packet_info` table of tools/vc4_dump_parse_cl.c: for each
    opcode byte the packet's name, its total size in bytes (opcode included)
    and its optional field decoder. */
module Packets {
  import opened Wrappers
  import opened Bytes
  import opened FieldDecoders

  // Opcode values of `enum vc4_packet`. They are defined in vc4_packet.h,
  // which is not part of this model; the values are those of the kernel's
  // copy of that header.
  const HALT := 0
  const NOP := 1
  const FLUSH := 4
  const FLUSH_ALL := 5
  const START_TILE_BINNING := 6
  const INCREMENT_SEMAPHORE := 7
  const WAIT_ON_SEMAPHORE := 8
  const BRANCH := 16
  const BRANCH_TO_SUB_LIST := 17
  const STORE_MS_TILE_BUFFER := 24
  const STORE_MS_TILE_BUFFER_AND_EOF := 25
  const STORE_FULL_RES_TILE_BUFFER := 26
  const LOAD_FULL_RES_TILE_BUFFER := 27
  const STORE_TILE_BUFFER_GENERAL := 28
  const LOAD_TILE_BUFFER_GENERAL := 29
  const GL_INDEXED_PRIMITIVE := 32
  const GL_ARRAY_PRIMITIVE := 33
  const COMPRESSED_PRIMITIVE := 48
  const CLIPPED_COMPRESSED_PRIMITIVE := 49
  const PRIMITIVE_LIST_FORMAT := 56
  const GL_SHADER_STATE := 64
  const NV_SHADER_STATE := 65
  const VG_SHADER_STATE := 66
  const CONFIGURATION_BITS := 96
  const FLAT_SHADE_FLAGS := 97
  const POINT_SIZE := 98
  const LINE_WIDTH := 99
  const RHT_X_BOUNDARY := 100
  const DEPTH_OFFSET := 101
  const CLIP_WINDOW := 102
  const VIEWPORT_OFFSET := 103
  const Z_CLIPPING := 104
  const CLIPPER_XY_SCALING := 105
  const CLIPPER_Z_SCALING := 106
  const TILE_BINNING_MODE_CONFIG := 112
  const TILE_RENDERING_MODE_CONFIG := 113
  const CLEAR_COLORS := 114
  const TILE_COORDINATES := 115

  /** One populated slot of `packet_info`. */
  datatype PacketInfo = PacketInfo(name: string, size: nat, dumpFunc: DumpFunc)

  /** The designated initializers of `packet_info`, written with PACKET and
      PACKET_DUMP. */
  const Entries: map<int, PacketInfo> := map[
    HALT := PacketInfo("VC4_PACKET_HALT", 1, NoDump),
    NOP := PacketInfo("VC4_PACKET_NOP", 1, NoDump),
    FLUSH := PacketInfo("VC4_PACKET_FLUSH", 1, NoDump),
    FLUSH_ALL := PacketInfo("VC4_PACKET_FLUSH_ALL", 1, NoDump),
    START_TILE_BINNING := PacketInfo("VC4_PACKET_START_TILE_BINNING", 1, NoDump),
    INCREMENT_SEMAPHORE := PacketInfo("VC4_PACKET_INCREMENT_SEMAPHORE", 1, NoDump),
    WAIT_ON_SEMAPHORE := PacketInfo("VC4_PACKET_WAIT_ON_SEMAPHORE", 1, NoDump),
    BRANCH := PacketInfo("VC4_PACKET_BRANCH", 5, NoDump),
    BRANCH_TO_SUB_LIST := PacketInfo("VC4_PACKET_BRANCH_TO_SUB_LIST", 5, DumpBranchToSubList),
    STORE_MS_TILE_BUFFER := PacketInfo("VC4_PACKET_STORE_MS_TILE_BUFFER", 1, NoDump),
    STORE_MS_TILE_BUFFER_AND_EOF := PacketInfo("VC4_PACKET_STORE_MS_TILE_BUFFER_AND_EOF", 1, NoDump),
    STORE_FULL_RES_TILE_BUFFER := PacketInfo("VC4_PACKET_STORE_FULL_RES_TILE_BUFFER", 5, NoDump),
    LOAD_FULL_RES_TILE_BUFFER := PacketInfo("VC4_PACKET_LOAD_FULL_RES_TILE_BUFFER", 5, NoDump),
    STORE_TILE_BUFFER_GENERAL := PacketInfo("VC4_PACKET_STORE_TILE_BUFFER_GENERAL", 7, DumpStoreTileBufferGeneral),
    LOAD_TILE_BUFFER_GENERAL := PacketInfo("VC4_PACKET_LOAD_TILE_BUFFER_GENERAL", 7, NoDump),
    GL_INDEXED_PRIMITIVE := PacketInfo("VC4_PACKET_GL_INDEXED_PRIMITIVE", 14, NoDump),
    GL_ARRAY_PRIMITIVE := PacketInfo("VC4_PACKET_GL_ARRAY_PRIMITIVE", 10, NoDump),
    COMPRESSED_PRIMITIVE := PacketInfo("VC4_PACKET_COMPRESSED_PRIMITIVE", 48, NoDump),
    CLIPPED_COMPRESSED_PRIMITIVE := PacketInfo("VC4_PACKET_CLIPPED_COMPRESSED_PRIMITIVE", 49, NoDump),
    PRIMITIVE_LIST_FORMAT := PacketInfo("VC4_PACKET_PRIMITIVE_LIST_FORMAT", 2, NoDump),
    GL_SHADER_STATE := PacketInfo("VC4_PACKET_GL_SHADER_STATE", 5, NoDump),
    NV_SHADER_STATE := PacketInfo("VC4_PACKET_NV_SHADER_STATE", 5, NoDump),
    VG_SHADER_STATE := PacketInfo("VC4_PACKET_VG_SHADER_STATE", 5, NoDump),
    CONFIGURATION_BITS := PacketInfo("VC4_PACKET_CONFIGURATION_BITS", 4, NoDump),
    FLAT_SHADE_FLAGS := PacketInfo("VC4_PACKET_FLAT_SHADE_FLAGS", 5, DumpFlatShadeFlags),
    POINT_SIZE := PacketInfo("VC4_PACKET_POINT_SIZE", 5, DumpFloat),
    LINE_WIDTH := PacketInfo("VC4_PACKET_LINE_WIDTH", 5, DumpFloat),
    RHT_X_BOUNDARY := PacketInfo("VC4_PACKET_RHT_X_BOUNDARY", 3, NoDump),
    DEPTH_OFFSET := PacketInfo("VC4_PACKET_DEPTH_OFFSET", 5, NoDump),
    CLIP_WINDOW := PacketInfo("VC4_PACKET_CLIP_WINDOW", 9, NoDump),
    VIEWPORT_OFFSET := PacketInfo("VC4_PACKET_VIEWPORT_OFFSET", 5, DumpViewportOffset),
    Z_CLIPPING := PacketInfo("VC4_PACKET_Z_CLIPPING", 9, NoDump),
    CLIPPER_XY_SCALING := PacketInfo("VC4_PACKET_CLIPPER_XY_SCALING", 9, DumpClipperXYScaling),
    CLIPPER_Z_SCALING := PacketInfo("VC4_PACKET_CLIPPER_Z_SCALING", 9, DumpClipperZScaling),
    TILE_BINNING_MODE_CONFIG := PacketInfo("VC4_PACKET_TILE_BINNING_MODE_CONFIG", 16, NoDump),
    TILE_RENDERING_MODE_CONFIG := PacketInfo("VC4_PACKET_TILE_RENDERING_MODE_CONFIG", 11, DumpTileRenderingModeConfig),
    CLEAR_COLORS := PacketInfo("VC4_PACKET_CLEAR_COLORS", 14, NoDump),
    TILE_COORDINATES := PacketInfo("VC4_PACKET_TILE_COORDINATES", 3, DumpTileCoordinates)
  ]

  /** ARRAY_SIZE(packet_info): one past the highest designated index. */
  const TableLength := TILE_COORDINATES + 1

  /** `packet_info` as the C array: a slot per index below ARRAY_SIZE, with
      None where no initializer gave the slot a name. */
  function PacketTable(): (t: seq<Option<PacketInfo>>)
    ensures |t| == TableLength
    ensures WellFormedTable(t)
  {
    SlotsWellFormed();
    seq(TableLength, i => Slot(i))
  }

  function Slot(i: int): Option<PacketInfo>
  {
    if i in Entries then Some(Entries[i]) else None
  }

  /** What the walker relies on in a table: every populated slot has a
      size of at least one byte (the opcode), and a field decoder reads
      exactly the payload that follows the opcode. */
  predicate WellFormedTable(t: seq<Option<PacketInfo>>)
  {
    forall i :: 0 <= i < |t| && t[i].Some? ==>
      t[i].value.size >= 1
      && (t[i].value.dumpFunc != NoDump ==> PayloadLength(t[i].value.dumpFunc) == t[i].value.size - 1)
  }

  lemma SlotsWellFormed()
    ensures forall i :: Slot(i).Some? ==>
              Slot(i).value.size >= 1
              && (Slot(i).value.dumpFunc != NoDump ==> PayloadLength(Slot(i).value.dumpFunc) == Slot(i).value.size - 1)
  {
    forall i | Slot(i).Some?
      ensures Slot(i).value.size >= 1
      ensures Slot(i).value.dumpFunc != NoDump ==> PayloadLength(Slot(i).value.dumpFunc) == Slot(i).value.size - 1
    {
      EntryWellFormed(i);
    }
  }

  lemma EntryWellFormed(i: int)
    requires i in Entries
    ensures Entries[i].size >= 1
    ensures Entries[i].dumpFunc != NoDump ==> PayloadLength(Entries[i].dumpFunc) == Entries[i].size - 1
  {
  }

  /** The table lookup of vc4_dump_cl with the corrected bounds check
      `header >= ARRAY_SIZE(packet_info)`: None is "Unknown packet". */
  function Lookup(t: seq<Option<PacketInfo>>, header: byte): (r: Option<PacketInfo>)
    ensures r.None? <==> header >= |t| || t[header].None?
    ensures r.Some? ==> t[header] == r
    ensures WellFormedTable(t) && r.Some? ==> r.value.size >= 1
    ensures WellFormedTable(t) && r.Some? && r.value.dumpFunc != NoDump ==>
              PayloadLength(r.value.dumpFunc) == r.value.size - 1
  {
    if header >= |t| then None else t[header]
  }

  /** The bounds test of vc4_dump_cl as written, `!(header > ARRAY_SIZE)`. */
  predicate PassesBoundsCheckAsWritten(t: seq<Option<PacketInfo>>, header: byte)
  {
    !(header > |t|)
  }

  /** The test as written lets `header == ARRAY_SIZE(packet_info)` through,
      an index one past the end of the table. */
  lemma AsWrittenBoundsCheckAdmitsArraySize()
    ensures PassesBoundsCheckAsWritten(PacketTable(), TableLength as byte)
    ensures TableLength >= |PacketTable()|
  {
  }

  /** The corrected test rejects that opcode: it is an unknown packet. */
  lemma CorrectedBoundsCheckRejectsArraySize()
    ensures Lookup(PacketTable(), TableLength as byte).None?
  {
  }

  /** HALT and STORE_MS_TILE_BUFFER_AND_EOF end the walk. */
  predicate IsTerminal(header: byte)
  {
    header == HALT || header == STORE_MS_TILE_BUFFER_AND_EOF
  }

  /** dump_VC4_PACKET_CLIPPER_Z_SCALING as written depends on the byte right
      after its nine-byte packet: two packets whose payloads agree are
      printed differently when that byte differs. */
  lemma ClipperZScalingReadsPastPacket(p: seq<byte>, b: byte)
    requires |p| >= AsWrittenReadLength(DumpClipperZScaling)
    requires b != p[Lookup(PacketTable(), CLIPPER_Z_SCALING).value.size - 1]
    ensures var info := Lookup(PacketTable(), CLIPPER_Z_SCALING).value;
            var n := info.size - 1;
            var q := p[n := b];
            && info.dumpFunc == DumpClipperZScaling && n == PayloadLength(DumpClipperZScaling)
            && p[..n] == q[..n]
            && DecodeClipperZScalingAsWritten(p) != DecodeClipperZScalingAsWritten(q)
  {
    ClipperZScalingAsWrittenReadsPastPayload(p, b);
  }
}
