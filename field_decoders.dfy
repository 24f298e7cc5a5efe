/** The per-packet field decoders of tools/vc4_dump_parse_cl.c (the
    `dump_VC4_PACKET_*` functions), as pure functions from the payload bytes
    (the bytes after the opcode) to the fields they print. The text layout
    and the float conversions are not modelled; every field is kept as the
    raw integer or the named choice the decoder selects. */
module FieldDecoders {
  import opened Bytes

  /** The `dump_func` slot of a `packet_info` entry. */
  datatype DumpFunc =
    | NoDump
    | DumpBranchToSubList
    | DumpStoreTileBufferGeneral
    | DumpFlatShadeFlags
    | DumpFloat                   // dump_float, used for POINT_SIZE and LINE_WIDTH
    | DumpViewportOffset
    | DumpClipperXYScaling
    | DumpClipperZScaling
    | DumpTileRenderingModeConfig
    | DumpTileCoordinates

  /** "none", "color", "zs", "z", "vgmask", "full" and "???". */
  datatype TileBuffer =
    BufferNone | BufferColor | BufferZs | BufferZ | BufferVgMask | BufferFull | BufferUnknown

  /** "linear", "T", "LT" and "???". */
  datatype Tiling = Linear | TTiled | LtTiled | TilingUnknown

  /** Store formats: "RGBA8888", "BGR565_DITHER", "BGR565" and "???". */
  datatype StoreFormat = StoreRgba8888 | StoreBgr565Dither | StoreBgr565 | StoreFormatUnknown

  /** Render formats: "BGR565_DITHERED", "RGBA8888", "BGR565", "???" and "64bit". */
  datatype RenderFormat =
    RenderBgr565Dithered | RenderRgba8888 | RenderBgr565 | RenderFormatUnknown | Render64Bit

  /** "early_z disabled", "early_z >" and "early_z <". */
  datatype EarlyZ = EarlyZDisabled | EarlyZGreater | EarlyZLess

  datatype StoreTileBufferGeneral = StoreTileBufferGeneral(
    buffer: TileBuffer, tiling: Tiling, format: StoreFormat, addr: u32,
    noColor: bool, noZs: bool, noVgMask: bool, eof: bool)

  datatype TileRenderingModeConfig = TileRenderingModeConfig(
    colorOffset: u32, width: u16, height: u16, format: RenderFormat, tiling: Tiling,
    multisample: bool, earlyZ: EarlyZ)

  /** What one field decoder reports about one packet. */
  datatype Decoded =
    | BranchToSubList(addr: u32)
    | StoreGeneral(store: StoreTileBufferGeneral)
    | FlatShadeFlags(bits: u32)
    | FloatBits(bits: u32)
    | ViewportOffset(x: u16, y: u16)
    | ClipperXYScaling(xScale: u32, yScale: u32)
    | ClipperZScaling(translate0: u32, translate1: u32)
    | RenderingModeConfig(config: TileRenderingModeConfig)
    | TileCoordinates(column: byte, row: byte)

  /** `VC4_RENDER_CONFIG_TILE_BUFFER_64BIT` and `VC4_RENDER_CONFIG_MS_MODE_4X`,
      single-bit masks of the last `u16` of TILE_RENDERING_MODE_CONFIG. Their
      values come from the kernel's vc4_packet.h, which is not part of this
      model. */
  const TileBuffer64Bit: nat := 2
  const MsMode4X: nat := 1

  /** `x & mask` is non-zero, for a mask with a single bit set. */
  predicate BitSet(x: nat, mask: nat)
    requires mask > 0
  {
    (x / mask) % 2 == 1
  }

  /** Number of payload bytes the decoder reads; every decoder reads exactly
      the payload of its packet (see Packets.Lookup). */
  function PayloadLength(d: DumpFunc): nat
  {
    match d
    case NoDump => 0
    case DumpBranchToSubList => 4
    case DumpStoreTileBufferGeneral => 6
    case DumpFlatShadeFlags => 4
    case DumpFloat => 4
    case DumpViewportOffset => 4
    case DumpClipperXYScaling => 8
    case DumpClipperZScaling => 8
    case DumpTileRenderingModeConfig => 10
    case DumpTileCoordinates => 2
  }

  /** Number of payload bytes the C decoder actually dereferences.
      dump_VC4_PACKET_CLIPPER_Z_SCALING reads two words at `cl` and two more
      at `cl + 8`, sixteen bytes in all. */
  function AsWrittenReadLength(d: DumpFunc): nat
  {
    if d == DumpClipperZScaling then 16 else PayloadLength(d)
  }

  function TileBufferOf(code: int): TileBuffer
  {
    match code
    case 0 => BufferNone
    case 1 => BufferColor
    case 2 => BufferZs
    case 3 => BufferZ
    case 4 => BufferVgMask
    case 5 => BufferFull
    case _ => BufferUnknown
  }

  function TilingOf(code: int): Tiling
  {
    match code
    case 0 => Linear
    case 1 => TTiled
    case 2 => LtTiled
    case _ => TilingUnknown
  }

  function StoreFormatOf(code: int): StoreFormat
  {
    match code
    case 0 => StoreRgba8888
    case 1 => StoreBgr565Dither
    case 2 => StoreBgr565
    case _ => StoreFormatUnknown
  }

  function RenderFormatOf(code: int): RenderFormat
  {
    match code
    case 0 => RenderBgr565Dithered
    case 1 => RenderRgba8888
    case 2 => RenderBgr565
    case _ => RenderFormatUnknown
  }

  /** dump_VC4_PACKET_STORE_TILE_BUFFER_GENERAL. */
  function DecodeStoreTileBufferGeneral(p: seq<byte>): (r: StoreTileBufferGeneral)
    requires |p| == 6
    ensures r.addr % 16 == 0 && U32At(p, 2) - r.addr == p[2] % 16
    ensures r.buffer != BufferFull ==> !r.noColor && !r.noZs && !r.noVgMask
  {
    var word := U32At(p, 2);
    var full := p[0] % 8 == 5;
    U32AtLowNibble(p, 2);
    DivMod16(word - word % 16, word / 16, 0);
    StoreTileBufferGeneral(
      TileBufferOf(p[0] % 8), TilingOf((p[0] / 16) % 8), StoreFormatOf(p[1] % 4),
      word - word % 16,
      full && BitSet(word, 1), full && BitSet(word, 2), full && BitSet(word, 4),
      BitSet(word, 8))
  }

  /** dump_VC4_PACKET_TILE_RENDERING_MODE_CONFIG. */
  function DecodeTileRenderingModeConfig(p: seq<byte>): (r: TileRenderingModeConfig)
    requires |p| == 10
    ensures BitSet(U16At(p, 8), TileBuffer64Bit) <==> r.format == Render64Bit
    ensures r.earlyZ == EarlyZDisabled <==> BitSet(p[9], 8)
  {
    var b8, b9 := p[8], p[9];
    TileRenderingModeConfig(
      U32At(p, 0), U16At(p, 4), U16At(p, 6),
      if BitSet(U16At(p, 8), TileBuffer64Bit) then Render64Bit else RenderFormatOf((b8 / 4) % 4),
      TilingOf((b8 / 64) % 4),
      BitSet(b8, MsMode4X),
      if BitSet(b9, 8) then EarlyZDisabled
      else if BitSet(b9, 4) then EarlyZGreater
      else EarlyZLess)
  }

  /** The decoder whose report `r` is. */
  function DecoderOf(r: Decoded): DumpFunc
  {
    match r
    case BranchToSubList(_) => DumpBranchToSubList
    case StoreGeneral(_) => DumpStoreTileBufferGeneral
    case FlatShadeFlags(_) => DumpFlatShadeFlags
    case FloatBits(_) => DumpFloat
    case ViewportOffset(_, _) => DumpViewportOffset
    case ClipperXYScaling(_, _) => DumpClipperXYScaling
    case ClipperZScaling(_, _) => DumpClipperZScaling
    case RenderingModeConfig(_) => DumpTileRenderingModeConfig
    case TileCoordinates(_, _) => DumpTileCoordinates
  }

  /** The field decoder `d` applied to the payload of its packet: the call
      `p->dump_func(cmds + 1, offset + 1)`, whose report is always the one of
      the packet's own decoder. */
  function Decode(d: DumpFunc, p: seq<byte>): (r: Decoded)
    requires d != NoDump && |p| == PayloadLength(d)
    ensures DecoderOf(r) == d
  {
    match d
    case DumpBranchToSubList => BranchToSubList(U32At(p, 0))
    case DumpStoreTileBufferGeneral => StoreGeneral(DecodeStoreTileBufferGeneral(p))
    case DumpFlatShadeFlags => FlatShadeFlags(U32At(p, 0))
    case DumpFloat => FloatBits(U32At(p, 0))
    case DumpViewportOffset => ViewportOffset(U16At(p, 0), U16At(p, 2))
    case DumpClipperXYScaling => ClipperXYScaling(U32At(p, 0), U32At(p, 4))
    case DumpClipperZScaling => ClipperZScaling(U32At(p, 0), U32At(p, 4))
    case DumpTileRenderingModeConfig => RenderingModeConfig(DecodeTileRenderingModeConfig(p))
    case DumpTileCoordinates => TileCoordinates(p[0], p[1])
  }

  /** The word decoders report the values stored at their fixed payload
      offsets: one uint32_t at 0 (dump_float, BRANCH_TO_SUB_LIST,
      FLAT_SHADE_FLAGS), two uint16_t at 0 and 2 (VIEWPORT_OFFSET), or two
      uint32_t at 0 and 4 (CLIPPER_XY_SCALING, and CLIPPER_Z_SCALING read
      within its payload). */
  lemma WordDecodersRoundTrip(w0: u32, w1: u32, x: u16, y: u16)
    ensures Decode(DumpFloat, U32Bytes(w0)) == FloatBits(w0)
    ensures Decode(DumpBranchToSubList, U32Bytes(w0)) == BranchToSubList(w0)
    ensures Decode(DumpFlatShadeFlags, U32Bytes(w0)) == FlatShadeFlags(w0)
    ensures Decode(DumpViewportOffset, U16Bytes(x) + U16Bytes(y)) == ViewportOffset(x, y)
    ensures Decode(DumpClipperXYScaling, U32Bytes(w0) + U32Bytes(w1)) == ClipperXYScaling(w0, w1)
    ensures Decode(DumpClipperZScaling, U32Bytes(w0) + U32Bytes(w1)) == ClipperZScaling(w0, w1)
  {
    var a, b := U32Bytes(w0), U32Bytes(w1);
    assert U32At(a + b, 4) == U32At(b, 0);
    assert U32At(a + b, 0) == U32At(a, 0);
    var c, e := U16Bytes(x), U16Bytes(y);
    assert U16At(c + e, 2) == U16At(e, 0);
    assert U16At(c + e, 0) == U16At(c, 0);
  }

  /** dump_VC4_PACKET_CLIPPER_Z_SCALING as written: `translate` is the two
      words at `cl`, `scale` the two words at `cl + 8`. */
  function DecodeClipperZScalingAsWritten(p: seq<byte>): (u32, u32, u32, u32)
    requires |p| >= AsWrittenReadLength(DumpClipperZScaling)
  {
    (U32At(p, 0), U32At(p, 4), U32At(p, 8), U32At(p, 12))
  }

  /** The as-written decoder depends on the byte right after the 8-byte
      payload: two inputs that agree on the payload, and so decode alike
      with `Decode`, are printed differently when that byte differs. The
      `translate` words it prints are the ones `Decode` gives. */
  lemma ClipperZScalingAsWrittenReadsPastPayload(p: seq<byte>, b: byte)
    requires |p| >= AsWrittenReadLength(DumpClipperZScaling)
    requires b != p[PayloadLength(DumpClipperZScaling)]
    ensures var q := p[PayloadLength(DumpClipperZScaling) := b];
            var n := PayloadLength(DumpClipperZScaling);
            p[..n] == q[..n]
            && Decode(DumpClipperZScaling, p[..n]) == Decode(DumpClipperZScaling, q[..n])
            && DecodeClipperZScalingAsWritten(p) != DecodeClipperZScalingAsWritten(q)
            && Decode(DumpClipperZScaling, p[..n])
               == ClipperZScaling(DecodeClipperZScalingAsWritten(p).0, DecodeClipperZScalingAsWritten(p).1)
  {
    var q := p[8 := b];
    assert p[..8] == q[..8];
    assert U32At(q, 8) - U32At(p, 8) == b as int - p[8] as int;
  }

  // ---- Encoders: the inverse direction, used to state what each decoder recovers.

  function TileBufferCode(b: TileBuffer): nat
  {
    match b
    case BufferNone => 0
    case BufferColor => 1
    case BufferZs => 2
    case BufferZ => 3
    case BufferVgMask => 4
    case BufferFull => 5
    case BufferUnknown => 6
  }

  function TilingCode(t: Tiling): nat
  {
    match t
    case Linear => 0
    case TTiled => 1
    case LtTiled => 2
    case TilingUnknown => 3
  }

  function StoreFormatCode(f: StoreFormat): nat
  {
    match f
    case StoreRgba8888 => 0
    case StoreBgr565Dither => 1
    case StoreBgr565 => 2
    case StoreFormatUnknown => 3
  }

  function RenderFormatCode(f: RenderFormat): nat
  {
    match f
    case RenderBgr565Dithered => 0
    case RenderRgba8888 => 1
    case RenderBgr565 => 2
    case _ => 3
  }

  /** A STORE_TILE_BUFFER_GENERAL field set that some payload decodes to
      without loss: named choices only, a 16-byte aligned address, and the
      three "!" flags only on a full store. */
  predicate CanonicalStore(s: StoreTileBufferGeneral)
  {
    && s.buffer != BufferUnknown && s.tiling != TilingUnknown && s.format != StoreFormatUnknown
    && s.addr % 16 == 0
    && (s.buffer != BufferFull ==> !s.noColor && !s.noZs && !s.noVgMask)
  }

  /** The four flag bits of the STORE_TILE_BUFFER_GENERAL address word. */
  function StoreFlags(s: StoreTileBufferGeneral): (f: nat)
    ensures f < 16
  {
    (if s.noColor then 1 else 0) + (if s.noZs then 2 else 0)
      + (if s.noVgMask then 4 else 0) + (if s.eof then 8 else 0)
  }

  function EncodeStoreTileBufferGeneral(s: StoreTileBufferGeneral): (p: seq<byte>)
    requires CanonicalStore(s)
    ensures |p| == 6
  {
    [TileBufferCode(s.buffer) + 16 * TilingCode(s.tiling), StoreFormatCode(s.format)]
      + U32Bytes(s.addr + StoreFlags(s))
  }

  /** The low four bits of a 16-byte aligned word plus four flag bits are
      the flag bits. */
  lemma AlignedLowBits(addr: nat, flags: nat)
    requires addr % 16 == 0 && flags < 16
    ensures (addr + flags) % 16 == flags
    ensures (addr + flags) % 2 == flags % 2
    ensures (addr + flags) / 2 % 2 == flags / 2 % 2
    ensures (addr + flags) / 4 % 2 == flags / 4 % 2
    ensures (addr + flags) / 8 % 2 == flags / 8 % 2
  {
    var q := addr / 16;
    DivMod16(addr + flags, q, flags);
    var h1, h2, h3 := flags / 2, flags / 4, flags / 8;
    DivMod2(addr + flags, 8 * q + h1, flags % 2);
    DivMod2(8 * q + h1, 4 * q + h1 / 2, h1 % 2);
    DivMod4(addr + flags, 4 * q + h2, flags % 4);
    DivMod2(4 * q + h2, 2 * q + h2 / 2, h2 % 2);
    DivMod8(addr + flags, 2 * q + h3, flags % 8);
    DivMod2(2 * q + h3, q + h3 / 2, h3 % 2);
  }

  lemma PackedCodes(b: nat, t: nat)
    requires b < 8 && t < 8
    ensures (b + 16 * t) % 8 == b && ((b + 16 * t) / 16) % 8 == t
  {
    DivMod8(b + 16 * t, 2 * t, b);
    DivMod16(b + 16 * t, t, b);
  }

  lemma StoreWordOfEncoding(s: StoreTileBufferGeneral)
    requires CanonicalStore(s)
    ensures U32At(EncodeStoreTileBufferGeneral(s), 2) == s.addr + StoreFlags(s)
  {
    var p := EncodeStoreTileBufferGeneral(s);
    assert p[2..] == U32Bytes(s.addr + StoreFlags(s));
    assert U32At(p, 2) == U32At(p[2..], 0);
  }

  /** The flag bits of StoreFlags are the four flags, bit by bit. */
  lemma FlagBits(s: StoreTileBufferGeneral)
    ensures var f := StoreFlags(s);
            && BitSet(f, 1) == s.noColor && BitSet(f, 2) == s.noZs
            && BitSet(f, 4) == s.noVgMask && BitSet(f, 8) == s.eof
  {
    var f := StoreFlags(s);
    var c0, z0, v0, e0 := (if s.noColor then 1 else 0), (if s.noZs then 1 else 0), (if s.noVgMask then 1 else 0), (if s.eof then 1 else 0);
    assert f == c0 + 2 * z0 + 4 * v0 + 8 * e0;
    DivMod2(f, z0 + 2 * v0 + 4 * e0, c0);
    DivMod2(z0 + 2 * v0 + 4 * e0, v0 + 2 * e0, z0);
    DivMod4(f, v0 + 2 * e0, c0 + 2 * z0);
    DivMod2(v0 + 2 * e0, e0, v0);
    DivMod8(f, e0, c0 + 2 * z0 + 4 * v0);
  }

  /** The address word of an encoded store masks back to the address, and
      its flag bits are the store's flags. */
  lemma StoreWordFields(s: StoreTileBufferGeneral)
    requires CanonicalStore(s)
    ensures var w := s.addr + StoreFlags(s);
            && w - w % 16 == s.addr
            && BitSet(w, 1) == s.noColor && BitSet(w, 2) == s.noZs
            && BitSet(w, 4) == s.noVgMask && BitSet(w, 8) == s.eof
  {
    AlignedLowBits(s.addr, StoreFlags(s));
    FlagBits(s);
  }

  lemma StoreCodesInverse(s: StoreTileBufferGeneral)
    requires CanonicalStore(s)
    ensures TileBufferCode(s.buffer) < 6 && TilingCode(s.tiling) < 3 && StoreFormatCode(s.format) < 3
    ensures TileBufferOf(TileBufferCode(s.buffer)) == s.buffer
    ensures TilingOf(TilingCode(s.tiling)) == s.tiling
    ensures StoreFormatOf(StoreFormatCode(s.format)) == s.format
    ensures TileBufferCode(s.buffer) == 5 <==> s.buffer == BufferFull
  {
  }

  /** Decoding an encoded store gives back its fields. */
  lemma StoreTileBufferGeneralRoundTrip(s: StoreTileBufferGeneral)
    requires CanonicalStore(s)
    ensures DecodeStoreTileBufferGeneral(EncodeStoreTileBufferGeneral(s)) == s
  {
    var p := EncodeStoreTileBufferGeneral(s);
    StoreWordOfEncoding(s);
    StoreWordFields(s);
    StoreCodesInverse(s);
    PackedCodes(TileBufferCode(s.buffer), TilingCode(s.tiling));
    DivMod4(StoreFormatCode(s.format), 0, StoreFormatCode(s.format));
  }

  predicate CanonicalRenderConfig(c: TileRenderingModeConfig)
  {
    c.format != RenderFormatUnknown && c.tiling != TilingUnknown
  }

  function EncodeTileRenderingModeConfig(c: TileRenderingModeConfig): (p: seq<byte>)
    requires CanonicalRenderConfig(c)
    ensures |p| == 10
  {
    var b8 := (if c.format == Render64Bit then TileBuffer64Bit else 4 * RenderFormatCode(c.format))
      + 64 * TilingCode(c.tiling) + (if c.multisample then MsMode4X else 0);
    var b9 := match c.earlyZ case EarlyZDisabled => 8 case EarlyZGreater => 4 case EarlyZLess => 0;
    U32Bytes(c.colorOffset) + U16Bytes(c.width) + U16Bytes(c.height) + [b8, b9]
  }

  /** The fields of byte 8 of an encoded TILE_RENDERING_MODE_CONFIG: `f`
      is the format bits (the 64-bit flag, or a format code shifted left by
      two), `t` the tiling code, `m` the multisample bit. */
  lemma Byte8Fields(f: nat, t: nat, m: nat)
    requires (f == 2 || f == 0 || f == 4 || f == 8) && t < 4 && m < 2
    ensures var x := f + 64 * t + m;
            && x < 0x100
            && BitSet(x, MsMode4X) == (m == 1)
            && (x / 2) % 2 == (if f == 2 then 1 else 0)
            && (x / 4) % 4 == f / 4
            && (x / 64) % 4 == t
  {
    var x := f + 64 * t + m;
    DivMod2(x, f / 2 + 32 * t, m);
    DivMod2(f / 2 + 32 * t, f / 4 + 16 * t, (f / 2) % 2);
    DivMod4(x, f / 4 + 16 * t, f % 4 + m);
    DivMod4(f / 4 + 16 * t, 4 * t, f / 4);
    DivMod64(x, t, f + m);
    DivMod4(t, 0, t);
  }

  /** Bit 1 of a little-endian `uint16_t` is bit 1 of its low byte. */
  lemma U16Bit1(lo: byte, hi: byte)
    ensures ((lo + 0x100 * hi) / 2) % 2 == (lo / 2) % 2
  {
    DivMod2(lo + 0x100 * hi, lo / 2 + 0x80 * hi, lo % 2);
    DivMod2(lo / 2 + 0x80 * hi, lo / 4 + 0x40 * hi, (lo / 2) % 2);
  }

  lemma RenderCodesInverse(c: TileRenderingModeConfig)
    requires CanonicalRenderConfig(c)
    ensures RenderFormatCode(c.format) < 3 || c.format == Render64Bit
    ensures c.format != Render64Bit ==> RenderFormatOf(RenderFormatCode(c.format)) == c.format
    ensures TilingCode(c.tiling) < 3 && TilingOf(TilingCode(c.tiling)) == c.tiling
  {
  }

  /** Decoding an encoded configuration gives it back. */
  lemma TileRenderingModeConfigRoundTrip(c: TileRenderingModeConfig)
    requires CanonicalRenderConfig(c)
    ensures DecodeTileRenderingModeConfig(EncodeTileRenderingModeConfig(c)) == c
  {
    var p := EncodeTileRenderingModeConfig(c);
    assert p[..4] == U32Bytes(c.colorOffset);
    assert U32At(p, 0) == U32At(p[..4], 0);
    assert p[4..6] == U16Bytes(c.width) && U16At(p, 4) == U16At(p[4..6], 0);
    assert p[6..8] == U16Bytes(c.height) && U16At(p, 6) == U16At(p[6..8], 0);
    RenderCodesInverse(c);
    var f := if c.format == Render64Bit then TileBuffer64Bit else 4 * RenderFormatCode(c.format);
    Byte8Fields(f, TilingCode(c.tiling), if c.multisample then MsMode4X else 0);
    U16Bit1(p[8], p[9]);
  }

  function EncodeTileCoordinates(column: byte, row: byte): (p: seq<byte>)
    ensures |p| == 2
  {
    [column, row]
  }

  lemma TileCoordinatesRoundTrip(column: byte, row: byte)
    ensures Decode(DumpTileCoordinates, EncodeTileCoordinates(column, row)) == TileCoordinates(column, row)
  {
  }
}
