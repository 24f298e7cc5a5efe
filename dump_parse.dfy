/** The parser's global state (the `dump` struct of
    tools/vc4_dump_parse.c) and the steps of its main flow that work on it:
    laying out the loaded file (set_bo_maps), translating addresses through
    it, registering memory areas, and walking the bin and render lists and
    every registered area. */
module DumpParse {
  import opened Wrappers
  import opened Bytes
  import opened Packets
  import opened ControlList
  import opened Snapshot
  import opened AddressMap

  /** enum vc4_mem_area_type. */
  datatype MemAreaType = GlShaderRec | SubList | CompressedPrimList | Cs | Vs | Fs

  /** struct vc4_mem_area_rec without its list link; `addr` is None where
      the translation gave NULL. */
  datatype MemArea = MemArea(kind: MemAreaType, addr: Option<nat>, paddr: u32, size: u32)

  /** The bytes the walker reads through `cmds` when it starts at file
      position `p`: nothing at NULL, and nothing past the end of the file. */
  function BytesFrom(input: seq<byte>, p: Option<nat>): seq<byte>
  {
    if p.Some? && p.value <= |input| then input[p.value..] else []
  }

  /** The walker reads a list through one pointer, `cmds`, advanced byte by
      byte from the translation of `start`. With non-overlapping buffers
      that pointer agrees with the translator everywhere up to the end of
      the buffer: the walker's byte at address `a` is the file byte that
      vc4_paddr_to_pointer(a) names, and it is there exactly when that
      position lies in the file. */
  lemma WalkBytesAreTranslated(input: seq<byte>, bos: seq<BoState>, maps: seq<nat>, start: u32, a: u32)
    requires |maps| == |bos| && DisjointPaddrs(bos)
    requires AddressMap.PaddrToPointer(bos, maps, start).Some? && start <= a < GetEndPaddr(bos, start)
    ensures var cl := BytesFrom(input, AddressMap.PaddrToPointer(bos, maps, start));
            var p := AddressMap.PaddrToPointer(bos, maps, a);
            && p.Some?
            && (a - start < |cl| <==> p.value < |input|)
            && (p.value < |input| ==> cl[a - start] == input[p.value])
  {
    RunToEnd(bos, maps, start, a);
  }

  /** What vc4_dump_cl(start, end) reports on the loaded file, decoding
      with packet table `t`. */
  function ListWalk(t: seq<Option<PacketInfo>>, input: seq<byte>, bos: seq<BoState>, maps: seq<nat>, start: u32, end: u32): Walk
    requires WellFormedTable(t) && |maps| == |bos|
  {
    WalkFrom(t, BytesFrom(input, AddressMap.PaddrToPointer(bos, maps, start)), start, start, end)
  }

  /** A list whose start no buffer covers is read through NULL: the walk
      reports nothing and stops at once with `Fault`, unless its range is
      empty. */
  lemma UntranslatableListFaults(t: seq<Option<PacketInfo>>, input: seq<byte>, bos: seq<BoState>, maps: seq<nat>, start: u32, end: u32)
    requires WellFormedTable(t) && |maps| == |bos| && AddressMap.PaddrToPointer(bos, maps, start).None?
    ensures ListWalk(t, input, bos, maps, start, end)
            == if start < end then Walk([], Fault, start) else Walk([], RangeEnd, start)
  {
    if start < end {
      WalkAdvances(t, [], start, start, end);
    } else {
      EmptyRange(t, [], start, end);
    }
  }

  /** Where parse_sublists stops walking an area: `paddr + size` in
      uint32_t arithmetic. */
  function AreaEnd(a: MemArea): u32
  {
    (a.paddr + a.size) % U32Modulus
  }

  /** The size vc4_parse_add_mem_area gives an area: `end_paddr - paddr` in
      uint32_t arithmetic. */
  function AreaSize(bos: seq<BoState>, paddr: u32): u32
  {
    (GetEndPaddr(bos, paddr) - paddr) % U32Modulus
  }

  class Dump {
    /** `packet_info`. */
    const table: seq<Option<PacketInfo>>
    /** The mapped input file. */
    var input: seq<byte>
    /** `dump.state`. */
    var state: HangState
    /** `dump.bo_state`. */
    var bos: seq<BoState>
    /** `dump.map`: the file position of each buffer's contents. */
    var maps: seq<nat>
    /** `dump.mem_areas`, in list order. */
    var memAreas: seq<MemArea>

    ghost predicate Valid()
      reads this
    {
      WellFormedTable(table) && |maps| == |bos|
    }

    /** The zero-initialised static struct, with `list_inithead` done. */
    constructor ()
      ensures Valid() && table == PacketTable()
      ensures input == [] && bos == [] && maps == [] && memAreas == []
    {
      table := PacketTable();
      input := [];
      state := HangState(0, 0, 0, 0, 0, 0, 0);
      bos := [];
      maps := [];
      memAreas := [];
    }

    /** set_bo_maps: check the version, find the hang state and the
        descriptors, and give every buffer the file position after the
        previous buffer's contents. On an error nothing changes (the
        program exits). */
    method SetBoMaps(file: seq<byte>) returns (err: Option<LoadError>)
      requires Valid()
      modifies this`input, this`state, this`bos, this`maps
      ensures Valid()
      ensures match Load(file)
              case Ok(l) => err.None? && input == file && state == l.state && bos == l.bos && maps == l.maps
              case Err(e) => err == Some(e) && input == old(input) && state == old(state)
                             && bos == old(bos) && maps == old(maps)
    {
      if |file| < VersionSize {
        return Some(Truncated);
      }
      var version := U32At(file, 0);
      if version != 0 {
        return Some(WrongVersion(version));
      }
      if |file| < BoTableOffset {
        return Some(Truncated);
      }
      var st := ParseHangState(file, HangStateOffset);
      var n := st.boCount;
      if |file| < BoTableEnd(n) {
        return Some(Truncated);
      }
      var descs := seq(n, i requires 0 <= i < n => ParseBoState(file, BoTableOffset + BoStateSize * i));
      var m: seq<nat> := [];
      var nextMap := BoTableEnd(n);
      var i := 0;
      while i < n
        invariant 0 <= i <= n
        invariant |m| == i && forall j :: 0 <= j < i ==> m[j] == ContentStart(descs, j)
        invariant nextMap == ContentStart(descs, i)
      {
        m := m + [nextMap];
        ContentStartsAdjacent(descs, i);
        nextMap := nextMap + descs[i].size;
        i := i + 1;
      }
      input, state, bos, maps := file, st, descs, m;
      err := None;
    }

    /** vc4_paddr_to_pointer: scan the descriptors in order for one whose
        range covers `addr`. */
    method PaddrToPointer(addr: u32) returns (p: Option<nat>)
      requires Valid()
      ensures p == AddressMap.PaddrToPointer(bos, maps, addr)
    {
      var i := 0;
      while i < |bos|
        invariant 0 <= i <= |bos|
        invariant FirstCovering(bos, addr, 0) == FirstCovering(bos, addr, i)
      {
        var paddr := bos[i].paddr;
        if addr >= paddr && addr < (paddr + bos[i].size) % U32Modulus {
          return Some(maps[i] + (addr - paddr));
        }
        i := i + 1;
      }
      return None;
    }

    /** vc4_pointer_to_paddr: scan the descriptors in order for one whose
        contents hold position `p`. */
    method PointerToPaddr(p: nat) returns (addr: u32)
      requires Valid()
      ensures addr == AddressMap.PointerToPaddr(bos, maps, p)
    {
      var i := 0;
      while i < |bos|
        invariant 0 <= i <= |bos|
        invariant FirstHolding(bos, maps, p, 0) == FirstHolding(bos, maps, p, i)
      {
        var base := maps[i];
        if p >= base && p < base + bos[i].size {
          return (bos[i].paddr + (p - base)) % U32Modulus;
        }
        i := i + 1;
      }
      return 0;
    }

    /** vc4_get_end_paddr: the end of the first buffer whose range covers
        `paddr`. */
    method GetEndPaddr(paddr: u32) returns (end: u32)
      requires Valid()
      ensures end == AddressMap.GetEndPaddr(bos, paddr)
    {
      var i := 0;
      while i < |bos|
        invariant 0 <= i <= |bos|
        invariant FirstCovering(bos, paddr, 0) == FirstCovering(bos, paddr, i)
      {
        var start := bos[i].paddr;
        var bufEnd := (start + bos[i].size) % U32Modulus;
        if paddr >= start && paddr < bufEnd {
          return bufEnd;
        }
        i := i + 1;
      }
      return 0;
    }

    /** vc4_parse_add_mem_area_sized: append one record at the tail of the
        list. */
    method AddMemAreaSized(kind: MemAreaType, paddr: u32, size: u32)
      requires Valid()
      modifies this`memAreas
      ensures Valid()
      ensures memAreas == old(memAreas) + [MemArea(kind, AddressMap.PaddrToPointer(bos, maps, paddr), paddr, size)]
    {
      var addr := PaddrToPointer(paddr);
      memAreas := memAreas + [MemArea(kind, addr, paddr, size)];
    }

    /** vc4_parse_add_mem_area: an area that runs to the end of the buffer
        holding `paddr`. */
    method AddMemArea(kind: MemAreaType, paddr: u32)
      requires Valid()
      modifies this`memAreas
      ensures Valid()
      ensures memAreas == old(memAreas) + [MemArea(kind, AddressMap.PaddrToPointer(bos, maps, paddr), paddr, AreaSize(bos, paddr))]
    {
      var endPaddr := GetEndPaddr(paddr);
      AddMemAreaSized(kind, paddr, (endPaddr - paddr) % U32Modulus);
    }

    /** vc4_dump_cl(start, end): translate `start` and walk the list from
        there. */
    method DumpList(start: u32, end: u32) returns (w: Walk)
      requires Valid()
      ensures w == ListWalk(table, input, bos, maps, start, end)
    {
      var cmds := PaddrToPointer(start);
      w := DumpCl(table, BytesFrom(input, cmds), start, end);
    }

    /** parse_cls: the bin list over [start_bin, ct0ea) when it is not empty,
        then always the render list over [start_render, ct1ea). */
    method ParseCls() returns (bin: Option<Walk>, render: Walk)
      requires Valid()
      ensures state.startBin != state.ct0ea ==> bin == Some(ListWalk(table, input, bos, maps, state.startBin, state.ct0ea))
      ensures state.startBin == state.ct0ea ==> bin.None?
      ensures render == ListWalk(table, input, bos, maps, state.startRender, state.ct1ea)
    {
      bin := None;
      if state.startBin != state.ct0ea {
        var w := DumpList(state.startBin, state.ct0ea);
        bin := Some(w);
      }
      render := DumpList(state.startRender, state.ct1ea);
    }

    /** parse_sublists: walk every registered area once, in list order, over
        [paddr, paddr + size). */
    method ParseSublists() returns (walks: seq<Walk>)
      requires Valid()
      ensures |walks| == |memAreas|
      ensures forall i :: 0 <= i < |memAreas| ==>
                walks[i] == ListWalk(table, input, bos, maps, memAreas[i].paddr, AreaEnd(memAreas[i]))
    {
      walks := [];
      var i := 0;
      while i < |memAreas|
        invariant 0 <= i <= |memAreas| && |walks| == i
        invariant forall j :: 0 <= j < i ==>
                    walks[j] == ListWalk(table, input, bos, maps, memAreas[j].paddr, AreaEnd(memAreas[j]))
      {
        var rec := memAreas[i];
        var w := DumpList(rec.paddr, AreaEnd(rec));
        walks := walks + [w];
        i := i + 1;
      }
    }
  }

  /** An area sized by vc4_parse_add_mem_area at a translatable address is
      not empty and ends where its buffer ends: [paddr, paddr + size) lies
      inside that one buffer, and parse_sublists stops there. */
  lemma AreaWithinBo(bos: seq<BoState>, maps: seq<nat>, kind: MemAreaType, paddr: u32)
    requires |maps| == |bos| && AddressMap.PaddrToPointer(bos, maps, paddr).Some?
    ensures var i := FirstCovering(bos, paddr, 0).value;
            var a := MemArea(kind, AddressMap.PaddrToPointer(bos, maps, paddr), paddr, AreaSize(bos, paddr));
            0 < a.size && bos[i].paddr <= paddr && paddr + a.size == bos[i].paddr + bos[i].size
            && AreaEnd(a) == paddr + a.size == AddressMap.GetEndPaddr(bos, paddr)
  {
    var i := FirstCovering(bos, paddr, 0).value;
    CoversInRange(bos[i], paddr);
    var size := bos[i].paddr + bos[i].size - paddr;
    DivModU32(bos[i].paddr + bos[i].size - paddr, 0, size);
    DivModU32(paddr + size, 0, paddr + size);
  }

  /** An area whose address no buffer covers gets the size `0 - paddr`, so
      its walk ends at `paddr + (0 - paddr) == 0` (mod 2^32) and reports
      nothing. */
  lemma UnresolvedAreaWalksNothing(t: seq<Option<PacketInfo>>, input: seq<byte>, bos: seq<BoState>, maps: seq<nat>, kind: MemAreaType, paddr: u32)
    requires WellFormedTable(t) && |maps| == |bos| && AddressMap.PaddrToPointer(bos, maps, paddr).None?
    ensures var a := MemArea(kind, None, paddr, AreaSize(bos, paddr));
            AreaEnd(a) == 0 && ListWalk(t, input, bos, maps, paddr, AreaEnd(a)) == Walk([], RangeEnd, paddr)
  {
    assert AddressMap.GetEndPaddr(bos, paddr) == 0;
    if paddr == 0 {
      DivModU32(0, 0, 0);
    } else {
      DivModU32(0 - paddr, -1, U32Modulus - paddr);
      DivModU32(paddr + (U32Modulus - paddr), 1, 0);
    }
    var cl := BytesFrom(input, AddressMap.PaddrToPointer(bos, maps, paddr));
    EmptyRange(t, cl, paddr, 0);
  }

  /** The walk of an area sized by vc4_parse_add_mem_area reports only
      addresses inside the buffer that holds the area's start. */
  lemma AreaWalkStaysInBo(t: seq<Option<PacketInfo>>, input: seq<byte>, bos: seq<BoState>, maps: seq<nat>, kind: MemAreaType, paddr: u32)
    requires WellFormedTable(t) && |maps| == |bos| && AddressMap.PaddrToPointer(bos, maps, paddr).Some?
    ensures var i := FirstCovering(bos, paddr, 0).value;
            var a := MemArea(kind, AddressMap.PaddrToPointer(bos, maps, paddr), paddr, AreaSize(bos, paddr));
            var w := ListWalk(t, input, bos, maps, a.paddr, AreaEnd(a));
            paddr <= w.offset <= bos[i].paddr + bos[i].size
            && forall e :: e in w.events ==> WithinRange(t, e, paddr, bos[i].paddr + bos[i].size)
  {
    var i := FirstCovering(bos, paddr, 0).value;
    AreaWithinBo(bos, maps, kind, paddr);
    var a := MemArea(kind, AddressMap.PaddrToPointer(bos, maps, paddr), paddr, AreaSize(bos, paddr));
    var cl := BytesFrom(input, AddressMap.PaddrToPointer(bos, maps, paddr));
    WalkReadsWithinRange(t, cl, paddr, paddr, AreaEnd(a));
    WalkFinalOffset(t, cl, paddr, paddr, AreaEnd(a));
  }
}
