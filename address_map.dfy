/** The address translators of tools/vc4_dump_parse.c: from a GPU physical
    address to the place in the loaded file that holds its byte
    (vc4_paddr_to_pointer), back again (vc4_pointer_to_paddr), and to the
    end of the buffer that holds it (vc4_get_end_paddr). Each is a scan of
    the descriptors in order that stops at the first match; here they are
    the functions those scans compute. A pointer into the file is its
    position in the file. */
module AddressMap {
  import opened Wrappers
  import opened Bytes
  import opened Snapshot

  /** `paddr + size` in uint32_t arithmetic. */
  function EndPaddr(b: BoState): u32
  {
    (b.paddr + b.size) % U32Modulus
  }

  /** The scan's test `addr >= paddr && addr < paddr + size`. */
  predicate Covers(b: BoState, addr: u32)
  {
    b.paddr <= addr < EndPaddr(b)
  }

  /** The reverse scan's test `p >= map && p < map + size`. */
  predicate Holds(base: nat, b: BoState, p: nat)
  {
    base <= p < base + b.size
  }

  /** The first buffer at or after `from` whose range covers `addr`. */
  function FirstCovering(bos: seq<BoState>, addr: u32, from: nat): (r: Option<nat>)
    requires from <= |bos|
    ensures r.Some? ==> from <= r.value < |bos| && Covers(bos[r.value], addr)
                        && forall j :: from <= j < r.value ==> !Covers(bos[j], addr)
    ensures r.None? ==> forall j :: from <= j < |bos| ==> !Covers(bos[j], addr)
    decreases |bos| - from
  {
    if from == |bos| then None
    else if Covers(bos[from], addr) then Some(from)
    else FirstCovering(bos, addr, from + 1)
  }

  /** The first buffer at or after `from` whose contents hold file position
      `p`. */
  function FirstHolding(bos: seq<BoState>, maps: seq<nat>, p: nat, from: nat): (r: Option<nat>)
    requires |maps| == |bos| && from <= |bos|
    ensures r.Some? ==> from <= r.value < |bos| && Holds(maps[r.value], bos[r.value], p)
                        && forall j :: from <= j < r.value ==> !Holds(maps[j], bos[j], p)
    ensures r.None? ==> forall j :: from <= j < |bos| ==> !Holds(maps[j], bos[j], p)
    decreases |bos| - from
  {
    if from == |bos| then None
    else if Holds(maps[from], bos[from], p) then Some(from)
    else FirstHolding(bos, maps, p, from + 1)
  }

  /** vc4_paddr_to_pointer: None is the NULL it returns for an address no
      buffer covers. */
  function PaddrToPointer(bos: seq<BoState>, maps: seq<nat>, addr: u32): Option<nat>
    requires |maps| == |bos|
  {
    match FirstCovering(bos, addr, 0)
    case Some(i) => Some(maps[i] + (addr - bos[i].paddr))
    case None => None
  }

  /** vc4_pointer_to_paddr: 0 for a position no buffer holds (the NULL the
      function returns as a uint32_t). */
  function PointerToPaddr(bos: seq<BoState>, maps: seq<nat>, p: nat): u32
    requires |maps| == |bos|
  {
    match FirstHolding(bos, maps, p, 0)
    case Some(i) => (bos[i].paddr + (p - maps[i])) % U32Modulus
    case None => 0
  }

  /** vc4_get_end_paddr: 0 for an address no buffer covers. */
  function GetEndPaddr(bos: seq<BoState>, addr: u32): u32
  {
    match FirstCovering(bos, addr, 0)
    case Some(i) => EndPaddr(bos[i])
    case None => 0
  }

  /** No buffer's range runs up to or past 2^32, so `paddr + size` does not
      wrap. (A buffer ending exactly at 2^32 would make the sum 0, and the
      scans would find none of its addresses.) */
  predicate NoWrap(bos: seq<BoState>)
  {
    forall i :: 0 <= i < |bos| ==> bos[i].paddr + bos[i].size < U32Modulus
  }

  /** No two buffers share a physical address. */
  predicate DisjointPaddrs(bos: seq<BoState>)
  {
    forall i, j :: 0 <= i < j < |bos| ==>
      bos[i].paddr + bos[i].size <= bos[j].paddr || bos[j].paddr + bos[j].size <= bos[i].paddr
  }

  /** No two buffers' contents share a file position. */
  predicate DisjointMaps(bos: seq<BoState>, maps: seq<nat>)
    requires |maps| == |bos|
  {
    forall i, j :: 0 <= i < j < |bos| ==>
      maps[i] + bos[i].size <= maps[j] || maps[j] + bos[j].size <= maps[i]
  }

  /** A covered address lies below the buffer's true (unwrapped) end. */
  lemma CoversInRange(b: BoState, addr: u32)
    requires Covers(b, addr)
    ensures b.paddr + b.size < U32Modulus && EndPaddr(b) == b.paddr + b.size
    ensures addr - b.paddr < b.size
  {
    WrapOnce(b.paddr, b.size);
  }

  /** With disjoint buffers, the buffer that covers an address is the one
      the scan finds. */
  lemma OnlyCovering(bos: seq<BoState>, addr: u32, i: nat)
    requires DisjointPaddrs(bos) && i < |bos| && Covers(bos[i], addr)
    ensures FirstCovering(bos, addr, 0) == Some(i)
  {
    var k := FirstCovering(bos, addr, 0).value;
    CoversInRange(bos[k], addr);
    CoversInRange(bos[i], addr);
  }

  /** With disjoint contents, the buffer that holds a position is the one
      the scan finds. */
  lemma OnlyHolding(bos: seq<BoState>, maps: seq<nat>, p: nat, i: nat)
    requires |maps| == |bos| && DisjointMaps(bos, maps) && i < |bos| && Holds(maps[i], bos[i], p)
    ensures FirstHolding(bos, maps, p, 0) == Some(i)
  {
  }

  /** vc4_get_end_paddr and vc4_paddr_to_pointer pick the same buffer: an
      address translates exactly when its end is found (non-zero), and the
      end lies strictly above it, `size` bytes past the buffer's start. */
  lemma EndPaddrAgrees(bos: seq<BoState>, maps: seq<nat>, addr: u32)
    requires |maps| == |bos|
    ensures PaddrToPointer(bos, maps, addr).Some? <==> GetEndPaddr(bos, addr) != 0
    ensures PaddrToPointer(bos, maps, addr).Some? ==>
              var i := FirstCovering(bos, addr, 0).value;
              addr < GetEndPaddr(bos, addr) == bos[i].paddr + bos[i].size
              && PaddrToPointer(bos, maps, addr).value + (GetEndPaddr(bos, addr) - addr) == maps[i] + bos[i].size
  {
    match FirstCovering(bos, addr, 0)
    case Some(i) => CoversInRange(bos[i], addr);
    case None =>
  }

  /** With disjoint buffers, every address from `addr` up to its end
      translates to the matching position after `addr`'s, and has the same
      end: the area from `addr` to its end is one run of the file. */
  lemma RunToEnd(bos: seq<BoState>, maps: seq<nat>, addr: u32, x: u32)
    requires |maps| == |bos| && DisjointPaddrs(bos)
    requires PaddrToPointer(bos, maps, addr).Some? && addr <= x < GetEndPaddr(bos, addr)
    ensures PaddrToPointer(bos, maps, x) == Some(PaddrToPointer(bos, maps, addr).value + (x - addr))
    ensures GetEndPaddr(bos, x) == GetEndPaddr(bos, addr)
  {
    var i := FirstCovering(bos, addr, 0).value;
    CoversInRange(bos[i], addr);
    assert Covers(bos[i], x);
    OnlyCovering(bos, x, i);
  }

  /** Physical address to position and back, when contents do not overlap
      (as the loader lays them out): the address comes back. */
  lemma PaddrRoundTrip(bos: seq<BoState>, maps: seq<nat>, addr: u32)
    requires |maps| == |bos| && DisjointMaps(bos, maps)
    requires PaddrToPointer(bos, maps, addr).Some?
    ensures PointerToPaddr(bos, maps, PaddrToPointer(bos, maps, addr).value) == addr
  {
    var i := FirstCovering(bos, addr, 0).value;
    CoversInRange(bos[i], addr);
    var p := maps[i] + (addr - bos[i].paddr);
    OnlyHolding(bos, maps, p, i);
  }

  /** Position to physical address and back, for byte `off` of buffer `i`,
      when buffers do not overlap in either space and none wraps: the
      position comes back. */
  lemma PointerRoundTrip(bos: seq<BoState>, maps: seq<nat>, i: nat, off: nat)
    requires |maps| == |bos| && DisjointMaps(bos, maps) && DisjointPaddrs(bos) && NoWrap(bos)
    requires i < |bos| && off < bos[i].size
    ensures PointerToPaddr(bos, maps, maps[i] + off) == bos[i].paddr + off
    ensures PaddrToPointer(bos, maps, PointerToPaddr(bos, maps, maps[i] + off)) == Some(maps[i] + off)
  {
    OnlyHolding(bos, maps, maps[i] + off, i);
    var a := bos[i].paddr + off;
    assert a < U32Modulus;
    assert Covers(bos[i], a);
    OnlyCovering(bos, a, i);
  }

  /** When vc4_pointer_to_paddr's 0 means NULL: with no buffer wrapping, a
      position gives 0 exactly when no buffer holds it, or when it is the
      first byte of a buffer placed at physical address 0. */
  lemma PointerToPaddrZero(bos: seq<BoState>, maps: seq<nat>, p: nat)
    requires |maps| == |bos| && NoWrap(bos)
    ensures var f := FirstHolding(bos, maps, p, 0);
            PointerToPaddr(bos, maps, p) == 0 <==>
              f.None? || (bos[f.value].paddr == 0 && p == maps[f.value])
  {
    match FirstHolding(bos, maps, p, 0)
    case Some(i) =>
      var a := bos[i].paddr + (p - maps[i]);
      assert a < U32Modulus;
      DivModU32(a, 0, a);
    case None =>
  }

  /** The loader's positions never overlap: set_bo_maps lays the contents
      out back to back. */
  lemma LoadedMapsDisjoint(bos: seq<BoState>)
    ensures DisjointMaps(bos, ContentStarts(bos))
  {
    var maps := ContentStarts(bos);
    forall i, j | 0 <= i < j < |bos|
      ensures maps[i] + bos[i].size <= maps[j]
    {
      ContentStartsAdjacent(bos, i);
      SumSizesGrow(bos, i + 1, j);
    }
  }

  lemma {:induction false} SumSizesGrow(bos: seq<BoState>, i: nat, j: nat)
    requires i <= j <= |bos|
    ensures SumSizes(bos[..i]) <= SumSizes(bos[..j])
    decreases j - i
  {
    if i < j {
      SumSizesGrow(bos, i, j - 1);
      assert bos[..j][..j - 1] == bos[..j - 1];
    }
  }
}
