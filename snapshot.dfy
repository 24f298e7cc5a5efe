/** The hang-state file: the layout the capture tool writes
    (tools/vc4_dump_hang_state.c, write_hang_state) and the way the parser
    finds its parts again (tools/vc4_dump_parse.c, set_bo_maps), as pure
    functions over the file's bytes. */
module Snapshot {
  import opened Wrappers
  import opened Bytes

  // Record sizes. `struct drm_vc4_get_hang_state` and
  // `struct drm_vc4_get_hang_state_bo` are declared in vc4_drm.h, which is
  // not part of this model; the sizes and field offsets are those of the
  // kernel's uAPI header (a u64 pointer, 22 u32 registers and 16 u32 pad
  // words; four u32 per buffer descriptor).
  const VersionSize := 4
  const HangStateSize := 160
  const BoStateSize := 16

  /** Where the hang-state record starts and where the descriptor table
      starts. */
  const HangStateOffset := VersionSize
  const BoTableOffset := VersionSize + HangStateSize

  /** The fields of the hang-state record the parser reads. */
  datatype HangState = HangState(boCount: u32, startBin: u32, startRender: u32,
                                 ct0ca: u32, ct0ea: u32, ct1ca: u32, ct1ea: u32)

  /** One `struct drm_vc4_get_hang_state_bo`: a buffer object's handle, its
      physical (GPU) address and its size in bytes. */
  datatype BoState = BoState(handle: u32, paddr: u32, size: u32, pad: u32)

  function ParseHangState(s: seq<byte>, at: nat): HangState
    requires at + HangStateSize <= |s|
  {
    HangState(U32At(s, at + 8), U32At(s, at + 12), U32At(s, at + 16),
              U32At(s, at + 20), U32At(s, at + 24), U32At(s, at + 28), U32At(s, at + 32))
  }

  function ParseBoState(s: seq<byte>, at: nat): BoState
    requires at + BoStateSize <= |s|
  {
    BoState(U32At(s, at), U32At(s, at + 4), U32At(s, at + 8), U32At(s, at + 12))
  }

  /** The first byte after a descriptor table of `n` entries: the start of
      the buffer contents. */
  function BoTableEnd(n: nat): nat
  {
    BoTableOffset + BoStateSize * n
  }

  /** The total size of the buffers in `bos`. */
  function SumSizes(bos: seq<BoState>): nat
  {
    if |bos| == 0 then 0 else SumSizes(bos[..|bos| - 1]) + bos[|bos| - 1].size
  }

  /** Where the contents of buffer `i` start: after the table and after the
      contents of every earlier buffer. */
  function ContentStart(bos: seq<BoState>, i: nat): nat
    requires i <= |bos|
  {
    BoTableEnd(|bos|) + SumSizes(bos[..i])
  }

  /** The position of every buffer's contents. */
  function ContentStarts(bos: seq<BoState>): seq<nat>
  {
    seq(|bos|, i requires 0 <= i < |bos| => ContentStart(bos, i))
  }

  datatype LoadError = WrongVersion(version: u32) | Truncated

  /** What set_bo_maps leaves behind: the hang state, the descriptor table
      and, for each buffer, the file position of its contents (`dump.map`). */
  datatype Loaded = Loaded(state: HangState, bos: seq<BoState>, maps: seq<nat>)

  /** Parse a hang-state file. Only version 0 is accepted. The header and
      the descriptor table must be present; the contents are not checked
      here, a read past the end of the file is a fault where it happens. */
  function Load(input: seq<byte>): (r: Result<Loaded, LoadError>)
    ensures |input| >= VersionSize && U32At(input, 0) != 0 ==> r == Err(WrongVersion(U32At(input, 0)))
    ensures r.Ok? <==> |input| >= BoTableOffset && U32At(input, 0) == 0
                       && |input| >= BoTableEnd(U32At(input, HangStateOffset + 8))
    ensures r.Ok? ==> r.value.state == ParseHangState(input, HangStateOffset)
                      && |r.value.bos| == r.value.state.boCount
                      && (forall i :: 0 <= i < |r.value.bos| ==>
                            r.value.bos[i] == ParseBoState(input, BoTableOffset + BoStateSize * i))
                      && r.value.maps == ContentStarts(r.value.bos)
  {
    if |input| < VersionSize then Err(Truncated)
    else if U32At(input, 0) != 0 then Err(WrongVersion(U32At(input, 0)))
    else if |input| < BoTableOffset then Err(Truncated)
    else
      var state := ParseHangState(input, HangStateOffset);
      var n := state.boCount;
      if |input| < BoTableEnd(n) then Err(Truncated)
      else
        var bos := seq(n, i requires 0 <= i < n => ParseBoState(input, BoTableOffset + BoStateSize * i));
        Ok(Loaded(state, bos, ContentStarts(bos)))
  }

  /** Buffer `i`'s contents end where buffer `i + 1`'s begin: the contents
      lie back to back after the table. */
  lemma ContentStartsAdjacent(bos: seq<BoState>, i: nat)
    requires i < |bos|
    ensures ContentStart(bos, 0) == BoTableEnd(|bos|)
    ensures ContentStart(bos, i) + bos[i].size == ContentStart(bos, i + 1)
  {
    assert bos[..0] == [];
    assert bos[..i + 1][..i] == bos[..i];
  }

  // The capture tool's side.

  function BoStateBytes(b: BoState): (r: seq<byte>)
    ensures |r| == BoStateSize
  {
    U32Bytes(b.handle) + U32Bytes(b.paddr) + U32Bytes(b.size) + U32Bytes(b.pad)
  }

  /** The descriptor table as `fwrite(bo_state, sizeof(*bo_state), bo_count, f)`
      writes it. */
  function BoTableBytes(bos: seq<BoState>): (r: seq<byte>)
    ensures |r| == BoStateSize * |bos|
  {
    if |bos| == 0 then [] else BoTableBytes(bos[..|bos| - 1]) + BoStateBytes(bos[|bos| - 1])
  }

  /** The buffer contents, written one after the other. */
  function Concat(contents: seq<seq<byte>>): seq<byte>
  {
    if |contents| == 0 then [] else Concat(contents[..|contents| - 1]) + contents[|contents| - 1]
  }

  /** What the capture tool had in hand before writing: the raw hang-state
      record the kernel filled in (whose `bo_count` is the number of
      descriptors), the descriptors, and each buffer's mapped contents. */
  predicate Captured(state: seq<byte>, bos: seq<BoState>, contents: seq<seq<byte>>)
  {
    |state| == HangStateSize && U32At(state, 8) == |bos|
    && |contents| == |bos|
    && forall i :: 0 <= i < |bos| ==> |contents[i]| == bos[i].size
  }

  /** write_hang_state: version 0, the hang-state record, the descriptor
      table, then every buffer's contents. */
  function WriteHangState(state: seq<byte>, bos: seq<BoState>, contents: seq<seq<byte>>): seq<byte>
  {
    U32Bytes(0) + state + BoTableBytes(bos) + Concat(contents)
  }

  /** The loader reads a written file back: it accepts the version and
      finds the hang state and every descriptor the tool wrote, and places
      buffer `i` at ContentStart (whose bytes WrittenContents identifies). */
  lemma LoadOfWritten(state: seq<byte>, bos: seq<BoState>, contents: seq<seq<byte>>)
    requires Captured(state, bos, contents)
    ensures var file := WriteHangState(state, bos, contents);
            var r := Load(file);
            r == Ok(Loaded(ParseHangState(state, 0), bos, ContentStarts(bos)))
  {
    var file := WriteHangState(state, bos, contents);
    WrittenHeader(state, bos, contents);
    WrittenTable(state, bos, contents);
    LoadFinds(file, ParseHangState(state, 0), bos);
  }

  // Helpers for LoadOfWritten.

  /** A file with version 0, a hang state announcing `|bos|` buffers and
      those descriptors loads to them. */
  lemma LoadFinds(file: seq<byte>, st: HangState, bos: seq<BoState>)
    requires |file| >= BoTableEnd(|bos|) && U32At(file, 0) == 0
    requires ParseHangState(file, HangStateOffset) == st && st.boCount == |bos|
    requires forall i :: 0 <= i < |bos| ==> ParseBoState(file, BoTableOffset + BoStateSize * i) == bos[i]
    ensures Load(file) == Ok(Loaded(st, bos, ContentStarts(bos)))
  {
    var r := Load(file);
    assert r.Ok?;
    assert |r.value.bos| == |bos|;
    assert r.value.bos == bos;
  }

  lemma SliceOfAppend(p: seq<byte>, q: seq<byte>, a: nat, b: nat)
    requires a <= b <= |q|
    ensures (p + q)[|p| + a .. |p| + b] == q[a .. b]
  {
    assert forall k :: |p| + a <= k < |p| + b ==> (p + q)[k] == q[k - |p|];
  }

  lemma SliceOfSlice(s: seq<byte>, a: nat, b: nat, c: nat, d: nat)
    requires a <= b <= |s| && c <= d <= b - a
    ensures s[a .. b][c .. d] == s[a + c .. a + d]
  {
    assert forall k :: c <= k < d ==> s[a .. b][k] == s[a + k];
  }

  /** A word depends only on its four bytes. */
  lemma WordAt(s: seq<byte>, at: nat, x: u32)
    requires at + 4 <= |s| && s[at .. at + 4] == U32Bytes(x)
    ensures U32At(s, at) == x
  {
    var w := U32Bytes(x);
    assert s[at] == w[0] && s[at + 1] == w[1] && s[at + 2] == w[2] && s[at + 3] == w[3];
  }

  lemma SameWord(s: seq<byte>, at: nat, t: seq<byte>, k: nat)
    requires at + 4 <= |s| && k + 4 <= |t| && s[at .. at + 4] == t[k .. k + 4]
    ensures U32At(s, at) == U32At(t, k)
  {
    assert s[at] == t[k] && s[at + 1] == t[k + 1] && s[at + 2] == t[k + 2] && s[at + 3] == t[k + 3];
  }

  /** The version word, the hang-state record and the table's extent in a
      written file. */
  lemma WrittenHeader(state: seq<byte>, bos: seq<BoState>, contents: seq<seq<byte>>)
    requires Captured(state, bos, contents)
    ensures var file := WriteHangState(state, bos, contents);
            |file| >= BoTableEnd(|bos|) && U32At(file, 0) == 0
            && ParseHangState(file, HangStateOffset) == ParseHangState(state, 0)
  {
    var file := WriteHangState(state, bos, contents);
    var rest := BoTableBytes(bos) + Concat(contents);
    assert file == U32Bytes(0) + (state + rest);
    assert file[0 .. 4] == U32Bytes(0);
    WordAt(file, 0, 0);
    HeaderWord(state, rest, 8);
    HeaderWord(state, rest, 12);
    HeaderWord(state, rest, 16);
    HeaderWord(state, rest, 20);
    HeaderWord(state, rest, 24);
    HeaderWord(state, rest, 28);
    HeaderWord(state, rest, 32);
  }

  lemma HeaderWord(state: seq<byte>, rest: seq<byte>, k: nat)
    requires |state| == HangStateSize && k + 4 <= |state|
    ensures U32At(U32Bytes(0) + (state + rest), HangStateOffset + k) == U32At(state, k)
  {
    SliceOfAppend(U32Bytes(0), state + rest, k, k + 4);
    assert (state + rest)[k .. k + 4] == state[k .. k + 4];
    SameWord(U32Bytes(0) + (state + rest), HangStateOffset + k, state, k);
  }

  /** Every descriptor of a written file parses back to the one written. */
  lemma WrittenTable(state: seq<byte>, bos: seq<BoState>, contents: seq<seq<byte>>)
    requires Captured(state, bos, contents)
    ensures var file := WriteHangState(state, bos, contents);
            |file| >= BoTableEnd(|bos|)
            && forall i :: 0 <= i < |bos| ==> ParseBoState(file, BoTableOffset + BoStateSize * i) == bos[i]
  {
    var file := WriteHangState(state, bos, contents);
    var head := U32Bytes(0) + state;
    var table := BoTableBytes(bos);
    assert file == head + (table + Concat(contents));
    forall i | 0 <= i < |bos|
      ensures ParseBoState(file, BoTableOffset + BoStateSize * i) == bos[i]
    {
      var k := BoStateSize * i;
      BoTableAt(bos, i);
      SliceOfAppend(head, table + Concat(contents), k, k + BoStateSize);
      assert (table + Concat(contents))[k .. k + BoStateSize] == table[k .. k + BoStateSize];
      ParseBoStateBytes(bos[i], file, BoTableOffset + k);
    }
  }

  /** In a written file, buffer `i`'s contents start at `4 + sizeof(hang
      state) + bo_count * sizeof(descriptor) + the sizes of buffers 0 .. i-1`
      and hold exactly the bytes the tool wrote for it. */
  lemma WrittenContents(state: seq<byte>, bos: seq<BoState>, contents: seq<seq<byte>>)
    requires Captured(state, bos, contents)
    ensures var file := WriteHangState(state, bos, contents);
            forall i :: 0 <= i < |bos| ==>
              ContentStart(bos, i) + bos[i].size <= |file|
              && file[ContentStart(bos, i) .. ContentStart(bos, i) + bos[i].size] == contents[i]
  {
    var file := WriteHangState(state, bos, contents);
    var head := U32Bytes(0) + state + BoTableBytes(bos);
    assert file == head + Concat(contents);
    assert |head| == BoTableEnd(|bos|);
    forall i | 0 <= i < |bos|
      ensures ContentStart(bos, i) + bos[i].size <= |file|
      ensures file[ContentStart(bos, i) .. ContentStart(bos, i) + bos[i].size] == contents[i]
    {
      SumSizesIsConcatLength(bos, contents, i);
      ConcatAt(contents, i);
      var from := SumSizes(bos[..i]);
      SliceOfAppend(head, Concat(contents), from, from + bos[i].size);
    }
  }

  lemma ParseBoStateBytes(b: BoState, s: seq<byte>, at: nat)
    requires at + BoStateSize <= |s| && s[at .. at + BoStateSize] == BoStateBytes(b)
    ensures ParseBoState(s, at) == b
  {
    var w := BoStateBytes(b);
    var t := s[at .. at + BoStateSize];
    assert t == U32Bytes(b.handle) + U32Bytes(b.paddr) + U32Bytes(b.size) + U32Bytes(b.pad);
    assert t[0 .. 4] == U32Bytes(b.handle) && t[4 .. 8] == U32Bytes(b.paddr);
    assert t[8 .. 12] == U32Bytes(b.size) && t[12 .. 16] == U32Bytes(b.pad);
    SliceOfSlice(s, at, at + BoStateSize, 0, 4);
    SliceOfSlice(s, at, at + BoStateSize, 4, 8);
    SliceOfSlice(s, at, at + BoStateSize, 8, 12);
    SliceOfSlice(s, at, at + BoStateSize, 12, 16);
    WordAt(s, at, b.handle);
    WordAt(s, at + 4, b.paddr);
    WordAt(s, at + 8, b.size);
    WordAt(s, at + 12, b.pad);
  }

  /** Descriptor `i` occupies bytes `16 i .. 16 i + 16` of the table. */
  lemma {:induction false} BoTableAt(bos: seq<BoState>, i: nat)
    requires i < |bos|
    ensures BoTableBytes(bos)[BoStateSize * i .. BoStateSize * i + BoStateSize] == BoStateBytes(bos[i])
    decreases |bos|
  {
    var front := bos[..|bos| - 1];
    assert BoTableBytes(bos) == BoTableBytes(front) + BoStateBytes(bos[|bos| - 1]);
    if i < |bos| - 1 {
      BoTableAt(front, i);
      assert front[i] == bos[i];
    }
  }

  /** Buffer `i`'s contents start after those of all earlier buffers. */
  lemma {:induction false} ConcatAt(contents: seq<seq<byte>>, i: nat)
    requires i < |contents|
    ensures |Concat(contents[..i])| + |contents[i]| <= |Concat(contents)|
    ensures Concat(contents)[|Concat(contents[..i])| .. |Concat(contents[..i])| + |contents[i]|] == contents[i]
    decreases |contents|
  {
    var n := |contents|;
    var front := contents[..n - 1];
    assert Concat(contents) == Concat(front) + contents[n - 1];
    if i == n - 1 {
      assert contents[..i] == front;
    } else {
      ConcatAt(front, i);
      assert front[..i] == contents[..i] && front[i] == contents[i];
      var a := |Concat(contents[..i])|;
      assert Concat(contents)[a .. a + |contents[i]|] == Concat(front)[a .. a + |contents[i]|];
    }
  }

  /** The sizes in the descriptors add up to the written content lengths. */
  lemma {:induction false} SumSizesIsConcatLength(bos: seq<BoState>, contents: seq<seq<byte>>, i: nat)
    requires |contents| == |bos| && i <= |bos|
    requires forall j :: 0 <= j < |bos| ==> |contents[j]| == bos[j].size
    ensures SumSizes(bos[..i]) == |Concat(contents[..i])|
    decreases i
  {
    if i > 0 {
      SumSizesIsConcatLength(bos, contents, i - 1);
      assert bos[..i][..i - 1] == bos[..i - 1];
      assert contents[..i][..i - 1] == contents[..i - 1];
    }
  }
}
