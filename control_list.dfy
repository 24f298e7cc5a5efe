/** The control-list walker `vc4_dump_cl` of tools/vc4_dump_parse_cl.c.

    The walker steps a cursor `offset` (a GPU physical address) through
    `[start, end)` and a byte pointer `cmds` through the captured bytes. Here
    `cl` is the sequence of bytes that `cmds` points to at `start`, so the
    byte at address `a` is `cl[a - start]`. A read beyond `cl` is where the C
    code would dereference memory that is not part of the snapshot (a NULL
    `cmds`, or past the end of the input file); the model stops there with
    `Fault`. What the walker prints is modelled as a sequence of events. */
module ControlList {
  import opened Wrappers
  import opened Bytes
  import opened FieldDecoders
  import opened Packets

  /** One line of the walker's report. */
  datatype Event =
    | Header(addr: nat, opcode: byte)                 // "0x%08x: 0x%02x %s"
    | Fields(addr: nat, opcode: byte, fields: Decoded)  // dump_func(cmds + 1, offset + 1)
    | Raw(addr: nat, value: byte)                     // one payload byte, "0x%08x: 0x%02x"
    | Overflow(addr: nat)                             // "CL overflow!"
    | Unknown(addr: nat, opcode: byte)                // "Unknown packet"

  /** Why the walk ended. */
  datatype Stop = RangeEnd | UnknownPacket | ClOverflow | Terminal | Fault

  /** The report, the reason the walk ended, and the cursor at that point
      (the address of the last packet examined, or the final cursor for
      RangeEnd). */
  datatype Walk = Walk(events: seq<Event>, stop: Stop, offset: nat)

  datatype Outcome = Continue | Overflowed | Faulted

  /** The events of one packet's payload and how the payload ended. */
  datatype Piece = Piece(events: seq<Event>, outcome: Outcome)

  function Then(events: seq<Event>, w: Walk): Walk
  {
    Walk(events + w.events, w.stop, w.offset)
  }

  /** The packet-fits test of vc4_dump_cl with the sum taken on mathematical
      integers. */
  predicate Fits(offset: int, size: int, end: int)
  {
    offset + size <= end
  }

  /** The packet-fits test as written: `offset + p->size` is computed in
      `uint32_t` and wraps. */
  predicate FitsAsWritten(offset: u32, size: byte, end: u32)
  {
    (offset + size) % U32Modulus <= end
  }

  /** Near the top of the address space the test as written accepts a
      packet that runs past `end`: a STORE_TILE_BUFFER_GENERAL (7 bytes, with
      a field decoder) at 0xFFFFFFFE with `end` 0xFFFFFFFF. */
  lemma FitsAsWrittenWraps()
    ensures FitsAsWritten(0xFFFF_FFFE, 7, 0xFFFF_FFFF)
    ensures !Fits(0xFFFF_FFFE, 7, 0xFFFF_FFFF)
  {
  }

  /** The inner `for` loop of vc4_dump_cl from byte `i` on: each payload
      byte below `end` is reported; the first one at or past `end` is the
      overflow. */
  function RawBytes(cl: seq<byte>, k: nat, offset: nat, end: nat, i: nat, size: nat): Piece
    decreases size - i
  {
    if i >= size then Piece([], Continue)
    else if offset + i >= end then Piece([Overflow(offset + i)], Overflowed)
    else if k + i >= |cl| then Piece([], Faulted)
    else
      var rest := RawBytes(cl, k, offset, end, i + 1, size);
      Piece([Raw(offset + i, cl[k + i])] + rest.events, rest.outcome)
  }

  /** The payload of the packet at `offset` (whose header is `cl[k]`): the
      field decoder when the whole packet fits and it has one, the byte loop
      otherwise. */
  function PacketBody(t: seq<Option<PacketInfo>>, cl: seq<byte>, k: nat, offset: nat, end: nat, header: byte, info: PacketInfo): Piece
    requires WellFormedTable(t) && Lookup(t, header) == Some(info)
  {
    if Fits(offset, info.size, end) && info.dumpFunc != NoDump then
      if k + info.size > |cl| then Piece([], Faulted)
      else Piece([Fields(offset + 1, header, Decode(info.dumpFunc, cl[k + 1 .. k + info.size]))], Continue)
    else
      RawBytes(cl, k, offset, end, 1, info.size)
  }

  /** What examining the packet at the cursor leads to: the walk stops
      there, or it reports `events` and goes on at `next`. */
  datatype Step = Stopped(walk: Walk) | Advance(events: seq<Event>, next: nat)

  /** One iteration of the `while` loop of vc4_dump_cl, at a cursor below
      `end`. */
  function PacketStep(t: seq<Option<PacketInfo>>, cl: seq<byte>, start: nat, offset: nat, end: nat): (r: Step)
    requires WellFormedTable(t) && start <= offset < end
    ensures r.Advance? ==> offset < r.next
    ensures r.Stopped? ==> r.walk.offset == offset && r.walk.stop != RangeEnd
  {
    if offset - start >= |cl| then Stopped(Walk([], Fault, offset))
    else
      var header := cl[offset - start];
      match Lookup(t, header)
      case None => Stopped(Walk([Unknown(offset, header)], UnknownPacket, offset))
      case Some(info) =>
        var body := PacketBody(t, cl, offset - start, offset, end, header, info);
        var events := [Header(offset, header)] + body.events;
        if body.outcome == Overflowed then Stopped(Walk(events, ClOverflow, offset))
        else if body.outcome == Faulted then Stopped(Walk(events, Fault, offset))
        else if IsTerminal(header) then Stopped(Walk(events, Terminal, offset))
        else Advance(events, offset + info.size)
  }

  /** The walk of vc4_dump_cl from cursor `offset` to `end`. */
  function WalkFrom(t: seq<Option<PacketInfo>>, cl: seq<byte>, start: nat, offset: nat, end: nat): Walk
    requires WellFormedTable(t) && start <= offset
    decreases end - offset
  {
    if offset >= end then Walk([], RangeEnd, offset)
    else
      match PacketStep(t, cl, start, offset, end)
      case Stopped(w) => w
      case Advance(events, next) => Then(events, WalkFrom(t, cl, start, next, end))
  }

  /** The inner `for` loop of vc4_dump_cl over the payload bytes of the
      packet at `offset`, whose header is `cl[cmds]`. */
  method DumpRawBytes(cl: seq<byte>, cmds: nat, offset: nat, end: nat, size: nat) returns (piece: Piece)
    ensures piece == RawBytes(cl, cmds, offset, end, 1, size)
  {
    var events: seq<Event> := [];
    var i: nat := 1;
    while i < size
      invariant 1 <= i && (size >= 1 ==> i <= size)
      invariant RawBytes(cl, cmds, offset, end, 1, size)
                == var r := RawBytes(cl, cmds, offset, end, i, size); Piece(events + r.events, r.outcome)
      decreases size - i
    {
      if offset + i >= end {
        return Piece(events + [Overflow(offset + i)], Overflowed);
      }
      if cmds + i >= |cl| {
        return Piece(events, Faulted);
      }
      events := events + [Raw(offset + i, cl[cmds + i])];
      i := i + 1;
    }
    piece := Piece(events, Continue);
  }

  /** The payload step of vc4_dump_cl for the packet at `offset`: the field
      decoder when the packet fits and has one, the byte loop otherwise. */
  method DumpPacketBody(t: seq<Option<PacketInfo>>, cl: seq<byte>, cmds: nat, offset: nat, end: nat, header: byte, p: PacketInfo)
    returns (body: Piece)
    requires WellFormedTable(t) && Lookup(t, header) == Some(p)
    ensures body == PacketBody(t, cl, cmds, offset, end, header, p)
  {
    if offset + p.size <= end && p.dumpFunc != NoDump {
      if cmds + p.size > |cl| {
        body := Piece([], Faulted);
      } else {
        body := Piece([Fields(offset + 1, header, Decode(p.dumpFunc, cl[cmds + 1 .. cmds + p.size]))], Continue);
      }
    } else {
      body := DumpRawBytes(cl, cmds, offset, end, p.size);
    }
  }

  lemma WalkAtEnd(t: seq<Option<PacketInfo>>, cl: seq<byte>, start: nat, offset: nat, end: nat)
    requires WellFormedTable(t) && start <= offset && end <= offset
    ensures WalkFrom(t, cl, start, offset, end) == Walk([], RangeEnd, offset)
  {
  }

  /** An opcode with no entry in the table is reported and ends the walk. */
  lemma UnknownOpcodeStops(t: seq<Option<PacketInfo>>, cl: seq<byte>, start: nat, offset: nat, end: nat)
    requires WellFormedTable(t) && start <= offset < end && offset - start < |cl| && Lookup(t, cl[offset - start]).None?
    ensures WalkFrom(t, cl, start, offset, end) == Walk([Unknown(offset, cl[offset - start])], UnknownPacket, offset)
  {
  }

  lemma ThenThen(a: seq<Event>, b: seq<Event>, w: Walk)
    ensures Then(a, Then(b, w)) == Then(a + b, w)
  {
    assert a + (b + w.events) == (a + b) + w.events;
  }

  /** The body of the `while` loop of vc4_dump_cl: examine the packet at
      `offset`, whose opcode is at `cmds`, and either stop (one of the early
      returns) or say where the next packet starts. */
  method DumpPacket(t: seq<Option<PacketInfo>>, cl: seq<byte>, start: nat, offset: nat, cmds: nat, end: nat)
    returns (step: Step)
    requires WellFormedTable(t) && start <= offset < end && cmds == offset - start
    ensures step == PacketStep(t, cl, start, offset, end)
  {
    if cmds >= |cl| {
      // *cmds would read memory outside the snapshot
      return Stopped(Walk([], Fault, offset));
    }
    var header := cl[cmds];
    // the corrected bounds check: header >= ARRAY_SIZE(packet_info)
    var entry := Lookup(t, header);
    if entry.None? {
      return Stopped(Walk([Unknown(offset, header)], UnknownPacket, offset));
    }
    var p := entry.value;
    var body := DumpPacketBody(t, cl, cmds, offset, end, header, p);
    var packet := [Header(offset, header)] + body.events;
    if body.outcome == Overflowed {
      return Stopped(Walk(packet, ClOverflow, offset));
    }
    if body.outcome == Faulted {
      return Stopped(Walk(packet, Fault, offset));
    }
    if header == HALT || header == STORE_MS_TILE_BUFFER_AND_EOF {
      return Stopped(Walk(packet, Terminal, offset));
    }
    step := Advance(packet, offset + p.size);
  }

  /** vc4_dump_cl(start, end): the `while` loop over packets, which ends at
      `end` or at the first packet that stops the walk. */
  method DumpCl(t: seq<Option<PacketInfo>>, cl: seq<byte>, start: u32, end: u32) returns (w: Walk)
    requires WellFormedTable(t)
    ensures w == WalkFrom(t, cl, start, start, end)
  {
    var offset: nat := start;
    var cmds: nat := 0;
    var events: seq<Event> := [];
    while offset < end
      invariant start <= offset && cmds == offset - start
      invariant WalkFrom(t, cl, start, start, end) == Then(events, WalkFrom(t, cl, start, offset, end))
      decreases end - offset
    {
      var step := DumpPacket(t, cl, start, offset, cmds, end);
      WalkAdvances(t, cl, start, offset, end);
      if step.Stopped? {
        return Walk(events + step.walk.events, step.walk.stop, step.walk.offset);
      }
      ThenThen(events, step.events, WalkFrom(t, cl, start, step.next, end));
      events := events + step.events;
      cmds := cmds + (step.next - offset);
      offset := step.next;
    }
    WalkAtEnd(t, cl, start, offset, end);
    w := Walk(events, RangeEnd, offset);
  }

  // ---------------------------------------------------------------------
  // The payload of one packet

  /** The byte events the inner loop reports for payload bytes `i` to `j` of
      the packet at `offset` (header at `cl[k]`). */
  function RawRun(cl: seq<byte>, k: nat, offset: nat, i: nat, j: nat): (r: seq<Event>)
    requires i <= j && k + j <= |cl|
    ensures |r| == j - i
    ensures forall n :: 0 <= n < |r| ==> r[n] == Raw(offset + i + n, cl[k + i + n])
    decreases j - i
  {
    if i == j then [] else [Raw(offset + i, cl[k + i])] + RawRun(cl, k, offset, i + 1, j)
  }

  /** The inner loop from byte `i` on, started with byte `i - 1` below
      `end`: it reports only byte events in `[offset + i, end)` and at most
      one overflow, at `end` exactly, as its last event; it completes only
      when the packet fits, and it overflows only when it does not. */
  lemma {:induction false} RawBytesFacts(cl: seq<byte>, k: nat, offset: nat, end: nat, i: nat, size: nat)
    requires 1 <= i <= size && offset + i <= end
    ensures var r := RawBytes(cl, k, offset, end, i, size);
            && (forall e :: e in r.events ==> (e.Raw? && offset + i <= e.addr < end) || (e.Overflow? && e.addr == end))
            && (r.outcome == Overflowed ==> offset + size > end)
            && (r.outcome == Overflowed ==> r.events != [] && r.events[|r.events| - 1] == Overflow(end))
            && (r.outcome == Continue ==> offset + size <= end)
    decreases size - i
  {
    if i < size && offset + i < end && k + i < |cl| {
      RawBytesFacts(cl, k, offset, end, i + 1, size);
    }
  }

  /** A payload that lies inside the range and inside the snapshot is
      reported byte by byte. */
  lemma {:induction false} RawBytesInRange(cl: seq<byte>, k: nat, offset: nat, end: nat, i: nat, size: nat)
    requires i <= size && offset + size <= end && k + size <= |cl|
    ensures RawBytes(cl, k, offset, end, i, size) == Piece(RawRun(cl, k, offset, i, size), Continue)
    decreases size - i
  {
    if i < size {
      RawBytesInRange(cl, k, offset, end, i + 1, size);
    }
  }

  /** A payload that crosses `end` is reported byte by byte up to `end`,
      then as an overflow at `end`. */
  lemma {:induction false} RawBytesCrossing(cl: seq<byte>, k: nat, offset: nat, end: nat, i: nat, size: nat)
    requires i <= end - offset < size && offset <= end && k + (end - offset) <= |cl|
    ensures RawBytes(cl, k, offset, end, i, size)
            == Piece(RawRun(cl, k, offset, i, end - offset) + [Overflow(end)], Overflowed)
    decreases size - i
  {
    if offset + i < end {
      RawBytesCrossing(cl, k, offset, end, i + 1, size);
      assert RawRun(cl, k, offset, i, end - offset)
             == [Raw(offset + i, cl[k + i])] + RawRun(cl, k, offset, i + 1, end - offset);
    }
  }

  /** A packet's payload reports on bytes after the opcode and below
      `end`, except for an overflow, which is its last event and is at
      `end`. It completes only when the packet fits, and overflows only when
      it does not. */
  lemma BodyFacts(t: seq<Option<PacketInfo>>, cl: seq<byte>, k: nat, offset: nat, end: nat, header: byte, info: PacketInfo)
    requires WellFormedTable(t) && Lookup(t, header) == Some(info) && offset < end
    ensures var body := PacketBody(t, cl, k, offset, end, header, info);
            && (forall e :: e in body.events ==>
                  !e.Header? && offset < e.addr && e.addr + Span(t, e) <= end && (e.Overflow? ==> e.addr == end))
            && (body.outcome == Continue ==> Fits(offset, info.size, end))
            && (body.outcome == Overflowed ==> !Fits(offset, info.size, end))
            && (body.outcome == Overflowed ==> body.events != [] && body.events[|body.events| - 1] == Overflow(end))
  {
    if !(Fits(offset, info.size, end) && info.dumpFunc != NoDump) {
      RawBytesFacts(cl, k, offset, end, 1, info.size);
    }
  }

  // ---------------------------------------------------------------------
  // One packet

  /** The report of a packet that fits, when all of it was captured. */
  function PacketEvents(t: seq<Option<PacketInfo>>, cl: seq<byte>, k: nat, offset: nat, header: byte, info: PacketInfo): seq<Event>
    requires WellFormedTable(t) && Lookup(t, header) == Some(info) && k + info.size <= |cl|
  {
    [Header(offset, header)]
    + if info.dumpFunc != NoDump then [Fields(offset + 1, header, Decode(info.dumpFunc, cl[k + 1 .. k + info.size]))]
      else RawRun(cl, k, offset, 1, info.size)
  }

  /** A packet that fits is reported, and the walk goes on right after it,
      unless it is HALT or STORE_MS_TILE_BUFFER_AND_EOF. */
  lemma PacketFits(t: seq<Option<PacketInfo>>, cl: seq<byte>, start: nat, offset: nat, end: nat, info: PacketInfo)
    requires WellFormedTable(t) && start <= offset && offset - start < |cl|
    requires Lookup(t, cl[offset - start]) == Some(info) && Fits(offset, info.size, end)
    requires offset - start + info.size <= |cl|
    ensures var events := PacketEvents(t, cl, offset - start, offset, cl[offset - start], info);
            WalkFrom(t, cl, start, offset, end)
            == if IsTerminal(cl[offset - start]) then Walk(events, Terminal, offset)
               else Then(events, WalkFrom(t, cl, start, offset + info.size, end))
  {
    if info.dumpFunc == NoDump {
      RawBytesInRange(cl, offset - start, offset, end, 1, info.size);
    }
  }

  /** A packet that crosses `end` is reported opcode first, then each of its
      bytes below `end`, then an overflow at `end`, and the walk stops. */
  lemma PacketCrossesEnd(t: seq<Option<PacketInfo>>, cl: seq<byte>, start: nat, offset: nat, end: nat, info: PacketInfo)
    requires WellFormedTable(t) && start <= offset < end && offset - start + (end - offset) <= |cl|
    requires Lookup(t, cl[offset - start]) == Some(info) && !Fits(offset, info.size, end)
    ensures WalkFrom(t, cl, start, offset, end)
            == Walk([Header(offset, cl[offset - start])] + RawRun(cl, offset - start, offset, 1, end - offset) + [Overflow(end)],
                    ClOverflow, offset)
  {
    RawBytesCrossing(cl, offset - start, offset, end, 1, info.size);
  }

  // ---------------------------------------------------------------------
  // The whole walk

  /** How many bytes from its address an event reports on. */
  function Span(t: seq<Option<PacketInfo>>, e: Event): nat
  {
    match e
    case Header(_, _) => 1
    case Fields(_, opcode, _) => if Lookup(t, opcode).Some? && Lookup(t, opcode).value.size >= 1 then Lookup(t, opcode).value.size - 1 else 0
    case Raw(_, _) => 1
    case Overflow(_) => 0
    case Unknown(_, _) => 1
  }

  predicate WithinRange(t: seq<Option<PacketInfo>>, e: Event, offset: nat, end: nat)
  {
    offset <= e.addr && e.addr + Span(t, e) <= end && (e.Overflow? ==> e.addr == end)
  }

  /** The events of one step report on bytes in `[offset, end)` (an
      overflow at `end` exactly), and a step that goes on does not pass
      `end`. */
  lemma StepWithinRange(t: seq<Option<PacketInfo>>, cl: seq<byte>, start: nat, offset: nat, end: nat)
    requires WellFormedTable(t) && start <= offset < end
    ensures var step := PacketStep(t, cl, start, offset, end);
            && (step.Stopped? ==> forall e :: e in step.walk.events ==> WithinRange(t, e, offset, end))
            && (step.Advance? ==> step.next <= end && forall e :: e in step.events ==> WithinRange(t, e, offset, end))
  {
    if offset - start < |cl| && Lookup(t, cl[offset - start]).Some? {
      var header := cl[offset - start];
      var info := Lookup(t, header).value;
      BodyFacts(t, cl, offset - start, offset, end, header, info);
    }
  }

  /** Every event of a walk from `offset` reports on bytes in
      `[offset, end)`, and an overflow is reported at `end` exactly. */
  lemma {:induction false} WalkReadsWithinRange(t: seq<Option<PacketInfo>>, cl: seq<byte>, start: nat, offset: nat, end: nat)
    requires WellFormedTable(t) && start <= offset
    ensures forall e :: e in WalkFrom(t, cl, start, offset, end).events ==> WithinRange(t, e, offset, end)
    decreases end - offset
  {
    if offset < end {
      WalkAdvances(t, cl, start, offset, end);
      StepWithinRange(t, cl, start, offset, end);
      var step := PacketStep(t, cl, start, offset, end);
      if step.Advance? {
        WalkReadsWithinRange(t, cl, start, step.next, end);
      }
    }
  }

  /** A walk from below `end` that stops at `end` of the range has consumed
      it exactly: its final cursor is `end`. No other walk moves the cursor
      to or past `end`. */
  lemma {:induction false} WalkFinalOffset(t: seq<Option<PacketInfo>>, cl: seq<byte>, start: nat, offset: nat, end: nat)
    requires WellFormedTable(t) && start <= offset <= end
    ensures var r := WalkFrom(t, cl, start, offset, end);
            && offset <= r.offset <= end
            && (r.stop == RangeEnd <==> r.offset == end)
    decreases end - offset
  {
    if offset < end {
      WalkAdvances(t, cl, start, offset, end);
      StepWithinRange(t, cl, start, offset, end);
      var step := PacketStep(t, cl, start, offset, end);
      if step.Advance? {
        WalkFinalOffset(t, cl, start, step.next, end);
      }
    }
  }

  /** The header events of a report, in order. */
  function Starts(events: seq<Event>): seq<Event>
  {
    if events == [] then []
    else (if events[0].Header? then [events[0]] else []) + Starts(events[1..])
  }

  lemma {:induction false} StartsAppend(a: seq<Event>, b: seq<Event>)
    ensures Starts(a + b) == Starts(a) + Starts(b)
  {
    if a == [] {
      assert a + b == b;
    } else {
      var c := a + b;
      var h := if a[0].Header? then [a[0]] else [];
      assert c != [] && c[0] == a[0] && c[1..] == a[1..] + b;
      assert Starts(a) == h + Starts(a[1..]);
      assert Starts(c) == h + Starts(a[1..] + b);
      StartsAppend(a[1..], b);
    }
  }

  /** `hs` are known packets laid end to end from `from` to `to`. */
  predicate Tiles(t: seq<Option<PacketInfo>>, hs: seq<Event>, from: int, to: int)
    decreases |hs|
  {
    if hs == [] then from == to
    else
      && hs[0].Header?
      && hs[0].addr == from
      && Lookup(t, hs[0].opcode).Some?
      && Tiles(t, hs[1..], from + Lookup(t, hs[0].opcode).value.size, to)
  }

  /** A walk that does not stop at its first packet is that packet's report
      followed by the walk from the next packet. */
  lemma WalkAdvances(t: seq<Option<PacketInfo>>, cl: seq<byte>, start: nat, offset: nat, end: nat)
    requires WellFormedTable(t) && start <= offset < end
    ensures var r := WalkFrom(t, cl, start, offset, end);
            var step := PacketStep(t, cl, start, offset, end);
            if step.Stopped? then r == step.walk
            else r == Then(step.events, WalkFrom(t, cl, start, step.next, end))
  {
  }

  /** A step that lets the walk go on has examined a known packet that
      fits, reported exactly one header, for that packet, and moved the cursor
      past it. */
  lemma AdvanceFacts(t: seq<Option<PacketInfo>>, cl: seq<byte>, start: nat, offset: nat, end: nat)
    requires WellFormedTable(t) && start <= offset < end
    requires PacketStep(t, cl, start, offset, end).Advance?
    ensures offset - start < |cl| && Lookup(t, cl[offset - start]).Some?
    ensures var step := PacketStep(t, cl, start, offset, end);
            var info := Lookup(t, cl[offset - start]).value;
            && !IsTerminal(cl[offset - start])
            && Fits(offset, info.size, end)
            && step.next == offset + info.size
            && Starts(step.events) == [Header(offset, cl[offset - start])]
  {
    var header := cl[offset - start];
    var info := Lookup(t, header).value;
    var body := PacketBody(t, cl, offset - start, offset, end, header, info);
    BodyFacts(t, cl, offset - start, offset, end, header, info);
    NoStarts(body.events);
    StartsAppend([Header(offset, header)], body.events);
    assert Starts([Header(offset, header)]) == [Header(offset, header)];
  }

  /** When the walk runs to the end of the range, its packets tile
      `[offset, end)`: each starts where the previous one ended, and the
      last ends at `end`. */
  lemma {:induction false} WalkTiles(t: seq<Option<PacketInfo>>, cl: seq<byte>, start: nat, offset: nat, end: nat)
    requires WellFormedTable(t) && start <= offset <= end
    requires WalkFrom(t, cl, start, offset, end).stop == RangeEnd
    ensures Tiles(t, Starts(WalkFrom(t, cl, start, offset, end).events), offset, end)
    decreases end - offset
  {
    if offset < end {
      var step := PacketStep(t, cl, start, offset, end);
      WalkAdvances(t, cl, start, offset, end);
      AdvanceFacts(t, cl, start, offset, end);
      var rest := WalkFrom(t, cl, start, step.next, end);
      WalkTiles(t, cl, start, step.next, end);
      StartsAppend(step.events, rest.events);
      var hs := Starts(step.events + rest.events);
      assert hs[0] == Header(offset, cl[offset - start]);
      assert hs[1..] == Starts(rest.events);
    }
  }

  lemma {:induction false} NoStarts(events: seq<Event>)
    requires forall e :: e in events ==> !e.Header?
    ensures Starts(events) == []
  {
    if events != [] {
      NoStarts(events[1..]);
    }
  }

  /** A walk that does not run to the end of the range ends with the step
      that stopped it, taken at its final cursor. */
  lemma {:induction false} WalkEndsWithStop(t: seq<Option<PacketInfo>>, cl: seq<byte>, start: nat, offset: nat, end: nat)
    requires WellFormedTable(t) && start <= offset
    ensures var r := WalkFrom(t, cl, start, offset, end);
            r.stop != RangeEnd ==>
              && offset <= r.offset < end
              && PacketStep(t, cl, start, r.offset, end).Stopped?
              && var w := PacketStep(t, cl, start, r.offset, end).walk;
                 && w.stop == r.stop
                 && |w.events| <= |r.events|
                 && r.events[|r.events| - |w.events|..] == w.events
    decreases end - offset
  {
    if offset < end {
      match PacketStep(t, cl, start, offset, end)
      case Stopped(w) =>
        assert w.events[|w.events| - |w.events|..] == w.events;
      case Advance(events, next) =>
        WalkEndsWithStop(t, cl, start, next, end);
        var rest := WalkFrom(t, cl, start, next, end);
        if rest.stop != RangeEnd {
          var w := PacketStep(t, cl, start, rest.offset, end).walk;
          var all := events + rest.events;
          assert all[|all| - |w.events|..] == rest.events[|rest.events| - |w.events|..];
        }
    }
  }

  /** Why a step stopped the walk, other than a fault: an unknown opcode,
      reported as the step's last event; a terminal packet that fits; or a
      known packet that crosses `end`, whose last event is the overflow at
      `end`. */
  predicate StopExplained(t: seq<Option<PacketInfo>>, cl: seq<byte>, start: nat, end: nat, w: Walk)
  {
    w.stop != RangeEnd && w.stop != Fault ==>
      && start <= w.offset < end && w.offset - start < |cl|
      && var header := cl[w.offset - start];
         && (w.stop == UnknownPacket ==>
               Lookup(t, header).None? && w.events != [] && w.events[|w.events| - 1] == Unknown(w.offset, header))
         && (w.stop == Terminal ==>
               IsTerminal(header) && Lookup(t, header).Some? && Fits(w.offset, Lookup(t, header).value.size, end))
         && (w.stop == ClOverflow ==>
               Lookup(t, header).Some? && !Fits(w.offset, Lookup(t, header).value.size, end)
               && w.events != [] && w.events[|w.events| - 1] == Overflow(end))
  }

  lemma StepStopExplained(t: seq<Option<PacketInfo>>, cl: seq<byte>, start: nat, offset: nat, end: nat)
    requires WellFormedTable(t) && start <= offset < end
    requires PacketStep(t, cl, start, offset, end).Stopped?
    ensures StopExplained(t, cl, start, end, PacketStep(t, cl, start, offset, end).walk)
  {
    if offset - start < |cl| && Lookup(t, cl[offset - start]).Some? {
      var header := cl[offset - start];
      var info := Lookup(t, header).value;
      var body := PacketBody(t, cl, offset - start, offset, end, header, info);
      BodyFacts(t, cl, offset - start, offset, end, header, info);
      if body.outcome == Overflowed {
        var events := [Header(offset, header)] + body.events;
        assert events[|events| - 1] == body.events[|body.events| - 1];
      }
    }
  }

  /** Every walk that stops early, other than by a fault, stops for one of
      the reasons of StopExplained, and its last event is the step's. */
  lemma WalkStopReason(t: seq<Option<PacketInfo>>, cl: seq<byte>, start: nat, offset: nat, end: nat)
    requires WellFormedTable(t) && start <= offset
    ensures StopExplained(t, cl, start, end, WalkFrom(t, cl, start, offset, end))
  {
    var r := WalkFrom(t, cl, start, offset, end);
    WalkEndsWithStop(t, cl, start, offset, end);
    if r.stop != RangeEnd && r.stop != Fault {
      var w := PacketStep(t, cl, start, r.offset, end).walk;
      StepStopExplained(t, cl, start, r.offset, end);
      if w.events != [] {
        assert r.events[|r.events| - 1] == w.events[|w.events| - 1] by {
          assert r.events[|r.events| - |w.events|..] == w.events;
        }
      }
    }
  }

  /** An empty or inverted range reports nothing. */
  lemma EmptyRange(t: seq<Option<PacketInfo>>, cl: seq<byte>, start: nat, end: nat)
    requires WellFormedTable(t) && end <= start
    ensures WalkFrom(t, cl, start, start, end) == Walk([], RangeEnd, start)
  {
  }

  // ---------------------------------------------------------------------
  // The packets that steer the walk, in `packet_info`

  /** HALT is a one-byte packet that ends the walk. */
  lemma HaltEndsWalk(cl: seq<byte>, start: nat, offset: nat, end: nat)
    requires start <= offset < end && offset - start < |cl| && cl[offset - start] == HALT
    ensures WalkFrom(PacketTable(), cl, start, offset, end) == Walk([Header(offset, HALT)], Terminal, offset)
  {
    HaltEntry();
    PacketFits(PacketTable(), cl, start, offset, end, PacketInfo("VC4_PACKET_HALT", 1, NoDump));
  }

  /** STORE_MS_TILE_BUFFER_AND_EOF is a one-byte packet that ends the walk. */
  lemma StoreAndEofEndsWalk(cl: seq<byte>, start: nat, offset: nat, end: nat)
    requires start <= offset < end && offset - start < |cl| && cl[offset - start] == STORE_MS_TILE_BUFFER_AND_EOF
    ensures WalkFrom(PacketTable(), cl, start, offset, end)
            == Walk([Header(offset, STORE_MS_TILE_BUFFER_AND_EOF)], Terminal, offset)
  {
    StoreAndEofEntry();
    PacketFits(PacketTable(), cl, start, offset, end,
               PacketInfo("VC4_PACKET_STORE_MS_TILE_BUFFER_AND_EOF", 1, NoDump));
  }

  /** BRANCH is not followed: its four address bytes are reported and the
      walk goes on with the packet after it. */
  lemma BranchContinues(cl: seq<byte>, start: nat, offset: nat, end: nat)
    requires start <= offset && offset + 5 <= end && offset - start + 5 <= |cl| && cl[offset - start] == BRANCH
    ensures WalkFrom(PacketTable(), cl, start, offset, end)
            == Then([Header(offset, BRANCH)] + RawRun(cl, offset - start, offset, 1, 5),
                    WalkFrom(PacketTable(), cl, start, offset + 5, end))
  {
    BranchEntry();
    PacketFits(PacketTable(), cl, start, offset, end, PacketInfo("VC4_PACKET_BRANCH", 5, NoDump));
  }

  lemma HaltEntry()
    ensures Lookup(PacketTable(), HALT) == Some(PacketInfo("VC4_PACKET_HALT", 1, NoDump))
  {
    assert PacketTable()[HALT] == Slot(HALT);
  }

  lemma StoreAndEofEntry()
    ensures Lookup(PacketTable(), STORE_MS_TILE_BUFFER_AND_EOF)
            == Some(PacketInfo("VC4_PACKET_STORE_MS_TILE_BUFFER_AND_EOF", 1, NoDump))
  {
    assert PacketTable()[STORE_MS_TILE_BUFFER_AND_EOF] == Slot(STORE_MS_TILE_BUFFER_AND_EOF);
  }

  lemma BranchEntry()
    ensures Lookup(PacketTable(), BRANCH) == Some(PacketInfo("VC4_PACKET_BRANCH", 5, NoDump))
  {
    assert PacketTable()[BRANCH] == Slot(BRANCH);
  }
}
