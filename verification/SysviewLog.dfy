/** Record calls of SystemView and the packets they leave: the log of stored packets with
    their capture times, and the trace of calls with their outcomes. */
module SysviewLog {
  import opened Words
  import opened SysviewPacket
  import opened SysviewBuffer

  datatype Event = Event(id: nat, fields: seq<Field>)

  /** Header, payload and delta fit the packet buffer. */
  predicate Recordable(e: Event) {
    |EncodeFields(e.fields)| + 9 <= MAX_PACKET_SIZE
  }

  /** The host can read the event back: see `KnownExact` and `HeaderNumberExact`. */
  predicate Decodable(e: Event) {
    if e.id < FIRST_FRAMED then Matches(e.fields, Layout(e.id)) else e.id < 0x4000
  }

  predicate AllRecordable(es: seq<Event>) {
    forall e :: e in es ==> Recordable(e)
  }

  /** Every event the record functions write, by the number of its id, can be read back. */
  lemma StandardEvents(a: U32, b: U32, c: U32, d: U32, text: seq<Byte>)
    requires |text| <= 128
    ensures Decodable(Event(0, [])) && Decodable(Event(1, [Num(a)]))           // nop, overflow
    ensures Decodable(Event(2, [Num(a)])) && Decodable(Event(3, []))           // ISR enter, exit
    ensures Decodable(Event(4, [Num(a)])) && Decodable(Event(5, []))           // task start, stop exec
    ensures Decodable(Event(6, [Num(a)])) && Decodable(Event(7, [Num(a), Num(b)]))  // task start, stop ready
    ensures Decodable(Event(8, [Num(a)]))                                      // task create
    ensures Decodable(Event(9, [Num(a), Num(b), Text(text)]))                  // task info
    ensures Decodable(Event(10, [])) && Decodable(Event(11, []))               // trace start, stop
    ensures Decodable(Event(12, [Num(a)])) && Decodable(Event(13, [Num(a), Num(b)]))  // system time
    ensures Decodable(Event(14, [Text(text)]))                                 // system description
    ensures Decodable(Event(15, [Num(a)])) && Decodable(Event(16, [Num(a)]))   // user start, stop
    ensures Decodable(Event(17, [])) && Decodable(Event(18, []))               // idle, ISR to scheduler
    ensures Decodable(Event(19, [Num(a)])) && Decodable(Event(20, []))         // timer enter, exit
    ensures Decodable(Event(21, [Num(a), Num(b), Num(c), Num(d)]))             // stack info
    ensures Decodable(Event(22, [Num(a), Num(b), Text(text)]))                 // module description
    ensures Decodable(Event(24, [Num(a), Num(b), Num(c), Num(d)]))             // init
    ensures Decodable(Event(25, [Num(a), Text(text)]))                         // name of a resource
    ensures Decodable(Event(26, [Text(text), Num(a), Num(0)]))                 // formatted print
    ensures Decodable(Event(27, [Num(a)])) && Decodable(Event(29, [Num(a)]))   // modules, task end
    ensures Decodable(Event(28, [Num(a), Num(b), Num(c)]))                     // end of call
  {
  }

  function PacketOf(e: Event, delta: U32): Packet {
    if e.id < FIRST_FRAMED then Known(e.id, e.fields, delta)
    else Framed(e.id, EncodeFields(e.fields), delta)
  }

  /** A stored packet and the clock value it was stamped with. */
  datatype Entry = Entry(packet: Packet, at: U32)

  /** Clock value of the newest entry, or of the start of the recording. */
  function LastTime(start: U32, log: seq<Entry>): U32 {
    if log == [] then start else log[|log| - 1].at
  }

  /** Every entry carries the time since the one before it. */
  predicate LogOk(start: U32, log: seq<Entry>) {
    log != [] ==>
      var init, e := log[..|log| - 1], log[|log| - 1];
      LogOk(start, init) && e.packet.delta == Sub32(e.at, LastTime(start, init))
  }

  function EncodeLog(log: seq<Entry>): seq<Byte> {
    if log == [] then [] else EncodeLog(log[..|log| - 1]) + EncodePacket(log[|log| - 1].packet)
  }

  lemma LogSnoc(start: U32, log: seq<Entry>, e: Entry)
    requires LogOk(start, log)
    requires e.packet.delta == Sub32(e.at, LastTime(start, log))
    ensures LogOk(start, log + [e]) && LastTime(start, log + [e]) == e.at
    ensures EncodeLog(log + [e]) == EncodeLog(log) + EncodePacket(e.packet)
  {
    assert (log + [e])[..|log|] == log;
  }

  // ----- The host, which sees bytes and knows when the recording started

  /** The start time plus all decoded deltas, modulo 2^32. */
  function HostClock(start: U32, ps: seq<Packet>): U32 {
    if ps == [] then start else Add32(HostClock(start, ps[..|ps| - 1]), ps[|ps| - 1].delta)
  }

  function Packets(log: seq<Entry>): (ps: seq<Packet>)
    ensures |ps| == |log|
    ensures forall i :: 0 <= i < |log| ==> ps[i] == log[i].packet
  {
    seq(|log|, i requires 0 <= i < |log| => log[i].packet)
  }

  lemma EmptyLog(log: seq<Entry>, start: U32)
    requires log == []
    ensures Packets(log) == [] && EncodeAll(Packets(log)) == [] && HostClock(start, Packets(log)) == start
  {
  }

  lemma ClockSnoc(start: U32, ps: seq<Packet>, p: Packet)
    ensures HostClock(start, ps + [p]) == Add32(HostClock(start, ps), p.delta)
  {
    assert (ps + [p])[..|ps|] == ps;
  }

  lemma {:induction false} LogEncodes(start: U32, log: seq<Entry>)
    requires LogOk(start, log)
    ensures EncodeLog(log) == EncodeAll(Packets(log))
    ensures HostClock(start, Packets(log)) == LastTime(start, log)
    decreases |log|
  {
    hide EncodePacket, EncodeAll, Packets, HostClock;
    if log == [] {
      EmptyLog(log, start);
    } else {
      var init, e := log[..|log| - 1], log[|log| - 1];
      LogEncodes(start, init);
      assert Packets(log) == Packets(init) + [e.packet];
      ClockSnoc(start, Packets(init), e.packet);
      EncodeAllSnoc(Packets(init), e.packet);
    }
  }

  lemma {:induction false} PrefixOk(start: U32, log: seq<Entry>, k: nat)
    requires LogOk(start, log) && k <= |log|
    ensures LogOk(start, log[..k])
    decreases |log|
  {
    if k == |log| {
      assert log[..k] == log;
    } else {
      PrefixOk(start, log[..|log| - 1], k);
      assert log[..|log| - 1][..k] == log[..k];
    }
  }

  /** What the host makes of the bytes: the stored packets, and at each of them its own
      clock shows the time the packet was captured. */
  lemma HostReads(start: U32, log: seq<Entry>)
    requires LogOk(start, log) && forall p :: p in Packets(log) ==> WellFormed(p)
    ensures DecodeStream(EncodeLog(log)) == Ok(Packets(log), [])
    ensures forall i :: 0 <= i < |log| ==>
      HostClock(start, DecodeStream(EncodeLog(log)).value[..i + 1]) == log[i].at
  {
    hide DecodeStream, EncodeLog, EncodeAll, HostClock, LogOk, WellFormed;
    LogEncodes(start, log);
    StreamRoundTrip(Packets(log));
    forall i | 0 <= i < |log|
      ensures HostClock(start, Packets(log)[..i + 1]) == log[i].at
    {
      PrefixOk(start, log, i + 1);
      LogEncodes(start, log[..i + 1]);
      assert Packets(log[..i + 1]) == Packets(log)[..i + 1];
    }
  }

  lemma RecordableFrames(e: Event, delta: U32)
    ensures Recordable(e) && Decodable(e) ==> WellFormed(PacketOf(e, delta))
    ensures EncodePacket(PacketOf(e, delta)) == Frame(e.id, EncodeFields(e.fields), delta)
  {
  }

  // ----- The trace of calls

  /** How one call of `_SendPacket` ended, before it looks for host commands; a stored
      packet is stamped with the time `at`. */
  datatype Outcome = Off | StillDropping | Suppressed | Stored(at: U32) | Failed

  /** Which outcomes are right for a payload of `size` bytes, given the state (0 off, 1 on,
      2 dropping), whether the event is disabled, and the free space of the ring. A packet
      takes at most nine bytes more than its payload, an overflow packet at most eleven. */
  predicate Due(state: Byte, masked: bool, free: nat, size: nat, outcome: Outcome) {
    match state
    case 0 => outcome.Off?
    case 1 =>
      if masked then outcome.Suppressed?
      else outcome.Stored? || (outcome.Failed? && free < size + 9)
    case _ =>
      if outcome.StillDropping? then free < 11
      else if masked then outcome.Suppressed?
      else outcome.Stored? || (outcome.Failed? && free < 11 + size + 9)
  }

  /** A frame and an overflow packet in bytes. */
  lemma FrameLength(e: Event, delta: U32)
    ensures |EncodePacket(PacketOf(e, delta))| <= |EncodeFields(e.fields)| + 9
  {
    hide EncodeFields;
    RecordableFrames(e, delta);
    NumberLength(delta);
  }

  /** An overflow packet: the drop count it carries and its time. */
  datatype Report = Report(drops: U32, at: U32)

  /** What the recorder did, call by call. `reported` holds the overflow packet stored at
      the beginning of the call, if one was. */
  datatype Act = Sync(stored: bool, at: U32) | Sent(event: Event, reported: seq<Report>, outcome: Outcome)

  /** A packet without its delta. */
  function Bare(p: Packet): Packet {
    p.(delta := 0)
  }

  function Bares(log: seq<Entry>): (bs: seq<Entry>)
    ensures |bs| == |log|
    ensures forall i :: 0 <= i < |log| ==> bs[i] == Entry(Bare(log[i].packet), log[i].at)
  {
    seq(|log|, i requires 0 <= i < |log| => Entry(Bare(log[i].packet), log[i].at))
  }

  function OverflowOf(r: Report): Entry {
    Entry(Known(1, [Num(r.drops)], 0), r.at)
  }

  /** The packets one call leaves in the stream, with the times they were captured. */
  function Left(a: Act): seq<Entry> {
    match a
    case Sync(stored, at) => if stored then Silence(at, 5) else []
    case Sent(e, reported, outcome) =>
      (if |reported| == 1 then [OverflowOf(reported[0])] else [])
      + (if outcome.Stored? then [Entry(PacketOf(e, 0), outcome.at)] else [])
  }

  function LeftAll(trace: seq<Act>): seq<Entry> {
    if trace == [] then [] else LeftAll(trace[..|trace| - 1]) + Left(trace[|trace| - 1])
  }

  /** The events handed to `_SendPacket`. */
  function Calls(trace: seq<Act>): seq<Event> {
    if trace == [] then []
    else
      var a := trace[|trace| - 1];
      Calls(trace[..|trace| - 1]) + (if a.Sent? then [a.event] else [])
  }

  /** Calls in the dropping state that did not get out of it. */
  function Drops(trace: seq<Act>): nat {
    if trace == [] then 0
    else
      var a := trace[|trace| - 1];
      Drops(trace[..|trace| - 1]) + (if a.Sent? && a.outcome.StillDropping? then 1 else 0)
  }

  /** Calls that changed the state from on to dropping. */
  function Transitions(trace: seq<Act>): nat {
    if trace == [] then 0
    else
      var a := trace[|trace| - 1];
      Transitions(trace[..|trace| - 1]) + (if a.Sent? && a.outcome.Failed? then 1 else 0)
  }

  /** At most one report per call, of the drops so far modulo 2^32. */
  predicate ReportOk(a: Act, drops: nat) {
    a.Sent? ==> |a.reported| <= 1 && (a.reported != [] ==> a.reported[0].drops == drops % TWO32)
  }

  predicate ReportsOk(trace: seq<Act>) {
    trace != [] ==>
      var init, a := trace[..|trace| - 1], trace[|trace| - 1];
      ReportsOk(init) && ReportOk(a, Drops(init))
  }

  lemma {:induction false} TraceSnoc(trace: seq<Act>, a: Act)
    ensures LeftAll(trace + [a]) == LeftAll(trace) + Left(a)
    ensures Calls(trace + [a]) == Calls(trace) + (if a.Sent? then [a.event] else [])
    ensures Drops(trace + [a]) == Drops(trace) + (if a.Sent? && a.outcome.StillDropping? then 1 else 0)
    ensures Transitions(trace + [a]) == Transitions(trace) + (if a.Sent? && a.outcome.Failed? then 1 else 0)
    ensures ReportsOk(trace + [a]) <==> ReportsOk(trace) && ReportOk(a, Drops(trace))
  {
    var all := trace + [a];
    assert all[..|all| - 1] == trace;
  }

  lemma BaresOf(log: seq<Entry>, e: Entry)
    ensures Bares(log + [e]) == Bares(log) + [Entry(Bare(e.packet), e.at)]
  {
  }

  lemma BareSilence(log: seq<Entry>, at: U32, k: nat)
    ensures Bares(log + Silence(at, k)) == Bares(log) + Silence(at, k)
  {
  }

  lemma BarePacket(e: Event, delta: U32)
    ensures Bare(PacketOf(e, delta)) == PacketOf(e, 0)
  {
  }

  /** The call's own entry: the overflow packet was stamped at the clock reading `tick`, the
      packet of the event at the next one, or at `tick` if no overflow packet was due. */
  ghost predicate IsCall(a: Act, e: Event, outcome: Outcome, clock: nat -> U32, tick: nat) {
    && a.Sent? && a.event == e && a.outcome == outcome && |a.reported| <= 1
    && (a.reported != [] ==> a.reported[0].at == clock(tick))
    && (outcome.Stored? ==> outcome.at == clock(tick + |a.reported|))
  }

  lemma OneCall(before: seq<Act>, after: seq<Act>)
    requires |after| == |before| + 1 && before <= after && after[|before|].Sent?
    ensures Calls(after) == Calls(before) + [after[|before|].event]
  {
    assert after == before + [after[|before|]];
    TraceSnoc(before, after[|before|]);
  }

  /** What a call adds to the log is what its entry in the trace leaves. */
  lemma LogLeft(log: seq<Entry>, base: seq<Entry>, after: seq<Entry>, a: Act)
    requires a.Sent? && |a.reported| <= 1 && |base| == |log| + |a.reported| && log <= base <= after
    requires a.reported != [] ==>
      Entry(Bare(base[|log|].packet), base[|log|].at) == OverflowOf(a.reported[0])
    requires |after| == |base| + if a.outcome.Stored? then 1 else 0
    requires a.outcome.Stored? ==>
      Entry(Bare(after[|base|].packet), after[|base|].at) == Entry(PacketOf(a.event, 0), a.outcome.at)
    ensures Bares(after) == Bares(log) + Left(a)
  {
    hide Bares, PacketOf, OverflowOf;
    if a.reported != [] {
      assert base == log + [base[|log|]];
      BaresOf(log, base[|log|]);
    } else {
      assert base == log;
    }
    if a.outcome.Stored? {
      assert after == base + [after[|base|]];
      BaresOf(base, after[|base|]);
    } else {
      assert after == base;
    }
  }

  /** One more call in the trace. */
  lemma Accounted(trace: seq<Act>, log: seq<Entry>, after: seq<Entry>, a: Act,
                  drops: U32, wraps: nat, failed: nat)
    requires log == LeftAll(trace) && after == log + Left(a) && ReportsOk(trace) && a.Sent?
    requires failed == Drops(trace) + Transitions(trace) == drops + TWO32 * wraps + Transitions(trace)
    requires |a.reported| <= 1 && (a.reported != [] ==> a.reported[0].drops == drops)
    ensures var all := trace + [a];
            && after == LeftAll(all) && ReportsOk(all)
            && Transitions(all) == Transitions(trace) + (if a.outcome.Failed? then 1 else 0)
            && Drops(all) + Transitions(all)
               == failed + (if a.outcome.Failed? || a.outcome.StillDropping? then 1 else 0)
  {
    hide Left;
    TraceSnoc(trace, a);
  }

  /** Every event that was stored can be read back. */
  predicate StoredDecodable(trace: seq<Act>) {
    forall a :: a in trace && a.Sent? && a.outcome.Stored? ==> Recordable(a.event) && Decodable(a.event)
  }

  lemma {:induction false} LeftWellFormed(trace: seq<Act>)
    requires StoredDecodable(trace)
    ensures forall e :: e in LeftAll(trace) ==> WellFormed(e.packet)
    decreases |trace|
  {
    if trace != [] {
      var init, a := trace[..|trace| - 1], trace[|trace| - 1];
      LeftWellFormed(init);
      hide WellFormed, PacketOf, Recordable, Decodable;
      ActWellFormed(a);
    }
  }

  lemma ActWellFormed(a: Act)
    requires a.Sent? && a.outcome.Stored? ==> Recordable(a.event) && Decodable(a.event)
    ensures forall e :: e in Left(a) ==> WellFormed(e.packet)
  {
    if a.Sent? {
      RecordableFrames(a.event, 0);
    }
  }

  lemma BareWellFormed(p: Packet)
    ensures WellFormed(Bare(p)) <==> WellFormed(p)
  {
  }

  /** The packets behind entries that are well formed without their deltas. */
  lemma LogWellFormed(log: seq<Entry>)
    requires forall e :: e in Bares(log) ==> WellFormed(e.packet)
    ensures forall p :: p in Packets(log) ==> WellFormed(p)
  {
    hide WellFormed;
    forall p | p in Packets(log)
      ensures WellFormed(p)
    {
      var i :| 0 <= i < |log| && Packets(log)[i] == p;
      assert Bares(log)[i] in Bares(log);
      BareWellFormed(p);
    }
  }

  // ----- Calls made among others

  /** `xs` in their order, possibly with other calls in between. */
  predicate Among(xs: seq<Event>, ys: seq<Event>) {
    xs == [] ||
    (ys != [] &&
     var x, y, init := xs[|xs| - 1], ys[|ys| - 1], ys[..|ys| - 1];
     (x == y && Among(xs[..|xs| - 1], init)) || Among(xs, init))
  }

  /** The calls since `before` contain `xs`. */
  predicate Added(before: seq<Event>, xs: seq<Event>, after: seq<Event>) {
    before <= after && Among(xs, after[|before|..])
  }

  lemma {:induction false} AmongMore(xs: seq<Event>, ys: seq<Event>, vs: seq<Event>)
    requires Among(xs, ys)
    ensures Among(xs, ys + vs)
    decreases |vs|
  {
    if vs == [] {
      assert ys + vs == ys;
    } else {
      var all := ys + vs;
      assert all[..|all| - 1] == ys + vs[..|vs| - 1];
      AmongMore(xs, ys, vs[..|vs| - 1]);
    }
  }

  lemma {:induction false} AmongConcat(xs: seq<Event>, ys: seq<Event>, us: seq<Event>, vs: seq<Event>)
    requires Among(xs, ys) && Among(us, vs)
    ensures Among(xs + us, ys + vs)
    decreases |vs|
  {
    if us == [] {
      assert xs + us == xs;
      AmongMore(xs, ys, vs);
    } else {
      var init, all, both := vs[..|vs| - 1], ys + vs, xs + us;
      assert all[..|all| - 1] == ys + init && all[|all| - 1] == vs[|vs| - 1];
      assert both[..|both| - 1] == xs + us[..|us| - 1] && both[|both| - 1] == us[|us| - 1];
      if us[|us| - 1] == vs[|vs| - 1] && Among(us[..|us| - 1], init) {
        AmongConcat(xs, ys, us[..|us| - 1], init);
      } else {
        AmongConcat(xs, ys, us, init);
      }
    }
  }

  lemma AddedNothing(a: seq<Event>)
    ensures Added(a, [], a)
  {
  }

  lemma AddedOne(a: seq<Event>, e: Event, b: seq<Event>)
    requires a + [e] <= b
    ensures Added(a, [e], b)
  {
    var more := b[|a|..];
    assert more == [e] + more[1..];
    assert [e][..0] == [] && Among([e], [e]);
    AmongMore([e], [e], more[1..]);
  }

  lemma AddedMore(a: seq<Event>, xs: seq<Event>, b: seq<Event>, us: seq<Event>, c: seq<Event>)
    requires Added(a, xs, b) && Added(b, us, c)
    ensures Added(a, xs + us, c)
  {
    AmongConcat(xs, b[|a|..], us, c[|b|..]);
    assert c[|a|..] == b[|a|..] + c[|b|..];
  }

  lemma {:induction false} CallsGrow(before: seq<Act>, after: seq<Act>)
    requires before <= after
    ensures Calls(before) <= Calls(after)
    decreases |after|
  {
    if before == after {
    } else {
      var init := after[..|after| - 1];
      CallsGrow(before, init);
    }
  }

  // ----- The mask of disabled events

  /** `1u << id` */
  function Bit(id: nat): bv32
    requires id < 32
  {
    (1 as bv32) << id
  }

  /** Id 0 is the lowest bit and each id is twice the one before it. */
  lemma BitDoubles(id: nat)
    requires id < 31
    ensures Bit(0) == 1 && Bit(id + 1) == 2 * Bit(id)
  {
  }

  function And(x: bv32, b: bv32): bv32 {
    x & b
  }

  predicate Test(mask: bv32, b: bv32) {
    And(mask, b) != 0
  }

  /** The test of `_SendPacket`: only ids below 32 can be disabled. */
  predicate Masked(mask: bv32, id: nat) {
    id < 32 && Test(mask, Bit(id))
  }

  predicate OneBit(b: bv32) {
    b != 0 && b & (b - 1) == 0
  }

  function ClearMask(d: bv32, m: bv32): bv32 {
    d & !m
  }

  function SetMask(d: bv32, m: bv32): bv32 {
    d | m
  }

  lemma BitIsOne(id: nat)
    requires id < 32
    ensures OneBit(Bit(id))
  {
  }

  predicate Covers(m: bv32, b: bv32) {
    m & b == b
  }

  /** One bit is there or not. */
  lemma AllOrNothing(m: bv32, b: bv32)
    requires OneBit(b)
    ensures Test(m, b) ==> Covers(m, b)
  {
  }

  lemma ClearBit(d: bv32, m: bv32, b: bv32)
    requires OneBit(b)
    ensures Test(ClearMask(d, m), b) <==> Test(d, b) && !Test(m, b)
  {
    hide OneBit, Test, Covers, ClearMask;
    AllOrNothing(m, b);
    if Test(m, b) {
      Cleared(d, m, b);
    } else {
      Untouched(d, m, b);
    }
  }

  lemma Untouched(d: bv32, m: bv32, b: bv32)
    requires !Test(m, b)
    ensures Test(ClearMask(d, m), b) <==> Test(d, b)
  {
    hide And, ClearMask;
    Disjoint(d, m, b);
  }

  lemma Disjoint(d: bv32, m: bv32, b: bv32)
    requires And(m, b) == 0
    ensures And(ClearMask(d, m), b) == And(d, b)
  {
  }

  lemma Cleared(d: bv32, m: bv32, b: bv32)
    requires Covers(m, b)
    ensures !Test(ClearMask(d, m), b)
  {
  }

  lemma SetBit(d: bv32, m: bv32, b: bv32)
    ensures Test(SetMask(d, m), b) <==> Test(d, b) || Test(m, b)
  {
    hide And, SetMask;
    Distributes(d, m, b);
    OrZero(And(d, b), And(m, b));
  }

  lemma Distributes(d: bv32, m: bv32, b: bv32)
    ensures And(SetMask(d, m), b) == SetMask(And(d, b), And(m, b))
  {
  }

  lemma OrZero(x: bv32, y: bv32)
    ensures SetMask(x, y) == 0 <==> x == 0 && y == 0
  {
  }

  /** Clearing the bits of a mask enables exactly its ids, */
  lemma ClearMaskEnables(d: bv32, m: bv32, id: nat)
    ensures Masked(ClearMask(d, m), id) <==> Masked(d, id) && !Masked(m, id)
  {
    if id < 32 {
      hide Bit, Test, OneBit, ClearMask;
      BitIsOne(id);
      ClearBit(d, m, Bit(id));
    }
  }

  /** and setting them disables exactly its ids. */
  lemma SetMaskDisables(d: bv32, m: bv32, id: nat)
    ensures Masked(SetMask(d, m), id) <==> Masked(d, id) || Masked(m, id)
  {
    if id < 32 {
      hide Bit, Test, SetMask;
      SetBit(d, m, Bit(id));
    }
  }

  lemma OverflowFits(drops: U32, delta: U32)
    ensures Recordable(Event(EVT_OVERFLOW, [Num(drops)]))
    ensures EncodePacket(PacketOf(Event(EVT_OVERFLOW, [Num(drops)]), delta))
         == [EVT_OVERFLOW] + EncodeU32(drops) + EncodeU32(delta)
    ensures |[EVT_OVERFLOW] + EncodeU32(drops) + EncodeU32(delta)| <= 11
  {
    SmallEvent(EVT_OVERFLOW, [Num(drops)]);
    assert EncodeFields([Num(drops)]) == EncodeU32(drops) + [];
    NumberLength(drops);
    NumberLength(delta);
  }

  /** Events with up to two numbers fit the packet buffer. */
  lemma SmallEvent(id: nat, fields: seq<Field>)
    requires |fields| <= 2 && forall f :: f in fields ==> f.Num?
    ensures Recordable(Event(id, fields))
  {
    if |fields| >= 1 {
      assert fields[0] in fields;
      NumberLength(fields[0].v);
      var rest := fields[1..];
      if |rest| == 1 {
        assert rest[0] == fields[1] && fields[1] in fields;
        NumberLength(rest[0].v);
        assert rest[1..] == [];
        assert EncodeFields(rest) == EncodeField(rest[0]) + EncodeFields([]);
      }
    }
  }

  /** Entries that take no time. */
  function Silence(at: U32, k: nat): seq<Entry> {
    seq(k, _ => Entry(NOP, at))
  }

  /** Zero bytes can be logged as entries that take no time. */
  lemma {:induction false} NopEntries(start: U32, log: seq<Entry>, k: nat)
    requires LogOk(start, log)
    ensures var all := log + Silence(LastTime(start, log), k);
            && LogOk(start, all)
            && LastTime(start, all) == LastTime(start, log)
            && EncodeLog(all) == EncodeLog(log) + Zeros(2 * k)
  {
    hide EncodePacket;
    var at := LastTime(start, log);
    if k == 0 {
      assert log + Silence(at, k) == log;
      assert EncodeLog(log) + Zeros(0) == EncodeLog(log);
    } else {
      NopEntries(start, log, k - 1);
      var init := log + Silence(at, k - 1);
      assert log + Silence(at, k) == init + [Entry(NOP, at)];
      LogSnoc(start, init, Entry(NOP, at));
      TwoZeros(EncodeLog(log), k);
    }
  }

  lemma TwoZeros(s: seq<Byte>, k: nat)
    requires k > 0
    ensures (s + Zeros(2 * (k - 1))) + EncodePacket(NOP) == s + Zeros(2 * k)
  {
    assert EncodePacket(NOP) == [0, 0];
  }
}
