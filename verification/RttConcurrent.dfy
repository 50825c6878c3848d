/** The up ring with the target and the debug probe running at the same time.
    The target copies byte by byte and then publishes `WrOff`; the probe looks at
    `WrOff`, reads bytes, and then publishes `RdOff`. No lock is held between them,
    so a run is any interleaving of the seven steps below. */
module RttConcurrent {
  import opened Words
  import opened CyclicRing
  import opened RttRing

  datatype Mode = Skip | Trim | Block

  datatype Target =
    | Idle
    | Looking(mode: Mode, data: seq<Byte>)  // about to read RdOff
    | Copying(pos: nat, staged: seq<Byte>, chunk: seq<Byte>, rest: seq<Byte>)

  datatype Probe =
    | Resting
    | Reading(pos: nat, end: nat, taken: seq<Byte>)

  /** `accepted`, `published` and `consumed` record the run: the bytes the target
      committed to send, those below `WrOff`, and those the probe has released. */
  datatype State = State(buf: seq<Byte>, rd: nat, wr: nat, target: Target, probe: Probe,
                         accepted: seq<Byte>, published: seq<Byte>, consumed: seq<Byte>)

  datatype Event =
    | Begin(mode: Mode, data: seq<Byte>) | ReadRdOff | CopyByte | PublishWrOff
    | ReadWrOff | TakeByte | PublishRdOff

  predicate Shape(s: State) {
    && Offsets(|s.buf|, s.rd, s.wr)
    && (s.target.Looking? ==> |s.target.data| < TWO32)
    && (s.target.Copying? ==> s.target.pos < |s.buf| && |s.target.rest| < TWO32)
    && (s.probe.Reading? ==> s.probe.pos < |s.buf| && s.probe.end < |s.buf|)
  }

  function Initial(buf: seq<Byte>): (s: State)
    requires 2 <= |buf| < TWO32
    ensures Shape(s)
  {
    State(buf, 0, 0, Idle, Resting, [], [], [])
  }

  /** The space check, with whatever `RdOff` says at that moment. */
  function Look(s: State): (t: State)
    requires Shape(s) && s.target.Looking?
    ensures Shape(t)
  {
    var n, data := |s.buf|, s.target.data;
    var avail := AvailWriteSpace(n, s.rd, s.wr);
    match s.target.mode
    case Skip =>
      if avail < |data| then s.(target := Idle)
      else s.(target := Copying(s.wr, [], data, []), accepted := s.accepted + data)
    case Trim =>
      var sent := data[..Min(avail, |data|)];
      s.(target := Copying(s.wr, [], sent, []), accepted := s.accepted + sent)
    case Block =>
      var k := BlockingChunk(n, s.rd, s.wr, |data|);
      s.(target := Copying(s.wr, [], data[..k], data[k..]))
  }

  /** One step; an event that is not possible in `s` changes nothing. */
  function Step(s: State, e: Event): (t: State)
    requires Shape(s)
    ensures Shape(t) && |t.buf| == |s.buf|
  {
    var n := |s.buf|;
    match e
    case Begin(mode, data) =>
      if !s.target.Idle? || |data| >= TWO32 then s
      else s.(target := Looking(mode, data),
              accepted := if mode.Block? then s.accepted + data else s.accepted)
    case ReadRdOff => if s.target.Looking? then Look(s) else s
    case CopyByte =>
      if s.target.Copying? && s.target.chunk != [] then
        var Copying(pos, staged, chunk, rest) := s.target;
        s.(buf := s.buf[pos := chunk[0]],
           target := Copying(Succ(n, pos), staged + [chunk[0]], chunk[1..], rest))
      else s
    case PublishWrOff =>
      if s.target.Copying? && s.target.chunk == [] then
        s.(wr := s.target.pos, published := s.published + s.target.staged,
           target := if s.target.rest == [] then Idle else Looking(Block, s.target.rest))
      else s
    case ReadWrOff => if s.probe.Resting? then s.(probe := Reading(s.rd, s.wr, [])) else s
    case TakeByte =>
      if s.probe.Reading? && s.probe.pos != s.probe.end then
        var Reading(pos, end, taken) := s.probe;
        s.(probe := Reading(Succ(n, pos), end, taken + [s.buf[pos]]))
      else s
    case PublishRdOff =>
      if s.probe.Reading? then
        s.(rd := s.probe.pos, consumed := s.consumed + s.probe.taken, probe := Resting)
      else s
  }

  function Run(s: State, events: seq<Event>): (t: State)
    requires Shape(s)
    ensures Shape(t) && |t.buf| == |s.buf|
    decreases |events|
  {
    if events == [] then s else Run(Step(s, events[0]), events[1..])
  }

  function Unread(s: State): seq<Byte>
    requires Shape(s)
  {
    Seg(s.buf, s.rd, s.wr)
  }

  /** Bytes the target has committed to but not yet published. */
  function InFlight(s: State): seq<Byte> {
    match s.target
    case Idle => []
    case Looking(mode, data) => if mode.Block? then data else []
    case Copying(_, staged, chunk, rest) => staged + chunk + rest
  }

  predicate TargetInv(s: State)
    requires Shape(s)
  {
    s.target.Copying? ==>
      && s.target.staged == Seg(s.buf, s.wr, s.target.pos)
      && |s.target.staged| + |s.target.chunk| <= AvailWriteSpace(|s.buf|, s.rd, s.wr)
  }

  predicate ProbeInv(s: State)
    requires Shape(s)
  {
    s.probe.Reading? ==>
      var n := |s.buf|;
      && Dist(n, s.rd, s.probe.pos) <= Dist(n, s.rd, s.probe.end) <= Dist(n, s.rd, s.wr)
      && s.probe.taken == Seg(s.buf, s.rd, s.probe.pos)
  }

  /** The target never holds more than the free space, however old its `RdOff`;
      the unread bytes are the published ones not yet consumed; nothing committed
      is lost on the way. */
  predicate Inv(s: State) {
    && Shape(s)
    && s.consumed + Unread(s) == s.published
    && s.published + InFlight(s) == s.accepted
    && TargetInv(s)
    && ProbeInv(s)
  }

  lemma StartCopy(s: State, chunk: seq<Byte>, rest: seq<Byte>, accepted: seq<Byte>)
    requires Inv(s) && |chunk| <= AvailWriteSpace(|s.buf|, s.rd, s.wr) && |rest| < TWO32
    requires s.published + (chunk + rest) == accepted
    ensures Inv(s.(target := Copying(s.wr, [], chunk, rest), accepted := accepted))
  {
    assert Seg(s.buf, s.wr, s.wr) == [];
    assert [] + chunk + rest == chunk + rest;
  }

  lemma LookKeeps(s: State)
    requires Inv(s) && s.target.Looking?
    ensures Inv(Look(s))
  {
    var t := Look(s);
    if t.target.Copying? {
      var Copying(_, _, chunk, rest) := t.target;
      assert s.published + (chunk + rest) == t.accepted by {
        if s.target.mode.Block? {
          assert chunk + rest == s.target.data;
        } else {
          assert s.published + [] == s.published;
          assert chunk + rest == chunk;
        }
      }
      StartCopy(s, chunk, rest, t.accepted);
    } else {
      assert InFlight(s) == InFlight(t) == [];
    }
  }

  lemma CopyKeeps(s: State)
    requires Inv(s) && s.target.Copying? && s.target.chunk != []
    ensures Inv(Step(s, CopyByte))
    ensures Unread(Step(s, CopyByte)) == Unread(s)
  {
    hide Seg;
    var n, t := |s.buf|, Step(s, CopyByte);
    var Copying(pos, staged, chunk, rest) := s.target;
    assert Dist(n, s.rd, pos) == Dist(n, s.rd, s.wr) + |staged|;
    SegFrame(s.buf, s.rd, s.wr, pos, chunk[0]);
    SegSnoc(s.buf, s.wr, pos, chunk[0]);
    if s.probe.Reading? {
      SegFrame(s.buf, s.rd, s.probe.pos, pos, chunk[0]);
    }
    StageOne(staged, chunk, rest);
  }

  lemma StageOne(staged: seq<Byte>, chunk: seq<Byte>, rest: seq<Byte>)
    requires chunk != []
    ensures (staged + [chunk[0]]) + chunk[1..] + rest == staged + chunk + rest
  {
    assert (staged + [chunk[0]]) + chunk[1..] == staged + chunk;
  }

  lemma PublishWrKeeps(s: State)
    requires Inv(s) && s.target.Copying? && s.target.chunk == []
    ensures Inv(Step(s, PublishWrOff))
  {
    hide Seg;
    var t, staged, rest := Step(s, PublishWrOff), s.target.staged, s.target.rest;
    SegSplit(s.buf, s.rd, s.wr, t.wr);
    Assoc(s.consumed, Unread(s), staged);
    Assoc(s.published, staged, rest);
    assert staged + [] == staged;
    assert InFlight(t) == rest;
  }

  lemma TakeKeeps(s: State)
    requires Inv(s) && s.probe.Reading? && s.probe.pos != s.probe.end
    ensures Inv(Step(s, TakeByte))
  {
    var t := Step(s, TakeByte);
    var pos := s.probe.pos;
    SegSnoc(s.buf, s.rd, pos, s.buf[pos]);
    assert s.buf[pos := s.buf[pos]] == s.buf;
  }

  lemma PublishRdKeeps(s: State)
    requires Inv(s) && s.probe.Reading?
    ensures Inv(Step(s, PublishRdOff))
    ensures AvailWriteSpace(|s.buf|, s.rd, s.wr)
         <= AvailWriteSpace(|s.buf|, Step(s, PublishRdOff).rd, s.wr)
  {
    var t := Step(s, PublishRdOff);
    SegSplit(s.buf, s.rd, t.rd, s.wr);
    assert (s.consumed + s.probe.taken) + Unread(t) == s.consumed + (s.probe.taken + Unread(t));
  }

  lemma StepKeeps(s: State, e: Event)
    requires Inv(s)
    ensures Inv(Step(s, e))
  {
    match e
    case Begin(mode, data) =>
      if s.target.Idle? {
        assert s.published + InFlight(s) == s.published;
      }
    case ReadRdOff =>
      if s.target.Looking? {
        LookKeeps(s);
      }
    case CopyByte =>
      if s.target.Copying? && s.target.chunk != [] {
        CopyKeeps(s);
      }
    case PublishWrOff =>
      if s.target.Copying? && s.target.chunk == [] {
        PublishWrKeeps(s);
      }
    case ReadWrOff =>
      assert Seg(s.buf, s.rd, s.rd) == [];
    case TakeByte =>
      if s.probe.Reading? && s.probe.pos != s.probe.end {
        TakeKeeps(s);
      }
    case PublishRdOff =>
      if s.probe.Reading? {
        PublishRdKeeps(s);
      }
  }

  lemma {:induction false} RunKeeps(s: State, events: seq<Event>)
    requires Inv(s)
    ensures Inv(Run(s, events))
    decreases |events|
  {
    if events != [] {
      StepKeeps(s, events[0]);
      RunKeeps(Step(s, events[0]), events[1..]);
    }
  }

  /** In every interleaving: consumed, unread and in-flight bytes are, in that order,
      exactly the accepted bytes; the next cell the target writes is not unread and
      not one the probe may still read. */
  lemma EveryInterleaving(buf: seq<Byte>, events: seq<Event>)
    requires 2 <= |buf| < TWO32
    ensures var s := Run(Initial(buf), events);
            && s.consumed + Unread(s) == s.published
            && s.consumed + Unread(s) + InFlight(s) == s.accepted
            && Unread(Step(s, CopyByte)) == Unread(s)
            && (s.target.Idle? && s.rd == s.wr ==> s.consumed == s.accepted)
  {
    var s0 := Initial(buf);
    assert Inv(s0);
    RunKeeps(s0, events);
    var s := Run(s0, events);
    if s.target.Copying? && s.target.chunk != [] {
      CopyKeeps(s);
    }
    if s.target.Idle? && s.rd == s.wr {
      assert s.consumed + Unread(s) + InFlight(s) == s.consumed;
    }
  }

  lemma FreeSpaceStays(s: State, e: Event)
    requires Inv(s) && !e.PublishWrOff?
    ensures var t := Step(s, e);
            t.wr == s.wr && AvailWriteSpace(|s.buf|, s.rd, s.wr) <= AvailWriteSpace(|t.buf|, t.rd, t.wr)
  {
    if e.PublishRdOff? && s.probe.Reading? {
      PublishRdKeeps(s);
    }
  }

  /** Whatever happens after the space check, probe steps included, the free space
      never falls below what the check saw until the target publishes. */
  lemma {:induction false} StaleRdOffUnderReports(s: State, events: seq<Event>)
    requires Inv(s) && PublishWrOff !in events
    ensures var t := Run(s, events);
            t.wr == s.wr && AvailWriteSpace(|s.buf|, s.rd, s.wr) <= AvailWriteSpace(|t.buf|, t.rd, t.wr)
    decreases |events|
  {
    if events != [] {
      hide Step, Inv, AvailWriteSpace;
      assert events[0] in events;
      StepKeeps(s, events[0]);
      FreeSpaceStays(s, events[0]);
      StaleRdOffUnderReports(Step(s, events[0]), events[1..]);
    }
  }

  /** The state with the whole chunk copied. */
  function AllCopied(s: State): State
    requires Shape(s) && s.target.Copying? && |s.target.chunk| < |s.buf|
  {
    var Copying(pos, staged, chunk, rest) := s.target;
    s.(buf := Put(s.buf, pos, chunk),
       target := Copying(Wrap(|s.buf|, pos + |chunk|), staged + chunk, [], rest))
  }

  /** Left alone, the copy steps do what the sequential write methods do. */
  lemma {:induction false} UninterruptedCopy(s: State)
    requires Inv(s) && s.target.Copying?
    ensures |s.target.chunk| < |s.buf|
    ensures Run(s, seq(|s.target.chunk|, _ => CopyByte)) == AllCopied(s)
    decreases |s.target.chunk|
  {
    RoomAhead(s);
    if s.target.chunk == [] {
      NothingToCopy(s);
    } else {
      CopyKeeps(s);
      CopyOne(s);
      hide Inv, Step, Run, AllCopied;
      UninterruptedCopy(Step(s, CopyByte));
      RunCopies(s, |s.target.chunk|);
    }
  }

  lemma NothingToCopy(s: State)
    requires Shape(s) && s.target.Copying? && s.target.chunk == []
    ensures AllCopied(s) == s && Run(s, seq(0, _ => CopyByte)) == s
  {
    var Copying(pos, staged, chunk, rest) := s.target;
    assert Put(s.buf, pos, chunk) == s.buf;
    assert staged + chunk == staged;
  }

  lemma RoomAhead(s: State)
    requires Inv(s) && s.target.Copying?
    ensures |s.target.chunk| < |s.buf|
  {
  }

  lemma CopyOne(s: State)
    requires Shape(s) && s.target.Copying? && 0 < |s.target.chunk| < |s.buf|
    ensures var t := Step(s, CopyByte);
            && t.target.Copying? && |t.target.chunk| + 1 == |s.target.chunk| && |t.buf| == |s.buf|
            && AllCopied(t) == AllCopied(s)
  {
    hide Put;
    var Copying(pos, staged, chunk, rest) := s.target;
    PutFirst(s.buf, pos, chunk);
    Assoc(staged, [chunk[0]], chunk[1..]);
    assert [chunk[0]] + chunk[1..] == chunk;
  }

  lemma RunCopies(s: State, k: nat)
    requires Shape(s) && k > 0
    ensures Run(s, seq(k, _ => CopyByte)) == Run(Step(s, CopyByte), seq(k - 1, _ => CopyByte))
  {
    var events := seq(k, _ => CopyByte);
    assert events[0] == CopyByte && events[1..] == seq(k - 1, _ => CopyByte);
  }

  lemma PutFirst(buf: seq<Byte>, pos: nat, chunk: seq<Byte>)
    requires pos < |buf| && 0 < |chunk| < |buf|
    ensures Put(buf[pos := chunk[0]], Succ(|buf|, pos), chunk[1..]) == Put(buf, pos, chunk)
  {
  }

  // ----- What each side gets done

  /** What the space check decides, in plain numbers: skip takes all or nothing, trim what
      fits, block a first part up to the end of the buffer. */
  lemma LookExact(s: State)
    requires Shape(s) && s.target.Looking?
    ensures var n, data := |s.buf|, s.target.data;
            var room := n - 1 - Dist(n, s.rd, s.wr);
            Look(s) ==
            match s.target.mode
            case Skip =>
              if |data| <= room then s.(target := Copying(s.wr, [], data, []), accepted := s.accepted + data)
              else s.(target := Idle)
            case Trim =>
              var chunk := if |data| <= room then data else data[..room];
              s.(target := Copying(s.wr, [], chunk, []), accepted := s.accepted + chunk)
            case Block =>
              var upTo := if room < n - s.wr then room else n - s.wr;
              if |data| <= upTo then s.(target := Copying(s.wr, [], data, []))
              else s.(target := Copying(s.wr, [], data[..upTo], data[upTo..]))
  {
    var data := s.target.data;
    assert data[..|data|] == data && data[|data|..] == [];
  }

  lemma {:induction false} RunConcat(s: State, a: seq<Event>, b: seq<Event>)
    requires Shape(s)
    ensures Run(s, a + b) == Run(Run(s, a), b)
    decreases |a|
  {
    if a == [] {
      assert a + b == b;
    } else {
      hide Step;
      assert (a + b)[0] == a[0] && (a + b)[1..] == a[1..] + b;
      RunConcat(Step(s, a[0]), a[1..], b);
    }
  }

  lemma {:induction false} RunOne(s: State, e: Event)
    requires Shape(s)
    ensures Run(s, [e]) == Step(s, e)
  {
    hide Step;
    assert [e][1..] == [];
    assert Run(Step(s, e), []) == Step(s, e);
  }

  lemma OneTake(s: State)
    requires Shape(s) && s.probe.Reading? && s.probe.pos != s.probe.end
    ensures var Reading(pos, end, taken) := s.probe;
            var next := Succ(|s.buf|, pos);
            && Step(s, TakeByte) == s.(probe := Reading(next, end, taken + [s.buf[pos]]))
            && Shape(Step(s, TakeByte)) && Dist(|s.buf|, next, end) + 1 == Dist(|s.buf|, pos, end)
            && Seg(s.buf, pos, end) == [s.buf[pos]] + Seg(s.buf, next, end)
  {
    SegTake(s.buf, s.probe.pos, s.probe.end, 1);
  }

  /** A probe that has looked and is left alone reads everything up to where it looked. */
  lemma {:induction false} TakesAll(s: State)
    requires Shape(s) && s.probe.Reading?
    ensures var Reading(pos, end, taken) := s.probe;
            Run(s, seq(Dist(|s.buf|, pos, end), _ => TakeByte))
            == s.(probe := Reading(end, end, taken + Seg(s.buf, pos, end)))
    decreases Dist(|s.buf|, s.probe.pos, s.probe.end)
  {
    var Reading(pos, end, taken) := s.probe;
    var k := Dist(|s.buf|, pos, end);
    if k == 0 {
      assert Seg(s.buf, pos, end) == [] && taken + [] == taken;
    } else {
      hide Step, Seg, Shape;
      OneTake(s);
      var t, events := Step(s, TakeByte), seq(k, _ => TakeByte);
      assert events[0] == TakeByte && events[1..] == seq(k - 1, _ => TakeByte);
      TakesAll(t);
      Assoc(taken, [s.buf[pos]], Seg(s.buf, Succ(|s.buf|, pos), end));
    }
  }

  /** Looking, reading and releasing, the probe gets every published byte. */
  lemma {:induction false} ProbeDrains(s: State)
    requires Inv(s) && s.probe.Resting?
    ensures var takes := seq(|Unread(s)|, _ => TakeByte);
            Run(s, [ReadWrOff] + (takes + [PublishRdOff])) == s.(rd := s.wr, consumed := s.published)
  {
    var takes := seq(|Unread(s)|, _ => TakeByte);
    var t := Step(s, ReadWrOff);
    RunConcat(s, [ReadWrOff], takes + [PublishRdOff]);
    RunOne(s, ReadWrOff);
    RunConcat(t, takes, [PublishRdOff]);
    TakesAll(t);
    assert [] + Unread(s) == Unread(s);
    RunOne(Run(t, takes), PublishRdOff);
  }

  /** A write in skip mode that fits, left alone, publishes all of its data. */
  lemma {:induction false} TargetSends(s: State, data: seq<Byte>)
    requires Inv(s) && s.target.Idle? && |data| <= |s.buf| - 1 - Dist(|s.buf|, s.rd, s.wr)
    ensures var copies := seq(|data|, _ => CopyByte);
            Run(s, [Begin(Skip, data)] + ([ReadRdOff] + (copies + [PublishWrOff])))
            == s.(buf := Put(s.buf, s.wr, data), wr := Wrap(|s.buf|, s.wr + |data|),
                  accepted := s.accepted + data, published := s.published + data)
  {
    hide Put, Look;
    var copies := seq(|data|, _ => CopyByte);
    var s1 := Step(s, Begin(Skip, data));
    var s2 := Step(s1, ReadRdOff);
    RunConcat(s, [Begin(Skip, data)], [ReadRdOff] + (copies + [PublishWrOff]));
    RunOne(s, Begin(Skip, data));
    RunConcat(s1, [ReadRdOff], copies + [PublishWrOff]);
    RunOne(s1, ReadRdOff);
    LookExact(s1);
    RunConcat(s2, copies, [PublishWrOff]);
    StepKeeps(s, Begin(Skip, data));
    StepKeeps(s1, ReadRdOff);
    UninterruptedCopy(s2);
    assert [] + data == data;
    RunOne(Run(s2, copies), PublishWrOff);
  }
}
