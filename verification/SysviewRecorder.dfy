/** The SystemView recorder: `_SendPacket` with its drop/overflow states, time stamp
    deltas, and the host commands that re-enter it. Every record function of
    SEGGER_SYSVIEW.c is a call of `Record` with its event id and fields. */
module SysviewRecorder {
  import opened Words
  import opened SysviewPacket
  import opened SysviewBuffer
  import opened SysviewLog
  import opened RttRing

  const STATE_OFF: Byte := 0
  const STATE_ON: Byte := 1
  const STATE_DROPPING: Byte := 2

  /** The up channel: its ring, the time of the last stored packet, and the record of
      what has been stored and of what the probe has taken. */
  class Uplink {
    const ring: Ring
    const clock: nat -> U32           // the n-th time stamp read
    const pace: nat -> nat            // bytes the probe takes before the n-th store
    var tick: nat
    var lastTx: U32
    ghost const start: U32
    ghost var received: seq<Byte>
    ghost var log: seq<Entry>

    /** The bytes on their way are the logged packets, and the log is on time. */
    ghost predicate Valid()
      reads this, ring, ring.buf
    {
      && ring.Valid()
      && received + ring.Content() == EncodeLog(log)
      && LogOk(start, log)
      && lastTx == LastTime(start, log)
    }

    constructor (size: U32, clock: nat -> U32, pace: nat -> nat)
      requires 2 <= size
      ensures Valid() && fresh(ring) && fresh(ring.buf) && ring.buf.Length == size
      ensures this.clock == clock && this.pace == pace && log == [] && start == clock(0)
    {
      this.clock, this.pace := clock, pace;
      ring := new Ring(size, MODE_SKIP);
      lastTx, start, tick := clock(0), clock(0), 1;
      received, log := [], [];
      new;
      assert received + ring.Content() == [];
    }

    /** The host, given nothing but the bytes and the start time, recovers every stored
        packet and its capture time. */
    lemma HostView()
      requires Valid() && forall p :: p in Packets(log) ==> WellFormed(p)
      ensures DecodeStream(received + ring.Content()) == Ok(Packets(log), [])
      ensures forall i :: 0 <= i < |log| ==>
        HostClock(start, DecodeStream(received + ring.Content()).value[..i + 1]) == log[i].at
    {
      HostReads(start, log);
    }

    /** Time passes: the probe takes some bytes, then the clock is read. */
    method Tick() returns (now: U32)
      requires Valid()
      modifies this`tick, this`received, ring`rdOff
      ensures Valid()
      ensures tick == old(tick) + 1 && now == clock(old(tick))
      ensures ring.Free() >= old(ring.Free())
    {
      var out := ring.HostRead(pace(tick));
      Assoc(received, out, ring.Content());
      received := received + out;
      now := clock(tick);
      tick := tick + 1;
    }

    /** Hand one complete packet to the ring: all of it or nothing. */
    method Store(bytes: seq<Byte>, now: U32, ghost p: Packet) returns (status: U32)
      requires Valid() && p.delta == Sub32(now, lastTx)
      requires bytes == EncodePacket(p) && |bytes| < TWO32
      modifies this`lastTx, this`log, ring`wrOff, ring`cells, ring.buf
      ensures Valid()
      ensures status == 0 || status == 1
      ensures status == if |bytes| <= old(ring.Free()) then 1 else 0
      ensures status == 1 ==> log == old(log) + [Entry(p, now)] && lastTx == now
      ensures status == 1 ==> ring.Free() == old(ring.Free()) - |bytes|
      ensures status == 0 ==> log == old(log) && lastTx == old(lastTx) && ring.Free() < |bytes|
    {
      hide EncodePacket, EncodeLog, LogOk, LastTime;
      ghost var held := ring.Content();
      status := ring.WriteSkipNoLock(bytes);
      if status == 1 {
        LogSnoc(start, log, Entry(p, now));
        Assoc(received, held, bytes);
        lastTx := now;
        log := log + [Entry(p, now)];
      }
    }

    /** The ten sync bytes; the caller ignores whether they were stored. */
    method StoreSync() returns (status: U32)
      requires Valid()
      modifies this`log, ring`wrOff, ring`cells, ring.buf
      ensures Valid()
      ensures status == if 10 <= old(ring.Free()) then 1 else 0
      ensures log == if status == 1 then old(log) + Silence(LastTime(start, old(log)), 5) else old(log)
    {
      ghost var held := ring.Content();
      status := ring.WriteSkipNoLock(Zeros(10));
      if status == 1 {
        NopEntries(start, log, 5);
        Assoc(received, held, Zeros(10));
        log := log + Silence(LastTime(start, log), 5);
      }
    }
  }

  class Recorder {
    const link: Uplink
    const down: Ring
    const packet: PacketBuffer
    const osTime: nat -> (U32, U32)   // what pfGetTime returns
    const hasOsTime: bool
    const sysInfo: Event              // the Init packet
    const sysDesc: seq<Event>         // packets sent by pfSendSysDesc
    const taskList: seq<Event>        // ... by pfSendTaskList
    const moduleDesc: seq<Event>      // ... by SEGGER_SYSVIEW_SendModuleDescription
    const modules: seq<Event>         // ... by SEGGER_SYSVIEW_SendModule

    var enableState: Byte
    var dropCount: U32
    var recursionCnt: Byte
    var disabledEvents: bv32

    // The record of the run
    ghost var failedStores: nat       // calls that ended in a failed store
    ghost var transitions: nat        // changes from on to dropping
    ghost var dropWraps: nat          // wrap-arounds of the 32-bit drop counter
    ghost var depth: nat              // calls of _SendPacket in progress
    ghost var deepest: nat            // the most there have been at one time
    ghost var trace: seq<Act>

    ghost predicate Separate() {
      && link.ring != down && link.ring.buf != down.buf
      && packet.buf != link.ring.buf && packet.buf != down.buf
      && packet.buf.Length == MAX_PACKET_SIZE
    }

    ghost predicate CallbacksOk() {
      && Recordable(sysInfo)
      && AllRecordable(sysDesc) && AllRecordable(taskList)
      && AllRecordable(moduleDesc) && AllRecordable(modules)
    }

    ghost predicate CountersOk()
      reads this`enableState, this`failedStores, this`dropCount, this`dropWraps, this`transitions,
            this`recursionCnt, this`depth, this`deepest
    {
      && enableState <= STATE_DROPPING
      && failedStores == dropCount + TWO32 * dropWraps + transitions
      && recursionCnt <= 1
      && depth <= 2 && deepest <= 2
    }

    ghost predicate Ready()
      reads this, link, link.ring, link.ring.buf, down, down.buf
    {
      Separate() && link.Valid() && down.Valid() && CountersOk() && CallbacksOk()
    }

    /** The stored packets and their times are what the calls left, in call order, and the
        counters count the calls. */
    ghost predicate TraceOk()
      reads this`trace, this`transitions, this`failedStores, link`log
    {
      && Bares(link.log) == LeftAll(trace)
      && ReportsOk(trace)
      && transitions == Transitions(trace) && failedStores == Drops(trace) + Transitions(trace)
    }

    /** `_SendPacket` is in progress: the flag shows whether on behalf of a host command. */
    ghost predicate Busy()
      reads this, link, link.ring, link.ring.buf, down, down.buf
    {
      Ready() && TraceOk() && depth == recursionCnt + 1
    }

    /** Between calls: the flag is set exactly while a call handles a host command. */
    ghost predicate Valid()
      reads this, link, link.ring, link.ring.buf, down, down.buf
    {
      Ready() && TraceOk() && depth == recursionCnt
    }

    /** No host command can be handled before the current call returns. */
    ghost predicate Quiet()
      requires down.Valid()
      reads this, down, down.buf
    {
      recursionCnt == 1 || down.Content() == []
    }

    twostate predicate Calm()
      reads this, down
    {
      down.rdOff == old(down.rdOff) && (enableState == STATE_OFF <==> old(enableState) == STATE_OFF)
    }

    /** What the host reads, if the stored events can be read back at all: the packets of
        the calls that stored one, in call order, each at the time that call read off the
        clock, with overflow packets that report the calls dropped so far. */
    lemma HostSees()
      requires Valid() && StoredDecodable(trace)
      ensures var host, left := DecodeStream(link.received + link.ring.Content()), LeftAll(trace);
              && host.Ok? && |host.value| == |left| && ReportsOk(trace)
              && forall i :: 0 <= i < |left| ==>
                   && Bare(host.value[i]) == left[i].packet
                   && HostClock(link.start, host.value[..i + 1]) == left[i].at
      ensures Drops(trace) + Transitions(trace) == dropCount + TWO32 * dropWraps + transitions
    {
      hide DecodeStream, HostClock, LeftAll, WellFormed, StoredDecodable, ReportsOk, Drops, Transitions;
      LeftWellFormed(trace);
      LogWellFormed(link.log);
      link.HostView();
    }

    /** `SEGGER_SYSVIEW_Init`, with everything outside the recorder as parameters. */
    constructor (upSize: U32, downSize: U32, clock: nat -> U32, pace: nat -> nat,
                 osTime: nat -> (U32, U32), hasOsTime: bool,
                 sysInfo: Event, sysDesc: seq<Event>, taskList: seq<Event>,
                 moduleDesc: seq<Event>, modules: seq<Event>)
      requires 2 <= upSize && 2 <= downSize
      requires Recordable(sysInfo) && AllRecordable(sysDesc) && AllRecordable(taskList)
      requires AllRecordable(moduleDesc) && AllRecordable(modules)
      ensures Valid() && trace == [] && link.log == [] && enableState == STATE_OFF && link.start == clock(0)
      ensures recursionCnt == 0 && disabledEvents == 0 && dropCount == 0
      ensures link.ring.buf.Length == upSize && down.buf.Length == downSize && down.Content() == []
      ensures link.clock == clock && link.pace == pace && this.osTime == osTime && this.hasOsTime == hasOsTime
      ensures this.sysInfo == sysInfo && this.sysDesc == sysDesc && this.taskList == taskList
      ensures this.moduleDesc == moduleDesc && this.modules == modules
    {
      this.osTime, this.hasOsTime := osTime, hasOsTime;
      this.sysInfo, this.sysDesc, this.taskList := sysInfo, sysDesc, taskList;
      this.moduleDesc, this.modules := moduleDesc, modules;
      link := new Uplink(upSize, clock, pace);
      down := new Ring(downSize, MODE_SKIP);
      packet := new PacketBuffer();
      enableState, dropCount, recursionCnt, disabledEvents := STATE_OFF, 0, 0, 0;
      failedStores, transitions, dropWraps, depth, deepest, trace := 0, 0, 0, 0, 0, [];
    }

    /** `_TrySendOverflowPacket` */
    method TrySendOverflowPacket() returns (status: U32)
      requires Ready() && enableState == STATE_DROPPING
      modifies link`tick, link`received, link`lastTx, link`log, this`enableState, this`dropCount,
               this`failedStores, this`dropWraps, link.ring`rdOff, link.ring`wrOff, link.ring`cells, link.ring.buf
      ensures Ready() && link.tick == old(link.tick) + 1
      ensures status == 0 || status == 1
      ensures status == 1 ==> enableState == STATE_ON && dropCount == old(dropCount)
      ensures status == 1 ==>
        link.log == old(link.log) + [OverflowEntry(old(dropCount), link.clock(old(link.tick)), old(link.lastTx))]
      ensures status == 0 ==> enableState == STATE_DROPPING && dropCount == Add32(old(dropCount), 1)
      ensures status == 0 ==> link.log == old(link.log)
      ensures failedStores == old(failedStores) + (1 - status)
      ensures old(link.ring.Free()) >= 11 ==> status == 1
      ensures status == 1 ==> link.ring.Free() + 11 >= old(link.ring.Free())
    {
      hide CallbacksOk;
      hide EncodeLog, LogOk, LastTime, EncodeFields, Frame, Recordable, WellFormed;
      var now := link.Tick();
      var e := Event(EVT_OVERFLOW, [Num(dropCount)]);
      var delta := Sub32(now, link.lastTx);
      OverflowFits(dropCount, delta);
      status := link.Store([EVT_OVERFLOW] + EncodeU32(dropCount) + EncodeU32(delta), now, PacketOf(e, delta));
      if status == 1 {
        enableState := enableState - 1;
      } else {
        dropWraps := if dropCount + 1 == TWO32 then dropWraps + 1 else dropWraps;
        dropCount := Add32(dropCount, 1);
        failedStores := failedStores + 1;
      }
    }

    ghost function OverflowEntry(drops: U32, now: U32, last: U32): Entry {
      Entry(Known(1, [Num(drops)], Sub32(now, last)), now)
    }

    /** Frame the payload in the packet buffer, stamp it and try to store it. */
    method Transmit(end: nat, ghost e: Event, id: nat) returns (status: U32)
      requires Ready() && enableState == STATE_ON && Recordable(e) && id == e.id
      requires PAYLOAD_START <= end && end + 5 <= packet.buf.Length
      requires packet.buf[PAYLOAD_START..end] == EncodeFields(e.fields)
      modifies link`tick, link`received, link`lastTx, link`log, this`enableState,
               this`failedStores, this`transitions,
               link.ring`rdOff, link.ring`wrOff, link.ring`cells, link.ring.buf, packet.buf
      ensures Ready() && link.tick == old(link.tick) + 1
      ensures status == 0 || status == 1
      ensures status == 1 ==> enableState == STATE_ON
      ensures status == 1 ==>
        var now := link.clock(old(link.tick));
        link.log == old(link.log) + [Entry(PacketOf(e, Sub32(now, old(link.lastTx))), now)]
      ensures status == 0 ==> enableState == STATE_DROPPING && link.log == old(link.log)
      ensures status == 0 ==>
        link.ring.Free() < |Frame(id, EncodeFields(e.fields), Sub32(link.clock(old(link.tick)), old(link.lastTx)))|
      ensures failedStores == old(failedStores) + (1 - status)
      ensures transitions == old(transitions) + (1 - status)
      ensures old(link.ring.Free()) >= |EncodeFields(e.fields)| + 9 ==> status == 1
    {
      hide CallbacksOk;
      hide EncodeLog, LogOk, LastTime, AllRecordable, EncodeFields, Frame, Recordable, WellFormed;
      var now := link.Tick();
      var delta := Sub32(now, link.lastTx);
      var s, t := packet.FramePacket(PAYLOAD_START, end, id, delta);
      RecordableFrames(e, delta);
      FrameLength(e, delta);
      status := link.Store(packet.buf[s..t], now, PacketOf(e, delta));
      if status == 0 {
        enableState := enableState + 1;
        failedStores, transitions := failedStores + 1, transitions + 1;
      }
    }

    /** `_SendPacket` up to the label SendDone. `base` is the log after the overflow
        packet, if one was due and fitted. */
    method Emit(end: nat, ghost e: Event, id: nat) returns (ghost outcome: Outcome, ghost base: seq<Entry>)
      requires Ready() && Recordable(e) && id == e.id
      requires PAYLOAD_START <= end && end + 5 <= packet.buf.Length
      requires packet.buf[PAYLOAD_START..end] == EncodeFields(e.fields)
      modifies link`tick, link`received, link`lastTx, link`log, this`enableState, this`dropCount,
               this`failedStores, this`transitions, this`dropWraps,
               link.ring`rdOff, link.ring`wrOff, link.ring`cells, link.ring.buf, packet.buf
      ensures Ready()
      ensures outcome.Off? <==> old(enableState) == STATE_OFF
      ensures outcome.Off? || outcome.StillDropping? ==> base == old(link.log) && enableState == old(enableState)
      ensures outcome.StillDropping? ==> old(enableState) == STATE_DROPPING
      ensures old(enableState) == STATE_ON ==> base == old(link.log)
      ensures old(enableState) == STATE_DROPPING && !outcome.StillDropping? ==>
        base == old(link.log) + [OverflowEntry(old(dropCount), link.clock(old(link.tick)), old(link.lastTx))]
      ensures outcome.Suppressed? ==> Masked(disabledEvents, id) && enableState == STATE_ON
      ensures outcome.Stored? ==> enableState == STATE_ON
      ensures outcome.Stored? ==>
        && outcome.at == link.clock(old(link.tick) + |base| - |old(link.log)|)
        && exists delta: U32 :: link.log == base + [Entry(PacketOf(e, delta), outcome.at)]
      ensures link.tick >= old(link.tick)
      ensures !outcome.Stored? ==> link.log == base
      ensures outcome.Failed? ==> enableState == STATE_DROPPING
      ensures outcome.Stored? || outcome.Failed? ==> !Masked(disabledEvents, id)
      ensures failedStores - old(failedStores) == if outcome.Failed? || outcome.StillDropping? then 1 else 0
      ensures transitions - old(transitions) == if outcome.Failed? then 1 else 0
      ensures Due(old(enableState), Masked(disabledEvents, id), old(link.ring.Free()),
                  |EncodeFields(e.fields)|, outcome)
    {
      hide CallbacksOk;
      hide EncodeLog, LogOk, LastTime, AllRecordable, EncodeFields, Frame, Recordable, Masked;
      base := link.log;
      if enableState == STATE_OFF {
        outcome := Off;
        return;
      }
      if enableState == STATE_DROPPING {
        var status := TrySendOverflowPacket();
        base := link.log;
        if enableState != STATE_ON {
          outcome := StillDropping;
          return;
        }
      }
      if Masked(disabledEvents, id) {
        outcome := Suppressed;
        return;
      }
      ghost var now := link.clock(link.tick);
      var status := Transmit(end, e, id);
      outcome := if status == 1 then Stored(now) else Failed;
    }

    /** `Emit`, entered in the trace. */
    method Attempt(end: nat, ghost e: Event, id: nat) returns (ghost outcome: Outcome)
      requires Busy() && Recordable(e) && id == e.id
      requires PAYLOAD_START <= end && end + 5 <= packet.buf.Length
      requires packet.buf[PAYLOAD_START..end] == EncodeFields(e.fields)
      modifies link`tick, link`received, link`lastTx, link`log, this`enableState, this`dropCount,
               this`failedStores, this`transitions, this`dropWraps, this`trace,
               link.ring`rdOff, link.ring`wrOff, link.ring`cells, link.ring.buf, packet.buf
      ensures Busy() && link.tick >= old(link.tick)
      ensures |trace| == |old(trace)| + 1 && old(trace) <= trace
      ensures IsCall(trace[|old(trace)|], e, outcome, link.clock, old(link.tick))
      ensures Due(old(enableState), Masked(disabledEvents, id), old(link.ring.Free()),
                  |EncodeFields(e.fields)|, outcome)
      ensures enableState == STATE_OFF <==> old(enableState) == STATE_OFF
    {
      hide Due, Uplink.Valid, Ring.Valid;
      hide CallbacksOk;
      hide EncodeLog, LogOk, LastTime, AllRecordable, EncodeFields, Frame, Recordable, PacketOf, Masked;
      hide LeftAll, Calls, Drops, Transitions, ReportsOk, Bares, Left;
      ghost var reports, tick := enableState == STATE_DROPPING, link.tick;
      ghost var drops, wraps, failed, log := dropCount, dropWraps, failedStores, link.log;
      ghost var base;
      outcome, base := Emit(end, e, id);
      ghost var reported := if reports && !outcome.StillDropping? then [Report(drops, link.clock(tick))] else [];
      if outcome.Stored? {
        ghost var delta: U32 :| link.log == base + [Entry(PacketOf(e, delta), outcome.at)];
        BarePacket(e, delta);
      }
      ghost var a := Sent(e, reported, outcome);
      LogLeft(log, base, link.log, a);
      Accounted(trace, Bares(log), Bares(link.log), a, drops, wraps, failed);
      trace := trace + [a];
    }

    /** `_SendPacket`. It handles at most one host command, and only when it is not
        itself running on behalf of one, so it is never more than two calls deep. */
    method SendPacket(end: nat, ghost e: Event, id: nat) returns (ghost outcome: Outcome)
      requires Valid() && Recordable(e) && id == e.id
      requires PAYLOAD_START <= end && end + 5 <= packet.buf.Length
      requires packet.buf[PAYLOAD_START..end] == EncodeFields(e.fields)
      modifies this, link, link.ring, link.ring.buf, down`rdOff, packet.buf
      ensures Valid() && recursionCnt == old(recursionCnt) && link.tick >= old(link.tick)
      ensures old(depth) + 1 <= deepest <= 2 && deepest >= old(deepest)
      ensures |old(trace)| < |trace| && old(trace) <= trace
      ensures IsCall(trace[|old(trace)|], e, outcome, link.clock, old(link.tick))
      ensures old(Calls(trace)) + [e] <= Calls(trace)
      ensures Due(old(enableState), old(Masked(disabledEvents, id)), old(link.ring.Free()),
                  |EncodeFields(e.fields)|, outcome)
      ensures old(Quiet()) ==> Calm() && Calls(trace) == old(Calls(trace)) + [e]
      ensures !old(Quiet()) ==>
        exists k :: Handled(old(down.Content()), old(Calls(trace)) + [e], old(enableState), old(link.tick), k)
      decreases 1 - recursionCnt, 1
    {
      hide Due;
      hide CallbacksOk;
      hide EncodeLog, LogOk, LastTime, AllRecordable, EncodeFields, Frame, Recordable, TraceOk, Calls, Masked;
      hide IsCall, Handled, Uplink.Valid, Ring.Valid, Ring.Content;
      depth := depth + 1;
      deepest := Max(deepest, depth);
      outcome := Attempt(end, e, id);
      CallMade(old(trace), trace, e, outcome, old(link.tick));
      ghost var mid, state, tick := trace, enableState, link.tick;
      ghost var k := Poll();
      CallsGrow(mid, trace);
      if !old(Quiet()) {
        HandledSince(old(down.Content()), Calls(mid), old(enableState), state, old(link.tick), tick, k);
      }
      depth := depth - 1;
      assert Calls(mid) == old(Calls(trace)) + [e];
      assert !old(Quiet()) ==> Handled(old(down.Content()), Calls(mid), old(enableState), old(link.tick), k);
    }

    lemma HandledSince(cmd: seq<Byte>, before: seq<Event>, state: Byte, later: Byte, tick: nat, tick': nat, k: nat)
      requires down.Valid() && Handled(cmd, before, later, tick', k)
      requires tick <= tick' && (state == STATE_OFF <==> later == STATE_OFF)
      ensures Handled(cmd, before, state, tick, k)
    {
    }

    lemma CallMade(before: seq<Act>, after: seq<Act>, e: Event, outcome: Outcome, tick: nat)
      requires |after| == |before| + 1 && before <= after
      requires IsCall(after[|before|], e, outcome, link.clock, tick)
      ensures Calls(after) == Calls(before) + [e]
    {
      OneCall(before, after);
    }

    /** The part of `_SendPacket` behind the label SendDone: exactly one host command is
        answered if there is one and none is being handled, none otherwise. */
    method Poll() returns (ghost k: nat)
      requires Busy()
      modifies this, link, link.ring, link.ring.buf, down`rdOff, packet.buf
      ensures Busy() && recursionCnt == old(recursionCnt) && link.tick >= old(link.tick)
      ensures old(trace) <= trace && deepest >= old(deepest)
      ensures old(Quiet()) ==> Calm() && trace == old(trace)
      ensures !old(Quiet()) ==>
        Handled(old(down.Content()), old(Calls(trace)), old(enableState), old(link.tick), k)
      decreases 1 - recursionCnt, 0
    {
      hide EncodeLog, LogOk, LastTime, AllRecordable, Recordable, TraceOk, Calls, Handled;
      k := link.tick;
      var hasData := Sub32(down.wrOff, down.rdOff);
      if hasData != 0 && recursionCnt == 0 {
        recursionCnt := 1;
        k := HandleIncomingPacket();
        recursionCnt := 0;
      }
    }

    /** Any record function: encode the fields, then send. */
    method Record(e: Event) returns (ghost outcome: Outcome)
      requires Valid() && Recordable(e)
      modifies this, link, link.ring, link.ring.buf, down`rdOff, packet.buf
      ensures Valid() && recursionCnt == old(recursionCnt) && link.tick >= old(link.tick)
      ensures deepest >= old(deepest)
      ensures |old(trace)| < |trace| && old(trace) <= trace
      ensures IsCall(trace[|old(trace)|], e, outcome, link.clock, old(link.tick))
      ensures old(Calls(trace)) + [e] <= Calls(trace)
      ensures Due(old(enableState), old(Masked(disabledEvents, e.id)), old(link.ring.Free()),
                  |EncodeFields(e.fields)|, outcome)
      ensures old(Quiet()) ==> Calm() && Calls(trace) == old(Calls(trace)) + [e]
      ensures !old(Quiet()) ==>
        exists k :: Handled(old(down.Content()), old(Calls(trace)) + [e], old(enableState), old(link.tick), k)
      decreases 1 - recursionCnt, 2
    {
      hide Due;
      hide EncodeLog, LogOk, LastTime, AllRecordable, TraceOk, Calls, Masked, IsCall, Handled;
      var end := packet.PutFields(PAYLOAD_START, e.fields);
      assert packet.buf[PAYLOAD_START..end] == EncodeFields(e.fields);
      outcome := SendPacket(end, e, e.id);
    }

    method RecordAll(events: seq<Event>)
      requires Valid() && AllRecordable(events)
      modifies this, link, link.ring, link.ring.buf, down`rdOff, packet.buf
      ensures Valid() && recursionCnt == old(recursionCnt) && link.tick >= old(link.tick)
      ensures old(trace) <= trace && deepest >= old(deepest)
      ensures Added(old(Calls(trace)), events, Calls(trace))
      ensures old(Quiet()) ==> Calm() && Calls(trace) == old(Calls(trace)) + events
      decreases 1 - recursionCnt, 3
    {
      hide EncodeLog, LogOk, LastTime, TraceOk, Calls, Recordable, IsCall, Masked, Added;
      assert events[..0] == [];
      AddedNothing(Calls(trace));
      for i := 0 to |events|
        invariant Valid() && recursionCnt == old(recursionCnt) && link.tick >= old(link.tick)
        invariant old(trace) <= trace && deepest >= old(deepest)
        invariant Added(old(Calls(trace)), events[..i], Calls(trace))
        invariant old(Quiet()) ==> Calm() && Calls(trace) == old(Calls(trace)) + events[..i]
      {
        ghost var before := Calls(trace);
        Assoc(old(Calls(trace)), events[..i], [events[i]]);
        assert events[..i + 1] == events[..i] + [events[i]];
        var _ := Record(events[i]);
        AddedOne(before, events[i], Calls(trace));
        AddedMore(old(Calls(trace)), events[..i], before, [events[i]], Calls(trace));
      }
      assert events[..|events|] == events;
    }

    /** The system time event for the `k`-th reading. */
    ghost function Systime(k: nat): Event {
      if hasOsTime then Event(13, [Num(osTime(k).0), Num(osTime(k).1)]) else Event(12, [Num(link.clock(k))])
    }

    /** `SEGGER_SYSVIEW_RecordSystime`: the reading taken on entry. */
    method RecordSystime()
      requires Valid()
      modifies this, link, link.ring, link.ring.buf, down`rdOff, packet.buf
      ensures Valid() && recursionCnt == old(recursionCnt) && link.tick >= old(link.tick)
      ensures old(trace) <= trace && deepest >= old(deepest)
      ensures old(Calls(trace)) + [Systime(old(link.tick))] <= Calls(trace)
      ensures old(Quiet()) ==> Calm() && Calls(trace) == old(Calls(trace)) + [Systime(old(link.tick))]
      decreases 1 - recursionCnt, 3
    {
      hide EncodeLog, LogOk, LastTime, Calls, LeftAll, Bares, ReportsOk, Drops, Transitions, Recordable;
      hide IsCall, Masked;
      if hasOsTime {
        var (lo, hi) := osTime(link.tick);
        SmallEvent(EVT_SYSTIME_US, [Num(lo), Num(hi)]);
        var _ := Record(Event(EVT_SYSTIME_US, [Num(lo), Num(hi)]));
      } else {
        var now := link.Tick();
        SmallEvent(EVT_SYSTIME_CYCLES, [Num(now)]);
        var _ := Record(Event(EVT_SYSTIME_CYCLES, [Num(now)]));
      }
    }

    ghost function NumModules(): Event {
      Event(27, [Num(|modules| % 256)])
    }

    method SendNumModules()
      requires Valid()
      modifies this, link, link.ring, link.ring.buf, down`rdOff, packet.buf
      ensures Valid() && recursionCnt == old(recursionCnt) && link.tick >= old(link.tick)
      ensures old(trace) <= trace && deepest >= old(deepest)
      ensures old(Calls(trace)) + [NumModules()] <= Calls(trace)
      ensures old(Quiet()) ==> Calm() && Calls(trace) == old(Calls(trace)) + [NumModules()]
      decreases 1 - recursionCnt, 3
    {
      hide EncodeLog, LogOk, LastTime, TraceOk, Calls, Recordable, IsCall, Masked;
      var count := |modules| % 256;
      SmallEvent(EVT_NUMMODULES, [Num(count)]);
      var _ := Record(Event(EVT_NUMMODULES, [Num(count)]));
    }

    /** The act after `before` stored the ten sync bytes exactly if they fitted. */
    ghost predicate Synced(before: seq<Act>, free: nat)
      reads this`trace
    {
      |before| < |trace| && trace[|before|].Sync? && trace[|before|].stored == (free >= 10)
    }

    /** The sync bytes of a start, entered in the trace. */
    method SendSync()
      requires Valid()
      modifies this`trace, link`log, link.ring`wrOff, link.ring`cells, link.ring.buf
      ensures Valid() && old(trace) <= trace && Synced(old(trace), old(link.ring.Free()))
      ensures Calls(trace) == old(Calls(trace))
    {
      hide EncodeLog, LogOk, LastTime, Calls, LeftAll, Bares, ReportsOk, Drops, Transitions;
      ghost var log, at := link.log, LastTime(link.start, link.log);
      var status := link.StoreSync();
      if status == 1 {
        BareSilence(log, at, 5);
      }
      TraceSnoc(trace, Sync(status == 1, at));
      trace := trace + [Sync(status == 1, at)];
    }

    /** The calls of a start. */
    ghost function Startup(k: nat): seq<Event> {
      [Event(10, [])] + [sysInfo] + sysDesc + [Systime(k)] + taskList + [NumModules()]
    }

    /** `SEGGER_SYSVIEW_Start`: all its calls are made in this order; commands of the host
        may be answered in between. */
    method Start() returns (ghost k: nat)
      requires Valid()
      modifies this, link, link.ring, link.ring.buf, down`rdOff, packet.buf
      ensures Valid() && recursionCnt == old(recursionCnt) && link.tick >= old(link.tick)
      ensures old(trace) <= trace && deepest >= old(deepest)
      ensures old(enableState) != STATE_OFF ==>
        enableState == old(enableState) && trace == old(trace) && down.rdOff == old(down.rdOff)
      ensures old(enableState) == STATE_OFF ==>
        && Synced(old(trace), old(link.ring.Free()))
        && old(link.tick) <= k <= link.tick && Added(old(Calls(trace)), Startup(k), Calls(trace))
      ensures old(enableState) == STATE_OFF && old(Quiet()) ==>
        && enableState != STATE_OFF && down.rdOff == old(down.rdOff)
        && Calls(trace) == old(Calls(trace)) + Startup(k)
      decreases 1 - recursionCnt, 5
    {
      hide EncodeLog, LogOk, LastTime, EncodeFields, Frame, Recordable, TraceOk, Calls, Added, Systime, Startup;
      k := link.tick;
      if enableState == STATE_OFF {
        SwitchOn();
        ghost var c0 := Calls(trace);
        Introduce();
        k := link.tick;
        ghost var c1 := Calls(trace);
        Conclude();
        StartupParts(c0, k);
        AddedMore(c0, Intro(), c1, Outro(k), Calls(trace));
      }
    }

    ghost function Intro(): seq<Event> {
      [Event(10, [])] + [sysInfo] + sysDesc
    }

    ghost function Outro(k: nat): seq<Event> {
      [Systime(k)] + taskList + [NumModules()]
    }

    lemma StartupParts(c: seq<Event>, k: nat)
      ensures Intro() + Outro(k) == Startup(k) && (c + Intro()) + Outro(k) == c + Startup(k)
    {
      hide Systime, NumModules;
      Assoc(c, Intro(), Outro(k));
    }

    method Introduce()
      requires Valid()
      modifies this, link, link.ring, link.ring.buf, down`rdOff, packet.buf
      ensures Valid() && recursionCnt == old(recursionCnt) && link.tick >= old(link.tick)
      ensures old(trace) <= trace && deepest >= old(deepest)
      ensures Added(old(Calls(trace)), Intro(), Calls(trace))
      ensures old(Quiet()) ==> Calm() && Calls(trace) == old(Calls(trace)) + Intro()
      decreases 1 - recursionCnt, 4
    {
      hide EncodeLog, LogOk, LastTime, EncodeFields, Frame, Recordable, TraceOk, Calls, Added, IsCall, Masked;
      ghost var c0, e := Calls(trace), Event(EVT_TRACE_START, []);
      SmallEvent(EVT_TRACE_START, []);
      var _ := Record(Event(EVT_TRACE_START, []));
      ghost var c1 := Calls(trace);
      AddedOne(c0, e, c1);
      var _ := Record(sysInfo);
      ghost var c2 := Calls(trace);
      AddedOne(c1, sysInfo, c2);
      AddedMore(c0, [e], c1, [sysInfo], c2);
      RecordAll(sysDesc);
      AddedMore(c0, [e] + [sysInfo], c2, sysDesc, Calls(trace));
      Assoc(c0, [e], [sysInfo]);
      Assoc(c0, [e] + [sysInfo], sysDesc);
    }

    method Conclude()
      requires Valid()
      modifies this, link, link.ring, link.ring.buf, down`rdOff, packet.buf
      ensures Valid() && recursionCnt == old(recursionCnt) && link.tick >= old(link.tick)
      ensures old(trace) <= trace && deepest >= old(deepest)
      ensures Added(old(Calls(trace)), Outro(old(link.tick)), Calls(trace))
      ensures old(Quiet()) ==> Calm() && Calls(trace) == old(Calls(trace)) + Outro(old(link.tick))
      decreases 1 - recursionCnt, 4
    {
      hide EncodeLog, LogOk, LastTime, EncodeFields, Frame, Recordable, TraceOk, Calls, Added, Systime;
      ghost var c0, x := Calls(trace), Systime(link.tick);
      RecordSystime();
      ghost var c1 := Calls(trace);
      AddedOne(c0, x, c1);
      RecordAll(taskList);
      ghost var c2 := Calls(trace);
      AddedMore(c0, [x], c1, taskList, c2);
      SendNumModules();
      AddedOne(c2, NumModules(), Calls(trace));
      AddedMore(c0, [x] + taskList, c2, [NumModules()], Calls(trace));
      Assoc(c0, [x], taskList);
      Assoc(c0, [x] + taskList, [NumModules()]);
    }

    method SwitchOn()
      requires Valid() && enableState == STATE_OFF
      modifies this`enableState, this`trace, link`log, link.ring`wrOff, link.ring`cells, link.ring.buf
      ensures Valid() && enableState == STATE_ON && old(trace) <= trace && Synced(old(trace), old(link.ring.Free()))
      ensures Calls(trace) == old(Calls(trace))
    {
      hide EncodeLog, LogOk, LastTime, Calls, TraceOk;
      enableState := STATE_ON;
      SendSync();
    }

    /** `SEGGER_SYSVIEW_Stop` */
    method Stop()
      requires Valid()
      modifies this, link, link.ring, link.ring.buf, down`rdOff, packet.buf
      ensures Valid() && recursionCnt == old(recursionCnt) && link.tick >= old(link.tick)
      ensures old(trace) <= trace && deepest >= old(deepest)
      ensures enableState == STATE_OFF
      ensures old(enableState) == STATE_OFF ==> trace == old(trace) && down.rdOff == old(down.rdOff)
      ensures old(enableState) != STATE_OFF ==> old(Calls(trace)) + [Event(11, [])] <= Calls(trace)
      ensures old(enableState) != STATE_OFF && old(Quiet()) ==>
        down.rdOff == old(down.rdOff) && Calls(trace) == old(Calls(trace)) + [Event(11, [])]
      decreases 1 - recursionCnt, 5
    {
      hide EncodeLog, LogOk, LastTime, Calls, TraceOk, Recordable, IsCall, Masked;
      if enableState != STATE_OFF {
        SmallEvent(EVT_TRACE_STOP, []);
        var _ := Record(Event(EVT_TRACE_STOP, []));
        enableState := STATE_OFF;
      }
    }

    /** `SEGGER_SYSVIEW_EnableEvents`: from now on these ids are recorded again. */
    method EnableEvents(mask: bv32)
      requires Valid()
      modifies this`disabledEvents
      ensures Valid()
      ensures forall id: nat :: Masked(disabledEvents, id) <==> old(Masked(disabledEvents, id)) && !Masked(mask, id)
    {
      hide Masked, ClearMask, TraceOk;
      ghost var d := disabledEvents;
      disabledEvents := ClearMask(disabledEvents, mask);
      forall id: nat
        ensures Masked(disabledEvents, id) <==> Masked(d, id) && !Masked(mask, id)
      {
        ClearMaskEnables(d, mask, id);
      }
    }

    /** `SEGGER_SYSVIEW_DisableEvents`: from now on these ids are suppressed. */
    method DisableEvents(mask: bv32)
      requires Valid()
      modifies this`disabledEvents
      ensures Valid()
      ensures forall id: nat :: Masked(disabledEvents, id) <==> old(Masked(disabledEvents, id)) || Masked(mask, id)
    {
      hide Masked, SetMask, TraceOk;
      ghost var d := disabledEvents;
      disabledEvents := SetMask(disabledEvents, mask);
      forall id: nat
        ensures Masked(disabledEvents, id) <==> Masked(d, id) || Masked(mask, id)
      {
        SetMaskDisables(d, mask, id);
      }
    }

    /** The calls that answer a host command, after those made before; `k` is the clock
        reading a time answer uses. */
    ghost function Answered(before: seq<Event>, state: Byte, cmd: seq<Byte>, k: nat): seq<Event> {
      if cmd == [] then before
      else match cmd[0]
        case 1 => if state == STATE_OFF then before + Startup(k) else before
        case 2 => if state == STATE_OFF then before else before + [Event(11, [])]
        case 3 => before + [Systime(k)]
        case 4 => before + taskList
        case 5 => before + ([sysInfo] + sysDesc)
        case 6 => before + [NumModules()]
        case 7 => before + moduleDesc
        case 128 => if |cmd| > 1 && cmd[1] < |modules| then before + [modules[cmd[1]]] else before
        case _ => before
    }

    /** One command out of `cmd` was taken and answered since then. */
    ghost predicate Handled(cmd: seq<Byte>, before: seq<Event>, state: Byte, tick: nat, k: nat)
      requires down.Valid()
      reads this`trace, link`tick, down, down.buf
    {
      && tick <= k <= link.tick
      && Calls(trace) == Answered(before, state, cmd, k)
      && down.Content() == cmd[Min(|cmd|, if |cmd| > 0 && cmd[0] >= 128 then 2 else 1)..]
    }

    /** `_HandleIncomingPacket`: one command byte, from 128 on with a parameter byte. */
    method HandleIncomingPacket() returns (ghost k: nat)
      requires Valid() && recursionCnt == 1
      modifies this, link, link.ring, link.ring.buf, down`rdOff, packet.buf
      ensures Valid() && recursionCnt == 1 && link.tick >= old(link.tick)
      ensures old(trace) <= trace && deepest >= old(deepest)
      ensures Handled(old(down.Content()), old(Calls(trace)), old(enableState), old(link.tick), k)
      decreases 1 - recursionCnt, 7
    {
      hide EncodeLog, LogOk, LastTime, TraceOk, Calls, Systime, Startup, Recordable, IsCall, Masked;
      k := link.tick;
      var cmd := down.ReadNoLock(1);
      if |cmd| > 0 {
        if cmd[0] < 128 {
          k := Answer(cmd[0]);
        } else {
          var arg := down.ReadNoLock(1);
          if cmd[0] == 128 && |arg| > 0 && arg[0] < |modules| {
            var _ := Record(modules[arg[0]]);
          }
        }
      }
    }

    /** The commands without a parameter. */
    method Answer(cmd: Byte) returns (ghost k: nat)
      requires Valid() && recursionCnt == 1 && cmd < 128
      modifies this, link, link.ring, link.ring.buf, down`rdOff, packet.buf
      ensures Valid() && recursionCnt == 1 && link.tick >= old(link.tick)
      ensures old(trace) <= trace && deepest >= old(deepest) && down.rdOff == old(down.rdOff)
      ensures old(link.tick) <= k <= link.tick
      ensures Calls(trace) == Answered(old(Calls(trace)), old(enableState), [cmd], k)
      decreases 1 - recursionCnt, 6
    {
      hide EncodeLog, LogOk, LastTime, TraceOk, Calls, Systime, Startup, Recordable, IsCall, Masked, Added;
      k := link.tick;
      match cmd {
        case 1 =>
          ghost var at := Start();
          k := if old(enableState) == STATE_OFF then at else k;
        case 2 => Stop();
        case 3 => RecordSystime();
        case 4 => RecordAll(taskList);
        case 5 =>
          Assoc(Calls(trace), [sysInfo], sysDesc);
          var _ := Record(sysInfo);
          RecordAll(sysDesc);
        case 6 => SendNumModules();
        case 7 => RecordAll(moduleDesc);
        case _ =>
      }
    }
  }
}
