/** The CAN transmit FIFO of os/drivers/can.c: a ring with three indices. `head` moves
    when a message completes, `queue` when one is handed to the hardware, `tail` when
    one is written. The hardware's send routine may call `can_txdone` before it
    returns, so sending re-enters itself. */
module CanTransmit {
  import opened Words
  import opened CyclicRing

  type Msg = seq<Byte>

  const EBUSY: int := 16
  const EIO: int := 5
  const ENOENT: int := 2

  /** How one wait for FIFO space ends, after that many completion interrupts. */
  datatype Wait = Wake(done: nat) | Signal(done: nat) | Error(done: nat)

  /** How the wait for space ended. */
  datatype Room = Free | Full | Stuck | Broken

  /** What a write returns; `Blocked` is a wait that nothing ends. */
  datatype Written = Sent(n: nat) | Again | Failed(n: nat) | Blocked(n: nat)

  predicate NoError(waits: seq<Wait>) {
    forall w :: w in waits ==> !w.Error?
  }

  predicate Suffix(waits: seq<Wait>, left: seq<Wait>) {
    |left| <= |waits| && left == waits[|waits| - |left|..]
  }

  /** No wait before `left` failed. */
  predicate Consumed(waits: seq<Wait>, left: seq<Wait>) {
    Suffix(waits, left) && NoError(waits[..|waits| - |left|])
  }

  /** The first wait that no signal ends decides, and `left` are those after it. */
  ghost predicate Ended(waits: seq<Wait>, posted: Option<bool>, left: seq<Wait>) {
    var k := |waits| - |left|;
    && 0 <= k && left == waits[k..]
    && (forall i :: 0 <= i < k - 1 ==> waits[i].Signal?)
    && match posted
       case None => left == [] && (k > 0 ==> waits[k - 1].Signal?)
       case Some(woken) => k > 0 && (if woken then waits[k - 1].Wake? else waits[k - 1].Error?)
  }

  class CanDevice {
    const buffer: array<Msg>
    var head: nat
    var queue: nat
    var tail: nat
    var txInterrupt: bool
    var inFlight: nat              // messages the hardware holds
    var tick: nat
    const txReady: nat -> bool     // dev_txready, call by call
    const txEmpty: nat -> bool     // dev_txempty
    const sendOk: nat -> bool      // whether dev_send succeeds
    const echo: nat -> nat         // completions reported before dev_send returns

    // The record of the run
    ghost var written: seq<Msg>    // accepted into the FIFO
    ghost var offered: seq<Msg>    // passed to dev_send
    ghost var sent: seq<Msg>       // ... which took them
    ghost var failedSends: nat
    ghost var completed: nat       // calls of can_txdone that removed a message

    ghost predicate Indices()
      reads this
    {
      && 2 <= buffer.Length <= 255
      && head < buffer.Length && queue < buffer.Length && tail < buffer.Length
    }

    /** Messages waiting for the hardware. */
    ghost function Waiting(): nat
      requires Indices()
      reads this
    {
      Dist(buffer.Length, queue, tail)
    }

    ghost predicate Valid()
      reads this, buffer
    {
      && Indices()
      // cyclic order head, queue, tail
      && Dist(buffer.Length, head, queue) <= Dist(buffer.Length, head, tail)
      // every written message once, in order: handed over, or still between queue and tail
      && offered + Seg(buffer[..], queue, tail) == written
      // the messages between head and queue are those handed over and not completed
      && |offered| == completed + Dist(buffer.Length, head, queue)
      && |sent| + failedSends == |offered| && |sent| == completed + inFlight
      && (failedSends == 0 ==> sent == offered)
    }

    /** What sending and completing messages may change, and in which direction. */
    twostate predicate Progress()
      reads this
    {
      && tail == old(tail) && written == old(written)
      && old(offered) <= offered && completed >= old(completed) && failedSends >= old(failedSends)
      && old(sent) <= sent
      && Indices() && old(Indices()) && Waiting() <= old(Waiting()) && tick >= old(tick)
    }

    /** Neither the hardware nor its interrupts have done anything. */
    twostate predicate Untouched()
      reads this
    {
      && head == old(head) && queue == old(queue) && tick == old(tick)
      && completed == old(completed) && inFlight == old(inFlight)
    }

    /** The first of the waits was taken, so its completions have arrived. */
    twostate predicate Waited(waits: seq<Wait>)
      reads this
    {
      waits != [] ==> completed >= old(completed) + Min(waits[0].done, old(inFlight))
    }

    /** Since time `from` the hardware was once not ready or refused a message. */
    ghost predicate Stalled(from: nat)
      reads this`tick
    {
      exists t :: from <= t < tick && Refuses(t)
    }

    ghost predicate Refuses(t: nat) {
      !txReady(t) || !sendOk(t)
    }

    constructor (size: nat, txReady: nat -> bool, txEmpty: nat -> bool, sendOk: nat -> bool, echo: nat -> nat)
      requires 2 <= size <= 255
      ensures Valid() && fresh(buffer) && buffer.Length == size && written == [] && completed == 0
      ensures this.txReady == txReady && this.txEmpty == txEmpty && this.sendOk == sendOk && this.echo == echo
    {
      buffer := new Msg[size];
      head, queue, tail, txInterrupt, inFlight, tick := 0, 0, 0, false, 0, 0;
      this.txReady, this.txEmpty, this.sendOk, this.echo := txReady, txEmpty, sendOk, echo;
      written, offered, sent, failedSends, completed := [], [], [], 0, 0;
      new;
      assert Seg(buffer[..], 0, 0) == [];
    }

    /** With all sends successful, the hardware has been given the written messages that
        are no longer waiting: exactly once each, in the order written. */
    lemma InWriteOrder()
      requires Valid() && failedSends == 0
      ensures sent <= written && |written| == |sent| + Waiting()
    {
    }

    /** A refused send loses its message and keeps its FIFO cell for good: between `head`
        and `queue` lie the messages in the hardware and one cell per refused send, so the
        hardware has every message it was offered if and only if no send was refused. */
    lemma RefusedSends()
      requires Valid()
      ensures Dist(buffer.Length, head, queue) == inFlight + failedSends
      ensures inFlight + failedSends + Waiting() == Dist(buffer.Length, head, tail) < buffer.Length
      ensures sent == offered <==> failedSends == 0
    {
    }

    /** An empty FIFO has nothing waiting. */
    lemma NothingWaits()
      requires Valid()
      ensures Indices() && (head == tail ==> queue == head)
    {
    }

    /** `can_xmit` */
    method Xmit() returns (ret: int)
      requires Valid()
      modifies this
      ensures Valid() && Progress()
      ensures Drained(old(tick))
      ensures txInterrupt == (old(head) != old(tail))
      ensures old(head) == old(tail) ==> ret == -5 && offered == old(offered)
      ensures old(head) != old(tail) && (old(queue) == old(tail) || !txReady(old(tick))) ==>
        ret == -16 && offered == old(offered)
      ensures old(queue) != old(tail) && txReady(old(tick)) ==>
        |offered| > |old(offered)| && (ret == 0 || ret == -5)
      decreases Dist(buffer.Length, queue, tail), 2
    {
      if head == tail {
        assert queue == head;
        txInterrupt := false;
        return -EIO;
      }
      ret := SendWaiting();
      txInterrupt := true;
    }

    /** The loop of `can_xmit`. */
    method SendWaiting() returns (ret: int)
      requires Valid() && head != tail
      modifies this
      ensures Valid() && Progress() && Drained(old(tick))
      ensures old(queue) == old(tail) || !txReady(old(tick)) ==> ret == -16 && offered == old(offered)
      ensures old(queue) != old(tail) && txReady(old(tick)) ==>
        |offered| > |old(offered)| && (ret == 0 || ret == -5)
      decreases Dist(buffer.Length, queue, tail), 1
    {
      hide Stalled, Valid;
      ret := -EBUSY;
      NothingWaits();
      while queue != tail
        invariant Valid() && Progress()
        invariant if |offered| > |old(offered)| then ret == 0 && txReady(old(tick)) && old(queue) != old(tail)
                  else ret == -16 && tick == old(tick) && queue == old(queue) && offered == old(offered)
        decreases Dist(buffer.Length, queue, tail)
      {
        ghost var before := tick;
        NothingWaits();
        var ready := Ready();
        StalledLater(old(tick), before);
        if !ready {
          break;
        }
        assert head != tail;
        before := tick;
        ret := SendNext();
        StalledLater(old(tick), before);
        if ret != 0 {
          break;
        }
      }
    }

    /** `dev_txready` */
    method Ready() returns (ready: bool)
      requires Valid()
      modifies this`tick
      ensures Valid()
      ensures tick == old(tick) + 1 && ready == txReady(old(tick))
      ensures ready || Stalled(old(tick))
    {
      ready := txReady(tick);
      tick := tick + 1;
      assert ready || Refuses(tick - 1);
    }

    /** Nothing waits for the hardware, or it has refused something since `from`. */
    ghost predicate Drained(from: nat)
      reads this
    {
      queue == tail || Stalled(from)
    }

    /** Completions and time leave it so. */
    twostate lemma StaysDrained(from: nat)
      requires old(Drained(from)) && Progress()
      ensures Drained(from)
    {
      if old(Stalled(from)) {
        var t :| from <= t < old(tick) && Refuses(t);
      }
    }

    lemma StalledLater(from: nat, later: nat)
      requires from <= later
      ensures Stalled(later) ==> Stalled(from)
    {
    }

    /** Advance `queue`, because the send may come back here, then send. */
    method SendNext() returns (ret: int)
      requires Valid() && queue != tail
      modifies this
      ensures Valid() && Progress() && |offered| > |old(offered)| && Waiting() < old(Waiting())
      ensures ret == if sendOk(old(tick)) then 0 else -5
      ensures ret == 0 || Stalled(old(tick))
      decreases Dist(buffer.Length, queue, tail), 0
    {
      var tmpndx := queue;
      NextWaiting(buffer[..], head, queue, tail, offered);
      queue := if queue + 1 >= buffer.Length then 0 else queue + 1;
      assert buffer[..] == old(buffer[..]);
      ret := Send(buffer[tmpndx]);
    }

    /** `dev_send`, called with `queue` already past the message. A successful send may
        report completions, up to the messages the hardware holds. */
    method Send(msg: Msg) returns (ret: int)
      requires Indices() && Dist(buffer.Length, head, queue) <= Dist(buffer.Length, head, tail)
      requires (offered + [msg]) + Seg(buffer[..], queue, tail) == written
      requires |offered| + 1 == completed + Dist(buffer.Length, head, queue)
      requires |sent| + failedSends == |offered| && |sent| == completed + inFlight
      requires failedSends == 0 ==> sent == offered
      modifies this
      ensures Valid() && Progress() && old(offered) + [msg] <= offered
      ensures if sendOk(old(tick))
              then ret == 0 && old(sent) + [msg] <= sent
                && completed >= old(completed) + Min(echo(old(tick)), old(inFlight) + 1)
              else ret == -5 && sent == old(sent) && completed == old(completed)
      ensures ret == 0 || Stalled(old(tick))
      decreases Dist(buffer.Length, queue, tail), 5
    {
      hide Seg, Dist;
      offered := offered + [msg];
      var now := tick;
      tick := tick + 1;
      if !sendOk(now) {
        assert Refuses(now);
        failedSends := failedSends + 1;
        return -EIO;
      }
      sent, inFlight := sent + [msg], inFlight + 1;
      Completions(echo(now));
      return 0;
    }

    /** Up to `count` completion interrupts, never more than the hardware has messages. */
    method Completions(count: nat)
      requires Valid()
      modifies this
      ensures Valid() && Progress() && completed >= old(completed) + Min(count, old(inFlight))
      decreases Dist(buffer.Length, queue, tail), 4
    {
      var i := 0;
      while i < count && inFlight > 0
        invariant Valid() && Progress() && i <= count && completed >= old(completed) + i
        decreases count - i
      {
        var ret := TxDone();
        i := i + 1;
      }
    }

    /** `can_txdone`, for a message the hardware holds or on an empty FIFO. */
    method TxDone() returns (ret: int)
      requires Valid() && (inFlight > 0 || head == tail)
      modifies this
      ensures Valid() && Progress()
      ensures ret == if old(head) == old(tail) then -2 else 0
      ensures completed >= old(completed) + (if old(head) == old(tail) then 0 else 1)
      ensures old(head) != old(tail) ==> Drained(old(tick))
      decreases Dist(buffer.Length, queue, tail), 3
    {
      hide Seg, Drained;
      ret := -ENOENT;
      if head != tail {
        assert head != queue;
        head := if head + 1 >= buffer.Length then 0 else head + 1;
        inFlight, completed := inFlight - 1, completed + 1;
        var r := Xmit();
        ret := 0;
      }
    }

    /** Append one message behind `tail`. */
    method Append(msg: Msg)
      requires Valid() && Succ(buffer.Length, tail) != head
      modifies this`tail, this`written, buffer
      ensures Valid() && written == old(written) + [msg]
      ensures tail == Succ(buffer.Length, old(tail))
      ensures Dist(buffer.Length, head, tail) == old(Dist(buffer.Length, head, tail)) + 1
    {
      SegSnoc(buffer[..], queue, tail, msg);
      Assoc(offered, Seg(buffer[..], queue, tail), [msg]);
      buffer[tail] := msg;
      assert buffer[..] == old(buffer[..])[tail := msg];
      tail := if tail + 1 >= buffer.Length then 0 else tail + 1;
      written := written + [msg];
    }

    /** Wait on the semaphore, again after each signal. The result tells whether the
        semaphore was posted; `None` is a wait that nothing ends. */
    method WaitForSpace(waits: seq<Wait>) returns (posted: Option<bool>, left: seq<Wait>)
      requires Valid()
      modifies this
      ensures Valid() && Progress()
      ensures Ended(waits, posted, left)
      ensures if waits == [] then Untouched() else Waited(waits)
    {
      NothingWaits();
      hide Seg, Dist, Valid;
      var i := 0;
      while i < |waits|
        invariant Valid() && Progress() && i <= |waits|
        invariant forall j :: 0 <= j < i ==> waits[j].Signal?
        invariant if i == 0 then Untouched() else Waited(waits)
      {
        var wait := waits[i];
        i := i + 1;
        Completions(wait.done);
        if !wait.Signal? {
          return Some(wait.Wake?), waits[i..];
        }
      }
      return None, [];
    }

    /** `can_write` of whole messages. `waits` lists how the waits for space end; with
        none left a further wait never ends. `read` is when `dev_txempty` was last asked;
        only if it said the hardware was idle does the write start sending. */
    method WriteMsgs(msgs: seq<Msg>, nonBlocking: bool, waits: seq<Wait>) returns (r: Written, ghost read: nat)
      requires Valid()
      modifies this, buffer
      ensures Valid()
      ensures var n := if r.Again? then 0 else r.n;
              n <= |msgs| && written == old(written) + msgs[..n]
      ensures r.Sent? && !nonBlocking ==> r.n == |msgs|
      ensures r.Again? ==> nonBlocking && msgs != []
      ensures nonBlocking ==> r.Sent? || r.Again?
      ensures var room := buffer.Length - 1 - old(Dist(buffer.Length, head, tail));
              && (|msgs| <= room ==> r == Sent(|msgs|))
              && (|msgs| > room ==> if nonBlocking then r == if room == 0 then Again else Sent(room)
                                    else r.n >= room && Waited(waits))
      ensures old(tick) <= read <= tick
      ensures r == Sent(|msgs|) && !txEmpty(read) ==> tick == read
      ensures (r == Sent(|msgs|) || r.Blocked? || r.Failed?) && txEmpty(read) ==> Drained(read)
      ensures if NoError(waits) then !r.Failed? else !r.Blocked?
      ensures r == Sent(|msgs|) && |msgs| + old(Dist(buffer.Length, head, tail)) < buffer.Length ==>
        read == old(tick)
    {
      NoneConsumed(waits);
      hide Seg, Dist, Stalled, Succ, Consumed, Suffix, NoError, Drained;
      var inactive, left, n := txEmpty(tick), waits, 0;
      read := tick;
      ghost var room := buffer.Length - 1 - Dist(buffer.Length, head, tail);
      while n < |msgs|
        invariant Valid() && n <= |msgs| && written == old(written) + msgs[..n]
        invariant old(tick) <= read == tick && inactive == txEmpty(read)
        invariant Consumed(waits, left)
        invariant if n <= room then Untouched() && left == waits &&
                                    Dist(buffer.Length, head, tail) == old(Dist(buffer.Length, head, tail)) + n
                  else !nonBlocking && Waited(waits)
      {
        ghost var ahead := left;
        var state;
        state, inactive, left, read := AddMsg(msgs[n], nonBlocking, inactive, left, read);
        FurtherConsumed(waits, ahead, left);
        match state {
          case Full => return if n == 0 then Again else Sent(n), read;
          case Stuck => return Blocked(n), read;
          case Broken => return Failed(n), read;
          case Free =>
        }
        OneMore(old(written), msgs, n);
        n := n + 1;
      }
      if inactive {
        var x := Xmit();
      }
      return Sent(n), read;
    }

    /** One message: wait for space, then append it. */
    method AddMsg(msg: Msg, nonBlocking: bool, inactive: bool, waits: seq<Wait>, ghost read: nat)
      returns (room: Room, stillInactive: bool, left: seq<Wait>, ghost lastRead: nat)
      requires Valid() && read == tick && inactive == txEmpty(read)
      modifies this, buffer
      ensures Valid() && completed >= old(completed)
      ensures written == if room.Free? then old(written) + [msg] else old(written)
      ensures nonBlocking ==> room.Free? || room.Full?
      ensures room.Full? ==> nonBlocking
      ensures read <= lastRead <= tick && stillInactive == txEmpty(lastRead)
      ensures room.Free? ==> lastRead == tick
      ensures Suffix(waits, left) && (room.Broken? <==> !Consumed(waits, left))
      ensures room.Stuck? ==> left == []
      ensures (room.Stuck? || room.Broken?) && stillInactive ==> Drained(lastRead)
      ensures if old(Dist(buffer.Length, head, tail)) + 1 < buffer.Length
              then && room.Free? && Untouched() && left == waits
                   && Dist(buffer.Length, head, tail) == old(Dist(buffer.Length, head, tail)) + 1
              else if nonBlocking then room.Full? && Untouched() else Waited(waits)
    {
      hide Seg, Dist, Stalled, Succ, Consumed, Suffix, Drained;
      RoomLeft(buffer.Length, head, tail);
      room, stillInactive, left, lastRead := MakeRoom(nonBlocking, inactive, waits, read);
      if room.Free? {
        Append(msg);
      }
    }

    /** One round of that loop: idle hardware is started, or nothing would end the wait. */
    method AwaitSpace(inactive: bool, waits: seq<Wait>) returns (posted: Option<bool>, left: seq<Wait>)
      requires Valid()
      modifies this
      ensures Valid() && Progress() && Waited(waits)
      ensures Ended(waits, posted, left)
      ensures inactive ==> Drained(old(tick))
      ensures !inactive && waits == [] ==> Untouched()
    {
      hide Seg, Dist, Stalled, Ended;
      if inactive {
        var x := Xmit();
      }
      label Waiting:
      posted, left := WaitForSpace(waits);
      if inactive {
        StaysDrained@Waiting(old(tick));
      }
    }

    /** The inner loop of `can_write`: return with space behind `tail`, or say why not. */
    method MakeRoom(nonBlocking: bool, inactive: bool, waits: seq<Wait>, ghost read: nat)
      returns (room: Room, stillInactive: bool, left: seq<Wait>, ghost lastRead: nat)
      requires Valid() && read == tick && inactive == txEmpty(read)
      modifies this
      ensures Valid() && Progress()
      ensures room.Free? ==> Succ(buffer.Length, tail) != head
      ensures room.Full? ==> nonBlocking
      ensures nonBlocking ==> room.Free? || room.Full?
      ensures read <= lastRead <= tick && stillInactive == txEmpty(lastRead)
      ensures room.Free? ==> lastRead == tick
      ensures Suffix(waits, left) && (room.Broken? <==> !Consumed(waits, left))
      ensures room.Stuck? ==> left == []
      ensures Succ(buffer.Length, tail) != old(head) ==> room.Free?
      ensures nonBlocking && Succ(buffer.Length, tail) == old(head) ==> room.Full?
      ensures if nonBlocking || Succ(buffer.Length, tail) != old(head) then Untouched() && left == waits
              else Waited(waits)
      ensures (room.Stuck? || room.Broken?) && stillInactive ==> Drained(lastRead)
    {
      hide Seg, Stalled, Succ, Ended, Consumed, Suffix, Drained;
      NoneConsumed(waits);
      stillInactive, left, lastRead := inactive, waits, read;
      while Succ(buffer.Length, tail) == head
        invariant Valid() && Progress()
        invariant read <= lastRead == tick && stillInactive == txEmpty(lastRead)
        invariant Suffix(waits, left) && Consumed(waits, left)
        invariant (Untouched() && left == waits) || Waited(waits)
        invariant nonBlocking || Succ(buffer.Length, tail) != old(head) ==> Untouched() && left == waits
        decreases |left|
      {
        if nonBlocking {
          return Full, stillInactive, left, lastRead;
        }
        var posted;
        ghost var ahead := left;
        posted, left := AwaitSpace(stillInactive, left);
        OneWait(waits, ahead, posted, left);
        if posted.None? || !posted.value {
          return if posted.None? then Stuck else Broken, stillInactive, left, lastRead;
        }
        stillInactive, lastRead := txEmpty(tick), tick;
      }
      return Free, stillInactive, left, lastRead;
    }
  }

  lemma OneMore(before: seq<Msg>, msgs: seq<Msg>, n: nat)
    requires n < |msgs|
    ensures (before + msgs[..n]) + [msgs[n]] == before + msgs[..n + 1]
  {
    assert msgs[..n + 1] == msgs[..n] + [msgs[n]];
    Assoc(before, msgs[..n], [msgs[n]]);
  }

  lemma NoneConsumed(waits: seq<Wait>)
    ensures Suffix(waits, waits) && Consumed(waits, waits)
  {
  }

  lemma FurtherConsumed(waits: seq<Wait>, ahead: seq<Wait>, left: seq<Wait>)
    requires Consumed(waits, ahead) && Suffix(ahead, left)
    ensures Suffix(waits, left) && (Consumed(ahead, left) <==> Consumed(waits, left))
    ensures if Consumed(waits, left) then left == [] ==> NoError(waits) else !NoError(waits)
  {
    var i, k := |waits| - |ahead|, |ahead| - |left|;
    assert waits[..i + k] == waits[..i] + ahead[..k];
    assert waits == waits[..i + k] + left;
  }

  lemma OneWait(waits: seq<Wait>, ahead: seq<Wait>, posted: Option<bool>, left: seq<Wait>)
    requires Consumed(waits, ahead) && Ended(ahead, posted, left)
    ensures Suffix(waits, left) && (posted.Some? && !posted.value <==> !Consumed(waits, left))
    ensures if posted.Some? then |left| < |ahead| else left == []
  {
    var k := |ahead| - |left|;
    if posted.Some? && !posted.value {
      assert ahead[..k][k - 1].Error?;
    }
    FurtherConsumed(waits, ahead, left);
  }

  lemma RoomLeft(n: nat, head: nat, tail: nat)
    requires head < n && tail < n
    ensures Dist(n, head, tail) + 1 < n <==> Succ(n, tail) != head
  {
  }

  lemma NextWaiting(buf: seq<Msg>, head: nat, queue: nat, tail: nat, offered: seq<Msg>)
    requires head < |buf| && queue < |buf| && tail < |buf| && queue != tail
    requires Dist(|buf|, head, queue) <= Dist(|buf|, head, tail)
    ensures var next := Succ(|buf|, queue);
            && Dist(|buf|, head, next) == Dist(|buf|, head, queue) + 1 <= Dist(|buf|, head, tail)
            && Dist(|buf|, next, tail) + 1 == Dist(|buf|, queue, tail)
            && (offered + [buf[queue]]) + Seg(buf, next, tail) == offered + Seg(buf, queue, tail)
  {
    var next := Succ(|buf|, queue);
    SegTake(buf, queue, tail, 1);
    assert Seg(buf, queue, tail)[..1] == [buf[queue]];
    Assoc(offered, [buf[queue]], Seg(buf, next, tail));
  }
}
