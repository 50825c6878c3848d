/** `SEGGER_RTT_WriteWithOverwriteNoLock` on values: what the overwriting write path
    leaves in the ring, and exactly when that is what its name promises. */
module RttOverwrite {
  import opened Words
  import opened CyclicRing

  datatype State = State(buf: seq<Byte>, rd: nat, wr: nat)

  predicate ValidState(s: State) {
    2 <= |s.buf| && s.rd < |s.buf| && s.wr < |s.buf|
  }

  function Contents(s: State): seq<Byte>
    requires ValidState(s)
  {
    Seg(s.buf, s.rd, s.wr)
  }

  /** The subtraction loop that brings `RdOff` back into the buffer. */
  function Reduce(x: nat, n: nat): (r: nat)
    requires 0 < n
    ensures r < n
    ensures x < 2 * n ==> r == Wrap(n, x)
    decreases x
  {
    if x < n then x else Reduce(x - n, n)
  }

  /** The rounds of the copy loop: each fills up to `avail` bytes from `wr`; after
      the first the code takes one byte less than the whole buffer per round. */
  function Rounds(buf: seq<Byte>, wr: nat, data: seq<Byte>, avail: nat): (r: (seq<Byte>, nat))
    requires 2 <= |buf| && wr < |buf| && 0 < avail && wr + avail <= |buf| && data != []
    ensures |r.0| == |buf| && r.1 < |buf|
    decreases |data|
  {
    if avail > |data| then (Put(buf, wr, data), wr + |data|)
    else
      var filled := Put(buf, wr, data[..avail]);
      if |data| == avail then (filled, 0) else Rounds(filled, 0, data[avail..], |buf| - 1)
  }

  function Overwrite(s: State, data: seq<Byte>): (t: State)
    requires ValidState(s) && data != []
    ensures ValidState(t) && |t.buf| == |s.buf|
  {
    var n := |s.buf|;
    var avail := n - 1 - Dist(n, s.rd, s.wr);
    var rd := if |data| > avail then Reduce(s.rd + (|data| - avail), n) else s.rd;
    var (buf, wr) := Rounds(s.buf, s.wr, data, n - s.wr);
    State(buf, rd, wr)
  }

  function Last(s: seq<Byte>, k: nat): seq<Byte> {
    if |s| <= k then s else s[|s| - k..]
  }

  /** The promise: the ring ends up with the newest bytes that fit. */
  predicate KeepsNewest(s: State, data: seq<Byte>)
    requires ValidState(s) && data != []
  {
    Contents(Overwrite(s, data)) == Last(Contents(s) + data, |s.buf| - 1)
  }

  /** At most one wrap-around in the copy loop. */
  predicate OneWrap(n: nat, wr: nat, len: nat) {
    len < 2 * n - 1 - wr
  }

  lemma RoundsOneWrap(buf: seq<Byte>, wr: nat, data: seq<Byte>)
    requires 2 <= |buf| && wr < |buf| && data != [] && OneWrap(|buf|, wr, |data|)
    ensures var k := |buf| - wr;
            Rounds(buf, wr, data, k) ==
            if |data| < k then (Put(buf, wr, data), wr + |data|)
            else (Put(Put(buf, wr, data[..k]), 0, data[k..]), |data| - k)
  {
    var k := |buf| - wr;
    if |data| >= k {
      var filled := Put(buf, wr, data[..k]);
      assert |data| == k ==> Put(filled, 0, data[k..]) == filled;
    }
  }

  lemma PutInTwo(buf: seq<Byte>, wr: nat, data: seq<Byte>)
    requires wr < |buf| && |buf| - wr <= |data| <= |buf|
    ensures Put(Put(buf, wr, data[..|buf| - wr]), 0, data[|buf| - wr..]) == Put(buf, wr, data)
  {
  }

  lemma ShortRounds(buf: seq<Byte>, wr: nat, data: seq<Byte>)
    requires 2 <= |buf| && wr < |buf| && 0 < |data| < |buf|
    ensures Rounds(buf, wr, data, |buf| - wr) == (Put(buf, wr, data), Wrap(|buf|, wr + |data|))
  {
    RoundsOneWrap(buf, wr, data);
    if |buf| - wr <= |data| {
      PutInTwo(buf, wr, data);
    }
  }

  lemma LastOfAppend(old_: seq<Byte>, data: seq<Byte>, k: nat, drop: nat)
    requires drop <= |old_| && drop == if |old_| + |data| <= k then 0 else |old_| + |data| - k
    ensures old_[drop..] + data == Last(old_ + data, k)
  {
  }

  /** Bytes that must go before `len` more fit. */
  function Dropped(s: State, len: nat): (d: nat)
    requires ValidState(s)
    ensures len < |s.buf| ==> d <= Dist(|s.buf|, s.rd, s.wr)
  {
    Max(0, len - (|s.buf| - 1 - Dist(|s.buf|, s.rd, s.wr)))
  }

  lemma ShortOverwrite(s: State, data: seq<Byte>)
    requires ValidState(s) && 0 < |data| < |s.buf|
    ensures var n := |s.buf|;
            Overwrite(s, data)
            == State(Put(s.buf, s.wr, data), Wrap(n, s.rd + Dropped(s, |data|)), Wrap(n, s.wr + |data|))
  {
    hide Rounds, Put;
    ShortRounds(s.buf, s.wr, data);
  }

  /** Writes that fit in an empty ring: dropping old bytes first leaves room for all
      of the data, and what follows is an ordinary append. */
  lemma ShortKeepsNewest(s: State, data: seq<Byte>)
    requires ValidState(s) && 0 < |data| < |s.buf|
    ensures KeepsNewest(s, data)
  {
    hide Overwrite, Seg, Put, Last;
    var n, drop := |s.buf|, Dropped(s, |data|);
    var rd := Wrap(n, s.rd + drop);
    ShortOverwrite(s, data);
    SegTake(s.buf, s.rd, s.wr, drop);
    assert Dist(n, rd, s.wr) == Dist(n, s.rd, s.wr) - drop;
    PutAppends(s.buf, rd, s.wr, data);
    LastOfAppend(Contents(s), data, n - 1, drop);
  }

  /** After two copies every cell but the gap at the end holds one of the newest bytes. */
  lemma LongCells(buf: seq<Byte>, wr: nat, data: seq<Byte>)
    requires 2 <= |buf| && wr < |buf| && |buf| <= |data| && OneWrap(|buf|, wr, |data|)
    ensures var n, end := |buf|, |data| - (|buf| - wr);
            var filled := Put(Put(buf, wr, data[..n - wr]), 0, data[n - wr..]);
            Seg(filled, Succ(n, end), end) == data[|data| - (n - 1)..]
  {
    var n, end := |buf|, |data| - (|buf| - wr);
    assert Dist(n, Succ(n, end), end) == n - 1;
  }

  lemma LongOverwrite(s: State, data: seq<Byte>)
    requires ValidState(s) && |s.buf| <= |data| && OneWrap(|s.buf|, s.wr, |data|)
    ensures var n, end := |s.buf|, |data| - (|s.buf| - s.wr);
            Overwrite(s, data)
            == State(Put(Put(s.buf, s.wr, data[..n - s.wr]), 0, data[n - s.wr..]), Succ(n, end), end)
  {
    hide Rounds, Put;
    RoundsOneWrap(s.buf, s.wr, data);
  }

  /** Longer writes with a single wrap-around leave only new bytes. */
  lemma LongKeepsNewest(s: State, data: seq<Byte>)
    requires ValidState(s) && |s.buf| <= |data| && OneWrap(|s.buf|, s.wr, |data|)
    ensures KeepsNewest(s, data)
  {
    hide Overwrite, Seg, Put, Last;
    LongOverwrite(s, data);
    LongCells(s.buf, s.wr, data);
    LastIsNew(Contents(s), data, |s.buf| - 1);
  }

  lemma LastIsNew(old_: seq<Byte>, data: seq<Byte>, k: nat)
    requires k <= |data|
    ensures Last(old_ + data, k) == data[|data| - k..]
  {
  }

  /** Later rounds never touch the last cell and never end on it. */
  lemma {:induction false} LaterRounds(buf: seq<Byte>, data: seq<Byte>)
    requires 2 <= |buf| && data != []
    ensures var r := Rounds(buf, 0, data, |buf| - 1);
            r.0[|buf| - 1] == buf[|buf| - 1] && r.1 < |buf| - 1
    decreases |data|
  {
    var avail := |buf| - 1;
    if avail < |data| {
      LaterRounds(Put(buf, 0, data[..avail]), data[avail..]);
    }
  }

  /** A write of `len` bytes whose only 1 is the byte that lands in the last cell. */
  function Marked(len: nat, at: nat): (d: seq<Byte>)
    requires at < len
    ensures |d| == len && d[at] == 1
    ensures forall i :: 0 <= i < len && i != at ==> d[i] == 0
  {
    seq(len, i => if i == at then 1 else 0)
  }

  /** With a second wrap-around the last cell keeps what the first round put there. */
  lemma LastCellStays(s: State, data: seq<Byte>)
    requires ValidState(s) && !OneWrap(|s.buf|, s.wr, |data|)
    ensures Overwrite(s, data).buf[|s.buf| - 1] == data[|s.buf| - s.wr - 1]
    ensures Overwrite(s, data).wr < |s.buf| - 1
  {
    var k := |s.buf| - s.wr;
    LaterRounds(Put(s.buf, s.wr, data[..k]), data[k..]);
  }

  lemma MarkIsGone(old_: seq<Byte>, len: nat, at: nat, k: nat)
    requires at < len && at + k < len
    ensures 1 !in Last(old_ + Marked(len, at), k)
    ensures |Last(old_ + Marked(len, at), k)| == k
  {
    LastIsNew(old_, Marked(len, at), k);
  }

  /** ... so its stale byte shows up among the contents. */
  lemma SecondWrapFails(s: State, len: nat)
    requires ValidState(s) && !OneWrap(|s.buf|, s.wr, len)
    ensures !KeepsNewest(s, Marked(len, |s.buf| - s.wr - 1))
  {
    hide Overwrite, Seg, Last, Marked;
    var n, at := |s.buf|, |s.buf| - s.wr - 1;
    var t := Overwrite(s, Marked(len, at));
    LastCellStays(s, Marked(len, at));
    MarkIsGone(Contents(s), len, at, n - 1);
    if |Contents(t)| == n - 1 {
      FullSeg(t.buf, t.rd, t.wr);
    }
  }

  /** A full ring ends anywhere but in its last cell, or shows that cell. */
  lemma FullSeg(buf: seq<Byte>, rd: nat, wr: nat)
    requires rd < |buf| && wr < |buf| && Dist(|buf|, rd, wr) == |buf| - 1 && wr != |buf| - 1
    ensures buf[|buf| - 1] in Seg(buf, rd, wr)
  {
    assert Seg(buf, rd, wr)[Dist(|buf|, rd, |buf| - 1)] == buf[|buf| - 1];
  }

  /** For a ring of any size and any offsets, the overwriting write keeps exactly the
      newest bytes, whatever the bytes are, if and only if its length stays below
      the second wrap-around. */
  lemma OverwriteExact(n: nat, rd: nat, wr: nat, len: nat)
    requires 2 <= n && rd < n && wr < n && 0 < len
    ensures (forall buf: seq<Byte>, data: seq<Byte> | |buf| == n && |data| == len ::
               KeepsNewest(State(buf, rd, wr), data))
       <==> OneWrap(n, wr, len)
  {
    if OneWrap(n, wr, len) {
      forall buf: seq<Byte>, data: seq<Byte> | |buf| == n && |data| == len
        ensures KeepsNewest(State(buf, rd, wr), data)
      {
        if len < n {
          ShortKeepsNewest(State(buf, rd, wr), data);
        } else {
          LongKeepsNewest(State(buf, rd, wr), data);
        }
      }
    } else {
      var buf: seq<Byte> := seq(n, _ => 0);
      SecondWrapFails(State(buf, rd, wr), len);
    }
  }
}
