/** Cyclic index arithmetic shared by every ring in the repository: the RTT up and
    down rings and the CAN transmit FIFO. One cell always stays empty, so a ring
    of `n` cells holds at most `n - 1` elements. */
module CyclicRing {
  function Succ(n: nat, i: nat): (j: nat)
    requires i < n
    ensures j < n
  {
    if i + 1 == n then 0 else i + 1
  }

  function Wrap(n: nat, x: nat): (j: nat)
    requires x < 2 * n
    ensures j < n
  {
    if x < n then x else x - n
  }

  /** Steps from `a` forward to `b`. */
  function Dist(n: nat, a: nat, b: nat): (d: nat)
    requires a < n && b < n
    ensures d < n
  {
    if a <= b then b - a else n - a + b
  }

  /** The elements from cell `a` up to, not including, cell `b`. */
  function Seg<T>(buf: seq<T>, a: nat, b: nat): (s: seq<T>)
    requires a < |buf| && b < |buf|
    ensures |s| == Dist(|buf|, a, b)
    ensures forall k :: 0 <= k < |s| ==> s[k] == buf[Wrap(|buf|, a + k)]
  {
    seq(Dist(|buf|, a, b), k requires 0 <= k < Dist(|buf|, a, b) => buf[Wrap(|buf|, a + k)])
  }

  /** `data` written from cell `off` on, continuing at cell 0 past the end. */
  function Put<T>(buf: seq<T>, off: nat, data: seq<T>): (r: seq<T>)
    requires off < |buf| && |data| <= |buf|
    ensures |r| == |buf|
    ensures forall i :: 0 <= i < |r| ==>
      r[i] == if Dist(|buf|, off, i) < |data| then data[Dist(|buf|, off, i)] else buf[i]
  {
    seq(|buf|, i requires 0 <= i < |buf| =>
      if Dist(|buf|, off, i) < |data| then data[Dist(|buf|, off, i)] else buf[i])
  }

  /** Writing past the end of a segment, without reaching its start again, appends. */
  lemma PutAppends<T>(buf: seq<T>, rd: nat, wr: nat, data: seq<T>)
    requires rd < |buf| && wr < |buf|
    requires Dist(|buf|, rd, wr) + |data| < |buf|
    ensures Seg(Put(buf, wr, data), rd, Wrap(|buf|, wr + |data|)) == Seg(buf, rd, wr) + data
  {
    var end := Wrap(|buf|, wr + |data|);
    assert Dist(|buf|, rd, end) == Dist(|buf|, rd, wr) + |data|;
  }

  /** Taking the first `k` elements moves the start forward and leaves the rest. */
  lemma SegTake<T>(buf: seq<T>, a: nat, b: nat, k: nat)
    requires a < |buf| && b < |buf| && k <= Dist(|buf|, a, b)
    ensures Seg(buf, a, Wrap(|buf|, a + k)) == Seg(buf, a, b)[..k]
    ensures Seg(buf, Wrap(|buf|, a + k), b) == Seg(buf, a, b)[k..]
  {
  }

  /** A cell outside the segment may be rewritten. */
  lemma SegFrame<T>(buf: seq<T>, a: nat, b: nat, i: nat, x: T)
    requires a < |buf| && b < |buf| && i < |buf|
    requires Dist(|buf|, a, b) <= Dist(|buf|, a, i)
    ensures Seg(buf[i := x], a, b) == Seg(buf, a, b)
  {
  }

  lemma SegSnoc<T>(buf: seq<T>, a: nat, b: nat, x: T)
    requires a < |buf| && b < |buf|
    requires Dist(|buf|, a, b) + 1 < |buf|
    ensures Seg(buf[b := x], a, Succ(|buf|, b)) == Seg(buf, a, b) + [x]
  {
  }

  lemma SegSplit<T>(buf: seq<T>, a: nat, b: nat, c: nat)
    requires a < |buf| && b < |buf| && c < |buf|
    requires Dist(|buf|, a, b) + Dist(|buf|, b, c) < |buf|
    ensures Seg(buf, a, c) == Seg(buf, a, b) + Seg(buf, b, c)
  {
  }
}
