/** The RTT ring of SEGGER_RTT.c: four write paths for the target, one read path,
    and the debug probe on the other side. The ring is empty when the offsets
    agree and full when `wrOff` is one step behind `rdOff`. */
module RttRing {
  import opened Words
  import opened CyclicRing
  import Overwriting = RttOverwrite

  // pRing->Flags
  const MODE_SKIP: U32 := 0
  const MODE_TRIM: U32 := 1
  const MODE_BLOCK: U32 := 2

  predicate Offsets(n: int, rd: int, wr: int) {
    2 <= n < TWO32 && 0 <= rd < n && 0 <= wr < n
  }

  /** `_GetAvailWriteSpace`: the free cells, computed with 32-bit wrap-around. */
  function AvailWriteSpace(n: U32, rd: U32, wr: U32): (r: U32)
    requires Offsets(n, rd, wr)
    ensures r == n - 1 - Dist(n, rd, wr)
  {
    if rd <= wr then Add32(Sub32(Sub32(n, 1), wr), rd)
    else Sub32(Sub32(rd, wr), 1)
  }

  /** The same number as the overwriting write path computes it. */
  function OverwriteAvail(n: U32, rd: U32, wr: U32): (r: U32)
    requires Offsets(n, rd, wr)
    ensures r == n - 1 - Dist(n, rd, wr)
  {
    if wr == rd then Sub32(n, 1)
    else if wr < rd then Sub32(Sub32(rd, wr), 1)
    else Add32(Sub32(Sub32(rd, wr), 1), n)
  }

  /** Bytes one round of `_WriteBlocking` may copy before the end of the buffer. */
  function BlockingChunk(n: U32, rd: U32, wr: U32, len: U32): (r: U32)
    requires Offsets(n, rd, wr)
    ensures r == Min(Min(n - 1 - Dist(n, rd, wr), n - wr), len)
  {
    var free := if rd > wr then Sub32(Sub32(rd, wr), 1) else Sub32(n, Add32(Sub32(wr, rd), 1));
    Min(Min(free, Sub32(n, wr)), len)
  }

  /** A read as two copies: `first` bytes from `rdOff`, then `second` from `mid`. */
  datatype ReadPlan = ReadPlan(first: U32, mid: U32, second: U32)

  /** The 32-bit arithmetic of `SEGGER_RTT_ReadNoLock`. `wr - mid` wraps below zero
      when the first copy filled the caller's buffer short of the end of the ring;
      the two copies still add up to the requested or the available bytes. */
  function PlanRead(n: U32, rd: U32, wr: U32, size: U32): (p: ReadPlan)
    requires Offsets(n, rd, wr)
    ensures p.first + p.second == Min(size, Dist(n, rd, wr))
    ensures rd + p.first <= n && p.mid == Wrap(n, rd + p.first)
    ensures p.mid + p.second < n && p.mid + p.second == Wrap(n, rd + p.first + p.second)
    ensures Dist(n, rd, p.mid + p.second) == p.first + p.second
  {
    var first := if rd > wr then Min(Sub32(n, rd), size) else 0;
    var mid := if Add32(rd, first) == n then 0 else Add32(rd, first);
    ReadPlan(first, mid, Min(Sub32(wr, mid), Sub32(size, first)))
  }

  lemma Accumulate(got: seq<Byte>, out: seq<Byte>, after: seq<Byte>, before: seq<Byte>,
                   start: seq<Byte>, data: seq<Byte>, i: nat, j: nat)
    requires i <= j <= |data|
    requires got + before == start + data[..i]
    requires out + after == before + data[i..j]
    ensures (got + out) + after == start + data[..j]
  {
    Assoc(got, out, after);
    Assoc(got, before, data[i..j]);
    Assoc(start, data[..i], data[i..j]);
    assert data[..i] + data[i..j] == data[..j];
  }

  /** In how many rounds the probe takes anything. */
  function Takes(host: seq<nat>): nat {
    if host == [] then 0 else Takes(host[..|host| - 1]) + if host[|host| - 1] > 0 then 1 else 0
  }

  class Ring {
    const buf: array<Byte>
    var wrOff: U32
    var rdOff: U32
    var flags: U32
    ghost var cells: seq<Byte>  // what `buf` holds

    ghost predicate Valid()
      reads this, buf
    {
      Offsets(buf.Length, rdOff, wrOff) && cells == buf[..]
    }

    /** The unread bytes, oldest first. */
    ghost function Content(): (s: seq<Byte>)
      requires Valid()
      reads this, buf
      ensures |s| < buf.Length
    {
      Seg(cells, rdOff, wrOff)
    }

    ghost function Free(): nat
      requires Valid()
      reads this, buf
    {
      buf.Length - 1 - |Content()|
    }

    constructor (size: U32, mode: U32)
      requires 2 <= size
      ensures Valid() && fresh(buf) && buf.Length == size
      ensures Content() == [] && flags == mode
    {
      buf := new Byte[size];
      wrOff, rdOff, flags := 0, 0, mode;
      new;
      cells := buf[..];
    }

    /** memcpy into the buffer, not crossing its end. */
    method CopyIn(off: nat, data: seq<Byte>)
      requires off + |data| <= buf.Length && off < buf.Length
      modifies this`cells, buf
      ensures cells == buf[..] == Put(old(buf[..]), off, data)
    {
      forall i | 0 <= i < |data| {
        buf[off + i] := data[i];
      }
      cells := buf[..];
      assert forall i | 0 <= i < buf.Length :: cells[i] == Put(old(buf[..]), off, data)[i];
    }

    /** The two copies used when data reaches the end of the buffer. */
    method CopyAround(off: nat, data: seq<Byte>)
      requires off < buf.Length && buf.Length - off <= |data| <= buf.Length
      modifies this`cells, buf
      ensures cells == buf[..] == Put(old(buf[..]), off, data)
    {
      var rem := buf.Length - off;
      CopyIn(off, data[..rem]);
      CopyIn(0, data[rem..]);
    }

    /** The debug probe takes up to `max` bytes and publishes the new `rdOff`. */
    method HostRead(max: nat) returns (out: seq<Byte>)
      requires Valid()
      modifies this`rdOff
      ensures Valid()
      ensures |out| == Min(max, |old(Content())|)
      ensures out + Content() == old(Content())
    {
      var n := Min(max, buf.Length - 1 - AvailWriteSpace(buf.Length, rdOff, wrOff));
      var end := Wrap(buf.Length, rdOff + n);
      SegSplit(cells, rdOff, end, wrOff);
      out := if rdOff <= end then buf[rdOff..end] else buf[rdOff..] + buf[..end];
      assert out == Seg(cells, rdOff, end);
      rdOff := end;
    }

    /** The debug probe stores as much of `data` as fits (down rings). */
    method HostWrite(data: seq<Byte>) returns (stored: nat)
      requires Valid()
      modifies this`wrOff, this`cells, buf
      ensures Valid()
      ensures stored == Min(|data|, old(Free()))
      ensures Content() == old(Content()) + data[..stored]
    {
      var avail := AvailWriteSpace(buf.Length, rdOff, wrOff);
      stored := Min(avail, |data|);
      WriteNoCheck(data[..stored]);
    }

    /** `_WriteNoCheck`: two copies around the end of the buffer, one publication. */
    method WriteNoCheck(data: seq<Byte>)
      requires Valid() && |data| <= Free()
      modifies this`wrOff, this`cells, buf
      ensures Valid()
      ensures cells == Put(old(cells), old(wrOff), data)
      ensures wrOff == Wrap(buf.Length, old(wrOff) + |data|)
      ensures Content() == old(Content()) + data
    {
      PutAppends(cells, rdOff, wrOff, data);
      var rem := Sub32(buf.Length, wrOff);
      if rem > |data| {
        CopyIn(wrOff, data);
        wrOff := Add32(wrOff, |data|);
      } else {
        CopyAround(wrOff, data);
        wrOff := Sub32(|data|, rem);
      }
    }

    /** `_WriteBlocking`. The probe runs beside it: before round `i` it takes up to
        `host[i]` bytes, and after the schedule it stays silent. `blocked` is the
        outcome in which the C loop spins on a full ring with a silent probe. */
    method WriteBlocking(data: seq<Byte>, host: seq<nat>)
      returns (written: U32, got: seq<Byte>, blocked: bool)
      requires Valid() && |data| < TWO32
      modifies this`wrOff, this`rdOff, this`cells, buf
      ensures Valid() && written <= |data|
      ensures got + Content() == old(Content()) + data[..written]
      ensures blocked <==> written < |data|
      ensures blocked ==> Free() == 0
      ensures |data| <= old(Free()) ==> !blocked
      ensures blocked ==> Takes(host) <= written
      ensures host == [] ==> got == []
    {
      written, got, blocked := 0, [], false;
      var i := 0;
      while true
        invariant Valid() && 0 <= i <= |host| && written <= |data|
        invariant got + Content() == old(Content()) + data[..written]
        invariant |data| <= old(Free()) ==> |data| - written <= Free()
        invariant host == [] ==> got == []
        invariant !blocked && Takes(host[..i]) <= written
        decreases |host| - i, |data| - written
      {
        var scheduled := i < |host|;
        var out, n;
        ghost var before := Content();
        n, out := BlockingRound(data, written, if scheduled then host[i] else 0);
        if scheduled {
          assert host[..i + 1][..i] == host[..i];
          i := i + 1;
        }
        Accumulate(got, out, Content(), before, old(Content()), data, written, written + n);
        got, written := got + out, written + n;
        if written == |data| {
          break;
        }
        if n == 0 && !scheduled {
          blocked := true;
          assert host[..i] == host;
          break;
        }
      }
    }

    /** One round of `_WriteBlocking`: the probe takes up to `take` bytes, then the
        target copies up to the end of the buffer at most and publishes `wrOff`. */
    method BlockingRound(data: seq<Byte>, done: U32, take: nat) returns (n: U32, out: seq<Byte>)
      requires Valid() && done <= |data| < TWO32
      modifies this`wrOff, this`rdOff, this`cells, buf
      ensures Valid() && done + n <= |data|
      ensures |out| == Min(take, |old(Content())|)
      ensures out + Content() == old(Content()) + data[done..done + n]
      ensures n == Min(Min(old(Free()) + |out|, buf.Length - old(wrOff)), |data| - done)
      ensures n == 0 && done < |data| ==> take == 0 && Free() == 0
    {
      out := HostRead(take);
      n := BlockingChunk(buf.Length, rdOff, wrOff, |data| - done);
      var chunk := data[done..done + n];
      Assoc(out, Content(), chunk);
      CopyPublish(chunk);
    }

    method CopyPublish(chunk: seq<Byte>)
      requires Valid() && |chunk| <= Free() && wrOff + |chunk| <= buf.Length
      modifies this`wrOff, this`cells, buf
      ensures Valid()
      ensures Content() == old(Content()) + chunk
    {
      PutAppends(cells, rdOff, wrOff, chunk);
      CopyIn(wrOff, chunk);
      wrOff := if wrOff + |chunk| == buf.Length then 0 else wrOff + |chunk|;
    }

    /** `SEGGER_RTT_WriteNoLock`; the modes are 0 skip, 1 trim, 2 block. */
    method WriteNoLock(data: seq<Byte>, host: seq<nat>)
      returns (status: U32, got: seq<Byte>, blocked: bool)
      requires Valid() && |data| < TWO32
      modifies this`wrOff, this`rdOff, this`cells, buf
      ensures Valid() && status <= |data|
      ensures got + Content() == old(Content()) + data[..status]
      ensures flags == 0 ==> status == if |data| <= old(Free()) then |data| else 0
      ensures flags == 1 ==> status == Min(|data|, old(Free()))
      ensures flags == 2 && !blocked ==> status == |data|
      ensures blocked ==> status < |data| && old(Free()) < |data| && Free() == 0 && Takes(host) <= status
      ensures flags != 2 ==> !blocked && got == [] && rdOff == old(rdOff)
      ensures flags != 2 ==> cells == Put(old(cells), old(wrOff), data[..status])
      ensures flags != 2 ==> wrOff == Wrap(buf.Length, old(wrOff) + status)
      ensures !(flags in {0, 1, 2}) ==> status == 0
    {
      got, blocked := [], false;
      if flags == MODE_SKIP {
        var avail := AvailWriteSpace(buf.Length, rdOff, wrOff);
        if avail < |data| {
          status := 0;
        } else {
          status := |data|;
          assert data[..status] == data;
          WriteNoCheck(data);
        }
      } else if flags == MODE_TRIM {
        var avail := AvailWriteSpace(buf.Length, rdOff, wrOff);
        status := if avail < |data| then avail else |data|;
        WriteNoCheck(data[..status]);
      } else if flags == MODE_BLOCK {
        status, got, blocked := WriteBlocking(data, host);
      } else {
        status := 0;
      }
    }

    /** `SEGGER_RTT_WriteSkipNoLock`: all of a non-empty `data`, or nothing. */
    method WriteSkipNoLock(data: seq<Byte>) returns (status: U32)
      requires Valid() && 1 <= |data| < TWO32
      modifies this`wrOff, this`cells, buf
      ensures Valid()
      ensures status == if |data| <= old(Free()) then 1 else 0
      ensures status == 1 ==> cells == Put(old(cells), old(wrOff), data)
      ensures status == 1 ==> wrOff == Wrap(buf.Length, old(wrOff) + |data|)
      ensures status == 1 ==> Content() == old(Content()) + data
      ensures status == 0 ==> cells == old(cells) && wrOff == old(wrOff)
    {
      if |data| <= AvailWriteSpace(buf.Length, rdOff, wrOff) {
        PutAppends(cells, rdOff, wrOff, data);
      }
      if rdOff <= wrOff {
        var avail := Sub32(Sub32(buf.Length, 1), wrOff);
        if avail >= |data| {
          ByteLoop(wrOff, data);
          wrOff := Add32(wrOff, |data|);
          return 1;
        }
        avail := Add32(avail, rdOff);
        if avail >= |data| {
          var rem := Sub32(buf.Length, wrOff);
          if rem > |data| {
            assert false; // the copy without wrap-around at this point is dead code
          } else {
            CopyAround(wrOff, data);
            wrOff := Sub32(|data|, rem);
          }
          return 1;
        }
      } else {
        var avail := Sub32(Sub32(rdOff, wrOff), 1);
        if avail >= |data| {
          CopyIn(wrOff, data);
          wrOff := Add32(wrOff, |data|);
          return 1;
        }
      }
      return 0;
    }

    /** The byte loop that replaces memcpy on the short paths. */
    method ByteLoop(off: nat, data: seq<Byte>)
      requires 1 <= |data| && off + |data| <= buf.Length
      modifies this`cells, buf
      ensures cells == buf[..] == Put(old(buf[..]), off, data)
    {
      var numBytes, src := |data|, 0;
      while numBytes != 0
        invariant 0 <= src && 0 <= numBytes && src + numBytes == |data|
        invariant forall i :: 0 <= i < buf.Length ==>
          buf[i] == if off <= i < off + src then data[i - off] else old(buf[..])[i]
        decreases numBytes
      {
        buf[off + src] := data[src];
        src, numBytes := src + 1, numBytes - 1;
      }
      cells := buf[..];
      assert forall i | 0 <= i < buf.Length :: cells[i] == Put(old(buf[..]), off, data)[i];
    }

    ghost function AsState(): Overwriting.State
      reads this
    {
      Overwriting.State(cells, rdOff, wrOff)
    }

    /** `SEGGER_RTT_WriteWithOverwriteNoLock`. Ring and data lie in one 32-bit address
        space, so their sizes do not add up to 2^32. */
    method WriteWithOverwriteNoLock(data: seq<Byte>)
      requires Valid() && data != [] && buf.Length + |data| < TWO32
      modifies this`wrOff, this`rdOff, this`cells, buf
      ensures Valid()
      ensures AsState() == Overwriting.Overwrite(old(AsState()), data)
    {
      var avail := OverwriteAvail(buf.Length, rdOff, wrOff);
      DropOldest(|data|, avail);
      CopyRounds(data);
    }

    /** The copy loop, at most `avail` bytes a round, with its wrap-arounds. */
    method CopyRounds(data: seq<Byte>)
      requires Valid() && data != [] && |data| < TWO32
      modifies this`wrOff, this`cells, buf
      ensures Valid()
      ensures (cells, wrOff) == Overwriting.Rounds(old(cells), old(wrOff), data, buf.Length - old(wrOff))
    {
      var rest, avail := data, Sub32(buf.Length, wrOff);
      while true
        invariant Valid() && rest != [] && 0 < avail && wrOff + avail <= buf.Length
        invariant Overwriting.Rounds(cells, wrOff, rest, avail)
               == Overwriting.Rounds(old(cells), old(wrOff), data, buf.Length - old(wrOff))
        decreases |rest|
      {
        if avail > |rest| {
          ByteLoop(wrOff, rest);
          wrOff := wrOff + |rest|;
          break;
        } else {
          CopyIn(wrOff, rest[..avail]);
          rest, wrOff, avail := rest[avail..], 0, Sub32(buf.Length, 1);
        }
        if rest == [] {
          break;
        }
      }
    }

    /** The part that moves `RdOff` past the bytes about to be overwritten. */
    method DropOldest(len: U32, avail: U32)
      requires Valid() && buf.Length + len < TWO32
      modifies this`rdOff
      ensures Valid()
      ensures rdOff == if len > avail
                       then Overwriting.Reduce(old(rdOff) + (len - avail), buf.Length)
                       else old(rdOff)
    {
      if len > avail {
        rdOff := Add32(rdOff, Sub32(len, avail));
        while rdOff >= buf.Length
          invariant Overwriting.Reduce(rdOff, buf.Length)
                 == Overwriting.Reduce(old(rdOff) + (len - avail), buf.Length)
        {
          rdOff := Sub32(rdOff, buf.Length);
        }
      }
    }

    /** `SEGGER_RTT_ReadNoLock`: `wrOff - rdOff` below may wrap below zero. */
    method ReadNoLock(bufferSize: U32) returns (data: seq<Byte>)
      requires Valid()
      modifies this`rdOff
      ensures Valid()
      ensures |data| == Min(bufferSize, |old(Content())|)
      ensures data + Content() == old(Content())
      ensures rdOff == Wrap(buf.Length, old(rdOff) + |data|)
    {
      var p := PlanRead(buf.Length, rdOff, wrOff, bufferSize);
      var end := Add32(p.mid, p.second);
      SegSplit(cells, rdOff, end, wrOff);
      data := TwoCopies(p);
      if |data| != 0 {
        rdOff := end;
      }
    }

    /** The two memcpy calls of a read. */
    method TwoCopies(p: ReadPlan) returns (data: seq<Byte>)
      requires Valid() && rdOff + p.first <= buf.Length && p.mid + p.second < buf.Length
      requires p.mid == Wrap(buf.Length, rdOff + p.first)
      requires Dist(buf.Length, rdOff, p.mid + p.second) == p.first + p.second
      ensures data == Seg(cells, rdOff, p.mid + p.second)
    {
      data := buf[rdOff..rdOff + p.first] + buf[p.mid..p.mid + p.second];
    }
  }

  /** The fast skip path and the general one in skip mode, run on equal rings, take
      the same decision and leave equal rings. */
  method SkipPathsAgree(fast: Ring, general: Ring, data: seq<Byte>) returns (s: U32, t: U32)
    requires fast != general && fast.buf != general.buf
    requires fast.Valid() && general.Valid() && 1 <= |data| < TWO32
    requires fast.cells == general.cells
    requires fast.rdOff == general.rdOff && fast.wrOff == general.wrOff
    requires general.flags == 0
    modifies fast`wrOff, fast`cells, fast.buf, general`wrOff, general`rdOff, general`cells, general.buf
    ensures s == 1 <==> t == |data|
    ensures s == 0 <==> t == 0
    ensures fast.cells == general.cells
    ensures fast.rdOff == general.rdOff && fast.wrOff == general.wrOff
  {
    s := fast.WriteSkipNoLock(data);
    var got, blocked;
    t, got, blocked := general.WriteNoLock(data, []);
    if t == 0 {
      assert general.cells == old(general.cells);
    } else {
      assert data[..t] == data;
    }
  }
}
