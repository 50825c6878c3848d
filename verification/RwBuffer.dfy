/** `struct rwbuffer_s` and its operations, updated in place, over a device whose calls
    may fail. As long as they succeed every operation does what the value model says. */
module RwBuffer {
  import opened Words
  import opened RwBufferModel

  const EIO: int := 5
  const ESPIPE: int := 29

  class RwBuffers {
    const cfg: Config
    const deviceOk: nat -> bool   // whether the n-th device call succeeds
    const wrbuffer: array<Block>
    const rhbuffer: array<Block>
    var media: seq<Block>
    var calls: nat
    var wrnblocks: nat
    var wrblockstart: int
    var wrexpectedblock: int
    var rhnblocks: nat
    var rhblockstart: int
    ghost var failures: nat       // device calls that failed so far
    ghost var flushed: seq<Write>
    ghost var written: seq<Write>

    ghost function AsState(): State
      reads this, wrbuffer, rhbuffer
      requires wrnblocks <= wrbuffer.Length && rhnblocks <= rhbuffer.Length
    {
      State(media, wrblockstart, wrbuffer[..wrnblocks], wrexpectedblock,
            rhblockstart, rhbuffer[..rhnblocks], flushed, written)
    }

    ghost predicate Valid()
      reads this, wrbuffer, rhbuffer
    {
      && wrbuffer != rhbuffer
      && wrbuffer.Length == cfg.wrMax && rhbuffer.Length == cfg.rhMax
      && wrnblocks <= wrbuffer.Length && rhnblocks <= rhbuffer.Length
      && Shape(cfg, AsState())
      && failures == Refused(calls)
    }

    /** How many of the first `n` device calls fail. */
    ghost function Refused(n: nat): nat {
      if n == 0 then 0 else Refused(n - 1) + if deviceOk(n - 1) then 0 else 1
    }

    lemma {:induction false} WorkingDevice(n: nat)
      requires forall i :: 0 <= i < n ==> deviceOk(i)
      ensures Refused(n) == 0
      decreases n
    {
      if n > 0 {
        WorkingDevice(n - 1);
      }
    }

    /** The `k`-th device call, if it is a flush of the buffered blocks. */
    ghost function FlushAttempt(s: State, k: nat): State
      requires s.wr == [] || 0 <= s.wrStart
    {
      if s.wr == [] || deviceOk(k) then Flush(s) else Lost(s)
    }

    /** `rwb_initialize` */
    constructor (wrMax: nat, rhMax: nat, disk: seq<Block>, deviceOk: nat -> bool)
      requires 0 < wrMax && 0 < rhMax
      ensures Valid() && fresh(wrbuffer) && fresh(rhbuffer) && failures == 0
      ensures this.deviceOk == deviceOk && calls == 0
      ensures AsState() == Fresh(disk) && cfg == Config(wrMax, rhMax)
    {
      cfg, this.deviceOk, media, calls := Config(wrMax, rhMax), deviceOk, disk, 0;
      wrbuffer := new Block[wrMax];
      rhbuffer := new Block[rhMax];
      wrnblocks, wrblockstart, wrexpectedblock := 0, NO_BLOCK, NO_BLOCK;
      rhnblocks, rhblockstart := 0, NO_BLOCK;
      failures, flushed, written := 0, [], [];
      new;
      assert wrbuffer[..0] == [] && rhbuffer[..0] == [];
    }

    /** The wrflush callout: blocks written, or a negative error. */
    method DeviceWriteBlocks(start: int, data: seq<Block>) returns (ret: int)
      requires failures == Refused(calls) && 0 <= start && start + |data| <= |media|
      modifies this`media, this`calls, this`failures, this`flushed
      ensures failures == Refused(calls) && calls == old(calls) + 1
      ensures if deviceOk(old(calls))
              then ret == |data| && media == Overlay(old(media), start, data)
                && flushed == old(flushed) + Writes(start, data) && failures == old(failures)
              else ret == -5 && media == old(media) && flushed == old(flushed) && failures > old(failures)
      ensures |media| == |old(media)|
    {
      var ok := deviceOk(calls);
      calls := calls + 1;
      if ok {
        media := Overlay(media, start, data);
        flushed := flushed + Writes(start, data);
        ret := |data|;
      } else {
        failures := failures + 1;
        ret := -EIO;
      }
    }

    /** `rwb_wrflush`, also run by the timeout: the buffer is emptied in any case. */
    method WrFlush()
      requires Valid()
      modifies this
      ensures Valid() && wrnblocks == 0 && |media| == |old(media)|
      ensures calls == old(calls) + if old(wrnblocks) == 0 then 0 else 1
      ensures AsState() == FlushAttempt(old(AsState()), old(calls))
      ensures failures >= old(failures)
      ensures failures == old(failures) <==> old(wrnblocks) == 0 || deviceOk(old(calls))
    {
      if wrnblocks > 0 {
        var ret := DeviceWriteBlocks(wrblockstart, wrbuffer[..wrnblocks]);
        wrnblocks, wrblockstart, wrexpectedblock := 0, NO_BLOCK, NO_BLOCK;
      }
      assert wrbuffer[..0] == [];
      assert rhbuffer[..rhnblocks] == old(rhbuffer[..rhnblocks]);
    }

    /** `rwb_writebuffer` */
    method BufferBlocks(start: nat, data: seq<Block>) returns (ret: int)
      requires Valid() && |data| <= cfg.wrMax && start + |data| <= |media|
      modifies this, wrbuffer
      ensures Valid() && |media| == |old(media)|
      ensures failures >= old(failures)
      ensures failures == old(failures) ==>
        ret == |data| && AsState() == WriteBuffer(cfg, old(AsState()), start, data)
      ensures failures > old(failures) ==> ret == -5 && AsState() == old(AsState())
    {
      ret := FlushOnMiss(start, |data|);
      if ret < 0 {
        return;
      }
      if wrnblocks == 0 {
        wrblockstart := start;
      }
      CopyBlocks(data);
      wrnblocks := wrnblocks + |data|;
      wrexpectedblock := wrblockstart + wrnblocks;
      ret := |data|;
      assert rhbuffer[..rhnblocks] == old(rhbuffer[..rhnblocks]);
    }

    /** The flush that makes room for blocks that do not follow or do not fit. */
    method FlushOnMiss(start: nat, n: nat) returns (ret: int)
      requires Valid() && n <= cfg.wrMax
      modifies this
      ensures Valid() && |media| == |old(media)| && (ret >= 0 <==> failures == old(failures))
      ensures failures >= old(failures)
      ensures failures == old(failures) ==>
        && wrnblocks + n <= cfg.wrMax && (wrnblocks == 0 || start == wrexpectedblock)
        && AsState() == if (start != old(wrexpectedblock) && old(wrnblocks) != 0) || old(wrnblocks) + n > cfg.wrMax
                        then Flush(old(AsState())) else old(AsState())
      ensures failures > old(failures) ==> ret == -5 && AsState() == old(AsState())
    {
      ret := 0;
      if (start != wrexpectedblock && wrnblocks != 0) || wrnblocks + n > cfg.wrMax {
        ret := DeviceWriteBlocks(wrblockstart, wrbuffer[..wrnblocks]);
        if ret >= 0 {
          wrnblocks, wrblockstart, wrexpectedblock := 0, NO_BLOCK, NO_BLOCK;
          assert wrbuffer[..0] == [];
        }
      }
      assert rhbuffer[..rhnblocks] == old(rhbuffer[..rhnblocks]);
      assert wrnblocks == old(wrnblocks) ==> wrbuffer[..wrnblocks] == old(wrbuffer[..wrnblocks]);
    }

    /** memcpy behind the buffered blocks. */
    method CopyBlocks(data: seq<Block>)
      requires wrnblocks + |data| <= wrbuffer.Length
      modifies wrbuffer
      ensures wrbuffer[..wrnblocks + |data|] == old(wrbuffer[..wrnblocks]) + data
    {
      forall i | 0 <= i < |data| {
        wrbuffer[wrnblocks + i] := data[i];
      }
    }

    /** The start of `rwb_write`. */
    method Note(start: nat, data: seq<Block>)
      requires Valid()
      modifies this`written, this`rhnblocks, this`rhblockstart
      ensures Valid() && AsState() == Noted(old(AsState()), start, data)
    {
      written := written + Writes(start, data);
      if Overlap(rhblockstart, rhnblocks, start, |data|) {
        rhnblocks, rhblockstart := 0, NO_BLOCK;
      }
      assert wrbuffer[..wrnblocks] == old(wrbuffer[..wrnblocks]);
      assert rhnblocks == old(rhnblocks) ==> rhbuffer[..rhnblocks] == old(rhbuffer[..rhnblocks]);
      assert rhbuffer[..0] == [];
    }

    /** Blocks straight to the device, with nothing buffered. */
    method WriteThrough(start: nat, data: seq<Block>) returns (ret: int)
      requires Valid() && wrnblocks == 0 && start + |data| <= |media|
      modifies this`media, this`calls, this`failures, this`flushed
      ensures Valid() && |media| == |old(media)| && calls == old(calls) + 1
      ensures if deviceOk(old(calls))
              then ret == |data| && AsState() == DeviceWrite(old(AsState()), start, data) && failures == old(failures)
              else ret == -5 && AsState() == old(AsState()) && failures > old(failures)
    {
      ret := DeviceWriteBlocks(start, data);
      assert wrbuffer[..0] == [];
      assert rhbuffer[..rhnblocks] == old(rhbuffer[..rhnblocks]);
    }

    /** `rwb_write` of blocks that lie on the device. */
    method WriteTo(start: nat, data: seq<Block>) returns (ret: int)
      requires Valid() && start + |data| <= |media|
      modifies this, wrbuffer
      ensures Valid() && |media| == |old(media)|
      ensures failures >= old(failures)
      ensures failures == old(failures) ==>
        ret == |data| && AsState() == WriteBlocks(cfg, old(AsState()), start, data)
      ensures failures > old(failures) && |data| <= cfg.wrMax ==>
        ret == -5 && AsState() == Noted(old(AsState()), start, data)
      ensures failures > old(failures) && |data| > cfg.wrMax ==>
        var t := FlushAttempt(Noted(old(AsState()), start, data), old(calls));
        if deviceOk(calls - 1) then ret == |data| && AsState() == DeviceWrite(t, start, data)
        else ret == -5 && AsState() == t
    {
      hide Noted, WriteBuffer, Flush, DeviceWrite;
      Note(start, data);
      if |data| > cfg.wrMax {
        WrFlush();
        ret := WriteThrough(start, data);
      } else {
        ret := BufferBlocks(start, data);
      }
    }

    /** `rwb_rhreload` */
    method RhReload(block: nat) returns (ret: int)
      requires Valid()
      modifies this`calls, this`failures, this`rhnblocks, this`rhblockstart, rhbuffer
      ensures Valid() && failures >= old(failures)
      ensures failures > old(failures) <==> block < |media| && !deviceOk(old(calls))
      ensures if block >= |media| then ret == -29 && AsState() == old(AsState())
              else if deviceOk(old(calls)) then ret > 0 && AsState() == Reload(cfg, old(AsState()), block)
              else ret == -5 && AsState() == old(AsState()).(rh := [], rhStart := NO_BLOCK)
      ensures ret < 0 || (block < |media| && Hit(AsState(), block))
    {
      if block >= |media| {
        return -ESPIPE;
      }
      var endblock := block + cfg.rhMax;
      if endblock > |media| {
        endblock := |media|;
      }
      var n := endblock - block;
      rhnblocks, rhblockstart := 0, NO_BLOCK;
      var ok := deviceOk(calls);
      calls := calls + 1;
      if !ok {
        failures := failures + 1;
        assert wrbuffer[..wrnblocks] == old(wrbuffer[..wrnblocks]);
        assert rhbuffer[..0] == [];
        return -EIO;
      }
      forall i | 0 <= i < n {
        rhbuffer[i] := media[block + i];
      }
      rhnblocks, rhblockstart := n, block;
      assert rhbuffer[..n] == media[block..endblock];
      assert wrbuffer[..wrnblocks] == old(wrbuffer[..wrnblocks]);
      ret := n;
    }

    /** `rwb_read`. The refill starts from the flushed state, or without the buffered
        blocks if the device refused them, which the caller is not told. */
    method ReadFrom(start: nat, n: nat) returns (ret: int, data: seq<Block>, ghost from: State)
      requires Valid()
      modifies this, rhbuffer
      ensures Valid() && |media| == |old(media)|
      ensures from == if FlushForRead(old(AsState()), start, n) == old(AsState()) then old(AsState())
                      else FlushAttempt(old(AsState()), old(calls))
      ensures Ended(from, start, n, ret, data)
      ensures failures >= old(failures)
      ensures failures == old(failures) ==>
        var o := ReadBlocks(cfg, old(AsState()), start, n);
        AsState() == o.state && data == o.data && ret == if o.complete then n else -29
    {
      FlushTest(AsState(), start, n);
      hide ReadLoop, Flush, Lost;
      if Overlap(wrblockstart, wrnblocks, start, n) {
        WrFlush();
      }
      from := AsState();
      ret, data := RefillLoop(start, n);
    }

    /** How a refill from `from` ended: with all blocks, at the end of the device, or at a
        failed reload with the right blocks up to there and an empty read-ahead buffer. */
    ghost predicate Ended(from: State, start: nat, n: nat, ret: int, data: seq<Block>)
      requires 0 < cfg.rhMax && wrnblocks <= wrbuffer.Length && rhnblocks <= rhbuffer.Length
      reads this, wrbuffer, rhbuffer
    {
      var o := ReadLoop(cfg, from, start, n);
      if ret == -5 then data <= o.data && AsState() == from.(rh := [], rhStart := NO_BLOCK)
      else AsState() == o.state && data == o.data && ret == if o.complete then n else -29
    }

    /** The loop of `rwb_read`: from the buffer, else reload and try again. */
    method RefillLoop(start: nat, n: nat) returns (ret: int, data: seq<Block>)
      requires Valid()
      modifies this`calls, this`failures, this`rhnblocks, this`rhblockstart, rhbuffer
      ensures Valid() && failures >= old(failures)
      ensures ret == -5 <==> failures > old(failures)
      ensures Ended(old(AsState()), start, n, ret, data)
    {
      hide ReadLoop, Supply, Cached, Hit, Reload;
      var block: nat, remaining: nat := start, n;
      data := [];
      ghost var first := AsState();
      ghost var whole := ReadLoop(cfg, first, start, n);
      JoinNothing(whole);
      while remaining > 0
        invariant Valid() && failures == old(failures)
        invariant AsState() == first.(rh := AsState().rh, rhStart := AsState().rhStart)
        invariant whole == Joined(data, ReadLoop(cfg, AsState(), block, remaining))
        decreases remaining, if Hit(AsState(), block) then 0 else 1
      {
        ghost var s := AsState();
        ReadLoopUnfolds(cfg, s, block, remaining);
        var k, got := BufferRead(block, remaining);
        block, remaining := block + k, remaining - k;
        if remaining == 0 {
          data, ret := data + got, n;
          return;
        }
        ret := RhReload(block);
        if block < |media| {
          ghost var rest := ReadLoop(cfg, Reload(cfg, s, block), block, remaining);
          JoinMore(data, got, rest);
          StartsWith(data, got, rest.data);
        }
        data := data + got;
        if ret < 0 {
          return;
        }
      }
      ReadLoopUnfolds(cfg, AsState(), block, 0);
      ret := n;
    }

    /** What the buffer holds from `block` on, `rwb_bufferread` included. */
    method BufferRead(block: nat, remaining: nat) returns (k: nat, got: seq<Block>)
      requires Valid()
      ensures k == Supply(AsState(), block, remaining)
      ensures got == Cached(AsState(), block, k)
    {
      k, got := 0, [];
      if rhnblocks > 0 {
        var bufferend := rhblockstart + rhnblocks;
        if rhblockstart <= block < bufferend {
          k := bufferend - block;
          if k > remaining {
            k := remaining;
          }
          var at := block - rhblockstart;
          got := rhbuffer[at..at + k];
          assert got == rhbuffer[..rhnblocks][at..at + k];
        }
      }
    }
  }

  lemma FlushTest(s: State, start: nat, n: nat)
    requires s.wr == [] || 0 <= s.wrStart
    ensures FlushForRead(s, start, n) == if Overlap(s.wrStart, |s.wr|, start, n) then Flush(s) else s
    ensures Flush(s) == s <==> s.wr == []
  {
  }

  /** A read outcome with blocks already delivered in front. */
  ghost function Joined(data: seq<Block>, o: Outcome): Outcome {
    Outcome(o.state, data + o.data, o.complete)
  }

  lemma StartsWith(a: seq<Block>, b: seq<Block>, c: seq<Block>)
    ensures a + b <= a + (b + c)
  {
    Assoc(a, b, c);
  }

  lemma JoinNothing(o: Outcome)
    ensures Joined([], o) == o
  {
    assert [] + o.data == o.data;
  }

  lemma JoinMore(data: seq<Block>, got: seq<Block>, rest: Outcome)
    ensures Joined(data, Joined(got, rest)) == Joined(data + got, rest)
  {
    Assoc(data, got, rest.data);
  }
}
