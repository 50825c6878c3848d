/** The block buffers of rwbuffer.c on values: a write buffer of consecutive dirty
    blocks and a read-ahead buffer, in front of a device whose calls succeed. */
module RwBufferModel {
  import opened Words

  type Block = seq<Byte>

  /** Buffer sizes in blocks; both buffers are in use. */
  datatype Config = Config(wrMax: nat, rhMax: nat)

  /** One block written to a device. */
  datatype Write = Write(block: nat, data: Block)

  /** `flushed` and `written` record the run: what reached the device, block by block,
      and what callers wrote. */
  datatype State = State(media: seq<Block>,
                         wrStart: int, wr: seq<Block>, wrExpected: int,
                         rhStart: int, rh: seq<Block>,
                         flushed: seq<Write>, written: seq<Write>)

  const NO_BLOCK: int := -1

  // ----- Plain disks

  function Overlay(m: seq<Block>, start: int, data: seq<Block>): (r: seq<Block>)
    ensures |r| == |m|
    ensures forall i :: 0 <= i < |m| ==>
      r[i] == if start <= i < start + |data| then data[i - start] else m[i]
  {
    seq(|m|, i requires 0 <= i < |m| => if start <= i < start + |data| then data[i - start] else m[i])
  }

  function Writes(start: int, data: seq<Block>): (ws: seq<Write>)
    requires data == [] || 0 <= start
    ensures |ws| == |data|
    ensures forall i :: 0 <= i < |ws| ==> ws[i] == Write(start + i, data[i])
  {
    seq(|data|, i requires 0 <= i < |data| => Write(start + i, data[i]))
  }

  /** A disk after a sequence of unbuffered writes. */
  function Apply(m: seq<Block>, ws: seq<Write>): (r: seq<Block>)
    ensures |r| == |m|
  {
    if ws == [] then m
    else
      var before, w := Apply(m, ws[..|ws| - 1]), ws[|ws| - 1];
      if w.block < |m| then before[w.block := w.data] else before
  }

  lemma {:induction false} ApplyWrites(m: seq<Block>, ws: seq<Write>, start: nat, data: seq<Block>)
    requires start + |data| <= |m|
    ensures Apply(m, ws + Writes(start, data)) == Overlay(Apply(m, ws), start, data)
    decreases |data|
  {
    hide Overlay;
    if data == [] {
      assert ws + Writes(start, data) == ws;
      assert Overlay(Apply(m, ws), start, data) == Apply(m, ws);
    } else {
      var init, k := data[..|data| - 1], |data| - 1;
      ApplyWrites(m, ws, start, init);
      var all := ws + Writes(start, data);
      assert all[..|all| - 1] == ws + Writes(start, init);
      assert all[|all| - 1] == Write(start + k, data[k]);
      OverlayLast(Apply(m, ws), start, data);
    }
  }

  lemma OverlayLast(m: seq<Block>, start: nat, data: seq<Block>)
    requires data != [] && start + |data| <= |m|
    ensures var k := |data| - 1;
            Overlay(m, start, data) == Overlay(m, start, data[..k])[start + k := data[k]]
  {
  }

  // ----- The two buffers

  /** `rwb_overlap`: touching ranges count as overlapping. */
  predicate Overlap(start1: int, n1: nat, start2: int, n2: nat) {
    !(start1 + n1 < start2 || start1 > start2 + n2)
  }

  /** `rwb_wrflush` */
  function Flush(s: State): State
    requires s.wr == [] || 0 <= s.wrStart
  {
    if s.wr == [] then s
    else DeviceWrite(s, s.wrStart, s.wr).(wr := [], wrStart := NO_BLOCK, wrExpected := NO_BLOCK)
  }

  /** What is left when the device refuses a flush: the buffered blocks are gone. */
  function Lost(s: State): State {
    s.(wr := [], wrStart := NO_BLOCK, wrExpected := NO_BLOCK)
  }

  function DeviceWrite(s: State, start: int, data: seq<Block>): State
    requires data == [] || 0 <= start
  {
    s.(media := Overlay(s.media, start, data), flushed := s.flushed + Writes(start, data))
  }

  /** `rwb_writebuffer` */
  function WriteBuffer(cfg: Config, s: State, start: nat, data: seq<Block>): State
    requires s.wr == [] || 0 <= s.wrStart
  {
    var miss := (start != s.wrExpected && s.wr != []) || |s.wr| + |data| > cfg.wrMax;
    var t := if miss then Flush(s) else s;
    var first := if t.wr == [] then start else t.wrStart;
    t.(wr := t.wr + data, wrStart := first, wrExpected := first + |t.wr| + |data|)
  }

  /** The request is recorded, and read-ahead blocks that meet it are dropped. */
  function Noted(s: State, start: nat, data: seq<Block>): State {
    (if Overlap(s.rhStart, |s.rh|, start, |data|) then s.(rh := [], rhStart := NO_BLOCK) else s)
    .(written := s.written + Writes(start, data))
  }

  /** `rwb_write` */
  function WriteBlocks(cfg: Config, s: State, start: nat, data: seq<Block>): State
    requires s.wr == [] || 0 <= s.wrStart
  {
    var t := Noted(s, start, data);
    if |data| > cfg.wrMax then DeviceWrite(Flush(t), start, data)
    else WriteBuffer(cfg, t, start, data)
  }

  predicate Hit(s: State, block: nat) {
    s.rh != [] && s.rhStart <= block < s.rhStart + |s.rh|
  }

  /** `rwb_rhreload` for a block on the device. */
  function Reload(cfg: Config, s: State, block: nat): (t: State)
    requires block < |s.media| && 0 < cfg.rhMax
    ensures Hit(t, block)
  {
    s.(rh := s.media[block..Min(block + cfg.rhMax, |s.media|)], rhStart := block)
  }

  /** What `rwb_read` hands back: the blocks, and whether the read got to its end. */
  datatype Outcome = Outcome(state: State, data: seq<Block>, complete: bool)

  /** Blocks the read-ahead buffer can supply from `block` on. */
  function Supply(s: State, block: nat, remaining: nat): (k: nat)
    ensures k <= remaining
    ensures Hit(s, block) && remaining > 0 ==> k > 0
    ensures k > 0 ==> Hit(s, block) && block + k <= s.rhStart + |s.rh|
  {
    if Hit(s, block) then Min(s.rhStart + |s.rh| - block, remaining) else 0
  }

  /** `rwb_bufferread` */
  function Cached(s: State, block: nat, k: nat): (got: seq<Block>)
    requires k > 0 ==> Hit(s, block) && block + k <= s.rhStart + |s.rh|
    ensures |got| == k
  {
    if k > 0 then s.rh[block - s.rhStart..block - s.rhStart + k] else []
  }

  /** The refill loop of `rwb_read`. */
  function ReadLoop(cfg: Config, s: State, block: nat, remaining: nat): Outcome
    requires 0 < cfg.rhMax
    decreases remaining, if Hit(s, block) then 0 else 1
  {
    if remaining == 0 then Outcome(s, [], true)
    else
      var k := Supply(s, block, remaining);
      var got := Cached(s, block, k);
      if k == remaining then Outcome(s, got, true)
      else if block + k >= |s.media| then Outcome(s, got, false)
      else
        var rest := ReadLoop(cfg, Reload(cfg, s, block + k), block + k, remaining - k);
        Outcome(rest.state, got + rest.data, rest.complete)
  }

  /** The flush that `rwb_read` makes when the request meets the dirty blocks. */
  function FlushForRead(s: State, start: nat, n: nat): State
    requires s.wr == [] || 0 <= s.wrStart
  {
    if Overlap(s.wrStart, |s.wr|, start, n) then Flush(s) else s
  }

  /** `rwb_read` */
  function ReadBlocks(cfg: Config, s: State, start: nat, n: nat): Outcome
    requires 0 < cfg.rhMax && (s.wr == [] || 0 <= s.wrStart)
  {
    ReadLoop(cfg, FlushForRead(s, start, n), start, n)
  }

  // ----- What the buffers stand for

  /** The disk that callers believe in: the media under the dirty blocks. */
  function Plain(s: State): seq<Block> {
    Overlay(s.media, s.wrStart, s.wr)
  }

  predicate Shape(cfg: Config, s: State) {
    && 0 < cfg.rhMax && |s.wr| <= cfg.wrMax
    && (s.wr != [] ==> 0 <= s.wrStart && s.wrStart + |s.wr| <= |s.media| && s.wrExpected == s.wrStart + |s.wr|)
    && (s.rh != [] ==> 0 <= s.rhStart && s.rhStart + |s.rh| <= |s.media|)
  }

  /** Flushed, then still buffered: every written block once, in the order written. */
  predicate Accounted(initial: seq<Block>, s: State)
    requires s.wr == [] || 0 <= s.wrStart
  {
    && s.flushed + Writes(s.wrStart, s.wr) == s.written
    && s.media == Apply(initial, s.flushed)
  }

  /** The read-ahead buffer agrees with the disk that callers believe in. */
  predicate Coherent(s: State) {
    forall i :: 0 <= i < |s.rh| && 0 <= s.rhStart + i < |s.media| ==> s.rh[i] == Plain(s)[s.rhStart + i]
  }

  predicate OnDevice(s: State, start: nat, n: nat) {
    start + n <= |s.media|
  }

  // ----- Writes

  lemma FlushKeeps(cfg: Config, initial: seq<Block>, s: State)
    requires Shape(cfg, s) && Accounted(initial, s)
    ensures Shape(cfg, Flush(s)) && Accounted(initial, Flush(s))
    ensures Plain(Flush(s)) == Plain(s) && Flush(s).media == Plain(s)
    ensures |Flush(s).media| == |s.media|
  {
    var t := Flush(s);
    if s.wr != [] {
      ApplyWrites(initial, s.flushed, s.wrStart, s.wr);
    }
    assert t.flushed + Writes(t.wrStart, t.wr) == t.flushed;
    assert s.flushed + Writes(s.wrStart, []) == s.flushed;
  }

  lemma OverlayAppend(m: seq<Block>, start: int, x: seq<Block>, y: seq<Block>)
    ensures Overlay(m, start, x + y) == Overlay(Overlay(m, start, x), start + |x|, y)
  {
  }

  lemma WritesAppend(start: nat, x: seq<Block>, y: seq<Block>)
    ensures Writes(start, x + y) == Writes(start, x) + Writes(start + |x|, y)
  {
  }

  /** Adding blocks that follow the buffered ones. */
  lemma BufferMore(cfg: Config, initial: seq<Block>, s: State, start: nat, data: seq<Block>, all: seq<Write>)
    requires Shape(cfg, s) && Accounted(initial, s) && OnDevice(s, start, |data|)
    requires |s.wr| + |data| <= cfg.wrMax && (s.wr != [] ==> start == s.wrStart + |s.wr|)
    requires all == s.written + Writes(start, data)
    ensures var first := if s.wr == [] then start else s.wrStart;
            var t := s.(wr := s.wr + data, wrStart := first, wrExpected := first + |s.wr| + |data|, written := all);
            Shape(cfg, t) && Accounted(initial, t) && Plain(t) == Overlay(Plain(s), start, data)
  {
    hide Overlay, Writes, Apply;
    var first := if s.wr == [] then start else s.wrStart;
    WritesAppend(first, s.wr, data);
    OverlayAppend(s.media, first, s.wr, data);
    Assoc(s.flushed, Writes(first, s.wr), Writes(start, data));
    if s.wr == [] {
      NothingBuffered(s.media, first, s.wrStart);
    }
  }

  lemma NothingBuffered(m: seq<Block>, i: nat, j: int)
    ensures Writes(i, []) == Writes(j, []) && Overlay(m, i, []) == Overlay(m, j, [])
  {
  }

  lemma WriteBufferKeeps(cfg: Config, initial: seq<Block>, s: State, start: nat, data: seq<Block>, all: seq<Write>)
    requires Shape(cfg, s) && Accounted(initial, s) && OnDevice(s, start, |data|) && |data| <= cfg.wrMax
    requires all == s.written + Writes(start, data)
    ensures var t := WriteBuffer(cfg, s, start, data).(written := all);
            && Shape(cfg, t) && Accounted(initial, t)
            && Plain(t) == Overlay(Plain(s), start, data)
            && |t.media| == |s.media| && t.rh == s.rh && t.rhStart == s.rhStart
  {
    hide Apply, Overlay, Writes;
    var miss := (start != s.wrExpected && s.wr != []) || |s.wr| + |data| > cfg.wrMax;
    if miss {
      FlushKeeps(cfg, initial, s);
      BufferMore(cfg, initial, Flush(s), start, data, all);
    } else {
      BufferMore(cfg, initial, s, start, data, all);
    }
  }

  lemma DirectWriteKeeps(cfg: Config, initial: seq<Block>, s: State, start: nat, data: seq<Block>, all: seq<Write>)
    requires Shape(cfg, s) && Accounted(initial, s) && OnDevice(s, start, |data|) && s.wr == []
    requires all == s.written + Writes(start, data)
    ensures var t := DeviceWrite(s, start, data).(written := all);
            && Shape(cfg, t) && Accounted(initial, t) && Plain(t) == Overlay(Plain(s), start, data)
  {
    assert s.flushed + Writes(s.wrStart, s.wr) == s.flushed;
    ApplyWrites(initial, s.flushed, start, data);
    var t := DeviceWrite(s, start, data).(written := all);
    assert t.flushed + Writes(t.wrStart, t.wr) == t.flushed;
    assert Plain(s) == s.media && Plain(t) == t.media;
  }

  /** A write that does not touch the cached range cannot make it wrong. */
  lemma WriteElsewhere(s: State, t: State, start: nat, data: seq<Block>)
    requires Coherent(s) && Plain(t) == Overlay(Plain(s), start, data) && |t.media| == |s.media|
    requires t.rh == s.rh && t.rhStart == s.rhStart
    requires s.rh == [] || !Overlap(s.rhStart, |s.rh|, start, |data|)
    ensures Coherent(t)
  {
  }

  lemma WriteKeeps(cfg: Config, initial: seq<Block>, s: State, start: nat, data: seq<Block>)
    requires Shape(cfg, s) && Accounted(initial, s) && OnDevice(s, start, |data|)
    ensures var t := WriteBlocks(cfg, s, start, data);
            && Shape(cfg, t) && Accounted(initial, t)
            && Plain(t) == Overlay(Plain(s), start, data)
            && t.written == s.written + Writes(start, data)
            && |t.media| == |s.media|
            && (Coherent(s) ==> Coherent(t))
  {
    hide Apply, Overlay, Writes, Coherent;
    var all := s.written + Writes(start, data);
    var u := if Overlap(s.rhStart, |s.rh|, start, |data|) then s.(rh := [], rhStart := NO_BLOCK) else s;
    var t := WriteBlocks(cfg, s, start, data);
    DropCache(s);
    if |data| > cfg.wrMax {
      FlushKeeps(cfg, initial, u);
      DirectWriteKeeps(cfg, initial, Flush(u), start, data, all);
      assert t == DeviceWrite(Flush(u), start, data).(written := all);
    } else {
      WriteBufferKeeps(cfg, initial, u, start, data, all);
      assert t == WriteBuffer(cfg, u, start, data).(written := all);
    }
    if Coherent(s) {
      WriteElsewhere(u, t, start, data);
    }
  }

  lemma DropCache(s: State)
    ensures Coherent(s.(rh := [], rhStart := NO_BLOCK))
    ensures Plain(s.(rh := [], rhStart := NO_BLOCK)) == Plain(s)
  {
  }

  // ----- Reads

  /** Cached blocks inside `[lo, hi)` are what callers believe in. */
  predicate CoherentOn(s: State, lo: int, hi: int) {
    forall i :: 0 <= i < |s.rh| && 0 <= s.rhStart + i < |s.media| && lo <= s.rhStart + i < hi ==>
      s.rh[i] == Plain(s)[s.rhStart + i]
  }

  /** No dirty block in `[lo, hi)`. */
  predicate NoDirty(s: State, lo: int, hi: int) {
    s.wr == [] || s.wrStart + |s.wr| <= lo || hi <= s.wrStart
  }

  lemma FlushForReadKeeps(cfg: Config, initial: seq<Block>, s: State, start: nat, n: nat)
    requires Shape(cfg, s) && Accounted(initial, s)
    ensures var t := FlushForRead(s, start, n);
            && Shape(cfg, t) && Accounted(initial, t) && Plain(t) == Plain(s)
            && NoDirty(t, start, start + n)
            && |t.media| == |s.media| && t.rh == s.rh && t.rhStart == s.rhStart && t.written == s.written
            && (Coherent(s) ==> Coherent(t))
  {
    hide Plain, Accounted;
    FlushKeeps(cfg, initial, s);
  }

  /** A read outcome that left everything but the read-ahead buffer alone and returned
      what callers believe in, up to the end of the request or of the device. */
  predicate ReadOk(cfg: Config, s: State, block: nat, remaining: nat, o: Outcome) {
    && o.state == s.(rh := o.state.rh, rhStart := o.state.rhStart) && Shape(cfg, o.state)
    && o.complete == (block + remaining <= |s.media| || remaining == 0)
    && |o.data| == (if o.complete then remaining else Max(0, |s.media| - block))
    && (forall i :: 0 <= i < |o.data| ==> o.data[i] == Plain(s)[block + i])
  }

  /** The refill loop reads right as long as the requested range is clean and its
      cached blocks are right. */
  lemma {:induction false} ReadLoopReads(cfg: Config, s: State, block: nat, remaining: nat)
    requires Shape(cfg, s) && NoDirty(s, block, block + remaining)
    requires CoherentOn(s, block, block + remaining)
    ensures ReadOk(cfg, s, block, remaining, ReadLoop(cfg, s, block, remaining))
    decreases remaining, if Hit(s, block) then 0 else 1
  {
    hide ReadLoop, ReadOk, Cached, Plain;
    ReadLoopUnfolds(cfg, s, block, remaining);
    var k := Supply(s, block, remaining);
    CachedIsRight(cfg, s, block, k);
    if remaining > k && block + k < |s.media| {
      var t := Reload(cfg, s, block + k);
      ReloadIsRight(cfg, s, block + k, block + remaining);
      ReadLoopReads(cfg, t, block + k, remaining - k);
      JoinReads(cfg, s, t, block, Cached(s, block, k), remaining, ReadLoop(cfg, t, block + k, remaining - k));
    } else {
      ReadEnds(cfg, s, block, remaining, k);
    }
  }

  /** The last round: all there, or at the end of the device. */
  lemma ReadEnds(cfg: Config, s: State, block: nat, remaining: nat, k: nat)
    requires Shape(cfg, s) && k == Supply(s, block, remaining)
    requires k == remaining || block + k >= |s.media|
    requires forall i :: 0 <= i < k ==> block + i < |s.media| && Cached(s, block, k)[i] == Plain(s)[block + i]
    ensures remaining == 0 ==> ReadOk(cfg, s, block, remaining, Outcome(s, [], true))
    ensures ReadOk(cfg, s, block, remaining, Outcome(s, Cached(s, block, k), k == remaining))
  {
  }

  /** Blocks from the buffer, then the rest of the read after a reload. */
  lemma JoinReads(cfg: Config, s: State, t: State, block: nat, got: seq<Block>, remaining: nat, rest: Outcome)
    requires |got| < remaining && block + |got| < |s.media|
    requires t == s.(rh := t.rh, rhStart := t.rhStart)
    requires forall i :: 0 <= i < |got| ==> got[i] == Plain(s)[block + i]
    requires ReadOk(cfg, t, block + |got|, remaining - |got|, rest)
    ensures ReadOk(cfg, s, block, remaining, Outcome(rest.state, got + rest.data, rest.complete))
  {
    assert Plain(t) == Plain(s);
    forall i | 0 <= i < |got + rest.data|
      ensures (got + rest.data)[i] == Plain(s)[block + i]
    {
      if i >= |got| {
        assert rest.data[i - |got|] == Plain(t)[block + |got| + (i - |got|)];
      }
    }
  }

  /** One round of the refill loop. */
  lemma {:induction false} ReadLoopUnfolds(cfg: Config, s: State, block: nat, remaining: nat)
    requires 0 < cfg.rhMax
    ensures var k := Supply(s, block, remaining);
            ReadLoop(cfg, s, block, remaining) ==
            if remaining == 0 then Outcome(s, [], true)
            else if k == remaining then Outcome(s, Cached(s, block, k), true)
            else if block + k >= |s.media| then Outcome(s, Cached(s, block, k), false)
            else
              var rest := ReadLoop(cfg, Reload(cfg, s, block + k), block + k, remaining - k);
              Outcome(rest.state, Cached(s, block, k) + rest.data, rest.complete)
  {
    hide Supply, Cached, Reload;
  }

  lemma CachedIsRight(cfg: Config, s: State, block: nat, k: nat)
    requires Shape(cfg, s) && CoherentOn(s, block, block + k)
    requires k > 0 ==> Hit(s, block) && block + k <= s.rhStart + |s.rh|
    ensures forall i :: 0 <= i < k ==> block + i < |s.media| && Cached(s, block, k)[i] == Plain(s)[block + i]
  {
    forall i | 0 <= i < k
      ensures block + i < |s.media| && Cached(s, block, k)[i] == Plain(s)[block + i]
    {
      assert Cached(s, block, k)[i] == s.rh[block - s.rhStart + i];
    }
  }

  lemma ReloadIsRight(cfg: Config, s: State, block: nat, hi: nat)
    requires Shape(cfg, s) && block < |s.media| && NoDirty(s, block, hi)
    ensures var t := Reload(cfg, s, block);
            Shape(cfg, t) && CoherentOn(t, block, hi) && NoDirty(t, block, hi) && Plain(t) == Plain(s)
  {
  }

  /** From a coherent state every read returns what callers believe in; past the end of
      the device it stops there and reports it. */
  lemma ReadReads(cfg: Config, initial: seq<Block>, s: State, start: nat, n: nat)
    requires Shape(cfg, s) && Accounted(initial, s) && Coherent(s)
    ensures var o := ReadBlocks(cfg, s, start, n);
            && Shape(cfg, o.state) && Accounted(initial, o.state)
            && Plain(o.state) == Plain(s) && o.state.written == s.written && |o.state.media| == |s.media|
            && o.complete == (start + n <= |s.media| || n == 0)
            && |o.data| == (if o.complete then n else Max(0, |s.media| - start))
            && forall i :: 0 <= i < |o.data| ==> o.data[i] == Plain(s)[start + i]
  {
    hide ReadLoop, Plain, Coherent, CoherentOn, NoDirty, Accounted, FlushForRead;
    FlushForReadKeeps(cfg, initial, s, start, n);
    var t := FlushForRead(s, start, n);
    CoherentCovers(t, start, start + n);
    ReadLoopReads(cfg, t, start, n);
    OnlyCacheMoved(initial, t, ReadLoop(cfg, t, start, n).state);
  }

  lemma CoherentCovers(t: State, lo: nat, hi: nat)
    requires Coherent(t)
    ensures CoherentOn(t, lo, hi)
  {
  }

  lemma OnlyCacheMoved(initial: seq<Block>, t: State, u: State)
    requires (t.wr == [] || 0 <= t.wrStart) && u == t.(rh := u.rh, rhStart := u.rhStart)
    ensures Plain(u) == Plain(t) && (Accounted(initial, t) ==> Accounted(initial, u))
  {
  }

  // ----- When a read leaves the read-ahead buffer coherent

  /** The last window the refill loop loads: none, or blocks `[lo, hi)`. A caller can
      compute it from the buffer bounds before the call. */
  datatype Window = NoReload | Window(lo: nat, hi: nat)

  function LastReload(rhMax: nat, size: nat, block: nat, end: nat): (w: Window)
    requires 0 < rhMax && block < size && block < end
    ensures w.Window? && block <= w.lo < end && w.lo < w.hi <= size
    ensures w.hi == Min(w.lo + rhMax, size) && (end <= w.hi || w.hi == size)
    decreases end - block
  {
    if end <= block + rhMax || size <= block + rhMax then Window(block, Min(block + rhMax, size))
    else LastReload(rhMax, size, block + rhMax, end)
  }

  function ReloadWindow(cfg: Config, s: State, block: nat, n: nat): (w: Window)
    requires 0 < cfg.rhMax
    ensures w.Window? ==> w.lo < w.hi <= |s.media|
  {
    var k := Supply(s, block, n);
    if k == n || block + k >= |s.media| then NoReload
    else LastReload(cfg.rhMax, |s.media|, block + k, block + n)
  }

  /** The state after loading `w`. */
  function Loaded(s: State, w: Window): State
    requires w.Window? ==> w.lo <= w.hi <= |s.media|
  {
    match w
    case NoReload => s
    case Window(lo, hi) => s.(rhStart := lo, rh := s.media[lo..hi])
  }

  lemma NothingLoaded(s: State)
    ensures Loaded(s, NoReload) == s
  {
  }

  lemma {:induction false} ReadLoopLoads(cfg: Config, s: State, block: nat, remaining: nat)
    requires Shape(cfg, s)
    ensures ReadLoop(cfg, s, block, remaining).state == Loaded(s, ReloadWindow(cfg, s, block, remaining))
    decreases remaining, if Hit(s, block) then 0 else 1
  {
    hide ReadLoop, Loaded, LastReload, Cached;
    ReadLoopUnfolds(cfg, s, block, remaining);
    NothingLoaded(s);
    var k := Supply(s, block, remaining);
    if remaining > 0 && k < remaining && block + k < |s.media| {
      var t, first := Reload(cfg, s, block + k), block + k;
      ReadLoopLoads(cfg, t, first, remaining - k);
      WindowAfterReload(cfg, s, first, remaining - k);
    }
  }

  lemma WindowAfterReload(cfg: Config, s: State, first: nat, rest: nat)
    requires Shape(cfg, s) && first < |s.media| && 0 < rest
    ensures var t := Reload(cfg, s, first);
            && Loaded(t, ReloadWindow(cfg, t, first, rest))
               == Loaded(s, LastReload(cfg.rhMax, |s.media|, first, first + rest))
  {
    var t, size := Reload(cfg, s, first), |s.media|;
    assert |t.rh| == Min(cfg.rhMax, size - first);
    if first + rest <= first + cfg.rhMax || size <= first + cfg.rhMax {
      assert ReloadWindow(cfg, t, first, rest) == NoReload;
    } else {
      assert ReloadWindow(cfg, t, first, rest)
          == LastReload(cfg.rhMax, size, first + cfg.rhMax, first + rest);
    }
  }

  // ----- When the device is asked, in plain numbers

  /** A read flushes exactly when the dirty range and the request overlap or touch. */
  lemma ReadFlushExact(s: State, start: nat, n: nat)
    requires s.wr == [] || 0 <= s.wrStart
    ensures FlushForRead(s, start, n).wr == [] <==>
      s.wr == [] || (start <= s.wrStart + |s.wr| && s.wrStart <= start + n)
    ensures FlushForRead(s, start, n) == s || FlushForRead(s, start, n) == Flush(s)
  {
  }

  /** A write drops the read-ahead buffer exactly when the two ranges overlap or touch, and
      otherwise leaves it alone. */
  lemma WriteDropsExact(cfg: Config, s: State, start: nat, data: seq<Block>)
    requires s.wr == [] || 0 <= s.wrStart
    ensures var t := WriteBlocks(cfg, s, start, data);
            if start <= s.rhStart + |s.rh| && s.rhStart <= start + |data|
            then t.rh == [] && t.rhStart == -1
            else t.rh == s.rh && t.rhStart == s.rhStart
  {
  }

  /** What a write sends to the device: nothing while the blocks follow the buffered ones
      and fit, else what was buffered, and its own blocks too if they exceed the buffer. */
  lemma WriteSendsExact(cfg: Config, s: State, start: nat, data: seq<Block>)
    requires Shape(cfg, s)
    ensures var t := WriteBlocks(cfg, s, start, data);
            if |data| > cfg.wrMax
            then t.wr == [] && t.flushed == s.flushed + Writes(s.wrStart, s.wr) + Writes(start, data)
            else if s.wr == [] || (start == s.wrStart + |s.wr| && |s.wr| + |data| <= cfg.wrMax)
            then t.wr == s.wr + data && t.flushed == s.flushed && t.media == s.media
            else t.wr == data && t.wrStart == start && t.flushed == s.flushed + Writes(s.wrStart, s.wr)
  {
    assert s.flushed + Writes(s.wrStart, []) == s.flushed;
    assert [] + data == data;
  }

  /** After a read that had to load, the read-ahead buffer holds as many blocks of the device
      as it has room for, up to the end of the device, and covers the end of the request;
      nothing is loaded exactly if the cached blocks cover the request, or all of it that
      lies on the device. */
  lemma ReadAheadExact(cfg: Config, s: State, start: nat, n: nat)
    requires Shape(cfg, s)
    ensures var t, u := FlushForRead(s, start, n), ReadBlocks(cfg, s, start, n).state;
            var hit := s.rh != [] && s.rhStart <= start < s.rhStart + |s.rh|;
            var end := if hit then s.rhStart + |s.rh| else start as int;
            if n == 0 || start + n <= end || |s.media| <= end
            then u == t
            else
              && 0 <= u.rhStart <= |u.media| && start <= u.rhStart < start + n
              && |u.rh| == Min(cfg.rhMax, |s.media| - u.rhStart)
              && u.rh == t.media[u.rhStart..u.rhStart + |u.rh|]
              && (start + n <= u.rhStart + |u.rh| || u.rhStart + |u.rh| == |s.media|)
  {
    FlushLeavesCache(cfg, s, start, n);
    hide ReadLoop, ReloadWindow, FlushForRead, Shape;
    var t := FlushForRead(s, start, n);
    ReadLoopLoads(cfg, t, start, n);
    WindowExact(cfg, t, start, n);
  }

  lemma FlushLeavesCache(cfg: Config, s: State, start: nat, n: nat)
    requires Shape(cfg, s)
    ensures var t := FlushForRead(s, start, n);
            Shape(cfg, t) && t.rh == s.rh && t.rhStart == s.rhStart && |t.media| == |s.media|
  {
    hide Overlay;
  }

  lemma WindowExact(cfg: Config, s: State, start: nat, n: nat)
    requires 0 < cfg.rhMax
    ensures var w, size := ReloadWindow(cfg, s, start, n), |s.media|;
            var hit := s.rh != [] && s.rhStart <= start < s.rhStart + |s.rh|;
            var end := if hit then s.rhStart + |s.rh| else start as int;
            if n == 0 || start + n <= end || size <= end
            then w == NoReload
            else
              && w.Window? && start <= w.lo < start + n && w.lo < size && w.hi == Min(w.lo + cfg.rhMax, size)
              && (start + n <= w.hi || w.hi == size)
  {
    hide LastReload;
  }

  /** A dirty block of the window whose device copy is out of date. */
  predicate Stale(t: State, w: Window) {
    w.Window? && exists b :: w.lo <= b < w.hi && b < |t.media| && t.media[b] != Plain(t)[b]
  }

  /** A read keeps the read-ahead buffer coherent if and only if the last window it
      loads holds no dirty block with a different device copy. */
  lemma ReadCoherenceExact(cfg: Config, initial: seq<Block>, s: State, start: nat, n: nat)
    requires Shape(cfg, s) && Accounted(initial, s) && Coherent(s)
    ensures var t := FlushForRead(s, start, n);
            Coherent(ReadBlocks(cfg, s, start, n).state) <==> !Stale(t, ReloadWindow(cfg, t, start, n))
  {
    hide ReadLoop, ReloadWindow, Coherent, Stale;
    FlushForReadKeeps(cfg, initial, s, start, n);
    var t := FlushForRead(s, start, n);
    ReadLoopLoads(cfg, t, start, n);
    var w := ReloadWindow(cfg, t, start, n);
    LoadedExact(t, w);
  }

  lemma LoadedExact(t: State, w: Window)
    requires w.NoReload? ==> Coherent(t)
    requires w.Window? ==> w.lo < w.hi <= |t.media|
    ensures Coherent(Loaded(t, w)) <==> !Stale(t, w)
  {
    if w.Window? {
      var u := Loaded(t, w);
      assert Plain(u) == Plain(t);
      if Coherent(u) {
        forall b | w.lo <= b < w.hi && b < |t.media|
          ensures t.media[b] == Plain(t)[b]
        {
          assert u.rh[b - w.lo] == t.media[b];
        }
      }
    }
  }

  /** The range test a caller can make: a window clear of dirty blocks is never stale. */
  lemma ClearWindowIsFresh(t: State, w: Window)
    requires w.Window? ==> NoDirty(t, w.lo, w.hi)
    ensures !Stale(t, w)
  {
  }

  // ----- The same in terms of what the buffers' bounds show

  /** Device size, dirty range and cached range. */
  datatype Bounds = Bounds(size: nat, wrStart: int, wrCount: nat, rhStart: int, rhCount: nat)

  predicate BoundsOk(cfg: Config, b: Bounds) {
    && 0 < cfg.rhMax && b.wrCount <= cfg.wrMax
    && (b.wrCount > 0 ==> 0 <= b.wrStart && b.wrStart + b.wrCount <= b.size)
    && (b.rhCount > 0 ==> 0 <= b.rhStart && b.rhStart + b.rhCount <= b.size)
  }

  predicate HasBounds(s: State, b: Bounds) {
    b == Bounds(|s.media|, s.wrStart, |s.wr|, s.rhStart, |s.rh|)
  }

  /** The last window a read loads, from the bounds alone. */
  function WindowFor(cfg: Config, b: Bounds, block: nat, n: nat): (w: Window)
    requires 0 < cfg.rhMax
    ensures w.Window? ==> w.lo < w.hi <= b.size
  {
    var hit := b.rhCount > 0 && b.rhStart <= block < b.rhStart + b.rhCount;
    var k := if hit then Min(b.rhStart + b.rhCount - block, n) else 0;
    if k == n || block + k >= b.size then NoReload else LastReload(cfg.rhMax, b.size, block + k, block + n)
  }

  lemma SameWindow(cfg: Config, s: State, b: Bounds, block: nat, n: nat)
    requires 0 < cfg.rhMax && HasBounds(s, b)
    ensures ReloadWindow(cfg, s, block, n) == WindowFor(cfg, b, block, n)
  {
    hide LastReload;
  }

  /** The read flushes, or what it loads does not meet the dirty blocks. */
  predicate ReadIsSafe(cfg: Config, b: Bounds, start: nat, n: nat)
    requires 0 < cfg.rhMax
  {
    || b.wrCount == 0 || (start <= b.wrStart + b.wrCount && b.wrStart <= start + n)
    || var w := WindowFor(cfg, b, start, n);
       w.NoReload? || w.hi <= b.wrStart || b.wrStart + b.wrCount <= w.lo
  }

  /** For any device size, dirty range, cached range and request: every coherent state
      with these bounds is still coherent after the read, whatever the blocks hold, if
      and only if the read flushes or the window it loads does not meet the dirty range. */
  lemma ReadRangeExact(cfg: Config, b: Bounds, start: nat, n: nat)
    requires BoundsOk(cfg, b)
    ensures (forall initial, s :: Good(cfg, initial, s) && HasBounds(s, b) ==>
               Coherent(ReadBlocks(cfg, s, start, n).state))
       <==> ReadIsSafe(cfg, b, start, n)
  {
    if ReadIsSafe(cfg, b, start, n) {
      forall initial, s | Good(cfg, initial, s) && HasBounds(s, b)
        ensures Coherent(ReadBlocks(cfg, s, start, n).state)
      {
        SafeReadKeeps(cfg, b, initial, s, start, n);
      }
    } else {
      var s := OutOfDate(b);
      OutOfDateIsGood(cfg, b);
      UnsafeReadBreaks(cfg, b, start, n);
      assert Good(cfg, s.media, s) && HasBounds(s, b);
    }
  }

  lemma SafeReadKeeps(cfg: Config, b: Bounds, initial: seq<Block>, s: State, start: nat, n: nat)
    requires Good(cfg, initial, s) && HasBounds(s, b) && ReadIsSafe(cfg, b, start, n)
    ensures Coherent(ReadBlocks(cfg, s, start, n).state)
  {
    hide ReadBlocks, Coherent, Accounted, ReloadWindow, WindowFor, Stale;
    var t := FlushForRead(s, start, n);
    var w := ReloadWindow(cfg, t, start, n);
    SameWindow(cfg, s, b, start, n);
    ClearWindowIsFresh(t, w);
    ReadCoherenceExact(cfg, initial, s, start, n);
  }

  /** A state with the given bounds in which every dirty block differs from the device. */
  function OutOfDate(b: Bounds): (s: State)
    requires b.wrCount == 0 || 0 <= b.wrStart
    ensures HasBounds(s, b)
  {
    var wr := seq(b.wrCount, _ => [1]);
    var rh := seq(b.rhCount, i => if b.wrStart <= b.rhStart + i < b.wrStart + b.wrCount then [1] else [0]);
    State(seq(b.size, _ => [0]), b.wrStart, wr, b.wrStart + b.wrCount, b.rhStart, rh, [], Writes(b.wrStart, wr))
  }

  lemma OutOfDateIsGood(cfg: Config, b: Bounds)
    requires BoundsOk(cfg, b)
    ensures Good(cfg, OutOfDate(b).media, OutOfDate(b))
  {
    var s := OutOfDate(b);
    assert [] + Writes(s.wrStart, s.wr) == s.written;
  }

  lemma UnsafeReadBreaks(cfg: Config, b: Bounds, start: nat, n: nat)
    requires BoundsOk(cfg, b) && !ReadIsSafe(cfg, b, start, n)
    ensures !Coherent(ReadBlocks(cfg, OutOfDate(b), start, n).state)
  {
    OutOfDateIsGood(cfg, b);
    OutOfDateIsStale(b, WindowFor(cfg, b, start, n));
    hide ReadBlocks, Coherent, Accounted, ReloadWindow, WindowFor, OutOfDate, Stale, Shape;
    var s := OutOfDate(b);
    SameWindow(cfg, s, b, start, n);
    assert FlushForRead(s, start, n) == s;
    ReadCoherenceExact(cfg, s.media, s, start, n);
  }

  lemma OutOfDateIsStale(b: Bounds, w: Window)
    requires w.Window? && w.lo < w.hi <= b.size && 0 < b.wrCount
    requires 0 <= b.wrStart < w.hi && w.lo < b.wrStart + b.wrCount
    ensures Stale(OutOfDate(b), w)
  {
    var s, at := OutOfDate(b), Max(w.lo, b.wrStart);
    assert s.media[at] == [0] && Plain(s)[at] == [1];
  }

  /** Once a cached block is wrong, reading just that block returns the wrong data, even
      though the read flushes the dirty blocks first. */
  lemma StaleBlockIsReturned(cfg: Config, initial: seq<Block>, s: State, b: nat)
    requires Shape(cfg, s) && Accounted(initial, s)
    requires Hit(s, b) && s.rh[b - s.rhStart] != Plain(s)[b]
    ensures ReadBlocks(cfg, s, b, 1).data == [s.rh[b - s.rhStart]]
    ensures ReadBlocks(cfg, s, b, 1).data[0] != Plain(s)[b]
  {
    FlushForReadKeeps(cfg, initial, s, b, 1);
    var t := FlushForRead(s, b, 1);
    assert Supply(t, b, 1) == 1;
  }

  // ----- Whole runs

  datatype Op = Read(start: nat, n: nat) | WriteOp(start: nat, data: seq<Block>) | Timeout

  function Step(cfg: Config, s: State, op: Op): State
    requires 0 < cfg.rhMax && (s.wr == [] || 0 <= s.wrStart)
  {
    match op
    case Read(start, n) => ReadBlocks(cfg, s, start, n).state
    case WriteOp(start, data) => WriteBlocks(cfg, s, start, data)
    case Timeout => Flush(s)
  }

  /** The device accepts the operation; a read loads no window with stale blocks. */
  predicate Allowed(cfg: Config, s: State, op: Op)
    requires 0 < cfg.rhMax && (s.wr == [] || 0 <= s.wrStart)
  {
    match op
    case Read(start, n) =>
      var t := FlushForRead(s, start, n);
      !Stale(t, ReloadWindow(cfg, t, start, n))
    case WriteOp(start, data) => OnDevice(s, start, |data|)
    case Timeout => true
  }

  predicate Good(cfg: Config, initial: seq<Block>, s: State) {
    Shape(cfg, s) && Accounted(initial, s) && Coherent(s) && |s.media| == |initial|
  }

  predicate AllAllowed(cfg: Config, initial: seq<Block>, s: State, ops: seq<Op>)
    requires Good(cfg, initial, s)
    decreases |ops|
  {
    ops == [] ||
    (&& Allowed(cfg, s, ops[0])
     && (StepKeeps(cfg, initial, s, ops[0]); AllAllowed(cfg, initial, Step(cfg, s, ops[0]), ops[1..])))
  }

  lemma StepKeeps(cfg: Config, initial: seq<Block>, s: State, op: Op)
    requires Good(cfg, initial, s) && Allowed(cfg, s, op)
    ensures Good(cfg, initial, Step(cfg, s, op))
    ensures Step(cfg, s, op).written
         == s.written + (if op.WriteOp? then Writes(op.start, op.data) else [])
  {
    hide ReadBlocks, WriteBlocks, Accounted, Stale;
    match op
    case Read(start, n) =>
      ReadReads(cfg, initial, s, start, n);
      ReadCoherenceExact(cfg, initial, s, start, n);
    case WriteOp(start, data) =>
      WriteKeeps(cfg, initial, s, start, data);
    case Timeout =>
      FlushKeeps(cfg, initial, s);
  }

  function Run(cfg: Config, initial: seq<Block>, s: State, ops: seq<Op>): (t: State)
    requires Good(cfg, initial, s) && AllAllowed(cfg, initial, s, ops)
    ensures Good(cfg, initial, t)
    decreases |ops|
  {
    if ops == [] then s
    else
      StepKeeps(cfg, initial, s, ops[0]);
      Run(cfg, initial, Step(cfg, s, ops[0]), ops[1..])
  }

  function Fresh(media: seq<Block>): State {
    State(media, NO_BLOCK, [], NO_BLOCK, NO_BLOCK, [], [], [])
  }

  /** The blocks the callers wrote, in order. */
  function AllWrites(ops: seq<Op>): seq<Write> {
    if ops == [] then []
    else (if ops[0].WriteOp? then Writes(ops[0].start, ops[0].data) else []) + AllWrites(ops[1..])
  }

  lemma {:induction false} RunWrites(cfg: Config, initial: seq<Block>, s: State, ops: seq<Op>)
    requires Good(cfg, initial, s) && AllAllowed(cfg, initial, s, ops)
    ensures Run(cfg, initial, s, ops).written == s.written + AllWrites(ops)
    decreases |ops|
  {
    if ops == [] {
      assert s.written + [] == s.written;
    } else {
      hide Good, Allowed, Step;
      StepKeeps(cfg, initial, s, ops[0]);
      RunWrites(cfg, initial, Step(cfg, s, ops[0]), ops[1..]);
      Assoc(s.written, if ops[0].WriteOp? then Writes(ops[0].start, ops[0].data) else [], AllWrites(ops[1..]));
    }
  }

  lemma BelievedDisk(cfg: Config, initial: seq<Block>, s: State)
    requires Good(cfg, initial, s)
    ensures Flush(s).media == Plain(s) == Apply(initial, s.written)
  {
    hide Plain, Coherent;
    FlushKeeps(cfg, initial, s);
    var f := Flush(s);
    assert f.flushed + Writes(f.wrStart, f.wr) == f.flushed;
  }

  /** In every allowed run, whatever read comes next returns for each block the value an
      unbuffered disk would hold after the writes so far; flushed and buffered blocks
      are the written ones, once each and in order; and flushing now makes the device
      equal to the unbuffered disk. */
  lemma {:induction false} EveryRun(cfg: Config, media: seq<Block>, ops: seq<Op>, start: nat, n: nat)
    requires 0 < cfg.rhMax && Good(cfg, media, Fresh(media)) && AllAllowed(cfg, media, Fresh(media), ops)
    ensures var s := Run(cfg, media, Fresh(media), ops);
            var disk := Apply(media, AllWrites(ops));
            && s.flushed + Writes(s.wrStart, s.wr) == AllWrites(ops)
            && Flush(s).media == disk
            && var o := ReadBlocks(cfg, s, start, n);
               (start + n <= |media| ==> o.complete && o.data == disk[start..start + n])
  {
    hide Run, AllAllowed, Plain, Coherent, ReadBlocks, Flush;
    var s := Run(cfg, media, Fresh(media), ops);
    RunWrites(cfg, media, Fresh(media), ops);
    assert [] + AllWrites(ops) == AllWrites(ops);
    BelievedDisk(cfg, media, s);
    ReadReads(cfg, media, s, start, n);
  }

  const WITNESS_CONFIG: Config := Config(2, 4)
  const WITNESS_DISK: seq<Block> := [[0], [0], [0], [0]]
  const WITNESS_DIRTY: State := State(WITNESS_DISK, 2, [[1]], 3, NO_BLOCK, [], [], [Write(2, [1])])

  lemma WitnessWrite()
    ensures WriteBlocks(WITNESS_CONFIG, Fresh(WITNESS_DISK), 2, [[1]]) == WITNESS_DIRTY
    ensures Apply(WITNESS_DISK, WITNESS_DIRTY.written)[2] == [1]
  {
    var ws := WITNESS_DIRTY.written;
    assert ws[..0] == [] && Writes(2, [[1]]) == ws;
  }

  lemma WitnessReadAhead()
    ensures ReadBlocks(WITNESS_CONFIG, WITNESS_DIRTY, 0, 1).state
         == WITNESS_DIRTY.(rh := WITNESS_DISK, rhStart := 0)
  {
    ReadLoopLoads(WITNESS_CONFIG, WITNESS_DIRTY, 0, 1);
    assert ReloadWindow(WITNESS_CONFIG, WITNESS_DIRTY, 0, 1) == Window(0, 4);
  }

  lemma WitnessReread()
    ensures ReadBlocks(WITNESS_CONFIG, WITNESS_DIRTY.(rh := WITNESS_DISK, rhStart := 0), 2, 1).data == [[0]]
  {
    hide Overlay, Writes;
    var t := FlushForRead(WITNESS_DIRTY.(rh := WITNESS_DISK, rhStart := 0), 2, 1);
    assert Supply(t, 2, 1) == 1 && Cached(t, 2, 1) == [[0]];
  }

  /** The side condition is needed: write block 2, read block 0, read block 2. The
      first read loads the device's old copy of the dirty block, and the second one
      returns it. */
  lemma WitnessRun()
    ensures var s1 := WriteBlocks(WITNESS_CONFIG, Fresh(WITNESS_DISK), 2, [[1]]);
            var s2 := ReadBlocks(WITNESS_CONFIG, s1, 0, 1).state;
            && s2.wrStart == 2 && Apply(WITNESS_DISK, s2.written)[2] == [1]
            && ReadBlocks(WITNESS_CONFIG, s2, 2, 1).data == [[0]]
  {
    hide WriteBlocks, ReadBlocks, Apply;
    WitnessWrite();
    WitnessReadAhead();
    WitnessReread();
  }
}
