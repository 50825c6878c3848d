/** Fast forward of the PCM decoder, byte by byte: which bytes of the stream are kept,
    however it is cut into buffers and whenever the rate changes. */
module PcmModel {
  import opened Words

  const SUBSAMPLE_NONE: Byte := 0

  /** Bytes per frame, an 8-bit field of the WAV header. */
  predicate IsAlign(align: nat) {
    1 <= align < 256
  }

  /** Bytes skipped after each frame, as the 8-bit field `skip` stores them. */
  function SkipSize(align: nat, rate: nat): (k: nat)
    requires IsAlign(align) && 1 <= rate < 256
    ensures k < 256
  {
    Product(align, rate - 1) % 256
  }

  function Product(align: nat, k: nat): nat {
    align * k
  }

  /** Where in a frame the stream stands: bytes left to skip, bytes of a frame copied. */
  datatype Phase = Phase(skip: nat, npartial: nat)

  predicate PhaseOk(align: nat, p: Phase) {
    p.npartial < align && (p.npartial > 0 ==> p.skip == 0)
  }

  predicate Keeps(p: Phase) {
    p.npartial > 0 || p.skip == 0
  }

  /** The phase one byte later. */
  function Next(align: nat, rate: nat, p: Phase): (q: Phase)
    requires IsAlign(align) && 1 <= rate < 256 && PhaseOk(align, p)
    ensures PhaseOk(align, q)
  {
    if !Keeps(p) then Phase(p.skip - 1, 0)
    else if p.npartial + 1 == align then Phase(SkipSize(align, rate), 0)
    else Phase(0, p.npartial + 1)
  }

  function After(align: nat, rate: nat, p: Phase, n: nat): (q: Phase)
    requires IsAlign(align) && 1 <= rate < 256 && PhaseOk(align, p)
    ensures PhaseOk(align, q)
    decreases n
  {
    if n == 0 then p else After(align, rate, Next(align, rate, p), n - 1)
  }

  /** The bytes of `s` that are kept, starting in phase `p`. */
  function Out(align: nat, rate: nat, p: Phase, s: seq<Byte>): seq<Byte>
    requires IsAlign(align) && 1 <= rate < 256 && PhaseOk(align, p)
    decreases |s|
  {
    if s == [] then []
    else (if Keeps(p) then [s[0]] else []) + Out(align, rate, Next(align, rate, p), s[1..])
  }

  // ----- Buffers

  lemma {:induction false} OutConcat(align: nat, rate: nat, p: Phase, a: seq<Byte>, b: seq<Byte>)
    requires IsAlign(align) && 1 <= rate < 256 && PhaseOk(align, p)
    ensures Out(align, rate, p, a + b)
         == Out(align, rate, p, a) + Out(align, rate, After(align, rate, p, |a|), b)
    decreases |a|
  {
    if a == [] {
      assert a + b == b;
    } else {
      assert (a + b)[0] == a[0] && (a + b)[1..] == a[1..] + b;
      OutConcat(align, rate, Next(align, rate, p), a[1..], b);
    }
  }

  function Flatten(chunks: seq<seq<Byte>>): seq<Byte> {
    if chunks == [] then [] else chunks[0] + Flatten(chunks[1..])
  }

  /** Buffer after buffer, each starting in the phase the last one left. */
  function OutAll(align: nat, rate: nat, p: Phase, chunks: seq<seq<Byte>>): seq<Byte>
    requires IsAlign(align) && 1 <= rate < 256 && PhaseOk(align, p)
    decreases |chunks|
  {
    if chunks == [] then []
    else
      var rest := OutAll(align, rate, After(align, rate, p, |chunks[0]|), chunks[1..]);
      Out(align, rate, p, chunks[0]) + rest
  }

  /** How the stream is cut into buffers does not matter. */
  lemma {:induction false} AnySplit(align: nat, rate: nat, p: Phase, chunks: seq<seq<Byte>>)
    requires IsAlign(align) && 1 <= rate < 256 && PhaseOk(align, p)
    ensures OutAll(align, rate, p, chunks) == Out(align, rate, p, Flatten(chunks))
    decreases |chunks|
  {
    if chunks != [] {
      AnySplit(align, rate, After(align, rate, p, |chunks[0]|), chunks[1..]);
      OutConcat(align, rate, p, chunks[0], Flatten(chunks[1..]));
    }
  }

  // ----- The whole-stream definition

  /** Of `s`, whose first byte is at position `pos`: the bytes at positions that fall
      into the first `align` of every `period`. */
  function Select(align: nat, period: nat, pos: nat, s: seq<Byte>): seq<Byte>
    requires 0 < period
    decreases |s|
  {
    if s == [] then []
    else (if pos % period < align then [s[0]] else []) + Select(align, period, pos + 1, s[1..])
  }

  function Period(align: nat, rate: nat): nat
    requires IsAlign(align) && 1 <= rate < 256
  {
    align + SkipSize(align, rate)
  }

  /** The phase at offset `r` of a period. */
  function PhaseAt(align: nat, period: nat, r: nat): Phase
    requires r < period
  {
    if r < align then Phase(0, r) else Phase(period - r, 0)
  }

  lemma ModSucc(pos: nat, period: nat)
    requires 0 < period
    ensures (pos + 1) % period == if pos % period + 1 == period then 0 else pos % period + 1
  {
    var q, r := pos / period, pos % period;
    assert pos == q * period + r;
    if r + 1 == period {
      assert pos + 1 == (q + 1) * period;
      assert ((q + 1) * period) % period == 0 by { MultipleMod(q + 1, period); }
    } else {
      assert pos + 1 == q * period + (r + 1);
      OffsetMod(q, period, r + 1);
    }
  }

  lemma MultipleMod(q: nat, period: nat)
    requires 0 < period
    ensures (q * period) % period == 0
  {
    OffsetMod(q, period, 0);
  }

  lemma OffsetMod(q: nat, period: nat, r: nat)
    requires r < period
    ensures (q * period + r) % period == r
  {
    var x := q * period + r;
    var d := x / period;
    assert x == d * period + x % period;
    if d < q {
      MulLe(d + 1, q, period);
    } else if d > q {
      MulLe(q + 1, d, period);
    }
  }

  lemma PhaseStep(align: nat, rate: nat, r: nat)
    requires IsAlign(align) && 1 <= rate < 256 && r < Period(align, rate)
    ensures var period := Period(align, rate);
            && PhaseOk(align, PhaseAt(align, period, r))
            && (Keeps(PhaseAt(align, period, r)) <==> r < align)
            && Next(align, rate, PhaseAt(align, period, r))
               == PhaseAt(align, period, if r + 1 == period then 0 else r + 1)
  {
  }

  /** At a fixed rate the kept bytes are exactly those at positions below the frame size
      in every period. */
  lemma {:induction false} FixedRate(align: nat, rate: nat, pos: nat, s: seq<Byte>)
    requires IsAlign(align) && 1 <= rate < 256
    ensures Period(align, rate) > 0
    ensures var period := Period(align, rate);
            PhaseOk(align, PhaseAt(align, period, pos % period)) &&
            Out(align, rate, PhaseAt(align, period, pos % period), s) == Select(align, period, pos, s)
    decreases |s|
  {
    var period := Period(align, rate);
    if s != [] {
      ModSucc(pos, period);
      PhaseStep(align, rate, pos % period);
      FixedRate(align, rate, pos + 1, s[1..]);
    }
  }

  /** For any split of any stream at a fixed rate, the concatenated outputs are the
      bytes `p` with `p mod period < align`. */
  lemma WholeStream(align: nat, rate: nat, chunks: seq<seq<Byte>>)
    requires IsAlign(align) && 1 <= rate < 256
    ensures OutAll(align, rate, Phase(0, 0), chunks)
         == Select(align, Period(align, rate), 0, Flatten(chunks))
  {
    AnySplit(align, rate, Phase(0, 0), chunks);
    FixedRate(align, rate, 0, Flatten(chunks));
    OffsetMod(0, Period(align, rate), 0);
  }

  /** Positions in a prefix shorter than the period. */
  lemma {:induction false} SelectShort(align: nat, period: nat, pos: nat, s: seq<Byte>)
    requires 0 < align <= period && pos + |s| <= period
    ensures |Select(align, period, pos, s)| == Max(0, Min(align, pos + |s|) - Min(align, pos))
    decreases |s|
  {
    if s != [] {
      OffsetMod(0, period, pos);
      SelectShort(align, period, pos + 1, s[1..]);
    }
  }

  lemma {:induction false} SelectConcat(align: nat, period: nat, pos: nat, a: seq<Byte>, b: seq<Byte>)
    requires 0 < period
    ensures Select(align, period, pos, a + b)
         == Select(align, period, pos, a) + Select(align, period, pos + |a|, b)
    decreases |a|
  {
    if a == [] {
      assert a + b == b;
    } else {
      assert (a + b)[1..] == a[1..] + b;
      SelectConcat(align, period, pos + 1, a[1..], b);
    }
  }

  /** One frame in `rate`, the promise of a fast-forward rate, holds on every stream if
      and only if the skip size fits in its 8-bit field. */
  lemma OneFrameInRateExact(align: nat, rate: nat)
    requires IsAlign(align) && 1 <= rate < 256
    ensures (forall s: seq<Byte> ::
               Out(align, rate, Phase(0, 0), s) == Select(align, Product(align, rate), 0, s))
       <==> Product(align, rate - 1) <= 255
  {
    var period, promised := Period(align, rate), Product(align, rate);
    if Product(align, rate - 1) <= 255 {
      assert period == promised;
      forall s: seq<Byte>
        ensures Out(align, rate, Phase(0, 0), s) == Select(align, promised, 0, s)
      {
        FixedRate(align, rate, 0, s);
        OffsetMod(0, period, 0);
      }
    } else {
      ShorterPeriod(align, rate);
    }
  }

  /** A wrapped skip size brings the next frame too early. */
  lemma ShorterPeriod(align: nat, rate: nat)
    requires IsAlign(align) && 1 <= rate < 256 && Product(align, rate - 1) > 255
    ensures exists s: seq<Byte> ::
      Out(align, rate, Phase(0, 0), s) != Select(align, Product(align, rate), 0, s)
  {
    hide Out, Select;
    var period, promised := Period(align, rate), Product(align, rate);
    var one, s: seq<Byte> := seq(period, _ => 0), seq(period + 1, _ => 0);
    assert s == one + [0];
    FixedRate(align, rate, 0, s);
    OffsetMod(0, period, 0);
    SelectConcat(align, period, 0, one, [0]);
    SelectShort(align, period, 0, one);
    SelectFirst(align, period);
    SelectShort(align, promised, 0, s);
  }

  lemma SelectFirst(align: nat, period: nat)
    requires 0 < align <= period
    ensures Select(align, period, period, [0]) == [0]
  {
    OffsetMod(1, period, 0);
  }

  // ----- Rate changes

  /** A stretch of the stream read at one rate. */
  datatype Stretch = Stretch(rate: nat, bytes: seq<Byte>)

  predicate RatesOk(run: seq<Stretch>) {
    forall x :: x in run ==> 1 <= x.rate < 256
  }

  function Stream(run: seq<Stretch>): seq<Byte> {
    if run == [] then [] else Stream(run[..|run| - 1]) + run[|run| - 1].bytes
  }

  function PhaseAfter(align: nat, run: seq<Stretch>): (p: Phase)
    requires IsAlign(align) && RatesOk(run)
    ensures PhaseOk(align, p)
  {
    if run == [] then Phase(0, 0)
    else
      var x := run[|run| - 1];
      After(align, x.rate, PhaseAfter(align, run[..|run| - 1]), |x.bytes|)
  }

  /** Everything emitted through all rate changes; the phase carries over. */
  function OutRun(align: nat, run: seq<Stretch>): seq<Byte>
    requires IsAlign(align) && RatesOk(run)
  {
    if run == [] then []
    else
      var init, x := run[..|run| - 1], run[|run| - 1];
      OutRun(align, init) + Out(align, x.rate, PhaseAfter(align, init), x.bytes)
  }

  /** `n` bytes of `s` from `a` on. */
  function Slice(s: seq<Byte>, a: nat, n: nat): seq<Byte> {
    if a + n <= |s| then s[a..a + n] else []
  }

  /** The frames of `s` that start at the given positions, the last one cut to
      `npartial` bytes if that is not zero. */
  function Frames(align: nat, s: seq<Byte>, starts: seq<nat>, npartial: nat): seq<Byte> {
    if starts == [] then []
    else
      Frames(align, s, starts[..|starts| - 1], 0)
        + Slice(s, starts[|starts| - 1], if npartial == 0 then align else npartial)
  }

  /** Whole input frames, in stream order: each starts at a multiple of the frame size,
      none overlaps the next, all lie in the stream. */
  predicate FramesFit(align: nat, size: nat, starts: seq<nat>, npartial: nat) {
    && IsAlign(align) && npartial < align
    && (forall i :: 0 <= i < |starts| ==> Aligned(align, starts[i]))
    && (forall i :: 0 <= i < |starts| - 1 ==> starts[i] + align <= starts[i + 1])
    && (forall i :: 0 <= i < |starts| - 1 ==> starts[i] + align <= size)
    && (starts != [] ==> starts[|starts| - 1] + (if npartial == 0 then align else npartial) <= size)
  }

  predicate Aligned(align: nat, pos: nat)
    requires IsAlign(align)
  {
    pos % align == 0
  }

  /** The gap between frames, as stored, keeps frames aligned. */
  predicate SkipAligned(align: nat, rate: nat)
    requires IsAlign(align) && 1 <= rate < 256
  {
    Aligned(align, SkipSize(align, rate))
  }

  /** How `starts` and the phase fit together after `size` bytes. */
  predicate Tracks(align: nat, size: nat, p: Phase, starts: seq<nat>) {
    && FramesFit(align, size, starts, p.npartial) && PhaseOk(align, p)
    && (p.npartial > 0 ==> starts != [] && starts[|starts| - 1] + p.npartial == size)
    && (p.npartial == 0 ==> Aligned(align, size + p.skip))
    && (starts != [] && p.npartial == 0 ==> starts[|starts| - 1] + align <= size)
  }

  /** A frame's bytes do not change when the stream goes on. */
  lemma {:induction false} FramesGrow(align: nat, s: seq<Byte>, t: seq<Byte>, starts: seq<nat>, npartial: nat)
    requires FramesFit(align, |s|, starts, npartial)
    ensures Frames(align, s + t, starts, npartial) == Frames(align, s, starts, npartial)
    decreases |starts|
  {
    if starts != [] {
      var a, init := starts[|starts| - 1], starts[..|starts| - 1];
      LastStart(align, |s|, starts, npartial);
      hide FramesFit;
      FramesGrow(align, s, t, init, 0);
      SliceGrows(s, t, a, if npartial == 0 then align else npartial);
    }
  }

  lemma SliceGrows(s: seq<Byte>, t: seq<Byte>, a: nat, n: nat)
    requires a + n <= |s|
    ensures Slice(s + t, a, n) == Slice(s, a, n)
  {
  }

  /** Adding one frame's worth and an aligned gap stays aligned. */
  lemma AlignedSum(align: nat, pos: nat, gap: nat)
    requires IsAlign(align) && Aligned(align, pos) && Aligned(align, gap)
    ensures Aligned(align, pos + align + gap)
  {
    var i, j := pos / align, gap / align;
    DivMod(pos, align);
    DivMod(gap, align);
    Distribute(i, j, align);
    MultipleMod(i + 1 + j, align);
  }

  lemma DivMod(x: nat, m: nat)
    requires 0 < m
    ensures x == (x / m) * m + x % m && x % m < m
  {
  }

  lemma Distribute(i: nat, j: nat, m: nat)
    ensures (i + 1 + j) * m == i * m + m + j * m
  {
  }

  lemma LastStart(align: nat, size: nat, starts: seq<nat>, npartial: nat)
    requires FramesFit(align, size, starts, npartial) && starts != []
    ensures IsAlign(align) && Aligned(align, starts[|starts| - 1])
    ensures starts[|starts| - 1] + (if npartial == 0 then align else npartial) <= size
    ensures FramesFit(align, size, starts[..|starts| - 1], 0)
  {
  }

  lemma SkipTracks(align: nat, rate: nat, size: nat, p: Phase, starts: seq<nat>)
    requires Tracks(align, size, p, starts) && 1 <= rate < 256 && !Keeps(p)
    ensures Tracks(align, size + 1, Next(align, rate, p), starts)
  {
    hide Aligned;
  }

  lemma NewTracks(align: nat, rate: nat, size: nat, p: Phase, starts: seq<nat>)
    requires Tracks(align, size, p, starts) && 1 <= rate < 256 && Keeps(p) && p.npartial == 0
    requires SkipAligned(align, rate)
    ensures Tracks(align, size + 1, Next(align, rate, p), starts + [size])
    ensures Next(align, rate, p).npartial == if align == 1 then 0 else 1
  {
    assert IsAlign(align);
    NewFrameFits(align, size, starts);
    hide FramesFit, SkipSize, Aligned;
    AlignedSum(align, size, SkipSize(align, rate));
    var all := starts + [size];
    assert all[|all| - 1] == size;
  }

  lemma LongerTracks(align: nat, rate: nat, size: nat, p: Phase, starts: seq<nat>)
    requires Tracks(align, size, p, starts) && 1 <= rate < 256 && p.npartial > 0 && SkipAligned(align, rate)
    ensures Tracks(align, size + 1, Next(align, rate, p), starts)
  {
    assert IsAlign(align);
    hide FramesFit, Aligned, SkipSize;
    LongerFits(align, size, starts, p.npartial);
    LastStart(align, size, starts, p.npartial);
    AlignedSum(align, starts[|starts| - 1], SkipSize(align, rate));
  }

  /** One more byte at any rate. */
  lemma TrackByte(align: nat, rate: nat, s: seq<Byte>, p: Phase, starts: seq<nat>, b: Byte) returns (starts': seq<nat>)
    requires Tracks(align, |s|, p, starts) && 1 <= rate < 256 && SkipAligned(align, rate)
    ensures Tracks(align, |s| + 1, Next(align, rate, p), starts')
    ensures Frames(align, s + [b], starts', Next(align, rate, p).npartial)
         == Frames(align, s, starts, p.npartial) + (if Keeps(p) then [b] else [])
  {
    hide Frames;
    if !Keeps(p) {
      starts' := starts;
      SkipTracks(align, rate, |s|, p, starts);
      FramesGrow(align, s, [b], starts, 0);
      assert Frames(align, s, starts, 0) + [] == Frames(align, s, starts, 0);
    } else if p.npartial == 0 {
      starts' := starts + [|s|];
      NewTracks(align, rate, |s|, p, starts);
      NewFrame(align, s, starts, b);
    } else {
      starts' := starts;
      LongerTracks(align, rate, |s|, p, starts);
      LongerFrame(align, s, starts, p.npartial, b);
    }
  }

  lemma NewFrameFits(align: nat, size: nat, starts: seq<nat>)
    requires FramesFit(align, size, starts, 0) && Aligned(align, size)
    ensures FramesFit(align, size + 1, starts + [size], if align == 1 then 0 else 1)
  {
    hide Aligned;
    assert starts != [] ==> starts[|starts| - 1] + align <= size;
  }

  /** The next byte starts a frame, which it may complete. */
  lemma NewFrame(align: nat, s: seq<Byte>, starts: seq<nat>, b: Byte)
    requires FramesFit(align, |s|, starts, 0)
    ensures Frames(align, s + [b], starts + [|s|], if align == 1 then 0 else 1)
         == Frames(align, s, starts, 0) + [b]
  {
    assert IsAlign(align);
    hide FramesFit;
    var all, t := starts + [|s|], s + [b];
    assert all[..|all| - 1] == starts;
    FramesGrow(align, s, [b], starts, 0);
    assert Slice(t, |s|, 1) == [b];
  }

  lemma LongerFits(align: nat, size: nat, starts: seq<nat>, npartial: nat)
    requires FramesFit(align, size, starts, npartial) && npartial > 0
    requires starts != [] && starts[|starts| - 1] + npartial == size
    ensures FramesFit(align, size + 1, starts, if npartial + 1 == align then 0 else npartial + 1)
  {
    hide Aligned;
  }

  /** The next byte belongs to the frame already begun, which it may complete. */
  lemma LongerFrame(align: nat, s: seq<Byte>, starts: seq<nat>, npartial: nat, b: Byte)
    requires FramesFit(align, |s|, starts, npartial) && npartial > 0
    requires starts != [] && starts[|starts| - 1] + npartial == |s|
    ensures Frames(align, s + [b], starts, if npartial + 1 == align then 0 else npartial + 1)
         == Frames(align, s, starts, npartial) + [b]
  {
    LastStart(align, |s|, starts, npartial);
    hide FramesFit;
    var a, init, t := starts[|starts| - 1], starts[..|starts| - 1], s + [b];
    FramesGrow(align, s, [b], init, 0);
    assert Slice(t, a, npartial + 1) == Slice(s, a, npartial) + [b];
    Assoc(Frames(align, s, init, 0), Slice(s, a, npartial), [b]);
  }

  lemma {:induction false} TrackStretch(align: nat, rate: nat, s: seq<Byte>, p: Phase, starts: seq<nat>, t: seq<Byte>)
    returns (starts': seq<nat>)
    requires Tracks(align, |s|, p, starts) && 1 <= rate < 256 && SkipAligned(align, rate)
    ensures Tracks(align, |s + t|, After(align, rate, p, |t|), starts')
    ensures Frames(align, s + t, starts', After(align, rate, p, |t|).npartial)
         == Frames(align, s, starts, p.npartial) + Out(align, rate, p, t)
    decreases |t|
  {
    if t == [] {
      starts' := starts;
      assert s + t == s && Frames(align, s, starts, p.npartial) + [] == Frames(align, s, starts, p.npartial);
    } else {
      hide Tracks, Frames;
      var mid := TrackByte(align, rate, s, p, starts, t[0]);
      assert s + t == (s + [t[0]]) + t[1..];
      starts' := TrackStretch(align, rate, s + [t[0]], Next(align, rate, p), mid, t[1..]);
      Assoc(Frames(align, s, starts, p.npartial), if Keeps(p) then [t[0]] else [],
            Out(align, rate, Next(align, rate, p), t[1..]));
    }
  }

  /** All rates keep frames aligned. */
  predicate RatesAligned(align: nat, run: seq<Stretch>)
    requires IsAlign(align) && RatesOk(run)
  {
    forall x :: x in run ==> SkipAligned(align, x.rate)
  }

  /** From the start of fast forward, through any changes between such rates and any
      buffers, the output is a sequence of whole input frames, each starting at a
      multiple of the frame size, possibly followed by the beginning of one more. */
  lemma {:induction false} FramesThroughRateChanges(align: nat, run: seq<Stretch>) returns (starts: seq<nat>)
    requires IsAlign(align) && RatesOk(run) && RatesAligned(align, run)
    ensures Tracks(align, |Stream(run)|, PhaseAfter(align, run), starts)
    ensures OutRun(align, run) == Frames(align, Stream(run), starts, PhaseAfter(align, run).npartial)
    decreases |run|
  {
    if run == [] {
      starts := [];
    } else {
      var init, x := run[..|run| - 1], run[|run| - 1];
      hide Tracks, Frames, Out, After, SkipAligned;
      var before := FramesThroughRateChanges(align, init);
      starts := TrackStretch(align, x.rate, Stream(init), PhaseAfter(align, init), before, x.bytes);
    }
  }

  // ----- Exactly which rates keep frames whole

  /** `out` is made of frames of `s`, the last one possibly cut short. */
  ghost predicate WholeFrames(align: nat, s: seq<Byte>, out: seq<Byte>) {
    exists starts: seq<nat>, npartial: nat ::
      FramesFit(align, |s|, starts, npartial) && out == Frames(align, s, starts, npartial)
  }

  predicate RatesIn(run: seq<Stretch>, rates: set<nat>) {
    forall x :: x in run ==> x.rate in rates
  }

  predicate AreRates(rates: set<nat>) {
    forall r :: r in rates ==> 1 <= r < 256
  }

  /** A stream of two frames with a gap of `skip` bytes between them, all zero but the
      first byte of the second frame. */
  function MarkedStream(align: nat, skip: nat): (s: seq<Byte>)
    ensures |s| == align + skip + align
    ensures forall i :: 0 <= i < |s| ==> s[i] == if i == align + skip then 1 else 0
  {
    seq(align + skip + align, i => if i == align + skip then 1 else 0)
  }

  /** What the decoder keeps of it. */
  lemma MarkedOut(align: nat, rate: nat)
    requires IsAlign(align) && 1 <= rate < 256
    ensures var s, skip := MarkedStream(align, SkipSize(align, rate)), SkipSize(align, rate);
            Out(align, rate, Phase(0, 0), s) == s[..align] + s[align + skip..]
  {
    hide SkipSize, Out, After;
    var skip := SkipSize(align, rate);
    var s := MarkedStream(align, skip);
    CopyThenSkip(align, rate, s);
    var rest := s[align + skip..];
    CopyWhole(align, rate, rest);
  }

  lemma {:induction false} KeepFrame(align: nat, rate: nat, m: nat, s: seq<Byte>)
    requires IsAlign(align) && 1 <= rate < 256 && m < align && |s| >= align - m
    ensures Out(align, rate, Phase(0, m), s)
         == s[..align - m] + Out(align, rate, Phase(SkipSize(align, rate), 0), s[align - m..])
    decreases align - m
  {
    hide SkipSize;
    if m + 1 == align {
      assert s[..1] == [s[0]];
    } else {
      var t, k := s[1..], align - m - 1;
      KeepFrame(align, rate, m + 1, t);
      assert s[..k + 1] == [s[0]] + t[..k] && t[k..] == s[k + 1..];
      Assoc([s[0]], t[..k], Out(align, rate, Phase(SkipSize(align, rate), 0), t[k..]));
    }
  }

  lemma {:induction false} PassGap(align: nat, rate: nat, k: nat, s: seq<Byte>)
    requires IsAlign(align) && 1 <= rate < 256 && k <= |s|
    ensures Out(align, rate, Phase(k, 0), s) == Out(align, rate, Phase(0, 0), s[k..])
    decreases k
  {
    if k == 0 {
      assert s[0..] == s;
    } else {
      hide SkipSize;
      PassGap(align, rate, k - 1, s[1..]);
      assert s[1..][k - 1..] == s[k..];
    }
  }

  lemma CopyThenSkip(align: nat, rate: nat, s: seq<Byte>)
    requires IsAlign(align) && 1 <= rate < 256 && |s| >= align + SkipSize(align, rate)
    ensures Out(align, rate, Phase(0, 0), s)
         == s[..align] + Out(align, rate, Phase(0, 0), s[align + SkipSize(align, rate)..])
  {
    hide SkipSize, Out;
    var skip := SkipSize(align, rate);
    KeepFrame(align, rate, 0, s);
    PassGap(align, rate, skip, s[align..]);
    assert s[align..][skip..] == s[align + skip..];
  }

  lemma CopyWhole(align: nat, rate: nat, s: seq<Byte>)
    requires IsAlign(align) && 1 <= rate < 256 && |s| == align
    ensures Out(align, rate, Phase(0, 0), s) == s
  {
    hide SkipSize;
    KeepFrame(align, rate, 0, s);
    assert s[align..] == [] && s[..align] == s;
  }

  lemma {:induction false} FramesLength(align: nat, s: seq<Byte>, starts: seq<nat>, npartial: nat)
    requires FramesFit(align, |s|, starts, npartial)
    ensures |Frames(align, s, starts, npartial)|
         == if starts == [] then 0 else (|starts| - 1) * align + (if npartial == 0 then align else npartial)
    decreases |starts|
  {
    if starts != [] {
      var init := starts[..|starts| - 1];
      LastStart(align, |s|, starts, npartial);
      hide FramesFit, Aligned;
      FramesLength(align, s, init, 0);
      if init != [] {
        Distribute(|init| - 1, 0, align);
      }
      LastFrame(align, s, starts, npartial);
    }
  }

  lemma LastFrame(align: nat, s: seq<Byte>, starts: seq<nat>, npartial: nat)
    requires starts != [] && starts[|starts| - 1] + (if npartial == 0 then align else npartial) <= |s|
    ensures |Frames(align, s, starts, npartial)|
         == |Frames(align, s, starts[..|starts| - 1], 0)| + (if npartial == 0 then align else npartial)
  {
  }

  /** Two frames' worth of output comes from two whole frames. */
  lemma TwoFrames(align: nat, s: seq<Byte>, starts: seq<nat>, npartial: nat)
    requires FramesFit(align, |s|, starts, npartial) && |Frames(align, s, starts, npartial)| == align + align
    ensures |starts| == 2 && starts[1] + align <= |s| && Aligned(align, starts[1])
    ensures Frames(align, s, starts, npartial)[align] == s[starts[1]]
  {
    FramesLength(align, s, starts, npartial);
    TwoOnly(align, |starts|, npartial);
    var init := starts[..1];
    assert init[..0] == [];
    assert Frames(align, s, init, 0) == Frames(align, s, [], 0) + Slice(s, starts[0], align);
  }

  lemma TwoOnly(align: nat, k: nat, npartial: nat)
    requires 0 < k && npartial < align
    requires (k - 1) * align + (if npartial == 0 then align else npartial) == align + align
    ensures k == 2 && npartial == 0
  {
    if k == 1 {
    } else if k > 2 {
      MulLe(2, k - 1, align);
    }
  }

  /** A gap that is not a multiple of the frame size breaks the second frame. */
  lemma UnalignedSkipFails(align: nat, rate: nat)
    requires IsAlign(align) && 1 <= rate < 256 && !SkipAligned(align, rate)
    ensures var s := MarkedStream(align, SkipSize(align, rate));
            !WholeFrames(align, s, Out(align, rate, Phase(0, 0), s))
  {
    var skip := SkipSize(align, rate);
    var s := MarkedStream(align, skip);
    var out := Out(align, rate, Phase(0, 0), s);
    MarkedOut(align, rate);
    hide Out, SkipSize, Frames, FramesFit;
    assert out[align] == 1;
    forall starts: seq<nat>, npartial: nat
      | FramesFit(align, |s|, starts, npartial) && out == Frames(align, s, starts, npartial)
      ensures false
    {
      TwoFrames(align, s, starts, npartial);
      AlignedRest(align, skip);
    }
  }

  lemma AlignedRest(align: nat, gap: nat)
    requires IsAlign(align) && Aligned(align, align + gap)
    ensures Aligned(align, gap)
  {
    var q := (align + gap) / align;
    DivMod(align + gap, align);
    if q == 0 {
      assert false;
    }
    Distribute(0, q - 1, align);
    MultipleMod(q - 1, align);
  }

  /** Fast forward at these rates, with any changes among them and any buffers, emits
      nothing but whole frames on every stream, if and only if each rate's stored gap is
      a multiple of the frame size. */
  lemma FramesExact(align: nat, rates: set<nat>)
    requires IsAlign(align) && AreRates(rates)
    ensures (forall run :: RatesIn(run, rates) ==>
               RatesOk(run) && WholeFrames(align, Stream(run), OutRun(align, run)))
       <==> forall r :: r in rates ==> SkipAligned(align, r)
  {
    if forall r :: r in rates ==> SkipAligned(align, r) {
      forall run | RatesIn(run, rates)
        ensures RatesOk(run) && WholeFrames(align, Stream(run), OutRun(align, run))
      {
        hide SkipAligned, Frames;
        var starts := FramesThroughRateChanges(align, run);
        assert FramesFit(align, |Stream(run)|, starts, PhaseAfter(align, run).npartial);
      }
    } else {
      var r :| r in rates && !SkipAligned(align, r);
      UnalignedSkipFails(align, r);
      OneStretch(align, r, MarkedStream(align, SkipSize(align, r)));
    }
  }

  lemma OneStretch(align: nat, rate: nat, s: seq<Byte>)
    requires IsAlign(align) && 1 <= rate < 256
    ensures var run := [Stretch(rate, s)];
            RatesOk(run) && Stream(run) == s && OutRun(align, run) == Out(align, rate, Phase(0, 0), s)
  {
    hide Out;
    var run := [Stretch(rate, s)];
    assert run[..0] == [];
  }

  /** Skip sizes that fit their field are multiples of the frame size ... */
  lemma FittingSkip(align: nat, rate: nat)
    requires IsAlign(align) && 1 <= rate < 256 && Product(align, rate - 1) <= 255
    ensures SkipAligned(align, rate)
  {
    MultipleMod(rate - 1, align);
    assert Product(align, rate - 1) == (rate - 1) * align;
  }

  /** ... and so are all skip sizes of the mono and stereo formats. */
  lemma UsualFormats(align: nat, rate: nat)
    requires (align == 1 || align == 2 || align == 4) && 1 <= rate < 256
    ensures SkipAligned(align, rate)
  {
    hide Product;
    var k := rate - 1;
    if align == 1 {
      assert SkipSize(align, rate) % 1 == 0;
    } else if align == 2 {
      TwoDivides(k);
    } else {
      FourDivides(k);
    }
  }

  lemma TwoDivides(k: nat)
    ensures Product(2, k) % 256 % 2 == 0
  {
    assert Product(2, k) == 2 * k;
  }

  lemma FourDivides(k: nat)
    ensures Product(4, k) % 256 % 4 == 0
  {
    assert Product(4, k) == 4 * k;
  }

  /** Six bytes per frame at rate 50: the stored gap is 38, not a multiple of 6. */
  lemma SixByteFrames()
    ensures SkipSize(6, 50) == 38 && !SkipAligned(6, 50)
  {
  }
}
