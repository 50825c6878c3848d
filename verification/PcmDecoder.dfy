/** The sub-sampling state of `struct pcm_decode_s` and the in-place compaction of audio
    buffers, proved against the byte-by-byte model. */
module PcmDecoder {
  import opened Words
  import opened PcmModel

  /** `struct ap_buffer_s`: valid data lies in `samp[curbyte..nbytes]`. */
  class AudioBuffer {
    const samp: array<Byte>
    var nbytes: nat
    var curbyte: nat

    ghost predicate Valid()
      reads this
    {
      curbyte <= nbytes <= samp.Length
    }

    ghost function Data(): seq<Byte>
      requires Valid()
      reads this, samp
    {
      samp[curbyte..nbytes]
    }

    constructor (bytes: seq<Byte>, header: nat)
      requires header <= |bytes|
      ensures Valid() && fresh(samp) && Data() == bytes[header..]
    {
      samp := new Byte[|bytes|](i requires 0 <= i < |bytes| => bytes[i]);
      nbytes, curbyte := |bytes|, header;
      new;
      assert samp[..] == bytes;
    }
  }

  /** Skipping inside a gap. */
  lemma {:induction false} OutSkips(align: nat, rate: nat, p: Phase, s: seq<Byte>, k: nat)
    requires IsAlign(align) && 1 <= rate < 256 && PhaseOk(align, p) && p.npartial == 0
    requires k <= p.skip && k <= |s|
    ensures Out(align, rate, p, s) == Out(align, rate, Phase(p.skip - k, 0), s[k..])
    ensures After(align, rate, p, |s|) == After(align, rate, Phase(p.skip - k, 0), |s| - k)
    decreases k
  {
    if k > 0 {
      OutSkips(align, rate, Phase(p.skip - 1, 0), s[1..], k - 1);
      assert s[1..][k - 1..] == s[k..];
    } else {
      assert s[0..] == s;
    }
  }

  /** The phase after `k` bytes of the frame being copied. */
  function Copied(align: nat, rate: nat, m: nat, k: nat): Phase
    requires IsAlign(align) && 1 <= rate < 256
  {
    if m + k == align then Phase(SkipSize(align, rate), 0) else Phase(0, m + k)
  }

  /** One byte of a frame. */
  lemma OutKeeps(align: nat, rate: nat, m: nat, s: seq<Byte>)
    requires IsAlign(align) && 1 <= rate < 256 && m < align && s != []
    ensures Out(align, rate, Phase(0, m), s) == [s[0]] + Out(align, rate, Copied(align, rate, m, 1), s[1..])
    ensures After(align, rate, Phase(0, m), |s|) == After(align, rate, Copied(align, rate, m, 1), |s| - 1)
  {
    hide SkipSize;
  }

  /** Copying inside a frame, or up to its end. */
  lemma {:induction false} OutCopies(align: nat, rate: nat, m: nat, s: seq<Byte>, k: nat)
    requires IsAlign(align) && 1 <= rate < 256
    requires m < align && m + k <= align && k <= |s|
    ensures Out(align, rate, Phase(0, m), s) == s[..k] + Out(align, rate, Copied(align, rate, m, k), s[k..])
    ensures After(align, rate, Phase(0, m), |s|) == After(align, rate, Copied(align, rate, m, k), |s| - k)
    decreases k
  {
    hide Out, After, SkipSize;
    if k == 0 {
      assert s[0..] == s && [] + Out(align, rate, Phase(0, m), s) == Out(align, rate, Phase(0, m), s);
    } else if k == 1 {
      OutKeeps(align, rate, m, s);
      assert s[..1] == [s[0]];
    } else {
      OutKeeps(align, rate, m, s);
      OutCopies(align, rate, m + 1, s[1..], k - 1);
      assert s[1..][k - 1..] == s[k..];
      assert s[..k] == [s[0]] + s[1..][..k - 1];
      Assoc([s[0]], s[1..][..k - 1], Out(align, rate, Copied(align, rate, m, k), s[k..]));
    }
  }

  class Decoder {
    const align: nat
    var subsample: Byte
    var skip: Byte
    var npartial: Byte
    var streaming: bool

    ghost predicate Valid()
      reads this
    {
      && IsAlign(align)
      && PhaseOk(align, Phase(skip, npartial))
    }

    ghost function GetPhase(): Phase
      reads this
    {
      Phase(skip, npartial)
    }

    constructor (align: nat)
      requires IsAlign(align)
      ensures Valid() && this.align == align && subsample == SUBSAMPLE_NONE && !streaming
      ensures GetPhase() == Phase(0, 0)
    {
      this.align := align;
      subsample, skip, npartial, streaming := SUBSAMPLE_NONE, 0, 0, false;
    }

    /** `pcm_subsample_configure`: starting and stopping reset the phase, a change of rate
        keeps it. */
    method Configure(rate: Byte)
      requires Valid()
      modifies this`subsample, this`skip, this`npartial
      ensures Valid() && subsample == rate
      ensures GetPhase() == if old(subsample) != SUBSAMPLE_NONE && rate != SUBSAMPLE_NONE
                            then old(GetPhase())
                            else if old(subsample) == rate then old(GetPhase()) else Phase(0, 0)
    {
      if subsample == SUBSAMPLE_NONE {
        if rate != SUBSAMPLE_NONE {
          npartial, skip := 0, 0;
          subsample := rate;
        }
      } else if rate == SUBSAMPLE_NONE {
        npartial, skip := 0, 0;
        subsample := SUBSAMPLE_NONE;
      } else if subsample != rate {
        subsample := rate;
      }
    }

    /** `*dest++ = *src++` for `n` bytes. The destination never passes the source, so
        every byte is read before it is overwritten. */
    method CopyDown(samp: array<Byte>, src: nat, dest: nat, n: nat)
      requires dest <= src && src + n <= samp.Length
      modifies samp
      ensures samp[..dest + n] == old(samp[..dest]) + old(samp[src..src + n])
      ensures samp[src + n..] == old(samp[src + n..])
    {
      var i := 0;
      while i < n
        invariant 0 <= i <= n
        invariant forall j :: 0 <= j < dest ==> samp[j] == old(samp[..])[j]
        invariant forall j :: dest <= j < dest + i ==> samp[j] == old(samp[..])[src + j - dest]
        invariant forall j :: src + i <= j < samp.Length ==> samp[j] == old(samp[..])[j]
      {
        samp[dest + i] := samp[src + i];
        i := i + 1;
      }
    }

    /** `pcm_subsample` */
    method Subsample(apb: AudioBuffer)
      requires Valid() && apb.Valid()
      modifies this`skip, this`npartial, apb, apb.samp
      ensures Valid() && apb.Valid()
      ensures subsample == SUBSAMPLE_NONE ==> apb.Data() == old(apb.Data()) && GetPhase() == old(GetPhase())
      ensures subsample != SUBSAMPLE_NONE ==>
        && apb.Data() == Out(align, subsample, old(GetPhase()), old(apb.Data()))
        && GetPhase() == After(align, subsample, old(GetPhase()), |old(apb.Data())|)
    {
      hide Out, After;
      if subsample == SUBSAMPLE_NONE {
        return;
      }
      var src, dest := apb.curbyte, 0;
      if npartial > 0 {
        var srcsize := apb.nbytes - apb.curbyte;
        if npartial + srcsize < align {
          ghost var data := apb.Data();
          OutCopies(align, subsample, npartial, data, srcsize);
          assert data[..srcsize] == data && data[srcsize..] == [];
          Nothing(align, subsample, Phase(0, npartial + srcsize), data, []);
          npartial := npartial + srcsize;
          return;
        }
        src, dest := FinishFrame(apb);
      }
      dest := Compact(apb, src, dest);
      assert apb.samp[0..dest] == apb.samp[..dest];
      apb.curbyte, apb.nbytes := 0, dest;
    }

    /** Complete the frame left over from the last buffer. */
    method FinishFrame(apb: AudioBuffer) returns (src: nat, dest: nat)
      requires Valid() && apb.Valid() && subsample != SUBSAMPLE_NONE
      requires npartial > 0 && npartial + (apb.nbytes - apb.curbyte) >= align
      modifies this`skip, this`npartial, apb.samp
      ensures Valid() && npartial == 0 && apb.curbyte <= src <= apb.nbytes && dest <= src
      ensures apb.samp[src..apb.nbytes] == old(apb.samp[src..apb.nbytes])
      ensures Out(align, subsample, old(GetPhase()), old(apb.Data()))
           == apb.samp[..dest] + Out(align, subsample, GetPhase(), apb.samp[src..apb.nbytes])
      ensures After(align, subsample, old(GetPhase()), |old(apb.Data())|)
           == After(align, subsample, GetPhase(), apb.nbytes - src)
    {
      hide Out, After;
      var copysize := align - npartial;
      ghost var data := apb.Data();
      OutCopies(align, subsample, npartial, data, copysize);
      SliceOfSlice(apb.samp[..], apb.curbyte, apb.nbytes, copysize);
      if apb.curbyte > 0 {
        CopyFrame(apb, apb.curbyte, 0, copysize);
      }
      src, dest := apb.curbyte + copysize, copysize;
      npartial := 0;
      skip := SkipSize(align, subsample);
    }

    /** The main loop: skip, or copy a frame or what there is of it. */
    method Compact(apb: AudioBuffer, src0: nat, dest0: nat) returns (dest: nat)
      requires Valid() && apb.Valid() && subsample != SUBSAMPLE_NONE && npartial == 0
      requires dest0 <= src0 <= apb.nbytes
      modifies this`skip, this`npartial, apb.samp
      ensures Valid() && dest <= apb.nbytes
      ensures apb.samp[..dest]
           == old(apb.samp[..dest0]) + Out(align, subsample, old(GetPhase()), old(apb.samp[src0..apb.nbytes]))
      ensures GetPhase() == After(align, subsample, old(GetPhase()), apb.nbytes - src0)
    {
      hide Out, After;
      var src: nat := src0;
      dest := dest0;
      ghost var all := old(apb.samp[..dest0]) + Out(align, subsample, GetPhase(), apb.samp[src0..apb.nbytes]);
      ghost var end := After(align, subsample, GetPhase(), apb.nbytes - src0);
      while src < apb.nbytes
        invariant Valid() && dest <= src <= apb.nbytes
        invariant src < apb.nbytes ==> npartial == 0
        invariant all == apb.samp[..dest] + Out(align, subsample, GetPhase(), apb.samp[src..apb.nbytes])
        invariant end == After(align, subsample, GetPhase(), apb.nbytes - src)
      {
        src, dest := CompactStep(apb, src, dest);
      }
      Nothing(align, subsample, GetPhase(), apb.samp[..dest], apb.samp[src..apb.nbytes]);
    }

    /** One round of the main loop. */
    method CompactStep(apb: AudioBuffer, src: nat, dest: nat) returns (src': nat, dest': nat)
      requires Valid() && apb.Valid() && subsample != SUBSAMPLE_NONE && npartial == 0
      requires dest <= src < apb.nbytes
      modifies this`skip, this`npartial, apb.samp
      ensures Valid() && src < src' <= apb.nbytes && dest' <= src'
      ensures src' < apb.nbytes ==> npartial == 0
      ensures apb.samp[..dest'] + Out(align, subsample, GetPhase(), apb.samp[src'..apb.nbytes])
           == old(apb.samp[..dest]) + Out(align, subsample, old(GetPhase()), old(apb.samp[src..apb.nbytes]))
      ensures After(align, subsample, GetPhase(), apb.nbytes - src')
           == After(align, subsample, old(GetPhase()), apb.nbytes - src)
    {
      if skip > 0 {
        src' := SkipAhead(apb, src);
        dest' := dest;
      } else {
        src', dest' := CopySample(apb, src, dest);
      }
    }

    /** Skip what is left of the gap, or of the buffer. */
    method SkipAhead(apb: AudioBuffer, src: nat) returns (src': nat)
      requires Valid() && apb.Valid() && subsample != SUBSAMPLE_NONE && npartial == 0
      requires skip > 0 && src < apb.nbytes
      modifies this`skip
      ensures Valid() && src < src' <= apb.nbytes
      ensures Out(align, subsample, GetPhase(), apb.samp[src'..apb.nbytes])
           == Out(align, subsample, old(GetPhase()), apb.samp[src..apb.nbytes])
      ensures After(align, subsample, GetPhase(), apb.nbytes - src')
           == After(align, subsample, old(GetPhase()), apb.nbytes - src)
    {
      hide Out, After;
      var copysize := Min(skip, apb.nbytes - src);
      OutSkips(align, subsample, GetPhase(), apb.samp[src..apb.nbytes], copysize);
      SliceOfSlice(apb.samp[..], src, apb.nbytes, copysize);
      skip := skip - copysize;
      src' := src + copysize;
    }

    /** Copy a frame down, or what there is of it. */
    method CopySample(apb: AudioBuffer, src: nat, dest: nat) returns (src': nat, dest': nat)
      requires Valid() && apb.Valid() && subsample != SUBSAMPLE_NONE && npartial == 0
      requires skip == 0 && dest <= src < apb.nbytes
      modifies this`skip, this`npartial, apb.samp
      ensures Valid() && src < src' <= apb.nbytes && dest' <= src'
      ensures src' < apb.nbytes ==> npartial == 0
      ensures apb.samp[..dest'] + Out(align, subsample, GetPhase(), apb.samp[src'..apb.nbytes])
           == old(apb.samp[..dest]) + Out(align, subsample, old(GetPhase()), old(apb.samp[src..apb.nbytes]))
      ensures After(align, subsample, GetPhase(), apb.nbytes - src')
           == After(align, subsample, old(GetPhase()), apb.nbytes - src)
    {
      hide Out, After;
      ghost var rest := apb.samp[src..apb.nbytes];
      var srcsize := apb.nbytes - src;
      var copysize := if srcsize < align then srcsize else align;
      OutCopies(align, subsample, 0, rest, copysize);
      if srcsize < align {
        npartial := srcsize;
      } else {
        skip := SkipSize(align, subsample);
      }
      CopyFrame(apb, src, dest, copysize);
      src', dest' := src + copysize, dest + copysize;
      Assoc(old(apb.samp[..dest]), rest[..copysize], Out(align, subsample, GetPhase(), rest[copysize..]));
    }

    /** `CopyDown` seen from the bytes still to be read. */
    method CopyFrame(apb: AudioBuffer, src: nat, dest: nat, n: nat)
      requires apb.Valid() && dest <= src && src + n <= apb.nbytes
      modifies apb.samp
      ensures apb.samp[..dest + n] == old(apb.samp[..dest]) + old(apb.samp[src..apb.nbytes])[..n]
      ensures apb.samp[src + n..apb.nbytes] == old(apb.samp[src..apb.nbytes])[n..]
    {
      ghost var rest := apb.samp[src..apb.nbytes];
      assert rest[..n] == apb.samp[src..src + n];
      ghost var tail := apb.samp[src + n..];
      assert rest[n..] == tail[..apb.nbytes - src - n];
      CopyDown(apb.samp, src, dest, n);
      assert apb.samp[src + n..apb.nbytes] == apb.samp[src + n..][..apb.nbytes - src - n];
    }

    /** The streaming path of `pcm_enqueuebuffer`, up to handing the buffer on. */
    method EnqueueStreaming(apb: AudioBuffer, final: bool)
      requires Valid() && apb.Valid() && streaming
      modifies this`streaming, this`skip, this`npartial, apb, apb.samp
      ensures Valid() && apb.Valid() && streaming == !final
      ensures subsample == SUBSAMPLE_NONE ==> apb.Data() == old(apb.Data())
      ensures subsample != SUBSAMPLE_NONE ==>
        && apb.Data() == Out(align, subsample, old(GetPhase()), old(apb.Data()))
        && GetPhase() == After(align, subsample, old(GetPhase()), |old(apb.Data())|)
    {
      if final {
        streaming := false;
      }
      Subsample(apb);
    }
  }

  lemma SliceOfSlice(b: seq<Byte>, lo: nat, hi: nat, k: nat)
    requires lo + k <= hi <= |b|
    ensures b[lo..hi][k..] == b[lo + k..hi] && b[lo..hi][..k] == b[lo..lo + k]
  {
  }

  lemma Nothing(align: nat, rate: nat, p: Phase, kept: seq<Byte>, s: seq<Byte>)
    requires IsAlign(align) && 1 <= rate < 256 && PhaseOk(align, p) && s == []
    ensures kept + Out(align, rate, p, s) == kept
    ensures After(align, rate, p, 0) == p
  {
  }
}
