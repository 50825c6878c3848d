/** The static packet buffer `_aPacket`: payload encoders that advance through it and
    the framer that prepends id and length into the four reserved bytes. */
module SysviewBuffer {
  import opened Words
  import opened SysviewPacket

  const MAX_PACKET_SIZE: nat := 227  // 9 + 128 + 2 * 5 + 16 * 5
  const PAYLOAD_START: nat := 4      // _PreparePacket

  /** `data` stored from index `p` on. */
  function Store(b: seq<Byte>, p: nat, data: seq<Byte>): (r: seq<Byte>)
    requires p + |data| <= |b|
    ensures |r| == |b|
    ensures forall i :: 0 <= i < |r| ==> r[i] == if p <= i < p + |data| then data[i - p] else b[i]
  {
    b[..p] + data + b[p + |data|..]
  }

  lemma StoreAfter(b: seq<Byte>, p: nat, x: seq<Byte>, y: seq<Byte>)
    requires p + |x| + |y| <= |b|
    ensures Store(Store(b, p, x), p + |x|, y) == Store(b, p, x + y)
  {
  }

  class PacketBuffer {
    const buf: array<Byte>

    constructor ()
      ensures fresh(buf) && buf.Length == 9 + 128 + 2 * 5 + 16 * 5
    {
      buf := new Byte[MAX_PACKET_SIZE];
    }

    /** `ENCODE_U32` at `p`; returns the first free index. */
    method PutU32(p: nat, value: U32) returns (q: nat)
      requires p + |EncodeU32(value)| <= buf.Length
      modifies buf
      ensures q == p + |EncodeU32(value)|
      ensures buf[..] == Store(old(buf[..]), p, EncodeU32(value))
    {
      var data := value;
      ghost var done: seq<Byte> := [];
      q := p;
      assert buf[..] == Store(buf[..], p, []);
      while data > 0x7F
        invariant q == p + |done| && done + EncodeU32(data) == EncodeU32(value)
        invariant buf[..] == Store(old(buf[..]), p, done)
        decreases data
      {
        StoreAfter(old(buf[..]), p, done, [data % 128 + 128]);
        Assoc(done, [data % 128 + 128], EncodeU32(data / 128));
        buf[q] := data % 128 + 128;
        done := done + [data % 128 + 128];
        data, q := data / 128, q + 1;
      }
      StoreAfter(old(buf[..]), p, done, [data]);
      buf[q] := data;
      q := q + 1;
    }

    /** `_EncodeStr` at `p`. */
    method PutStr(p: nat, text: seq<Byte>, limit: nat) returns (q: nat)
      requires p + |EncodeStr(text, limit)| <= buf.Length
      modifies buf
      ensures q == p + |EncodeStr(text, limit)|
      ensures buf[..] == Store(old(buf[..]), p, EncodeStr(text, limit))
    {
      var len := |text|;
      if len > limit {
        len := limit;
      }
      q := PutLen(p, len);
      StoreAfter(old(buf[..]), p, EncodeLen(len), text[..len]);
      q := PutChars(q, text[..len]);
    }

    method PutLen(p: nat, len: nat) returns (q: nat)
      requires p + |EncodeLen(len)| <= buf.Length
      modifies buf
      ensures q == p + |EncodeLen(len)|
      ensures buf[..] == Store(old(buf[..]), p, EncodeLen(len))
    {
      if len < 255 {
        buf[p] := len;
        q := p + 1;
      } else {
        buf[p], buf[p + 1], buf[p + 2] := 255, len % 256, (len / 256) % 256;
        q := p + 3;
      }
    }

    method PutChars(p: nat, text: seq<Byte>) returns (q: nat)
      requires p + |text| <= buf.Length
      modifies buf
      ensures q == p + |text|
      ensures buf[..] == Store(old(buf[..]), p, text)
    {
      var n := 0;
      while n < |text|
        invariant 0 <= n <= |text|
        invariant forall i :: 0 <= i < buf.Length ==>
          buf[i] == if p <= i < p + n then text[i - p] else old(buf[..])[i]
      {
        buf[p + n] := text[n];
        n := n + 1;
      }
      q := p + n;
    }

    method PutField(p: nat, f: Field) returns (q: nat)
      requires p + |EncodeField(f)| <= buf.Length
      modifies buf
      ensures q == p + |EncodeField(f)|
      ensures buf[..] == Store(old(buf[..]), p, EncodeField(f))
    {
      match f {
        case Num(v) => q := PutU32(p, v);
        case Text(s) => q := PutStr(p, s, TEXT_LIMIT);
      }
    }

    /** The payload of a record function, field after field. */
    method PutFields(p: nat, fields: seq<Field>) returns (q: nat)
      requires p + |EncodeFields(fields)| <= buf.Length
      modifies buf
      ensures q == p + |EncodeFields(fields)|
      ensures buf[..] == Store(old(buf[..]), p, EncodeFields(fields))
      decreases |fields|
    {
      hide Store, EncodeU32, EncodeStr;
      q := p;
      if fields == [] {
        assert buf[..] == Store(buf[..], p, []);
      } else {
        q := PutField(p, fields[0]);
        StoreAfter(old(buf[..]), p, EncodeField(fields[0]), EncodeFields(fields[1..]));
        q := PutFields(q, fields[1..]);
      }
    }

    /** One header number, written downwards from `p`. */
    method PrependNumber(p: nat, v: nat) returns (q: nat)
      requires 2 <= p <= buf.Length
      modifies buf
      ensures q == p - |HeaderNumber(v)|
      ensures buf[..] == Store(old(buf[..]), q, HeaderNumber(v))
    {
      if v > 127 {
        buf[p - 1] := (v / 128) % 256;
        buf[p - 2] := v % 128 + 128;
        q := p - 2;
      } else {
        buf[p - 1] := v;
        q := p - 1;
      }
    }

    /** The id, or id and length, below `start`. The four reserved bytes suffice. */
    method PrependHeader(start: nat, end: nat, id: nat) returns (s: nat)
      requires 4 <= start <= end <= buf.Length
      modifies buf
      ensures s + |Header(id, end - start)| == start
      ensures buf[..] == Store(old(buf[..]), s, Header(id, end - start))
    {
      if id < FIRST_FRAMED {
        hide Store;
        var q := PutChars(start - 1, [id]);
        s := start - 1;
      } else {
        hide Store, HeaderNumber;
        var mid := PrependNumber(start, end - start);
        s := PrependNumber(mid, id);
        StoreBefore(old(buf[..]), s, HeaderNumber(id), HeaderNumber(end - start));
      }
    }

    /** Header in front of the payload, time stamp delta behind it. */
    method FramePacket(start: nat, end: nat, id: nat, delta: U32) returns (s: nat, e: nat)
      requires 4 <= start <= end && end + 5 <= buf.Length
      modifies buf
      ensures s <= e <= buf.Length
      ensures buf[s..e] == Frame(id, old(buf[start..end]), delta)
    {
      NumberLength(delta);
      s := PrependHeader(start, end, id);
      e := PutU32(end, delta);
      FrameInPlace(old(buf[..]), s, start, end, id, delta);
    }
  }

  lemma StoreBefore(b: seq<Byte>, p: nat, x: seq<Byte>, y: seq<Byte>)
    requires p + |x| + |y| <= |b|
    ensures Store(Store(b, p + |x|, y), p, x) == Store(b, p, x + y)
  {
  }

  lemma StoreReads(b: seq<Byte>, p: nat, data: seq<Byte>)
    requires p + |data| <= |b|
    ensures Store(b, p, data)[p..p + |data|] == data
  {
  }

  lemma StoreElsewhere(b: seq<Byte>, p: nat, data: seq<Byte>, lo: nat, hi: nat)
    requires p + |data| <= |b| && lo <= hi <= |b| && (hi <= p || p + |data| <= lo)
    ensures Store(b, p, data)[lo..hi] == b[lo..hi]
  {
  }

  lemma ThreeSlices(b: seq<Byte>, i: nat, j: nat, k: nat, l: nat)
    requires i <= j <= k <= l <= |b|
    ensures b[i..l] == b[i..j] + b[j..k] + b[k..l]
  {
  }

  lemma FrameInPlace(b: seq<Byte>, s: nat, start: nat, end: nat, id: nat, delta: U32)
    requires start <= end <= |b| && s + |Header(id, end - start)| == start
    requires end + |EncodeU32(delta)| <= |b|
    ensures Store(Store(b, s, Header(id, end - start)), end, EncodeU32(delta))[s..end + |EncodeU32(delta)|]
         == Frame(id, b[start..end], delta)
  {
    hide Header, EncodeU32, Store;
    var h, d := Header(id, end - start), EncodeU32(delta);
    var r := Store(b, s, h);
    StoreReads(b, s, h);
    StoreElsewhere(b, s, h, start, end);
    StoreReads(r, end, d);
    StoreElsewhere(r, end, d, s, start);
    StoreElsewhere(r, end, d, start, end);
    ThreeSlices(Store(r, end, d), s, start, end, end + |d|);
  }
}
