/** The SystemView byte format of SEGGER_SYSVIEW.c: variable-length numbers (unsigned
    LEB128, section 7.6 of the DWARF 5 standard), counted strings, and packets. */
module SysviewPacket {
  import opened Words

  datatype Parsed<T> = Ok(value: T, rest: seq<Byte>) | Malformed

  // ----- Numbers

  /** The bytes `ENCODE_U32` emits, low seven bits first. */
  function EncodeU32(v: nat): (s: seq<Byte>)
    ensures s != []
  {
    if v <= 0x7F then [v] else [v % 128 + 128] + EncodeU32(v / 128)
  }

  function DecodeU32(s: seq<Byte>): Parsed<nat> {
    if s == [] then Malformed
    else if s[0] < 128 then Ok(s[0], s[1..])
    else match DecodeU32(s[1..])
      case Ok(v, rest) => Ok(s[0] - 128 + 128 * v, rest)
      case Malformed => Malformed
  }

  lemma {:induction false} NumberRoundTrip(v: nat, t: seq<Byte>)
    ensures DecodeU32(EncodeU32(v) + t) == Ok(v, t)
  {
    if v <= 0x7F {
      assert ([v] + t)[1..] == t;
    } else {
      NumberRoundTrip(v / 128, t);
      assert (EncodeU32(v) + t)[1..] == EncodeU32(v / 128) + t;
    }
  }

  /** The shortest form: all bytes but the last are marked, and the last is not zero unless
      the value is. */
  lemma {:induction false} NumberCanonical(v: nat)
    ensures var s := EncodeU32(v);
            && (forall i :: 0 <= i < |s| - 1 ==> s[i] >= 0x80)
            && s[|s| - 1] < 0x80 && (s[|s| - 1] == 0 ==> v == 0)
    decreases v
  {
    if v > 0x7F {
      var s, t := EncodeU32(v), EncodeU32(v / 128);
      NumberCanonical(v / 128);
      assert s[|s| - 1] == t[|t| - 1];
      assert forall i :: 1 <= i < |s| - 1 ==> s[i] == t[i - 1];
    }
  }

  /** A 32-bit value takes at most five bytes (`SEGGER_SYSVIEW_QUANTA_U32`). */
  lemma NumberLength(v: U32)
    ensures |EncodeU32(v)| <= 5
  {
    var a := v / 128;
    var b := a / 128;
    var c := b / 128;
    var d := c / 128;
    assert d <= 0x7F;
    assert |EncodeU32(d)| == 1;
    assert |EncodeU32(c)| <= 2;
    assert |EncodeU32(b)| <= 3;
    assert |EncodeU32(a)| <= 4;
  }

  // ----- Strings

  function EncodeLen(len: nat): seq<Byte> {
    if len < 255 then [len] else [255, len % 256, (len / 256) % 256]
  }

  /** `_EncodeStr`: a count, then at most `limit` characters. */
  function EncodeStr(text: seq<Byte>, limit: nat): seq<Byte> {
    var len := Min(|text|, limit);
    EncodeLen(len) + text[..len]
  }

  function Take(s: seq<Byte>, len: nat): Parsed<seq<Byte>> {
    if len <= |s| then Ok(s[..len], s[len..]) else Malformed
  }

  function DecodeStr(s: seq<Byte>): Parsed<seq<Byte>> {
    if s == [] then Malformed
    else if s[0] < 255 then Take(s[1..], s[0])
    else if |s| < 3 then Malformed
    else var low: int, high: int := s[1], s[2];
      Take(s[3..], low + 256 * high)
  }

  /** A string comes back cut to the limit, exactly when its encoded length fits in
      the two length bytes. */
  lemma StringRoundTrip(text: seq<Byte>, limit: nat, t: seq<Byte>)
    ensures DecodeStr(EncodeStr(text, limit) + t) == Ok(text[..Min(|text|, limit)], t)
       <==> Min(|text|, limit) < 0x1_0000
  {
    var len := Min(|text|, limit);
    var head, s := EncodeLen(len), EncodeStr(text, limit) + t;
    assert s[|head|..] == text[..len] + t;
    assert forall i | 0 <= i < |head| :: s[i] == head[i];
    assert (text[..len] + t)[..len] == text[..len];
    assert (text[..len] + t)[len..] == t;
    if len < 255 {
      assert DecodeStr(s) == Take(s[1..], len);
    } else {
      assert DecodeStr(s) == Take(s[3..], len % 256 + 256 * ((len / 256) % 256));
      if len >= 0x1_0000 {
        assert len % 256 + 256 * ((len / 256) % 256) < len;
      }
    }
  }

  // ----- Fields

  datatype Field = Num(v: U32) | Text(s: seq<Byte>)

  datatype Kind = NumKind | TextKind

  const TEXT_LIMIT: nat := 128  // SEGGER_SYSVIEW_MAX_STRING_LEN

  predicate Fits(f: Field, k: Kind) {
    match f
    case Num(_) => k == NumKind
    case Text(s) => k == TextKind && |s| <= TEXT_LIMIT
  }

  predicate Matches(fields: seq<Field>, kinds: seq<Kind>) {
    |fields| == |kinds| && forall i :: 0 <= i < |fields| ==> Fits(fields[i], kinds[i])
  }

  function EncodeField(f: Field): seq<Byte> {
    match f
    case Num(v) => EncodeU32(v)
    case Text(s) => EncodeStr(s, TEXT_LIMIT)
  }

  function EncodeFields(fields: seq<Field>): seq<Byte> {
    if fields == [] then [] else EncodeField(fields[0]) + EncodeFields(fields[1..])
  }

  function DecodeField(k: Kind, s: seq<Byte>): Parsed<Field> {
    match k
    case NumKind =>
      (match DecodeU32(s)
       case Ok(v, rest) => if v < TWO32 then Ok(Num(v), rest) else Malformed
       case Malformed => Malformed)
    case TextKind =>
      (match DecodeStr(s)
       case Ok(text, rest) => Ok(Text(text), rest)
       case Malformed => Malformed)
  }

  function DecodeFields(kinds: seq<Kind>, s: seq<Byte>): Parsed<seq<Field>> {
    if kinds == [] then Ok([], s)
    else match DecodeField(kinds[0], s)
      case Malformed => Malformed
      case Ok(f, rest) =>
        match DecodeFields(kinds[1..], rest)
        case Malformed => Malformed
        case Ok(fs, rest') => Ok([f] + fs, rest')
  }

  lemma FieldRoundTrip(f: Field, k: Kind, t: seq<Byte>)
    requires Fits(f, k)
    ensures DecodeField(k, EncodeField(f) + t) == Ok(f, t)
  {
    match f
    case Num(v) =>
      NumberRoundTrip(v, t);
    case Text(s) =>
      StringRoundTrip(s, TEXT_LIMIT, t);
      assert s[..|s|] == s;
  }

  lemma {:induction false} FieldsRoundTrip(fields: seq<Field>, kinds: seq<Kind>, t: seq<Byte>)
    requires Matches(fields, kinds)
    ensures DecodeFields(kinds, EncodeFields(fields) + t) == Ok(fields, t)
    decreases |fields|
  {
    if fields == [] {
      assert EncodeFields(fields) + t == t;
    } else {
      var rest := EncodeFields(fields[1..]);
      assert EncodeFields(fields) + t == EncodeField(fields[0]) + (rest + t);
      FieldRoundTrip(fields[0], kinds[0], rest + t);
      FieldsRoundTrip(fields[1..], kinds[1..], t);
      assert [fields[0]] + fields[1..] == fields;
    }
  }

  // ----- Packets

  const EVT_NOP: nat := 0
  const EVT_OVERFLOW: nat := 1
  const EVT_TRACE_START: nat := 10
  const EVT_TRACE_STOP: nat := 11
  const EVT_SYSTIME_CYCLES: nat := 12
  const EVT_SYSTIME_US: nat := 13
  const EVT_NUMMODULES: nat := 27
  const FIRST_FRAMED: nat := 24

  /** The fields of the events below 24, as their record functions write them. */
  function Layout(id: nat): seq<Kind>
    requires id < FIRST_FRAMED
  {
    match id
    case 1 => [NumKind]                                // overflow
    case 2 => [NumKind]                                // ISR enter
    case 4 => [NumKind]                                // task start exec
    case 6 => [NumKind]                                // task start ready
    case 7 => [NumKind, NumKind]                       // task stop ready
    case 8 => [NumKind]                                // task create
    case 9 => [NumKind, NumKind, TextKind]             // task info
    case 12 => [NumKind]                               // system time in cycles
    case 13 => [NumKind, NumKind]                      // system time in microseconds
    case 14 => [TextKind]                              // system description
    case 15 => [NumKind]                               // user start
    case 16 => [NumKind]                               // user stop
    case 19 => [NumKind]                               // timer enter
    case 21 => [NumKind, NumKind, NumKind, NumKind]    // stack info
    case 22 => [NumKind, NumKind, TextKind]            // module description
    case _ => []
  }

  datatype Packet =
    | Known(id: nat, fields: seq<Field>, delta: U32)
    | Framed(id: nat, payload: seq<Byte>, delta: U32)

  predicate WellFormed(p: Packet) {
    match p
    case Known(id, fields, _) => id < FIRST_FRAMED && Matches(fields, Layout(id))
    case Framed(id, payload, _) => FIRST_FRAMED <= id < 0x4000 && |payload| < 0x4000
  }

  /** One of the two numbers `_SendPacket` prepends: one byte, or two stored as `U8`. */
  function HeaderNumber(v: nat): (s: seq<Byte>)
    ensures 1 <= |s| <= 2
  {
    if v > 127 then [v % 128 + 128, (v / 128) % 256] else [v]
  }

  function Header(id: nat, len: nat): (s: seq<Byte>)
    ensures |s| <= 4
  {
    if id < FIRST_FRAMED then [id] else HeaderNumber(id) + HeaderNumber(len)
  }

  /** The bytes `_SendPacket` hands to the ring. */
  function Frame(id: nat, payload: seq<Byte>, delta: U32): (s: seq<Byte>)
    ensures s != []
  {
    Header(id, |payload|) + payload + EncodeU32(delta)
  }

  function EncodePacket(p: Packet): (s: seq<Byte>)
    ensures s != []
  {
    match p
    case Known(id, fields, delta) => Frame(id, EncodeFields(fields), delta)
    case Framed(id, payload, delta) => Frame(id, payload, delta)
  }

  function EncodeAll(ps: seq<Packet>): seq<Byte> {
    if ps == [] then [] else EncodeAll(ps[..|ps| - 1]) + EncodePacket(ps[|ps| - 1])
  }

  function DecodeDelta(s: seq<Byte>): Parsed<U32> {
    match DecodeU32(s)
    case Ok(v, rest) => if v < TWO32 then Ok(v, rest) else Malformed
    case Malformed => Malformed
  }

  function DecodeKnown(id: nat, s: seq<Byte>): Parsed<Packet>
    requires id < FIRST_FRAMED
  {
    match DecodeFields(Layout(id), s)
    case Malformed => Malformed
    case Ok(fields, rest) =>
      match DecodeDelta(rest)
      case Malformed => Malformed
      case Ok(delta, rest') => Ok(Known(id, fields, delta), rest')
  }

  function DecodeFramed(id: nat, s: seq<Byte>): Parsed<Packet> {
    match DecodeU32(s)
    case Malformed => Malformed
    case Ok(len, rest) =>
      match Take(rest, len)
      case Malformed => Malformed
      case Ok(payload, rest') =>
        match DecodeDelta(rest')
        case Malformed => Malformed
        case Ok(delta, rest'') => Ok(Framed(id, payload, delta), rest'')
  }

  function DecodePacket(s: seq<Byte>): Parsed<Packet> {
    match DecodeU32(s)
    case Malformed => Malformed
    case Ok(id, rest) => if id < FIRST_FRAMED then DecodeKnown(id, rest) else DecodeFramed(id, rest)
  }

  /** The host: packet after packet until the bytes run out. */
  function DecodeStream(s: seq<Byte>): Parsed<seq<Packet>>
    decreases |s|
  {
    if s == [] then Ok([], [])
    else match DecodePacket(s)
      case Malformed => Malformed
      case Ok(p, rest) =>
        if |rest| >= |s| then Malformed
        else match DecodeStream(rest)
          case Malformed => Malformed
          case Ok(ps, rest') => Ok([p] + ps, rest')
  }

  /** A header number survives, whatever follows it, exactly below 2^14. */
  lemma HeaderNumberExact(v: nat)
    ensures (forall t: seq<Byte> :: DecodeU32(HeaderNumber(v) + t) == Ok(v, t)) <==> v < 0x4000
  {
    if v < 0x4000 {
      forall t: seq<Byte>
        ensures DecodeU32(HeaderNumber(v) + t) == Ok(v, t)
      {
        HeaderRoundTrip(v, t);
      }
    } else {
      var h: seq<Byte> := HeaderNumber(v);
      assert h + [] == h;
      assert h[1..] == [(v / 128) % 256];
      assert h[1..][1..] == [];
      assert DecodeU32(h[1..][1..]) == Malformed;
      assert DecodeU32(h) != Ok(v, []);
    }
  }

  lemma HeaderRoundTrip(v: nat, t: seq<Byte>)
    requires v < 0x4000
    ensures DecodeU32(HeaderNumber(v) + t) == Ok(v, t)
  {
    var s := HeaderNumber(v) + t;
    if v <= 127 {
      assert s[1..] == t;
    } else {
      assert s[1..][1..] == t;
      assert DecodeU32(s[1..]) == Ok(v / 128, t);
    }
  }

  lemma DeltaRoundTrip(delta: U32, t: seq<Byte>)
    ensures DecodeDelta(EncodeU32(delta) + t) == Ok(delta, t)
  {
    NumberRoundTrip(delta, t);
  }

  /** A frame with something behind it, regrouped the way a decoder meets it. */
  lemma Regroup(h: seq<Byte>, payload: seq<Byte>, d: seq<Byte>, t: seq<Byte>)
    ensures (h + payload + d) + t == h + (payload + (d + t))
  {
  }

  lemma KnownRoundTrip(id: nat, fields: seq<Field>, delta: U32, t: seq<Byte>)
    requires WellFormed(Known(id, fields, delta))
    ensures DecodePacket(EncodePacket(Known(id, fields, delta)) + t) == Ok(Known(id, fields, delta), t)
  {
    var payload, d := EncodeFields(fields), EncodeU32(delta);
    Regroup([id], payload, d, t);
    NumberRoundTrip(id, payload + (d + t));
    FieldsRoundTrip(fields, Layout(id), d + t);
    DeltaRoundTrip(delta, t);
  }

  // ----- Exactly which events below 24 survive

  predicate SameKind(f: Field, k: Kind) {
    match k
    case NumKind => f.Num?
    case TextKind => f.Text?
  }

  predicate SameKinds(fields: seq<Field>, kinds: seq<Kind>) {
    |fields| == |kinds| && forall i :: 0 <= i < |fields| ==> SameKind(fields[i], kinds[i])
  }

  /** Decoded fields have the kinds asked for. */
  lemma {:induction false} DecodedKinds(kinds: seq<Kind>, s: seq<Byte>)
    ensures var r := DecodeFields(kinds, s);
            r.Ok? ==> SameKinds(r.value, kinds)
    decreases |kinds|
  {
    if kinds != [] {
      var first := DecodeField(kinds[0], s);
      if first.Ok? {
        DecodedKinds(kinds[1..], first.rest);
      }
    }
  }

  /** A field as it arrives: texts are cut to the limit. */
  function Cut(f: Field): Field {
    match f
    case Num(_) => f
    case Text(s) => Text(s[..Min(|s|, TEXT_LIMIT)])
  }

  function CutAll(fields: seq<Field>): (r: seq<Field>)
    ensures |r| == |fields| && forall i :: 0 <= i < |r| ==> r[i] == Cut(fields[i])
  {
    seq(|fields|, i requires 0 <= i < |fields| => Cut(fields[i]))
  }

  lemma CutEncodes(f: Field)
    ensures EncodeField(Cut(f)) == EncodeField(f)
  {
    match f
    case Num(_) =>
    case Text(s) =>
      var c := s[..Min(|s|, TEXT_LIMIT)];
      assert c[..|c|] == c;
  }

  lemma {:induction false} CutAllEncodes(fields: seq<Field>)
    ensures EncodeFields(CutAll(fields)) == EncodeFields(fields)
    decreases |fields|
  {
    if fields != [] {
      var cut := CutAll(fields);
      CutEncodes(fields[0]);
      CutAllEncodes(fields[1..]);
      assert cut[1..] == CutAll(fields[1..]);
    }
  }

  /** Fields come back, whatever follows, if and only if they match the kinds. */
  lemma FieldsExact(fields: seq<Field>, kinds: seq<Kind>, t: seq<Byte>)
    ensures DecodeFields(kinds, EncodeFields(fields) + t) == Ok(fields, t) <==> Matches(fields, kinds)
  {
    if Matches(fields, kinds) {
      FieldsRoundTrip(fields, kinds, t);
    } else {
      FieldsDiffer(fields, kinds, t);
    }
  }

  /** An event below 24, which carries no length, comes back whatever follows it if and
      only if its fields match the fixed layout of its id. */
  lemma KnownExact(id: nat, fields: seq<Field>, delta: U32)
    requires id < FIRST_FRAMED
    ensures (forall t: seq<Byte> ::
               DecodePacket(EncodePacket(Known(id, fields, delta)) + t) == Ok(Known(id, fields, delta), t))
       <==> Matches(fields, Layout(id))
  {
    if Matches(fields, Layout(id)) {
      forall t: seq<Byte>
        ensures DecodePacket(EncodePacket(Known(id, fields, delta)) + t) == Ok(Known(id, fields, delta), t)
      {
        KnownRoundTrip(id, fields, delta, t);
      }
    } else {
      UnmatchedFails(id, fields, delta);
    }
  }

  lemma UnmatchedFails(id: nat, fields: seq<Field>, delta: U32)
    requires id < FIRST_FRAMED && !Matches(fields, Layout(id))
    ensures DecodePacket(EncodePacket(Known(id, fields, delta)) + [])
         != Ok(Known(id, fields, delta), [])
  {
    hide DecodeFields, EncodeFields, EncodeU32, Matches, Layout;
    var body := EncodeFields(fields) + (EncodeU32(delta) + []);
    Regroup([id], EncodeFields(fields), EncodeU32(delta), []);
    OneByte(id, body);
    FieldsDiffer(fields, Layout(id), EncodeU32(delta) + []);
  }

  lemma OneByte(id: nat, t: seq<Byte>)
    requires id < FIRST_FRAMED
    ensures DecodeU32([id] + t) == Ok(id, t)
  {
    assert ([id] + t)[1..] == t;
  }

  /** Fields that do not match never decode to themselves. */
  lemma FieldsDiffer(fields: seq<Field>, kinds: seq<Kind>, t: seq<Byte>)
    requires !Matches(fields, kinds)
    ensures var r := DecodeFields(kinds, EncodeFields(fields) + t);
            r.Ok? ==> r.value != fields
  {
    if SameKinds(fields, kinds) {
      var cut := CutAll(fields);
      CutAllEncodes(fields);
      FieldsRoundTrip(cut, kinds, t);
      var i :| 0 <= i < |fields| && !Fits(fields[i], kinds[i]);
      assert cut[i] != fields[i];
    } else {
      DecodedKinds(kinds, EncodeFields(fields) + t);
    }
  }

  lemma FramedRoundTrip(id: nat, payload: seq<Byte>, delta: U32, t: seq<Byte>)
    requires WellFormed(Framed(id, payload, delta))
    ensures DecodePacket(EncodePacket(Framed(id, payload, delta)) + t) == Ok(Framed(id, payload, delta), t)
  {
    var i, n, d := HeaderNumber(id), HeaderNumber(|payload|), EncodeU32(delta);
    Regroup(i + n, payload, d, t);
    var body := payload + (d + t);
    Assoc(i, n, body);
    HeaderRoundTrip(id, n + body);
    HeaderRoundTrip(|payload|, body);
    assert body[..|payload|] == payload && body[|payload|..] == d + t;
    DeltaRoundTrip(delta, t);
  }

  lemma PacketRoundTrip(p: Packet, t: seq<Byte>)
    requires WellFormed(p)
    ensures DecodePacket(EncodePacket(p) + t) == Ok(p, t)
  {
    match p
    case Known(id, fields, delta) => KnownRoundTrip(id, fields, delta, t);
    case Framed(id, payload, delta) => FramedRoundTrip(id, payload, delta, t);
  }

  lemma EncodeAllSnoc(ps: seq<Packet>, p: Packet)
    ensures EncodeAll(ps + [p]) == EncodeAll(ps) + EncodePacket(p)
  {
    assert (ps + [p])[..|ps|] == ps;
  }

  lemma {:induction false} EncodeAllConcat(ps: seq<Packet>, qs: seq<Packet>)
    ensures EncodeAll(ps + qs) == EncodeAll(ps) + EncodeAll(qs)
    decreases |qs|
  {
    if qs == [] {
      assert ps + qs == ps;
    } else {
      var init, q := qs[..|qs| - 1], qs[|qs| - 1];
      assert qs == init + [q];
      Assoc(ps, init, [q]);
      EncodeAllConcat(ps, init);
      AppendLast(ps + init, q, EncodeAll(ps), EncodeAll(init));
      EncodeAllSnoc(init, q);
    }
  }

  lemma AppendLast(ps: seq<Packet>, q: Packet, a: seq<Byte>, b: seq<Byte>)
    requires EncodeAll(ps) == a + b
    ensures EncodeAll(ps + [q]) == a + (b + EncodePacket(q))
  {
    EncodeAllSnoc(ps, q);
    Assoc(a, b, EncodePacket(q));
  }

  lemma EncodeAllOne(p: Packet)
    ensures EncodeAll([p]) == EncodePacket(p)
  {
    EncodeAllSnoc([], p);
    assert [] + [p] == [p];
  }

  /** Any concatenation of packets decodes to the same packets, in order. */
  lemma {:induction false} StreamRoundTrip(ps: seq<Packet>)
    requires forall p :: p in ps ==> WellFormed(p)
    ensures DecodeStream(EncodeAll(ps)) == Ok(ps, [])
    decreases |ps|
  {
    if ps != [] {
      assert ps == [ps[0]] + ps[1..];
      EncodeAllConcat([ps[0]], ps[1..]);
      EncodeAllOne(ps[0]);
      PacketRoundTrip(ps[0], EncodeAll(ps[1..]));
      StreamRoundTrip(ps[1..]);
    }
  }

  /** No byte stream has two readings. */
  lemma UniquelyDecodable(ps: seq<Packet>, qs: seq<Packet>)
    requires forall p :: p in ps ==> WellFormed(p)
    requires forall q :: q in qs ==> WellFormed(q)
    requires EncodeAll(ps) == EncodeAll(qs)
    ensures ps == qs
  {
    StreamRoundTrip(ps);
    StreamRoundTrip(qs);
  }

  const NOP: Packet := Known(EVT_NOP, [], 0)

  function Nops(k: nat): (ps: seq<Packet>)
    ensures |ps| == k && forall p :: p in ps ==> p == NOP
  {
    seq(k, _ => NOP)
  }

  function Zeros(k: nat): seq<Byte> {
    seq(k, _ => 0)
  }

  lemma ZerosGrow(n: nat)
    ensures Zeros(n + 2) == Zeros(n) + [0, 0]
  {
  }

  lemma NopIsTwoZeros()
    ensures EncodePacket(NOP) == [0, 0]
  {
  }

  /** Zero bytes read as empty packets of zero duration: the ten sync bytes
      (`_abSync`) sent on start are five of them. */
  lemma {:induction false} ZerosReadAsNops(k: nat)
    ensures EncodeAll(Nops(k)) == Zeros(2 * k)
  {
    if k > 0 {
      hide EncodeAll, EncodePacket;
      ZerosReadAsNops(k - 1);
      assert Nops(k) == Nops(k - 1) + [NOP];
      EncodeAllSnoc(Nops(k - 1), NOP);
      NopIsTwoZeros();
      ZerosGrow(2 * (k - 1));
    }
  }
}
