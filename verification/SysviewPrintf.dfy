/** The target-side printf of SEGGER_SYSVIEW.c: numbers become characters, characters
    are collected, and every 128 of them leave as one packet. */
module SysviewPrintf {
  import opened Words
  import opened SysviewPacket

  datatype Flags = Flags(leftJustify: bool, padZero: bool, printSign: bool)

  /** A print that ran, or one that divided by zero or read past the digit table. */
  datatype Printed = Chars(s: seq<Byte>) | Fault

  const SPACE: Byte := 0x20
  const ZERO: Byte := 0x30
  const PLUS: Byte := 0x2B
  const MINUS: Byte := 0x2D

  predicate IsBase(base: nat) {
    base == 10 || base == 16
  }

  /** Multiplication and division by the base, spelled out for the two bases in use. */
  function Times(x: nat, base: nat): nat
    requires IsBase(base)
  {
    if base == 10 then x * 10 else x * 16
  }

  function Over(x: nat, base: nat): nat
    requires IsBase(base)
  {
    if base == 10 then x / 10 else x / 16
  }

  /** The longest precision whose leading digit weight fits in 32 bits. */
  function MaxPrecision(base: nat): nat
    requires IsBase(base)
  {
    if base == 10 then 10 else 8
  }

  /** `_aV2C` */
  function DigitChar(d: nat): Byte
    requires d < 16
  {
    if d < 10 then ZERO + d else 0x41 + (d - 10)
  }

  /** A character of the digit table below the base. */
  predicate IsDigit(c: Byte, base: nat)
    requires IsBase(base)
  {
    0x30 <= c <= 0x39 || (base == 16 && 0x41 <= c <= 0x46)
  }

  function DigitValue(c: Byte): nat {
    if 0x30 <= c <= 0x39 then c - 0x30 else if 0x41 <= c <= 0x46 then c - 0x41 + 10 else 0
  }

  /** Digits of `v`, at least one. */
  function NumWidth(v: nat, base: nat): (w: nat)
    requires IsBase(base)
    ensures w >= 1
    decreases v
  {
    if v < base then 1 else 1 + NumWidth(Over(v, base), base)
  }

  /** The loop that looks for the weight of the highest digit, in 32-bit arithmetic. */
  function TopWeight(v: U32, base: nat, digit: U32, numDigits: nat): Option<U32>
    requires IsBase(base)
    decreases numDigits, if digit <= v then v - digit else 0
  {
    if numDigits > 1 then TopWeight(v, base, Times(digit, base) % TWO32, numDigits - 1)
    else if digit == 0 then None
    else if Quotient(v, digit) < base then Some(digit)
    else
      ScaleUp(v, base, digit);
      TopWeight(v, base, Times(digit, base) % TWO32, numDigits)
  }

  lemma ScaleUp(v: U32, base: nat, digit: U32)
    requires IsBase(base) && 0 < digit && Quotient(v, digit) >= base
    ensures digit < Times(digit, base) <= v
  {
    var q := v / digit;
    assert q * digit <= v;
    assert base * digit <= q * digit;
  }

  /** `Div = v / Digit`, and what `v -= Div * Digit` leaves. */
  function Quotient(v: nat, digit: nat): nat
    requires 0 < digit
  {
    DivFacts(v, digit);
    v / digit
  }

  function Rest(v: nat, digit: nat): (r: nat)
    requires 0 < digit
    ensures r < digit
  {
    DivFacts(v, digit);
    v - (v / digit) * digit
  }

  /** The loop that emits one digit per weight. */
  function EmitDigits(v: nat, base: nat, digit: nat): Printed
    requires IsBase(base) && 0 < digit
    decreases digit
  {
    var d := Quotient(v, digit);
    if d >= 16 then Fault
    else if Over(digit, base) == 0 then Chars([DigitChar(d)])
    else match EmitDigits(Rest(v, digit), base, Over(digit, base))
      case Fault => Fault
      case Chars(s) => Chars([DigitChar(d)] + s)
  }

  function Pad(c: Byte, n: int): (s: seq<Byte>)
    ensures |s| == Max(0, n)
  {
    seq(Max(0, n), _ => c)
  }

  /** `_PrintUnsigned` */
  function PrintUnsigned(v: U32, base: nat, numDigits: nat, fieldWidth: nat, flags: Flags): Printed
    requires IsBase(base)
  {
    match TopWeight(v, base, 1, numDigits)
    case None => Fault
    case Some(digit) =>
      if digit == 0 then Fault
      else match EmitDigits(v, base, digit)
        case Fault => Fault
        case Chars(digits) =>
          var room := fieldWidth - Max(NumWidth(v, base), numDigits);
          if flags.leftJustify then Chars(digits + Pad(SPACE, room))
          else Chars(Pad(if flags.padZero && numDigits == 0 then ZERO else SPACE, room) + digits)
  }

  // ----- What a print is for

  function Pow(base: nat, e: nat): (p: nat)
    requires IsBase(base)
    ensures p > 0
  {
    if e == 0 then 1 else Times(Pow(base, e - 1), base)
  }

  /** Positional value of a digit string. */
  function Parse(digits: seq<Byte>, base: nat): nat
    requires IsBase(base)
  {
    if digits == [] then 0
    else DigitValue(digits[0]) * Pow(base, |digits| - 1) + Parse(digits[1..], base)
  }

  /** Nothing but digits of the base, with positional value `v`. */
  predicate Reads(s: seq<Byte>, v: nat, base: nat)
    requires IsBase(base)
  {
    (forall i :: 0 <= i < |s| ==> IsDigit(s[i], base)) && Parse(s, base) == v
  }

  predicate AllAre(s: seq<Byte>, c: Byte) {
    forall i :: 0 <= i < |s| ==> s[i] == c
  }

  /** The output is a digit string of the asked precision that reads as `v`, padded on
      the asked side to the field width. */
  predicate Faithful(out: Printed, v: U32, base: nat, numDigits: nat, fieldWidth: nat, flags: Flags)
    requires IsBase(base)
  {
    var width := Max(numDigits, NumWidth(v, base));
    && out.Chars?
    && |out.s| == Max(fieldWidth, width)
    && var pad := |out.s| - width;
       if flags.leftJustify
       then Reads(out.s[..width], v, base) && AllAre(out.s[width..], 0x20)
       else Reads(out.s[pad..], v, base)
            && AllAre(out.s[..pad], if flags.padZero && numDigits == 0 then 0x30 else 0x20)
  }

  // ----- Digit strings

  /** `NumWidth` is the number of digits: the value lies between two powers. */
  lemma {:induction false} WidthBounds(v: nat, base: nat)
    requires IsBase(base)
    ensures v < Pow(base, NumWidth(v, base))
    ensures NumWidth(v, base) > 1 ==> Pow(base, NumWidth(v, base) - 1) <= v
    decreases v
  {
    if v >= base {
      WidthBounds(Over(v, base), base);
      var w := NumWidth(Over(v, base), base);
      if w == 1 {
        assert Pow(base, 1) == Times(Pow(base, 0), base);
      }
    }
  }

  lemma {:induction false} PowMonotone(base: nat, i: nat, j: nat)
    requires IsBase(base) && i <= j
    ensures Pow(base, i) <= Pow(base, j)
    decreases j
  {
    if i < j {
      PowMonotone(base, i, j - 1);
    }
  }

  /** Weights up to the longest precision fit in 32 bits. */
  lemma WeightFits(base: nat, e: nat)
    requires IsBase(base) && e < MaxPrecision(base)
    ensures Pow(base, e) < TWO32
  {
    PowMonotone(base, e, MaxPrecision(base) - 1);
    if base == 10 {
      PowSteps10();
    } else {
      PowSteps16();
    }
  }

  lemma PowSteps10()
    ensures Pow(10, 9) == 1_000_000_000 && Pow(10, 10) == 10_000_000_000
  {
    assert Pow(10, 3) == 1000;
    assert Pow(10, 6) == 1_000_000;
    assert Pow(10, 9) == 1_000_000_000;
  }

  lemma PowSteps16()
    ensures Pow(16, 7) == 0x1000_0000 && Pow(16, 8) == TWO32
  {
    assert Pow(16, 3) == 0x1000;
    assert Pow(16, 6) == 0x100_0000;
  }

  /** A 32-bit value has at most ten decimal and eight hexadecimal digits. */
  lemma WidthFits(v: U32, base: nat)
    requires IsBase(base)
    ensures NumWidth(v, base) <= MaxPrecision(base)
  {
    WidthBounds(v, base);
    PowSteps10();
    PowSteps16();
    if NumWidth(v, base) > MaxPrecision(base) {
      PowMonotone(base, MaxPrecision(base), NumWidth(v, base) - 1);
    }
  }

  lemma DivFacts(v: nat, p: nat)
    requires 0 < p
    ensures 0 <= v / p && (v / p) * p <= v < (v / p) * p + p
  {
    assert v == (v / p) * p + v % p;
  }

  lemma DivBound(v: nat, p: nat, b: nat)
    requires 0 < p && IsBase(b)
    ensures Quotient(v, p) < b <==> v < Times(p, b)
  {
    var q := v / p;
    DivFacts(v, p);
    if q < b {
      MulLe(q + 1, b, p);
      assert (q + 1) * p == q * p + p;
    } else {
      MulLe(b, q, p);
    }
  }

  /** From weight `base^k` on, the search stops at the larger of the two exponents. */
  lemma {:induction false} TopWeightIsPower(v: U32, base: nat, k: nat, numDigits: nat)
    requires IsBase(base) && k + Max(numDigits, 1) <= MaxPrecision(base) && Pow(base, k) < TWO32
    ensures TopWeight(v, base, Pow(base, k), numDigits)
         == Some(Pow(base, Max(k + Max(numDigits, 1) - 1, NumWidth(v, base) - 1)))
    decreases numDigits, MaxPrecision(base) - k
  {
    if numDigits > 1 {
      NextWeight(base, k);
      TopWeightIsPower(v, base, k + 1, numDigits - 1);
    } else {
      WidthAgainst(v, base, k);
      DivBound(v, Pow(base, k), base);
      if v >= Pow(base, k + 1) {
        WidthFits(v, base);
        NextWeight(base, k);
        TopWeightIsPower(v, base, k + 1, numDigits);
      }
    }
  }

  lemma NextWeight(base: nat, k: nat)
    requires IsBase(base) && k + 1 < MaxPrecision(base)
    ensures Pow(base, k + 1) < TWO32 && Times(Pow(base, k), base) == Pow(base, k + 1)
    ensures Times(Pow(base, k), base) % TWO32 == Pow(base, k + 1)
  {
    WeightFits(base, k + 1);
  }

  lemma WidthAgainst(v: nat, base: nat, k: nat)
    requires IsBase(base)
    ensures v < Pow(base, k + 1) <==> NumWidth(v, base) <= k + 1
  {
    WidthBounds(v, base);
    var w := NumWidth(v, base);
    if w <= k + 1 {
      PowMonotone(base, w, k + 1);
    } else {
      PowMonotone(base, k + 1, w - 1);
    }
  }

  /** Emitting from weight `base^e` writes `e + 1` digits that read as the value. */
  lemma {:induction false} EmitReads(v: nat, base: nat, e: nat)
    requires IsBase(base) && v < Pow(base, e + 1)
    ensures EmitDigits(v, base, Pow(base, e)).Chars?
    ensures |EmitDigits(v, base, Pow(base, e)).s| == e + 1
    ensures Reads(EmitDigits(v, base, Pow(base, e)).s, v, base)
    decreases e
  {
    hide EmitDigits, Reads, Quotient, Rest;
    var p := Pow(base, e);
    var d := Quotient(v, p);
    DivBound(v, p, base);
    if e == 0 {
      EmitOne(v, base);
    } else {
      PowQuotient(base, e);
      EmitReads(Rest(v, p), base, e - 1);
      EmitMore(v, base, p);
      ReadsCons(d, EmitDigits(Rest(v, p), base, Over(p, base)).s, Rest(v, p), base);
      Recombine(v, p);
    }
  }

  lemma Recombine(v: nat, p: nat)
    requires 0 < p
    ensures Quotient(v, p) * p + Rest(v, p) == v
  {
  }

  lemma EmitOne(v: nat, base: nat)
    requires IsBase(base) && v < base
    ensures EmitDigits(v, base, 1) == Chars([DigitChar(v)]) && Reads([DigitChar(v)], v, base)
  {
    assert Parse([DigitChar(v)], base) == v * Pow(base, 0) + Parse([], base);
  }

  lemma EmitMore(v: nat, base: nat, digit: nat)
    requires IsBase(base) && 0 < digit && Quotient(v, digit) < 16 && Over(digit, base) != 0
    requires EmitDigits(Rest(v, digit), base, Over(digit, base)).Chars?
    ensures EmitDigits(v, base, digit)
         == Chars([DigitChar(Quotient(v, digit))] + EmitDigits(Rest(v, digit), base, Over(digit, base)).s)
  {
  }

  lemma ReadsCons(d: nat, s: seq<Byte>, v: nat, base: nat)
    requires IsBase(base) && d < base && Reads(s, v, base)
    ensures Reads([DigitChar(d)] + s, d * Pow(base, |s|) + v, base)
  {
    var t := [DigitChar(d)] + s;
    assert t[1..] == s;
    assert DigitValue(t[0]) == d;
  }

  lemma PowQuotient(base: nat, e: nat)
    requires IsBase(base) && 0 < e
    ensures Over(Pow(base, e), base) == Pow(base, e - 1)
  {
  }

  /** However the weight came about, one digit leaves per digit of the weight. */
  lemma {:induction false} EmitLength(v: nat, base: nat, digit: nat)
    requires IsBase(base) && 0 < digit
    ensures EmitDigits(v, base, digit).Chars? ==>
      |EmitDigits(v, base, digit).s| == NumWidth(digit, base)
    decreases digit
  {
    var d := Quotient(v, digit);
    if d < 16 && Over(digit, base) != 0 {
      EmitLength(Rest(v, digit), base, Over(digit, base));
    }
  }

  /** Within the precision limit the two loops write the asked number of digits. */
  lemma DigitsRead(v: U32, base: nat, numDigits: nat)
    requires IsBase(base) && numDigits <= MaxPrecision(base)
    ensures var top := TopWeight(v, base, 1, numDigits);
            && top.Some? && top.value > 0
            && var out := EmitDigits(v, base, top.value);
               out.Chars? && |out.s| == Max(numDigits, NumWidth(v, base)) && Reads(out.s, v, base)
  {
    hide Pow, EmitDigits, Reads, TopWeight, NumWidth;
    var e := Max(Max(numDigits, 1) - 1, NumWidth(v, base) - 1);
    TopWeightIsOne(v, base, numDigits);
    WidthBounds(v, base);
    PowMonotone(base, NumWidth(v, base), e + 1);
    EmitReads(v, base, e);
  }

  /** `TopWeightIsPower` from the weight 1 on. */
  lemma TopWeightIsOne(v: U32, base: nat, numDigits: nat)
    requires IsBase(base) && numDigits <= MaxPrecision(base)
    ensures TopWeight(v, base, 1, numDigits)
         == Some(Pow(base, Max(Max(numDigits, 1) - 1, NumWidth(v, base) - 1)))
  {
    assert Pow(base, 0) == 1;
    TopWeightIsPower(v, base, 0, numDigits);
  }

  lemma PrecisionSuffices(v: U32, base: nat, numDigits: nat, fieldWidth: nat, flags: Flags)
    requires IsBase(base) && numDigits <= MaxPrecision(base)
    ensures Faithful(PrintUnsigned(v, base, numDigits, fieldWidth, flags), v, base, numDigits, fieldWidth, flags)
  {
    hide TopWeight, EmitDigits, NumWidth, Reads;
    DigitsRead(v, base, numDigits);
    var digits := EmitDigits(v, base, TopWeight(v, base, 1, numDigits).value).s;
    var room := fieldWidth - |digits|;
    CutPad(digits, Pad(SPACE, room));
    CutPad(Pad(SPACE, room), digits);
    CutPad(Pad(ZERO, room), digits);
  }

  lemma CutPad(a: seq<Byte>, b: seq<Byte>)
    ensures (a + b)[..|a|] == a && (a + b)[|a|..] == b
  {
  }

  lemma PrecisionExceeded(v: U32, base: nat, numDigits: nat, fieldWidth: nat, flags: Flags)
    requires IsBase(base) && numDigits > MaxPrecision(base)
    ensures !Faithful(PrintUnsigned(v, base, numDigits, fieldWidth, flags), v, base, numDigits, fieldWidth, flags)
  {
    TooFewDigits(v, base, numDigits, fieldWidth, flags);
    WidthFits(v, base);
    hide PrintUnsigned, NumWidth;
  }

  /** For every value, field width and flag combination: the printed text is faithful
      if and only if the precision stays within the digits of a 32-bit value. */
  lemma PrintExact(v: U32, base: nat, numDigits: nat, fieldWidth: nat, flags: Flags)
    requires IsBase(base)
    ensures Faithful(PrintUnsigned(v, base, numDigits, fieldWidth, flags), v, base, numDigits, fieldWidth, flags)
       <==> numDigits <= MaxPrecision(base)
  {
    if numDigits <= MaxPrecision(base) {
      PrecisionSuffices(v, base, numDigits, fieldWidth, flags);
    } else {
      PrecisionExceeded(v, base, numDigits, fieldWidth, flags);
    }
  }

  // ----- Signed numbers

  function Sign(v: int, flags: Flags): (s: seq<Byte>)
    ensures |s| <= 1
  {
    if v < 0 then [MINUS] else if flags.printSign then [PLUS] else []
  }

  /** The field width left for the unsigned part: the sign takes one column. */
  function WidthAfterSign(v: int, fieldWidth: nat, flags: Flags): nat {
    if fieldWidth > 0 && Sign(v, flags) != [] then fieldWidth - 1 else fieldWidth
  }

  /** Spaces before the sign, zeros after it, field width passed on. */
  datatype Margins = Margins(spaces: nat, zeros: nat, left: nat)

  function MarginsOf(field: nat, width: nat, numDigits: nat, flags: Flags): Margins {
    var room := Max(0, field - width);
    if flags.leftJustify then Margins(0, 0, field)
    else if flags.padZero && numDigits == 0 then Margins(0, room, Min(field, width))
    else Margins(room, 0, Min(field, width))
  }

  /** `_PrintInt` for any value but the most negative one, whose negation overflows. */
  function PrintInt(v: int, base: nat, numDigits: nat, fieldWidth: nat, flags: Flags): Printed
    requires IsBase(base) && -0x8000_0000 < v < 0x8000_0000
  {
    var number: U32 := if v < 0 then -v else v;
    var width := Max(NumWidth(number, base), numDigits);
    var m := MarginsOf(WidthAfterSign(v, fieldWidth, flags), width, numDigits, flags);
    match PrintUnsigned(number, base, numDigits, m.left, flags)
    case Fault => Fault
    case Chars(digits) => Chars(Pad(SPACE, m.spaces) + Sign(v, flags) + Pad(ZERO, m.zeros) + digits)
  }

  /** A signed print: spaces, sign, digits that read as the magnitude (zero padding
      counts as digits), trailing spaces; as wide as the field or as the number. */
  predicate SignedFaithful(out: Printed, v: int, base: nat, numDigits: nat, fieldWidth: nat, flags: Flags)
    requires IsBase(base) && -0x8000_0000 < v < 0x8000_0000
  {
    var number: U32 := if v < 0 then -v else v;
    var sign: seq<Byte> := if v < 0 then [0x2D] else if flags.printSign then [0x2B] else [];
    var width := Max(numDigits, NumWidth(number, base));
    && out.Chars?
    && |out.s| == Max(fieldWidth, |sign| + width)
    && var pad := |out.s| - |sign| - width;
       var a := if flags.leftJustify || (flags.padZero && numDigits == 0) then 0 else pad;
       var b := if flags.leftJustify then |out.s| - pad else |out.s|;
       Pieces(out.s, a, sign, number, base, b)
  }

  /** `a` spaces, the sign, digits up to `b`, spaces. */
  predicate Pieces(s: seq<Byte>, a: nat, sign: seq<Byte>, number: U32, base: nat, b: nat)
    requires IsBase(base) && a + |sign| <= b <= |s|
  {
    && AllAre(s[..a], 0x20)
    && s[a..a + |sign|] == sign
    && Reads(s[a + |sign|..b], number, base)
    && AllAre(s[b..], 0x20)
  }

  lemma {:induction false} LeadingZeros(n: nat, digits: seq<Byte>, v: nat, base: nat)
    requires IsBase(base) && Reads(digits, v, base)
    ensures Reads(Pad(ZERO, n) + digits, v, base)
    decreases n
  {
    if n == 0 {
      assert Pad(ZERO, n) + digits == digits;
    } else {
      LeadingZeros(n - 1, digits, v, base);
      ReadsCons(0, Pad(ZERO, n - 1) + digits, v, base);
      assert Pad(ZERO, n) + digits == [DigitChar(0)] + (Pad(ZERO, n - 1) + digits);
    }
  }

  lemma MakePieces(a: nat, sign: seq<Byte>, digits: seq<Byte>, c: nat, number: U32, base: nat)
    requires IsBase(base) && Reads(digits, number, base)
    ensures var s := Pad(SPACE, a) + sign + digits + Pad(SPACE, c);
            Pieces(s, a, sign, number, base, |s| - c)
  {
    var s := Pad(SPACE, a) + sign + digits + Pad(SPACE, c);
    assert s[a + |sign|..|s| - c] == digits;
  }

  /** The unsigned part: bare digits, followed by spaces only when left-justified. */
  lemma UnsignedPart(number: U32, base: nat, numDigits: nat, left: nat, flags: Flags) returns (digits: seq<Byte>)
    requires IsBase(base) && numDigits <= MaxPrecision(base)
    requires !flags.leftJustify ==> left <= Max(numDigits, NumWidth(number, base))
    ensures |digits| == Max(numDigits, NumWidth(number, base)) && Reads(digits, number, base)
    ensures PrintUnsigned(number, base, numDigits, left, flags)
         == Chars(if flags.leftJustify then digits + Pad(SPACE, left - |digits|) else digits)
  {
    hide TopWeight, EmitDigits, NumWidth, Reads;
    DigitsRead(number, base, numDigits);
    digits := EmitDigits(number, base, TopWeight(number, base, 1, numDigits).value).s;
    assert Pad(ZERO, 0) + digits == digits && Pad(SPACE, 0) + digits == digits;
  }

  lemma Regrouped(a: seq<Byte>, sign: seq<Byte>, zeros: seq<Byte>, digits: seq<Byte>, c: seq<Byte>)
    ensures a + sign + zeros + (digits + c) == a + sign + (zeros + digits) + c
    ensures c == [] ==> digits + c == digits
  {
  }

  /** The whole text of a signed print: margins, sign, digits. */
  lemma SignedText(v: int, base: nat, numDigits: nat, fieldWidth: nat, flags: Flags, m: Margins, trail: nat)
    returns (digits: seq<Byte>)
    requires IsBase(base) && -0x8000_0000 < v < 0x8000_0000 && numDigits <= MaxPrecision(base)
    requires var number := if v < 0 then -v else v;
             var field, width := WidthAfterSign(v, fieldWidth, flags), Max(numDigits, NumWidth(number, base));
             && m == MarginsOf(field, width, numDigits, flags)
             && trail == if flags.leftJustify then Max(0, field - width) else 0
    ensures var number := if v < 0 then -v else v;
            && |digits| == m.zeros + Max(numDigits, NumWidth(number, base)) && Reads(digits, number, base)
    ensures PrintInt(v, base, numDigits, fieldWidth, flags)
         == Chars(Pad(SPACE, m.spaces) + Sign(v, flags) + digits + Pad(SPACE, trail))
  {
    hide PrintUnsigned, NumWidth, Reads;
    var number: U32 := if v < 0 then -v else v;
    var bare := UnsignedPart(number, base, numDigits, m.left, flags);
    LeadingZeros(m.zeros, bare, number, base);
    Regrouped(Pad(SPACE, m.spaces), Sign(v, flags), Pad(ZERO, m.zeros), bare, Pad(SPACE, trail));
    digits := Pad(ZERO, m.zeros) + bare;
    if !flags.leftJustify {
      assert Pad(SPACE, trail) == [];
    }
  }

  lemma SignedSuffices(v: int, base: nat, numDigits: nat, fieldWidth: nat, flags: Flags)
    requires IsBase(base) && -0x8000_0000 < v < 0x8000_0000 && numDigits <= MaxPrecision(base)
    ensures SignedFaithful(PrintInt(v, base, numDigits, fieldWidth, flags), v, base, numDigits, fieldWidth, flags)
  {
    hide PrintInt, NumWidth, Reads, Pieces, Pad;
    var number: U32 := if v < 0 then -v else v;
    var width := Max(numDigits, NumWidth(number, base));
    var field := WidthAfterSign(v, fieldWidth, flags);
    var m := MarginsOf(field, width, numDigits, flags);
    var trail := if flags.leftJustify then Max(0, field - width) else 0;
    var digits := SignedText(v, base, numDigits, fieldWidth, flags, m, trail);
    MakePieces(m.spaces, Sign(v, flags), digits, trail, number, base);
  }

  /** Past the precision limit the unsigned part has fewer digits than asked. */
  lemma TooFewDigits(number: U32, base: nat, numDigits: nat, left: nat, flags: Flags)
    requires IsBase(base) && numDigits > MaxPrecision(base)
    ensures var out := PrintUnsigned(number, base, numDigits, left, flags);
            out.Chars? ==> |out.s| < numDigits + Max(0, left - numDigits)
  {
    hide TopWeight, EmitDigits, NumWidth;
    var out := PrintUnsigned(number, base, numDigits, left, flags);
    WidthFits(number, base);
    if out.Chars? {
      var digit := TopWeight(number, base, 1, numDigits).value;
      EmitLength(number, base, digit);
      WidthFits(digit, base);
    }
  }

  lemma SignedExceeded(v: int, base: nat, numDigits: nat, fieldWidth: nat, flags: Flags)
    requires IsBase(base) && -0x8000_0000 < v < 0x8000_0000 && numDigits > MaxPrecision(base)
    ensures !SignedFaithful(PrintInt(v, base, numDigits, fieldWidth, flags), v, base, numDigits, fieldWidth, flags)
  {
    hide PrintUnsigned, NumWidth, Pieces;
    var number: U32 := if v < 0 then -v else v;
    var m := MarginsOf(WidthAfterSign(v, fieldWidth, flags), numDigits, numDigits, flags);
    WidthFits(number, base);
    TooFewDigits(number, base, numDigits, m.left, flags);
  }

  /** Signed prints, too, are faithful if and only if the precision is within the limit. */
  lemma SignedPrint(v: int, base: nat, numDigits: nat, fieldWidth: nat, flags: Flags)
    requires IsBase(base) && -0x8000_0000 < v < 0x8000_0000
    ensures SignedFaithful(PrintInt(v, base, numDigits, fieldWidth, flags), v, base, numDigits, fieldWidth, flags)
       <==> numDigits <= MaxPrecision(base)
  {
    if numDigits <= MaxPrecision(base) {
      SignedSuffices(v, base, numDigits, fieldWidth, flags);
    } else {
      SignedExceeded(v, base, numDigits, fieldWidth, flags);
    }
  }

  // ----- Reading a signed number back

  function SkipBlanks(s: seq<Byte>): seq<Byte> {
    if s != [] && s[0] == 0x20 then SkipBlanks(s[1..]) else s
  }

  /** How many digits of the base come first. */
  function DigitRun(s: seq<Byte>, base: nat): (k: nat)
    requires IsBase(base)
    ensures k <= |s|
  {
    if s != [] && IsDigit(s[0], base) then 1 + DigitRun(s[1..], base) else 0
  }

  function Signed(negative: bool, n: nat): int {
    if negative then -(n as int) else n
  }

  /** Digits and blanks, nothing else. */
  function ReadDigits(s: seq<Byte>, base: nat): Option<nat>
    requires IsBase(base)
  {
    var k := DigitRun(s, base);
    if k == 0 || SkipBlanks(s[k..]) != [] then None else Some(Parse(s[..k], base))
  }

  /** What a reader makes of a text: blanks, at most one sign, digits, blanks. */
  function ReadSigned(s: seq<Byte>, base: nat): Option<int>
    requires IsBase(base)
  {
    var t := SkipBlanks(s);
    var negative, positive := t != [] && t[0] == 0x2D, t != [] && t[0] == 0x2B;
    match ReadDigits(if negative || positive then t[1..] else t, base)
    case None => None
    case Some(n) => Some(Signed(negative, n))
  }

  lemma {:induction false} SkipPad(n: nat, t: seq<Byte>)
    requires t == [] || t[0] != 0x20
    ensures SkipBlanks(Pad(0x20, n) + t) == t
  {
    if n == 0 {
      assert Pad(0x20, n) + t == t;
    } else {
      var s := Pad(0x20, n) + t;
      assert s[1..] == Pad(0x20, n - 1) + t;
      SkipPad(n - 1, t);
    }
  }

  lemma {:induction false} RunOfDigits(digits: seq<Byte>, tail: seq<Byte>, base: nat)
    requires IsBase(base) && forall i :: 0 <= i < |digits| ==> IsDigit(digits[i], base)
    requires tail == [] || !IsDigit(tail[0], base)
    ensures DigitRun(digits + tail, base) == |digits|
    decreases |digits|
  {
    if digits == [] {
      assert digits + tail == tail;
    } else {
      assert (digits + tail)[1..] == digits[1..] + tail;
      RunOfDigits(digits[1..], tail, base);
    }
  }

  /** Within the precision limit every signed print reads back as its value; a minus sign
      appears exactly for negative values, a plus sign exactly for others when asked for. */
  lemma SignedReads(v: int, base: nat, numDigits: nat, fieldWidth: nat, flags: Flags)
    requires IsBase(base) && -0x8000_0000 < v < 0x8000_0000 && numDigits <= MaxPrecision(base)
    ensures var out := PrintInt(v, base, numDigits, fieldWidth, flags);
            && out.Chars? && ReadSigned(out.s, base) == Some(v)
            && (0x2D in out.s <==> v < 0)
            && (0x2B in out.s <==> v >= 0 && flags.printSign)
  {
    var number: U32 := if v < 0 then -v else v;
    var width := Max(numDigits, NumWidth(number, base));
    var field := WidthAfterSign(v, fieldWidth, flags);
    var m := MarginsOf(field, width, numDigits, flags);
    var trail := if flags.leftJustify then Max(0, field - width) else 0;
    var digits := SignedText(v, base, numDigits, fieldWidth, flags, m, trail);
    hide PrintInt, NumWidth, Parse;
    Framed(m.spaces, Sign(v, flags), digits, trail, base);
  }

  lemma DigitsThenBlanks(digits: seq<Byte>, c: nat, base: nat)
    requires IsBase(base) && digits != [] && forall i :: 0 <= i < |digits| ==> IsDigit(digits[i], base)
    ensures ReadDigits(digits + Pad(0x20, c), base) == Some(Parse(digits, base))
  {
    hide Parse, SkipBlanks, DigitRun;
    var tail := Pad(0x20, c);
    var u := digits + tail;
    RunOfDigits(digits, tail, base);
    assert u[..|digits|] == digits && u[|digits|..] == tail;
    SkipPad(c, []);
    assert tail + [] == tail;
  }

  /** Blanks, a sign or none, digits and blanks, as the reader sees them. */
  lemma Framed(a: nat, sign: seq<Byte>, digits: seq<Byte>, c: nat, base: nat)
    requires IsBase(base) && digits != [] && forall i :: 0 <= i < |digits| ==> IsDigit(digits[i], base)
    requires sign == [] || sign == [0x2B] || sign == [0x2D]
    ensures var s := Pad(0x20, a) + sign + digits + Pad(0x20, c);
            && ReadSigned(s, base) == Some(Signed(sign == [0x2D], Parse(digits, base)))
            && (0x2D in s <==> sign == [0x2D]) && (0x2B in s <==> sign == [0x2B])
  {
    var u := digits + Pad(0x20, c);
    var t := sign + u;
    assert t[0] == if sign == [] then digits[0] else sign[0];
    assert if sign == [] then t == u else t[1..] == u;
    assert Pad(0x20, a) + sign + digits + Pad(0x20, c) == Pad(0x20, a) + t;
    Signs(Pad(0x20, a), sign, digits, Pad(0x20, c), base);
    hide Parse, ReadDigits, SkipBlanks, Pad;
    SkipPad(a, t);
    DigitsThenBlanks(digits, c, base);
  }

  lemma Signs(a: seq<Byte>, sign: seq<Byte>, digits: seq<Byte>, c: seq<Byte>, base: nat)
    requires IsBase(base) && AllAre(a, 0x20) && AllAre(c, 0x20)
    requires forall i :: 0 <= i < |digits| ==> IsDigit(digits[i], base)
    ensures var s := a + sign + digits + c;
            (0x2D in s <==> 0x2D in sign) && (0x2B in s <==> 0x2B in sign)
  {
  }

  // ----- Cutting the text into packets

  /** The payload of one print packet: counted text, options, no arguments. */
  function PrintPayload(text: seq<Byte>, options: U32): seq<Byte>
    requires |text| <= TEXT_LIMIT
  {
    [|text|] + text + EncodeU32(options) + EncodeU32(0)
  }

  /** The text the host reads out of a print packet. */
  function TextOf(payload: seq<Byte>): seq<Byte> {
    match DecodeStr(payload)
    case Ok(text, _) => text
    case Malformed => []
  }

  function Texts(sent: seq<seq<Byte>>): seq<Byte> {
    if sent == [] then [] else Texts(sent[..|sent| - 1]) + TextOf(sent[|sent| - 1])
  }

  lemma PayloadReads(text: seq<Byte>, options: U32)
    requires |text| <= TEXT_LIMIT
    ensures TextOf(PrintPayload(text, options)) == text
    ensures PrintPayload(text, options) == EncodeFields([Text(text), Num(options), Num(0)])
  {
    var tail := EncodeU32(options) + EncodeU32(0);
    assert PrintPayload(text, options) == EncodeStr(text, TEXT_LIMIT) + tail;
    StringRoundTrip(text, TEXT_LIMIT, tail);
    var f := [Text(text), Num(options), Num(0)];
    assert f[1..][1..][1..] == [];
    assert EncodeFields(f[1..][1..]) == EncodeU32(0) + [];
    assert EncodeFields(f[1..]) == EncodeU32(options) + EncodeFields(f[1..][1..]);
  }

  lemma TextsSnoc(sent: seq<seq<Byte>>, payload: seq<Byte>)
    ensures Texts(sent + [payload]) == Texts(sent) + TextOf(payload)
  {
    assert (sent + [payload])[..|sent|] == sent;
  }

  /** `SEGGER_SYSVIEW_PRINTF_DESC` with the payloads handed to `_SendPacket` so far. */
  class PrintfDesc {
    const options: U32
    var text: seq<Byte>
    var cnt: nat
    var sent: seq<seq<Byte>>

    ghost predicate Valid()
      reads this
    {
      cnt == |text| < TEXT_LIMIT
    }

    /** What the host has read and what is still being collected. */
    ghost function Output(): seq<Byte>
      reads this
    {
      Texts(sent) + text
    }

    constructor (options: U32)
      ensures Valid() && Output() == [] && sent == [] && this.options == options
    {
      this.options := options;
      text, cnt, sent := [], 0, [];
    }

    method Send()
      requires cnt == |text| <= TEXT_LIMIT
      modifies this
      ensures Valid() && text == []
      ensures sent == old(sent) + [EncodeFields([Text(old(text)), Num(options), Num(0)])]
      ensures Output() == old(Output())
    {
      PayloadReads(text, options);
      TextsSnoc(sent, PrintPayload(text, options));
      sent := sent + [PrintPayload(text, options)];
      text, cnt := [], 0;
    }

    /** `_StoreChar`: a packet leaves with every 128th character and only then. */
    method StoreChar(c: Byte)
      requires Valid()
      modifies this
      ensures Valid()
      ensures Output() == old(Output()) + [c]
      ensures if |old(text)| + 1 < 128 then sent == old(sent) && text == old(text) + [c]
              else sent == old(sent) + [EncodeFields([Text(old(text) + [c]), Num(options), Num(0)])] && text == []
    {
      hide EncodeFields;
      if cnt + 1 <= TEXT_LIMIT {
        Assoc(Texts(sent), text, [c]);
        text := text + [c];
        cnt := cnt + 1;
      }
      if cnt == TEXT_LIMIT {
        Send();
      }
    }

    /** The final flush of `_VPrintTarget`: the packets alone now carry the text. */
    method Flush()
      requires Valid()
      modifies this
      ensures Valid() && text == []
      ensures Texts(sent) == old(Output())
      ensures sent == old(sent) +
        (if old(text) == [] then [] else [EncodeFields([Text(old(text)), Num(options), Num(0)])])
    {
      if cnt != 0 {
        Send();
      }
      assert Output() == Texts(sent);
    }

    method StorePad(c: Byte, fieldWidth: nat, width: nat) returns (left: nat)
      requires Valid()
      modifies this
      ensures Valid() && left == Min(fieldWidth, width)
      ensures Output() == old(Output()) + Pad(c, fieldWidth - width)
    {
      left := fieldWidth;
      assert Output() == old(Output()) + Pad(c, 0);
      while left != 0 && width < left
        invariant Valid() && Min(fieldWidth, width) <= left <= fieldWidth
        invariant Output() == old(Output()) + Pad(c, fieldWidth - left)
        decreases left
      {
        left := left - 1;
        StoreChar(c);
        PadSnoc(old(Output()), c, fieldWidth - left - 1);
      }
    }

    /** `_PrintUnsigned` */
    method PutUnsigned(v: U32, base: nat, numDigits: nat, fieldWidth: nat, flags: Flags) returns (fault: bool)
      requires Valid() && IsBase(base)
      modifies this
      ensures Valid()
      ensures fault <==> PrintUnsigned(v, base, numDigits, fieldWidth, flags).Fault?
      ensures !fault ==>
        Output() == old(Output()) + PrintUnsigned(v, base, numDigits, fieldWidth, flags).s
    {
      hide TopWeight, EmitDigits, NumWidth;
      var width := CountDigits(v, base);
      width := Max(width, numDigits);
      var left := fieldWidth;
      ghost var pad: seq<Byte> := [];
      assert Output() + pad == Output();
      if !flags.leftJustify {
        var c := if flags.padZero && numDigits == 0 then ZERO else SPACE;
        pad := Pad(c, fieldWidth - width);
        left := StorePad(c, fieldWidth, width);
      }
      var digit := FindWeight(v, base, numDigits);
      if digit == 0 {
        return true;
      }
      fault := StoreDigits(v, base, digit);
      if fault {
        return;
      }
      ghost var digits := EmitDigits(v, base, digit).s;
      Assoc(old(Output()), pad, digits);
      if flags.leftJustify {
        assert Output() == old(Output()) + digits;
        left := StorePad(SPACE, fieldWidth, width);
        Assoc(old(Output()), digits, Pad(SPACE, fieldWidth - width));
      }
    }

    /** `_PrintInt` */
    method PutInt(v: int, base: nat, numDigits: nat, fieldWidth: nat, flags: Flags) returns (fault: bool)
      requires Valid() && IsBase(base) && -0x8000_0000 < v < 0x8000_0000
      modifies this
      ensures Valid()
      ensures fault <==> PrintInt(v, base, numDigits, fieldWidth, flags).Fault?
      ensures !fault ==> Output() == old(Output()) + PrintInt(v, base, numDigits, fieldWidth, flags).s
    {
      hide PrintUnsigned, NumWidth, MarginsOf, Pad, Output;
      var number: U32 := if v < 0 then -v else v;
      var width := CountDigits(number, base);
      width := Max(width, numDigits);
      var field := fieldWidth;
      if field > 0 && (v < 0 || flags.printSign) {
        field := field - 1;
      }
      ghost var m := MarginsOf(field, width, numDigits, flags);
      var left := PutMargins(v, field, width, numDigits, flags);
      fault := PutUnsigned(number, base, numDigits, left, flags);
      if !fault {
        FourParts(old(Output()), Pad(SPACE, m.spaces), Sign(v, flags), Pad(ZERO, m.zeros),
                  PrintUnsigned(number, base, numDigits, left, flags).s);
      }
    }

    /** Spaces, sign and zeros in front of the digits. */
    method PutMargins(v: int, field: nat, width: nat, numDigits: nat, flags: Flags) returns (left: nat)
      requires Valid()
      modifies this
      ensures Valid()
      ensures var m := MarginsOf(field, width, numDigits, flags);
              && left == m.left
              && Output() == ((old(Output()) + Pad(SPACE, m.spaces)) + Sign(v, flags)) + Pad(ZERO, m.zeros)
    {
      hide Sign, Output;
      left := field;
      if (!flags.padZero || numDigits != 0) && !flags.leftJustify {
        left := StorePad(SPACE, field, width);
      } else {
        NoPad(Output());
      }
      StoreSign(v, flags);
      if flags.padZero && !flags.leftJustify && numDigits == 0 {
        left := StorePad(ZERO, field, width);
      } else {
        NoPad(Output());
      }
    }

    method StoreSign(v: int, flags: Flags)
      requires Valid()
      modifies this
      ensures Valid()
      ensures Output() == old(Output()) + Sign(v, flags)
    {
      if v < 0 {
        StoreChar(MINUS);
      } else if flags.printSign {
        StoreChar(PLUS);
      }
    }

    method CountDigits(v: U32, base: nat) returns (width: nat)
      requires IsBase(base)
      ensures width == NumWidth(v, base)
    {
      var number: nat := v;
      width := 1;
      while number >= base
        invariant width + NumWidth(number, base) == 1 + NumWidth(v, base)
        decreases number
      {
        number, width := Over(number, base), width + 1;
      }
    }

    /** Zero stands for the weight that wrapped to zero, on which the C code divides. */
    method FindWeight(v: U32, base: nat, numDigits: nat) returns (digit: U32)
      requires IsBase(base)
      ensures digit == 0 <==> TopWeight(v, base, 1, numDigits) in {None, Some(0)}
      ensures digit != 0 ==> TopWeight(v, base, 1, numDigits) == Some(digit)
    {
      hide Quotient;
      var n := numDigits;
      digit := 1;
      while true
        invariant TopWeight(v, base, digit, n) == TopWeight(v, base, 1, numDigits)
        decreases n, if digit <= v then v - digit else 0
      {
        if n > 1 {
          n := n - 1;
        } else {
          if digit == 0 {
            return;
          }
          if Quotient(v, digit) < base {
            return;
          }
          ScaleUp(v, base, digit);
        }
        digit := Times(digit, base) % TWO32;
      }
    }

    method StoreDigits(v: U32, base: nat, top: U32) returns (fault: bool)
      requires Valid() && IsBase(base) && 0 < top
      modifies this
      ensures Valid()
      ensures fault <==> EmitDigits(v, base, top).Fault?
      ensures !fault ==> Output() == old(Output()) + EmitDigits(v, base, top).s
      decreases top
    {
      var d := Quotient(v, top);
      if d >= 16 {
        return true;
      }
      StoreChar(DigitChar(d));
      if Over(top, base) == 0 {
        return false;
      }
      var rest := Rest(v, top);
      ghost var mid := Output();
      fault := StoreDigits(rest, base, Over(top, base));
      if !fault {
        Assoc(old(Output()), [DigitChar(d)], EmitDigits(rest, base, Over(top, base)).s);
      }
    }
  }

  lemma NoPad(s: seq<Byte>)
    ensures s + Pad(SPACE, 0) == s && s + Pad(ZERO, 0) == s
  {
  }

  lemma FourParts(s: seq<Byte>, a: seq<Byte>, b: seq<Byte>, c: seq<Byte>, d: seq<Byte>)
    ensures (((s + a) + b) + c) + d == s + (a + b + c + d)
  {
    Assoc(s, a, b);
    Assoc(s, a + b, c);
    Assoc(s, a + b + c, d);
  }

  lemma PadSnoc(s: seq<Byte>, c: Byte, n: nat)
    ensures (s + Pad(c, n)) + [c] == s + Pad(c, n + 1)
  {
  }
}
