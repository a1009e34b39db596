/** Printing fixed-point decimals, and reading them back. */
module Decimals {
  import opened Wrappers
  import opened Machine
  import opened Text
  import opened Digits

  /** `i64::unsigned_abs`: exact even for the minimum. */
  function UnsignedAbs(n: int): nat {
    if n < 0 then -n else n
  }

  function Sign(n: int): string {
    if n < 0 then "-" else ""
  }

  function Max(a: int, b: int): int {
    if a < b then b else a
  }

  function PrecisionOf(whole: i64): u32 {
    PrecisionFits(whole);
    Max(|Numeral(UnsignedAbs(whole as int))|, 1) as u32
  }

  function FormatDecimal(whole: i64, scale: u32): string {
    var digits := Numeral(UnsignedAbs(whole as int));
    var sign := Sign(whole as int);
    var scale := scale as nat;
    if scale == 0 then sign + digits
    else if |digits| > scale then
      var split := |digits| - scale;
      sign + digits[..split] + "." + digits[split..]
    else sign + "0." + Repeat('0', scale - |digits|) + digits
  }

  /** A decimal text taken apart: sign, digits before the point and, if there is a
      point, digits after it. */
  datatype Parts = Parts(negative: bool, before: string, after: Option<string>) {
    predicate WellFormed() {
      before != [] && AllDigits(before) && (after.Some? ==> after.value != [] && AllDigits(after.value))
    }

    function Fraction(): string {
      if after.Some? then after.value else []
    }

    /** The unscaled integer. */
    function Whole(): int
      requires WellFormed()
    {
      var n: int := Number(before + Fraction());
      if negative then -n else n
    }

    /** The number the text denotes. */
    function Denotes(): real
      requires WellFormed()
    {
      var magnitude := Number(before) as real + Number(Fraction()) as real / Tens(|Fraction()|);
      if negative then -magnitude else magnitude
    }
  }

  function Tens(k: nat): (r: real)
    ensures r > 0.0
  {
    Pow10Monotone(0, k);
    Pow10(k) as real
  }

  function TakeApart(text: string): Option<Parts> {
    var negative := text != [] && text[0] == '-';
    var pieces := Split(if negative then text[1..] else text, '.');
    var parts := PartsOf(negative, pieces);
    if |pieces| <= 2 && parts.WellFormed() then Some(parts) else None
  }

  function PartsOf(negative: bool, pieces: seq<string>): Parts
    requires pieces != []
  {
    Parts(negative, pieces[0], if |pieces| == 1 then None else Some(pieces[1]))
  }

  /** The texts the printer aims at: no leading zero before the point except a lone
      `0`, and no minus sign on zero. */
  predicate Canonical(parts: Parts) {
    parts.WellFormed() && IsNumeral(parts.before) && (parts.negative ==> parts.Whole() != 0)
  }

  function PutTogether(parts: Parts): string {
    var head := (if parts.negative then "-" else "") + parts.before;
    if parts.after.Some? then head + "." + parts.after.value else head
  }

  lemma PrecisionFits(whole: i64)
    ensures 1 <= |Numeral(UnsignedAbs(whole as int))| <= 19
  {
    var n := UnsignedAbs(whole as int);
    NumeralLength(n);
    if |Numeral(n)| > 19 {
      Pow10Monotone(19, |Numeral(n)| - 1);
      NineteenDigits();
    }
  }

  /** `PrecisionOf` counts the digits of the magnitude: it is between the powers of ten
      the precision names, and zero has one digit. */
  lemma PrecisionBounds(whole: i64)
    ensures var p, n := PrecisionOf(whole) as int, UnsignedAbs(whole as int);
            1 <= p <= 19 && n < Pow10(p) && (if n == 0 then p == 1 else Pow10(p - 1) <= n)
  {
    PrecisionFits(whole);
    NumeralLength(UnsignedAbs(whole as int));
  }

  /** The text after the sign. */
  function Unsigned(parts: Parts): string {
    if parts.after.Some? then parts.before + "." + parts.after.value else parts.before
  }

  lemma SplitBody(parts: Parts)
    requires parts.WellFormed()
    ensures Split(Unsigned(parts), '.') == [parts.before] + if parts.after.Some? then [parts.after.value] else []
  {
    if parts.after.Some? {
      SplitFirst(parts.before, parts.after.value, '.');
      SplitWhole(parts.after.value, '.');
    } else {
      SplitWhole(parts.before, '.');
    }
  }

  /** Putting well-formed parts together and taking them apart are inverse. */
  lemma TakeApartPutTogether(parts: Parts)
    requires parts.WellFormed()
    ensures TakeApart(PutTogether(parts)) == Some(parts)
  {
    var text := PutTogether(parts);
    SplitBody(parts);
    assert IsDigit(parts.before[0]);
    if parts.negative {
      assert text[1..] == Unsigned(parts);
    } else {
      assert text == Unsigned(parts);
    }
  }

  lemma PutTogetherTakeApart(text: string)
    requires TakeApart(text).Some?
    ensures PutTogether(TakeApart(text).value) == text
  {
    var negative := text != [] && text[0] == '-';
    var body := if negative then text[1..] else text;
    var pieces := Split(body, '.');
    SplitPieces(body, pieces);
    assert text == (if negative then "-" else "") + body;
    SignThenBody(PartsOf(negative, pieces));
  }

  lemma SignThenBody(parts: Parts)
    ensures PutTogether(parts) == (if parts.negative then "-" else "") + Unsigned(parts)
  {
    if parts.after.Some? {
      var sign := if parts.negative then "-" else "";
      assert sign + parts.before + "." + parts.after.value == sign + (parts.before + "." + parts.after.value);
    }
  }

  lemma SplitPieces(body: string, pieces: seq<string>)
    requires pieces == Split(body, '.') && |pieces| <= 2
    ensures body == if |pieces| == 1 then pieces[0] else pieces[0] + "." + pieces[1]
  {
    JoinUndoesSplit(body, '.');
    if |pieces| == 2 {
      assert pieces[1..] == [pieces[1]];
    }
  }

  /** The parts the printer produces. */
  function FormatParts(whole: i64, scale: u32): Parts {
    var digits := Numeral(UnsignedAbs(whole as int));
    var k := scale as nat;
    if k == 0 then Parts(whole < 0, digits, None)
    else if |digits| > k then Parts(whole < 0, digits[..|digits| - k], Some(digits[|digits| - k..]))
    else Parts(whole < 0, "0", Some(Repeat('0', k - |digits|) + digits))
  }

  lemma FormatPutsTogether(whole: i64, scale: u32)
    ensures FormatDecimal(whole, scale) == PutTogether(FormatParts(whole, scale))
  {
    var digits := Numeral(UnsignedAbs(whole as int));
    var k := scale as nat;
    if k >= |digits| {
      assert "0." == "0" + ".";
      var sign := Sign(whole as int);
      var zeros := Repeat('0', k - |digits|);
      assert sign + "0." + zeros + digits == sign + "0" + "." + (zeros + digits);
    }
  }

  /** Their value, their scale, and how the digits are shared out on the two sides of
      the point. */
  lemma FormatShape(whole: i64, scale: u32) returns (parts: Parts)
    ensures Canonical(parts) && PutTogether(parts) == FormatDecimal(whole, scale)
    ensures parts.Whole() == whole as int && |parts.Fraction()| == scale as int
    ensures |parts.before| + |parts.Fraction()| == Max(PrecisionOf(whole) as int, scale as int + 1)
  {
    hide FormatDecimal, PutTogether, Number, Numeral;
    parts := FormatParts(whole, scale);
    FormatPutsTogether(whole, scale);
    PrecisionFits(whole);
    FormatWhole(whole, scale);
    NumeralReads(UnsignedAbs(whole as int));
  }

  lemma FormatWhole(whole: i64, scale: u32)
    ensures var parts := FormatParts(whole, scale);
            var digits := parts.before + parts.Fraction();
            parts.WellFormed() && Number(digits) == UnsignedAbs(whole as int)
  {
    hide Number, Numeral, Repeat;
    var parts := FormatParts(whole, scale);
    var digits := Numeral(UnsignedAbs(whole as int));
    NumeralReads(UnsignedAbs(whole as int));
    if scale as int < |digits| {
      assert parts.before + parts.Fraction() == digits;
    } else {
      var zeros := scale as int - |digits|;
      assert parts.before + parts.Fraction() == Repeat('0', zeros + 1) + digits;
      ZerosAreNothing(zeros, digits);
      ZerosAreNothing(zeros + 1, digits);
    }
  }

  /** Canonical parts are determined by the value and the scale they denote. */
  lemma CanonicalUnique(a: Parts, b: Parts)
    requires Canonical(a) && Canonical(b)
    requires a.Whole() == b.Whole() && |a.Fraction()| == |b.Fraction()|
    ensures a == b
  {
    var n := Number(a.before + a.Fraction());
    SharesDigits(a.before, a.Fraction());
    SharesDigits(b.before, b.Fraction());
    DigitsSort(a.Fraction(), b.Fraction());
    NumberPrints(a.before);
    NumberPrints(b.before);
  }

  lemma SharesDigits(before: string, after: string)
    requires AllDigits(before) && AllDigits(after)
    ensures AllDigits(before + after)
    ensures Number(before) == Number(before + after) / Pow10(|after|)
    ensures Number(after) == Number(before + after) - Number(before) * Pow10(|after|)
  {
    NumberOfConcat(before, after);
    NumberBound(after);
    QuotientOfSum(Number(before), Pow10(|after|), Number(after));
  }

  lemma QuotientOfSum(q: nat, d: nat, r: nat)
    requires r < d
    ensures (q * d + r) / d == q
  {
    var n := q * d + r;
    var gap := n / d - q;
    assert n == d * (n / d) + n % d;
    assert d * gap == r - n % d;
    SmallMultiple(d, gap);
  }

  /** The printed text reads back to the same unscaled integer and scale, for every
      64-bit integer including the minimum and every scale. */
  lemma DecimalRoundTrip(whole: i64, scale: u32)
    ensures var read := TakeApart(FormatDecimal(whole, scale));
            read.Some? && Canonical(read.value) &&
            read.value.Whole() == whole as int && |read.value.Fraction()| == scale as int
  {
    var parts := FormatShape(whole, scale);
    TakeApartPutTogether(parts);
  }

  /** Printing a canonical text's reading gives the text back: the printer is onto the
      canonical decimals that fit. */
  lemma DecimalReprint(text: string)
    requires var read := TakeApart(text);
             read.Some? && Canonical(read.value) &&
             -TWO_63 <= read.value.Whole() < TWO_63 && |read.value.Fraction()| < TWO_32
    ensures var read := TakeApart(text).value;
            FormatDecimal(read.Whole() as i64, |read.Fraction()| as u32) == text
  {
    var read := TakeApart(text).value;
    var parts := FormatShape(read.Whole() as i64, |read.Fraction()| as u32);
    CanonicalUnique(parts, read);
    PutTogetherTakeApart(text);
  }

  lemma DecimalInjective(whole: i64, scale: u32, whole': i64, scale': u32)
    ensures FormatDecimal(whole, scale) == FormatDecimal(whole', scale') <==> whole == whole' && scale == scale'
  {
    DecimalRoundTrip(whole, scale);
    DecimalRoundTrip(whole', scale');
  }

  /** The text denotes exactly `whole / 10^scale`. */
  lemma DecimalDenotes(whole: i64, scale: u32)
    ensures var read := TakeApart(FormatDecimal(whole, scale));
            read.Some? && read.value.Denotes() == whole as real / Tens(scale as nat)
  {
    DecimalRoundTrip(whole, scale);
    var read := TakeApart(FormatDecimal(whole, scale)).value;
    DenotesQuotient(read);
  }

  lemma DenotesQuotient(parts: Parts)
    requires parts.WellFormed()
    ensures parts.Denotes() == parts.Whole() as real / Tens(|parts.Fraction()|)
  {
    var b, f, t := Number(parts.before), Number(parts.Fraction()), Pow10(|parts.Fraction()|);
    NumberOfConcat(parts.before, parts.Fraction());
    var n: int := b * t + f;
    assert parts.Whole() == if parts.negative then -n else n;
    QuotientSum(b, f, t);
  }

  lemma QuotientSum(b: nat, f: nat, t: nat)
    requires t > 0
    ensures var n: int, r := b * t + f, t as real;
            n as real / r == b as real + f as real / r && (-n) as real / r == -(n as real / r)
  {
    var n: int, r := b * t + f, t as real;
    assert n as real == b as real * r + f as real;
    assert b as real * r / r == b as real;
  }
}
