/** Column types and column values, and how a value is printed. */
module Values {
  import opened Machine
  import opened Text
  import opened Digits
  import opened Civil
  import opened Decimals
  import opened DateText

  datatype DataType =
    | BigInt
    | Int
    | SmallInt
    | Char(width: u8)
    | String
    | Decimal(precision: u32, scale: u32)
    | Date
    | Bool
    | Null

  datatype Value =
    | BigIntValue(big: i64)
    | IntValue(int32: i32)
    | SmallIntValue(small: i16)
    | CharValue(width: u8, chars: string)
    | StringValue(text: string)
    | DecimalValue(whole: i64, scale: u32)
    | DateValue(days: i64)
    | BoolValue(truth: bool)
    | NullValue

  function DataTypeOf(v: Value): DataType {
    match v
    case BigIntValue(_) => BigInt
    case IntValue(_) => Int
    case SmallIntValue(_) => SmallInt
    case CharValue(n, _) => Char(n)
    case StringValue(_) => String
    case DecimalValue(whole, scale) => Decimal(PrecisionOf(whole), scale)
    case DateValue(_) => Date
    case BoolValue(_) => Bool
    case NullValue => Null
  }

  /** Printing a date overflows beyond the convertible day counts; nothing else fails. */
  predicate Printable(v: Value) {
    v.DateValue? ==> Convertible(v.days)
  }

  function FormatInt(n: int): string {
    Sign(n) + Numeral(UnsignedAbs(n))
  }

  function ToString(v: Value): string
    requires Printable(v)
  {
    match v
    case BigIntValue(n) => FormatInt(n as int)
    case IntValue(n) => FormatInt(n as int)
    case SmallIntValue(n) => FormatInt(n as int)
    case CharValue(_, s) => s
    case StringValue(s) => s
    case DecimalValue(whole, scale) => FormatDecimal(whole, scale)
    case DateValue(days) => FormatDate(days)
    case BoolValue(b) => if b then "true" else "false"
    case NullValue => "NULL"
  }

  predicate IsTextual(v: Value) {
    v.CharValue? || v.StringValue?
  }

  /** The type reported for a decimal accounts for its printed digits: `scale` of them
      after the point, and the precision in all unless zeros had to be supplied. */
  lemma DecimalTypeCountsDigits(v: Value)
    requires v.DecimalValue?
    ensures var dtype, read := DataTypeOf(v), TakeApart(ToString(v));
            read.Some? && Canonical(read.value) &&
            |read.value.Fraction()| == dtype.scale as int &&
            |read.value.before| + |read.value.Fraction()| == Max(dtype.precision as int, dtype.scale as int + 1)
    ensures var n, p := UnsignedAbs(v.whole as int), DataTypeOf(v).precision as int;
            1 <= p <= 19 && n < Pow10(p) && (if n == 0 then p == 1 else Pow10(p - 1) <= n)
  {
    hide FormatDecimal, PrecisionOf, PutTogether, TakeApart, Canonical, Numeral;
    var parts := FormatShape(v.whole, v.scale);
    CanonicalIsWellFormed(parts);
    TakeApartPutTogether(parts);
    PrecisionBounds(v.whole);
  }

  lemma CanonicalIsWellFormed(parts: Parts)
    requires Canonical(parts)
    ensures parts.WellFormed()
  {
  }

  predicate Inked(s: string) {
    s != [] && forall k | 0 <= k < |s| :: !IsWhitespace(s[k])
  }

  /** Everything but character data prints without white space or line breaks. */
  lemma OnlyTextPrintsWhitespace(v: Value)
    requires Printable(v) && !IsTextual(v)
    ensures Inked(ToString(v))
  {
    if v.DecimalValue? {
      DecimalInked(v.whole, v.scale);
    } else if v.DateValue? {
      DateInked(v.days);
    }
  }

  lemma DecimalInked(whole: i64, scale: u32)
    ensures Inked(FormatDecimal(whole, scale))
  {
    hide FormatDecimal, Number, Numeral;
    var parts := FormatShape(whole, scale);
  }

  lemma DateInked(days: i64)
    requires Convertible(days)
    ensures Inked(FormatDate(days))
  {
    hide FormatDate, CivilFromDays;
    var y, m, d := DateFields(days);
    var year := CivilFromDays(days).0 as int;
    assert Inked(y) by {
      assert y == ZeroPadded(year, 4);
    }
  }
}
