/** Reading printed values back, one by one by their types and from a whole printed table. */
module ValueReading {
  import opened Wrappers
  import opened Machine
  import opened Text
  import opened Calendar
  import opened Civil
  import opened Digits
  import opened Decimals
  import opened DateText
  import opened Values
  import opened Schemas
  import opened Tables
  import opened TableReading

  predicate Textual(dtype: DataType) {
    dtype.Char? || dtype.String?
  }

  /** What a text means in a column of this type. `NULL` is a null, but for character data,
      which means itself. */
  function ReadValue(text: string, dtype: DataType): Option<Value> {
    match dtype
    case Char(width) => Some(CharValue(width, text))
    case String => Some(StringValue(text))
    case _ => if text == "NULL" then Some(NullValue) else ReadPlain(text, dtype)
  }

  function ReadPlain(text: string, dtype: DataType): Option<Value> {
    match dtype
    case BigInt =>
      var n :- ReadInt(text);
      if -TWO_63 <= n < TWO_63 then Some(BigIntValue(n as i64)) else None
    case Int =>
      var n :- ReadInt(text);
      if -TWO_31 <= n < TWO_31 then Some(IntValue(n as i32)) else None
    case SmallInt =>
      var n :- ReadInt(text);
      if -0x8000 <= n < 0x8000 then Some(SmallIntValue(n as i16)) else None
    case Decimal(_, scale) =>
      var parts :- TakeApart(text);
      if |parts.Fraction()| == scale as int && parts.WellFormed() && -TWO_63 <= parts.Whole() < TWO_63
      then Some(DecimalValue(parts.Whole() as i64, scale)) else None
    case Date =>
      var date :- ReadDate(text);
      if Valid(date) && -TWO_63 <= DayNumber(date) < TWO_63 then Some(DateValue(DayNumber(date) as i64)) else None
    case Bool =>
      if text == "true" then Some(BoolValue(true)) else if text == "false" then Some(BoolValue(false)) else None
    case _ => None
  }

  /** The values a column of this type can print without loss. */
  predicate Legible(v: Value, dtype: DataType) {
    match dtype
    case Char(width) => v.CharValue? && v.width == width
    case String => v.StringValue?
    case _ => v.NullValue? || LegiblePlain(v, dtype)
  }

  predicate LegiblePlain(v: Value, dtype: DataType) {
    match v
    case BigIntValue(_) => dtype.BigInt?
    case IntValue(_) => dtype.Int?
    case SmallIntValue(_) => dtype.SmallInt?
    case DecimalValue(_, scale) => dtype.Decimal? && dtype.scale == scale
    case DateValue(days) => dtype.Date? && FIRST_DAY <= days as int <= LAST_DAY
    case BoolValue(_) => dtype.Bool?
    case _ => false
  }

  // ----- One value -----

  lemma IntReads(n: int)
    ensures ReadInt(FormatInt(n)) == Some(n)
  {
    NumeralReads(UnsignedAbs(n));
    ReadSigned(n, Numeral(UnsignedAbs(n)));
  }

  lemma DecimalReads(whole: i64, scale: u32, dtype: DataType)
    requires dtype.Decimal?
    ensures ReadPlain(FormatDecimal(whole, scale), dtype) ==
            if dtype.scale == scale then Some(DecimalValue(whole, scale)) else None
  {
    DecimalRoundTrip(whole, scale);
  }

  lemma DateReads(days: i64)
    requires Convertible(days)
    ensures ReadPlain(FormatDate(days), DataType.Date) == Some(DateValue(days)) <==>
            FIRST_DAY <= days as int <= LAST_DAY
  {
    hide DayNumber, Valid, CivilFromDays, FormatDate, ReadDate;
    DateTextReads(days);
    CivilCorrectExactly(days);
    DateOfCounts(days as int);
    var date := AsDate(CivilFromDays(days));
    if Valid(date) {
      DateOfInverts(date);
    }
  }

  /** No number, date or truth value prints as a null does. */
  lemma NullIsPlain(dtype: DataType)
    ensures ReadInt("NULL") == None && ReadDate("NULL") == None && TakeApart("NULL") == None
    ensures !Textual(dtype) ==> ReadPlain("NULL", dtype) == None
  {
    SplitWhole("NULL", '.');
    assert !IsDigit("NULL"[0]);
  }

  /** A printed value reads back to itself at a type exactly when the type can print it
      without loss. */
  lemma ValueReads(v: Value, dtype: DataType)
    requires Printable(v)
    ensures ReadValue(ToString(v), dtype) == Some(v) <==> Legible(v, dtype)
  {
    hide ReadInt, ReadDate, TakeApart, FormatInt, FormatDate, FormatDecimal;
    NullIsPlain(dtype);
    if !Textual(dtype) {
      match v
      case BigIntValue(n) => IntReads(n as int);
      case IntValue(n) => IntReads(n as int);
      case SmallIntValue(n) => IntReads(n as int);
      case DecimalValue(whole, scale) => DecimalReadsAt(whole, scale, dtype);
      case DateValue(days) => DateReadsAt(days, dtype);
      case _ =>
    }
  }

  lemma DecimalReadsAt(whole: i64, scale: u32, dtype: DataType)
    requires !Textual(dtype)
    ensures ReadValue(FormatDecimal(whole, scale), dtype) == Some(DecimalValue(whole, scale)) <==>
            dtype.Decimal? && dtype.scale == scale
  {
    hide ReadInt, ReadDate, TakeApart, FormatDecimal;
    NullIsPlain(dtype);
    if dtype.Decimal? {
      DecimalReads(whole, scale, dtype);
      DecimalRoundTrip(whole, scale);
    }
  }

  lemma DateReadsAt(days: i64, dtype: DataType)
    requires !Textual(dtype) && Convertible(days)
    ensures ReadValue(FormatDate(days), dtype) == Some(DateValue(days)) <==>
            dtype.Date? && FIRST_DAY <= days as int <= LAST_DAY
  {
    hide ReadInt, ReadDate, TakeApart, FormatDate;
    NullIsPlain(dtype);
    if dtype.Date? {
      DateReads(days);
      DateTextReads(days);
    }
  }

  /** So every value reads back at the type reported for it, but for dates whose year does
      not fit; and only a null is reported as having none. */
  lemma OwnTypeReads(v: Value)
    requires Printable(v)
    ensures ReadValue(ToString(v), DataTypeOf(v)) == Some(v) <==>
            (v.DateValue? ==> FIRST_DAY <= v.days as int <= LAST_DAY)
    ensures DataTypeOf(v).Null? <==> v.NullValue?
  {
    ValueReads(v, DataTypeOf(v));
  }

  // ----- A cell -----

  /** Only character data read as character data. */
  lemma ReadsTextual(text: string, dtype: DataType)
    ensures var v := ReadValue(text, dtype);
            v.Some? ==> (IsTextual(v.value) <==> Textual(dtype)) && (Textual(dtype) ==> ToString(v.value) == text)
  {
  }

  /** What stands in a cell's place reads as its value exactly when the cell is recoverable
      there and its type prints it without loss. */
  lemma CellValueReads(cells: seq<string>, widths: seq<nat>, rights: seq<bool>, i: nat, v: Value, dtype: DataType)
    requires Fits(cells, widths, rights) && i < |cells| && Printable(v) && cells[i] == ToString(v)
    ensures var read := ReadLine(TrimEnd(Line(cells, widths, rights)), widths, rights)[i];
            ReadValue(read, dtype) == Some(v) <==>
            Recoverable(cells[i], rights[i], i == |cells| - 1) && Legible(v, dtype)
  {
    hide ReadLine, Line, Recoverable, ToString, ReadPlain, Legible, TrimEnd, Convertible, IsTextual;
    ReadLineLength(TrimEnd(Line(cells, widths, rights)), widths, rights);
    var read := ReadLine(TrimEnd(Line(cells, widths, rights)), widths, rights)[i];
    CellReadsBack(cells, widths, rights, i);
    ValueReads(v, dtype);
    ReadsTextual(read, dtype);
    if !IsTextual(v) {
      OnlyTextIsLost(v, rights[i], i == |cells| - 1);
    }
  }

  // ----- A table -----

  /** The values of one row, if it has as many cells as there are types and all mean
      something. */
  function ReadRow(cells: seq<string>, columns: seq<Attribute>): Option<seq<Value>> {
    if |cells| != |columns| then None
    else if cells == [] then Some([])
    else
      var first :- ReadValue(cells[0], columns[0].dtype);
      var others :- ReadRow(cells[1..], columns[1..]);
      Some([first] + others)
  }

  function ReadRows(cells: seq<seq<string>>, columns: seq<Attribute>): Option<seq<seq<Value>>> {
    if cells == [] then Some([])
    else
      var first :- ReadRow(cells[0], columns);
      var others :- ReadRows(cells[1..], columns);
      Some([first] + others)
  }

  /** The column names and the values of a printed table, given its column types. */
  function ReadValues(text: string, columns: seq<Attribute>): Option<(seq<string>, seq<seq<Value>>)> {
    var (names, cells) :- ReadTable(text, Alignments(columns));
    var values :- ReadRows(cells, columns);
    Some((names, values))
  }

  lemma {:induction false} ReadRowIs(cells: seq<string>, columns: seq<Attribute>, row: seq<Value>)
    ensures ReadRow(cells, columns) == Some(row) <==>
            |cells| == |columns| == |row| &&
            forall i | 0 <= i < |row| :: ReadValue(cells[i], columns[i].dtype) == Some(row[i])
  {
    hide ReadValue;
    if |cells| == |columns| && cells != [] {
      if row != [] {
        ReadRowIs(cells[1..], columns[1..], row[1..]);
        assert row == [row[0]] + row[1..];
        assert forall i | 1 <= i < |cells| :: cells[i] == cells[1..][i - 1] && columns[i] == columns[1..][i - 1];
        assert forall i | 1 <= i < |row| :: row[i] == row[1..][i - 1];
      }
    }
  }

  lemma {:induction false} ReadRowsIs(cells: seq<seq<string>>, columns: seq<Attribute>, rows: seq<seq<Value>>)
    ensures ReadRows(cells, columns) == Some(rows) <==>
            |cells| == |rows| && forall r | 0 <= r < |rows| :: ReadRow(cells[r], columns) == Some(rows[r])
  {
    hide ReadRow;
    if cells != [] && rows != [] {
      ReadRowsIs(cells[1..], columns, rows[1..]);
      assert rows == [rows[0]] + rows[1..];
      assert forall r | 1 <= r < |cells| :: cells[r] == cells[1..][r - 1];
      assert forall r | 1 <= r < |rows| :: rows[r] == rows[1..][r - 1];
    }
  }

  predicate RowLegible(row: seq<Value>, columns: seq<Attribute>) {
    |row| == |columns| && forall i | 0 <= i < |row| :: Legible(row[i], columns[i].dtype)
  }

  /** A row's line reads back to its values exactly when the row is as wide as the schema,
      every cell is recoverable where it stands, and every value legible in its column. */
  lemma RowValuesReadBack(rows: Rows, r: nat)
    requires Displayable(rows) && rows.columns != [] && r < |rows.rows|
    ensures var names, cells, rights := Names(rows.columns), Cells(rows), Alignments(rows.columns);
            var widths := Widths(names, cells);
            var read := ReadLine(TrimEnd(Line(cells[r], widths, rights)), widths, rights);
            ReadRow(read, rows.columns) == Some(rows.rows[r]) <==>
            |cells[r]| == |rights| && RowRecoverable(cells[r], rights) && RowLegible(rows.rows[r], rows.columns)
  {
    hide ToString, Widths, TrimEnd, Line, ReadLine, ReadRow, ReadValue, Recoverable, Legible, Convertible;
    var names, cells, rights := Names(rows.columns), Cells(rows), Alignments(rows.columns);
    var widths := Widths(names, cells);
    var row := rows.rows[r];
    var read := ReadLine(TrimEnd(Line(cells[r], widths, rights)), widths, rights);
    ReadLineLength(TrimEnd(Line(cells[r], widths, rights)), widths, rights);
    ReadRowIs(read, rows.columns, row);
    if |row| == |rights| {
      CellsFit(names, cells, rights, r);
      forall i | 0 <= i < |row|
        ensures ReadValue(read[i], rows.columns[i].dtype) == Some(row[i]) <==>
                Recoverable(cells[r][i], rights[i], i == |row| - 1) && Legible(row[i], rows.columns[i].dtype)
      {
        CellValueReads(cells[r], widths, rights, i, row[i], rows.columns[i].dtype);
      }
    }
  }

  /** Values that read back stand in unbroken lines. */
  lemma UnbrokenRow(names: seq<string>, cells: seq<seq<string>>, rights: seq<bool>, r: nat)
    requires Table(names, cells, rights) && Unbroken(names, cells, rights) && r < |cells|
    requires |cells[r]| == |rights| && RowRecoverable(cells[r], rights)
    ensures NoBreaks(cells[r])
  {
    hide Widths, TrimEnd, Line, RowRecoverable, NoBreaks;
    CellsFit(names, cells, rights, r);
    TrimmedBreaks(cells[r], Widths(names, cells), rights);
    assert '\n' !in Body(cells, Widths(names, cells), rights)[r];
  }

  lemma UnbrokenHeader(names: seq<string>, cells: seq<seq<string>>, rights: seq<bool>)
    requires Table(names, cells, rights) && Unbroken(names, cells, rights)
    ensures var widths := Widths(names, cells);
            ReadLine(Header(names, widths), widths, LeftAligned(|names|)) == names <==>
            RowRecoverable(names, LeftAligned(|names|)) && NoBreaks(names)
  {
    hide Widths, TrimEnd, Line, RowRecoverable, NoBreaks, ReadLine;
    NamesFit(names, cells, rights);
    LineReadsBack(names, Widths(names, cells), LeftAligned(|names|));
    TrimmedBreaks(names, Widths(names, cells), LeftAligned(|names|));
  }

  /** A printed table gives back its values exactly when it gives back its cells and every
      column can print the values in it without loss. */
  lemma TableValuesReadBack(rows: Rows)
    requires Displayable(rows) && rows.columns != []
    ensures ReadValues(TableText(rows), rows.columns) == Some((Names(rows.columns), rows.rows)) <==>
            Recovers(Names(rows.columns), Cells(rows), Alignments(rows.columns)) &&
            forall r | 0 <= r < |rows.rows| :: RowLegible(rows.rows[r], rows.columns)
  {
    hide ToString, Widths, TrimEnd, Line, ReadLine, ReadRow, ReadTable, RowRecoverable, RowLegible, NoBreaks,
         Join, Unbroken, Rule, Footer;
    var names, cells, rights := Names(rows.columns), Cells(rows), Alignments(rows.columns);
    var widths := Widths(names, cells);
    LinesRead(names, cells, rights);
    var read := ReadTable(TableText(rows), rights);
    if Unbroken(names, cells, rights) {
      UnbrokenHeader(names, cells, rights);
      ReadRowsIs(read.value.1, rows.columns, rows.rows);
      forall r | 0 <= r < |cells|
        ensures ReadRow(read.value.1[r], rows.columns) == Some(rows.rows[r]) <==>
                |cells[r]| == |rights| && RowRecoverable(cells[r], rights) && NoBreaks(cells[r]) &&
                RowLegible(rows.rows[r], rows.columns)
      {
        RowValuesReadBack(rows, r);
        if |cells[r]| == |rights| && RowRecoverable(cells[r], rights) {
          UnbrokenRow(names, cells, rights, r);
        }
      }
    } else {
      if read.Some? {
        ReadRowsIs(read.value.1, rows.columns, rows.rows);
      }
      if Recovers(names, cells, rights) {
        RecoversUnbroken(names, cells, rights);
      }
    }
  }
}
