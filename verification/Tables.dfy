/** Printing a result as an aligned table, and reading it back. */
module Tables {
  import opened Text
  import opened Digits
  import opened Decimals
  import opened Values
  import opened Schemas

  datatype Rows = Rows(columns: seq<Attribute>, rows: seq<seq<Value>>)

  predicate IsRightAligned(dtype: DataType) {
    dtype.BigInt? || dtype.Int? || dtype.SmallInt? || dtype.Decimal?
  }

  /** What printing demands: printable values, and no row wider than the schema, unless
      there are no columns to print them in. */
  predicate Displayable(rows: Rows) {
    rows.columns != [] ==>
      forall r | 0 <= r < |rows.rows| ::
        |rows.rows[r]| <= |rows.columns| && forall i | 0 <= i < |rows.rows[r]| :: Printable(rows.rows[r][i])
  }

  function RowCells(row: seq<Value>): (cells: seq<string>)
    requires forall i | 0 <= i < |row| :: Printable(row[i])
    ensures |cells| == |row| && forall i | 0 <= i < |row| :: cells[i] == ToString(row[i])
  {
    seq(|row|, i requires 0 <= i < |row| => ToString(row[i]))
  }

  function Cells(rows: Rows): (cells: seq<seq<string>>)
    requires Displayable(rows) && rows.columns != []
    ensures |cells| == |rows.rows| && forall r | 0 <= r < |cells| :: cells[r] == RowCells(rows.rows[r])
  {
    seq(|rows.rows|, r requires 0 <= r < |rows.rows| => RowCells(rows.rows[r]))
  }

  function Names(columns: seq<Attribute>): (names: seq<string>)
    ensures |names| == |columns| && forall i | 0 <= i < |names| :: names[i] == columns[i].name
  {
    seq(|columns|, i requires 0 <= i < |columns| => columns[i].name)
  }

  function Alignments(columns: seq<Attribute>): (rights: seq<bool>)
    ensures |rights| == |columns| && forall i | 0 <= i < |rights| :: rights[i] == IsRightAligned(columns[i].dtype)
  {
    seq(|columns|, i requires 0 <= i < |columns| => IsRightAligned(columns[i].dtype))
  }

  // ----- Widths -----

  /** The longest cell of column `i`, over the rows that have one. */
  function Widest(cells: seq<seq<string>>, i: nat): nat {
    if cells == [] then 0
    else
      var rest := Widest(cells[1..], i);
      if i < |cells[0]| && |cells[0][i]| > rest then |cells[0][i]| else rest
  }

  function Widths(names: seq<string>, cells: seq<seq<string>>): (widths: seq<nat>)
    ensures |widths| == |names|
    ensures forall i | 0 <= i < |names| :: widths[i] == Max(Widest(cells, i), |names[i]|)
  {
    seq(|names|, i requires 0 <= i < |names| => Max(Widest(cells, i), |names[i]|) as nat)
  }

  // ----- Lines -----

  function Pad(s: string, width: nat, right: bool): (p: string)
    ensures |p| == Max(width, |s|)
  {
    var fill := Repeat(' ', if |s| < width then width - |s| else 0);
    if right then fill + s else s + fill
  }

  function Field(cell: string, width: nat, right: bool): string {
    " " + Pad(cell, width, right) + " "
  }

  function Fields(cells: seq<string>, widths: seq<nat>, rights: seq<bool>): (fields: seq<string>)
    requires |cells| <= |widths| && |cells| <= |rights|
    ensures |fields| == |cells|
    ensures forall i | 0 <= i < |cells| :: fields[i] == Field(cells[i], widths[i], rights[i])
  {
    seq(|cells|, i requires 0 <= i < |cells| => Field(cells[i], widths[i], rights[i]))
  }

  function Line(cells: seq<string>, widths: seq<nat>, rights: seq<bool>): string
    requires |cells| <= |widths| && |cells| <= |rights|
  {
    Join(Fields(cells, widths, rights), "|")
  }

  function LeftAligned(n: nat): (rights: seq<bool>)
    ensures |rights| == n && forall i | 0 <= i < n :: !rights[i]
  {
    seq(n, _ => false)
  }

  function Dashes(widths: seq<nat>): (fields: seq<string>)
    ensures |fields| == |widths|
    ensures forall i | 0 <= i < |widths| :: fields[i] == Repeat('-', widths[i] + 2)
  {
    seq(|widths|, i requires 0 <= i < |widths| => Repeat('-', widths[i] + 2))
  }

  function Rule(widths: seq<nat>): string {
    Join(Dashes(widths), "+")
  }

  function Body(cells: seq<seq<string>>, widths: seq<nat>, rights: seq<bool>): (lines: seq<string>)
    requires forall r | 0 <= r < |cells| :: |cells[r]| <= |widths| && |cells[r]| <= |rights|
    ensures |lines| == |cells|
    ensures forall r | 0 <= r < |cells| :: lines[r] == TrimEnd(Line(cells[r], widths, rights))
  {
    seq(|cells|, r requires 0 <= r < |cells| => TrimEnd(Line(cells[r], widths, rights)))
  }

  function Footer(n: nat): string {
    "(" + Numeral(n) + " row" + (if n == 1 then "" else "s") + ")"
  }

  /** The lines of a table with at least one column. */
  function TableLines(rows: Rows): seq<string>
    requires Displayable(rows) && rows.columns != []
  {
    var names, cells, rights := Names(rows.columns), Cells(rows), Alignments(rows.columns);
    var widths := Widths(names, cells);
    [TrimEnd(Line(names, widths, LeftAligned(|names|))), Rule(widths)] +
    Body(cells, widths, rights) + [Footer(|cells|)]
  }

  function TableText(rows: Rows): string
    requires Displayable(rows)
  {
    if rows.columns == [] then "(" + Numeral(|rows.rows|) + " rows)" else Join(TableLines(rows), "\n")
  }

  /** The formatter the table is written to. */
  class Formatter {
    var text: string

    constructor ()
      ensures text == ""
    {
      text := "";
    }

    method Write(s: string)
      modifies this
      ensures text == old(text) + s
    {
      text := text + s;
    }
  }

  /** The lines, each with its end mark. */
  function Terminated(lines: seq<string>, mark: string): string {
    if lines == [] then [] else lines[0] + mark + Terminated(lines[1..], mark)
  }

  lemma {:induction false} JoinLast(lines: seq<string>, last: string, mark: string)
    ensures Join(lines + [last], mark) == Terminated(lines, mark) + last
  {
    if lines == [] {
      assert lines + [last] == [last];
    } else {
      assert (lines + [last])[1..] == lines[1..] + [last];
      JoinLast(lines[1..], last, mark);
    }
  }

  lemma {:induction false} TerminatedPush(lines: seq<string>, line: string, mark: string)
    ensures Terminated(lines + [line], mark) == Terminated(lines, mark) + line + mark
  {
    if lines == [] {
      assert lines + [line] == [line];
    } else {
      assert (lines + [line])[1..] == lines[1..] + [line];
      TerminatedPush(lines[1..], line, mark);
    }
  }

  /** Write the rows, one line each. */
  method WriteBody(cells: seq<seq<string>>, widths: seq<nat>, rights: seq<bool>, f: Formatter)
    requires forall r | 0 <= r < |cells| :: |cells[r]| <= |widths| && |cells[r]| <= |rights|
    modifies f
    ensures f.text == old(f.text) + Terminated(Body(cells, widths, rights), "\n")
  {
    hide Line, TrimEnd;
    ghost var before := f.text;
    ghost var body := Body(cells, widths, rights);
    for r := 0 to |cells|
      invariant f.text == before + Terminated(body[..r], "\n")
    {
      var line := TrimEnd(Line(cells[r], widths, rights));
      f.Write(line + "\n");
      TerminatedPush(body[..r], line, "\n");
      assert body[..r + 1] == body[..r] + [body[r]];
      assert before + Terminated(body[..r], "\n") + (line + "\n") ==
             before + (Terminated(body[..r], "\n") + line + "\n");
    }
    assert body[..|cells|] == body;
  }

  lemma TableConcat(header: string, rule: string, body: seq<string>, footer: string)
    ensures Join([header, rule] + body + [footer], "\n") ==
            header + "\n" + rule + "\n" + Terminated(body, "\n") + footer
  {
    JoinLast([header, rule] + body, footer, "\n");
    assert ([header, rule] + body)[1..] == [rule] + body;
    assert ([rule] + body)[1..] == body;
    assert Terminated([header, rule] + body, "\n") == header + "\n" + (rule + "\n" + Terminated(body, "\n"));
    assert header + "\n" + (rule + "\n" + Terminated(body, "\n")) + footer ==
           header + "\n" + rule + "\n" + Terminated(body, "\n") + footer;
  }

  /** Write the table line by line. */
  method Display(rows: Rows, f: Formatter)
    requires Displayable(rows)
    modifies f
    ensures f.text == old(f.text) + TableText(rows)
  {
    if rows.columns == [] {
      f.Write("(" + Numeral(|rows.rows|) + " rows)");
      return;
    }
    var cells := Cells(rows);
    var names := Names(rows.columns);
    var rights := Alignments(rows.columns);
    var widths := Widths(names, cells);
    var header := TrimEnd(Line(names, widths, LeftAligned(|names|)));
    var rule := Rule(widths);
    f.Write(header + "\n");
    f.Write(rule + "\n");
    WriteBody(cells, widths, rights, f);
    f.Write(Footer(|cells|));
    TableConcat(header, rule, Body(cells, widths, rights), Footer(|cells|));
    Appended(old(f.text), header, rule, Terminated(Body(cells, widths, rights), "\n"), Footer(|cells|));
  }

  lemma Appended(before: string, header: string, rule: string, body: string, footer: string)
    ensures before + (header + "\n") + (rule + "\n") + body + footer ==
            before + (header + "\n" + rule + "\n" + body + footer)
  {
  }
}
