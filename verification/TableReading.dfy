/** The layout of a printed table, and a reader that undoes the printer. */
module TableReading {
  import opened Wrappers
  import opened Text
  import opened Digits
  import opened Values
  import opened Tables

  // ----- Layout -----

  /** Where field `i` begins on every line. */
  function Offset(widths: seq<nat>, i: nat): nat
    requires i < |widths|
  {
    if i == 0 then 0 else widths[0] + 3 + Offset(widths[1..], i - 1)
  }

  /** Length of an untrimmed line: each width plus two, and a separator between. */
  function Total(widths: seq<nat>): nat
    requires widths != []
  {
    if |widths| == 1 then widths[0] + 2 else widths[0] + 3 + Total(widths[1..])
  }

  predicate Fitted(fields: seq<string>, widths: seq<nat>) {
    |fields| == |widths| && forall i | 0 <= i < |fields| :: |fields[i]| == widths[i] + 2
  }

  lemma FittedRest(fields: seq<string>, widths: seq<nat>)
    requires Fitted(fields, widths) && fields != []
    ensures |fields| == |widths| && |fields[0]| == widths[0] + 2 && Fitted(fields[1..], widths[1..])
  {
  }

  lemma SliceBehind(head: string, rest: string, at: nat, n: nat)
    requires at + n <= |rest|
    ensures (head + rest)[|head| + at..|head| + at + n] == rest[at..at + n]
    ensures at > 0 ==> (head + rest)[|head| + at - 1] == rest[at - 1]
  {
  }

  /** Joined fields lie at their offsets, and the separators directly before them. */
  lemma {:induction false} Layout(fields: seq<string>, widths: seq<nat>, separator: char, i: nat)
    requires Fitted(fields, widths) && i < |fields|
    ensures var line, at := Join(fields, [separator]), Offset(widths, i);
            |line| == Total(widths) && at + widths[i] + 2 <= |line| &&
            line[at..at + widths[i] + 2] == fields[i] &&
            (i > 0 ==> at > 0 && line[at - 1] == separator) &&
            (i == |fields| - 1 ==> at + widths[i] + 2 == |line|)
    decreases |fields|
  {
    hide Fitted;
    var line := Join(fields, [separator]);
    FittedRest(fields, widths);
    if |fields| > 1 {
      var rest := Join(fields[1..], [separator]);
      assert line == fields[0] + [separator] + rest;
      Layout(fields[1..], widths[1..], separator, if i == 0 then 0 else i - 1);
      if i > 0 {
        SliceBehind(fields[0] + [separator], rest, Offset(widths[1..], i - 1), widths[i] + 2);
      }
    }
  }

  /** Trimming a line keeps all of its separators. */
  lemma TrimKeepsSeparators(fields: seq<string>, widths: seq<nat>, i: nat)
    requires Fitted(fields, widths) && 0 < i < |fields|
    ensures var line := Join(fields, "|");
            Offset(widths, i) <= |TrimEnd(line)| <= |line| && Offset(widths, i) > 0 &&
            TrimEnd(line)[Offset(widths, i) - 1] == '|'
  {
    Layout(fields, widths, '|', i);
    TrimEndIsPrefix(Join(fields, "|"));
  }

  /** A width is the least that holds the column name and every cell. */
  lemma {:induction false} WidestIsTight(cells: seq<seq<string>>, i: nat)
    ensures forall r | 0 <= r < |cells| && i < |cells[r]| :: |cells[r][i]| <= Widest(cells, i)
    ensures Widest(cells, i) == 0 || exists r :: 0 <= r < |cells| && i < |cells[r]| && |cells[r][i]| == Widest(cells, i)
  {
    if cells != [] {
      WidestIsTight(cells[1..], i);
      forall r | 0 <= r < |cells| && i < |cells[r]| ensures |cells[r][i]| <= Widest(cells, i) {
        if r > 0 {
          assert cells[r] == cells[1..][r - 1];
        }
      }
      if Widest(cells, i) == Widest(cells[1..], i) > 0 {
        var r :| 0 <= r < |cells[1..]| && i < |cells[1..][r]| && |cells[1..][r][i]| == Widest(cells[1..], i);
        assert cells[r + 1] == cells[1..][r];
      } else if Widest(cells, i) > 0 {
        assert |cells[0][i]| == Widest(cells, i);
      }
    }
  }

  lemma WidthsAreTight(names: seq<string>, cells: seq<seq<string>>, i: nat)
    requires i < |names|
    ensures var w := Widths(names, cells)[i];
            |names[i]| <= w && (forall r | 0 <= r < |cells| && i < |cells[r]| :: |cells[r][i]| <= w) &&
            (w == |names[i]| || exists r :: 0 <= r < |cells| && i < |cells[r]| && |cells[r][i]| == w)
  {
    WidestIsTight(cells, i);
  }

  lemma FieldsFit(cells: seq<string>, widths: seq<nat>, rights: seq<bool>)
    requires |cells| == |widths| == |rights| && forall i | 0 <= i < |cells| :: |cells[i]| <= widths[i]
    ensures Fitted(Fields(cells, widths, rights), widths)
  {
  }

  // ----- Reading -----

  function DropSpaces(s: string): string {
    if s != [] && s[0] == ' ' then DropSpaces(s[1..]) else s
  }

  function CutSpaces(s: string): string {
    if s != [] && s[|s| - 1] == ' ' then CutSpaces(s[..|s| - 1]) else s
  }

  function Strip(s: string, right: bool): string {
    if right then DropSpaces(s) else CutSpaces(s)
  }

  lemma {:induction false} CutSpacesOf(s: string, k: nat)
    ensures CutSpaces(s + Repeat(' ', k)) == CutSpaces(s)
  {
    var padded := s + Repeat(' ', k);
    if k == 0 {
      assert padded == s;
    } else {
      assert padded[..|padded| - 1] == s + Repeat(' ', k - 1);
      CutSpacesOf(s, k - 1);
    }
  }

  lemma {:induction false} DropSpacesOf(k: nat, s: string)
    ensures DropSpaces(Repeat(' ', k) + s) == DropSpaces(s)
  {
    var padded := Repeat(' ', k) + s;
    if k == 0 {
      assert padded == s;
    } else {
      assert padded[1..] == Repeat(' ', k - 1) + s;
      DropSpacesOf(k - 1, s);
    }
  }

  lemma {:induction false} StripLength(s: string)
    ensures |CutSpaces(s)| <= |s| && |DropSpaces(s)| <= |s|
  {
    if s != [] {
      StripLength(s[1..]);
      StripLength(s[..|s| - 1]);
    }
  }

  /** Neither end of the padding side is a space. */
  predicate EdgeKept(cell: string, right: bool) {
    cell != [] ==> cell[if right then 0 else |cell| - 1] != ' '
  }

  /** Stripping what was printed in place of a cell of the same length gives the cell
      back exactly when it is the cell and has no space of its own on the padded side. */
  lemma PaddingUndone(shown: string, cell: string, width: nat, right: bool)
    requires |shown| == |cell|
    ensures Strip(Pad(shown, width, right), right) == cell <==> shown == cell && EdgeKept(cell, right)
  {
    var k := if |shown| < width then width - |shown| else 0;
    CutSpacesOf(shown, k);
    DropSpacesOf(k, shown);
    if shown != [] {
      StripLength(shown[1..]);
      StripLength(shown[..|shown| - 1]);
    }
  }

  /** Spaces out to the full length of a line. */
  function Restore(line: string, total: nat): string {
    line + Repeat(' ', if |line| < total then total - |line| else 0)
  }

  /** The cells of a line, cut at the offsets the widths give. */
  function ReadLine(line: string, widths: seq<nat>, rights: seq<bool>): seq<string>
    requires widths != [] && |widths| == |rights|
  {
    var full := Restore(line, Total(widths));
    seq(|widths|, i requires 0 <= i < |widths| =>
      var at := Offset(widths, i) + 1;
      if at + widths[i] <= |full| then Strip(full[at..at + widths[i]], rights[i]) else "")
  }

  /** The widths, from the runs of dashes in a rule. */
  function ReadRule(rule: string): (widths: seq<nat>)
    ensures widths != []
  {
    var runs := Split(rule, '+');
    seq(|runs|, i requires 0 <= i < |runs| => if |runs[i]| >= 2 then |runs[i]| - 2 else 0)
  }

  lemma RuleReadsBack(widths: seq<nat>)
    requires widths != []
    ensures ReadRule(Rule(widths)) == widths
  {
    SplitUndoesJoin(Dashes(widths), '+');
  }

  // ----- What trimming takes -----

  /** A cell at the end of a line as it can still be told once the line is trimmed: the
      white space at its end is gone, and reads as spaces. */
  function Blanked(cell: string): (shown: string)
    ensures |shown| == |cell|
  {
    TrimEndIsPrefix(cell);
    TrimEnd(cell) + Repeat(' ', |cell| - |TrimEnd(cell)|)
  }

  predicate TrimsOnlySpaces(cell: string) {
    forall k | |TrimEnd(cell)| <= k < |cell| :: cell[k] == ' '
  }

  lemma BlankedKeeps(cell: string)
    ensures Blanked(cell) == cell <==> TrimsOnlySpaces(cell)
  {
    var n := |TrimEnd(cell)|;
    TrimEndIsPrefix(cell);
    if TrimsOnlySpaces(cell) {
      assert cell == cell[..n] + cell[n..];
    } else {
      assert forall k | n <= k < |cell| :: Blanked(cell)[k] == ' ';
    }
  }

  /** Where the last ink of a field is; behind it the field is white, and blank in the
      blanked field, which is the same up to there. */
  lemma FieldInk(cell: string, width: nat, right: bool) returns (ink: nat)
    requires |cell| <= width
    ensures var field, shown := Field(cell, width, right), Field(Blanked(cell), width, right);
            ink <= |field| == |shown| == width + 2 &&
            (forall j | ink <= j < |field| :: IsWhitespace(field[j]) && shown[j] == ' ') &&
            (forall j | 0 <= j < ink :: shown[j] == field[j]) &&
            (ink > 0 ==> !IsWhitespace(field[ink - 1]))
  {
    var start := 1 + if right then width - |cell| else 0;
    var kept := |TrimEnd(cell)|;
    FieldSpaces(cell, width, right);
    FieldSpaces(Blanked(cell), width, right);
    BlankedAt(cell);
    ink := if kept == 0 then 0 else start + kept;
    hide TrimEnd, Blanked, Field, IsWhitespace, Repeat;
    SpacesAround(cell, Blanked(cell), start, width + 2 - start - |cell|, kept);
  }

  /** The same between spaces: a text and its blanked form, and the last ink of it. */
  lemma SpacesAround(cell: string, blanked: string, before: nat, after: nat, kept: nat)
    requires kept <= |cell| == |blanked| && (kept > 0 ==> !IsWhitespace(cell[kept - 1]))
    requires forall k | 0 <= k < kept :: blanked[k] == cell[k]
    requires forall k | kept <= k < |cell| :: IsWhitespace(cell[k]) && blanked[k] == ' '
    ensures var field := Repeat(' ', before) + cell + Repeat(' ', after);
            var shown := Repeat(' ', before) + blanked + Repeat(' ', after);
            var ink := if kept == 0 then 0 else before + kept;
            (forall j | ink <= j < |field| :: IsWhitespace(field[j]) && shown[j] == ' ') &&
            (forall j | 0 <= j < ink :: shown[j] == field[j]) &&
            (ink > 0 ==> !IsWhitespace(field[ink - 1]))
  {
    SpaceIsWhite();
    hide IsWhitespace;
  }

  lemma SpaceIsWhite()
    ensures IsWhitespace(' ')
  {
  }

  /** A field is spaces, the cell, and spaces. */
  lemma FieldSpaces(cell: string, width: nat, right: bool)
    requires |cell| <= width
    ensures var start := 1 + if right then width - |cell| else 0;
            Field(cell, width, right) == Repeat(' ', start) + cell + Repeat(' ', width + 2 - start - |cell|)
  {
    if right {
      assert " " + Repeat(' ', width - |cell|) == Repeat(' ', 1 + width - |cell|);
    } else {
      assert Repeat(' ', width - |cell|) + " " == Repeat(' ', 1 + width - |cell|);
    }
  }

  lemma BlankedAt(cell: string)
    ensures var kept := |TrimEnd(cell)|;
            kept <= |cell| && (kept > 0 ==> !IsWhitespace(cell[kept - 1])) &&
            (forall k | 0 <= k < kept :: Blanked(cell)[k] == cell[k]) &&
            forall k | kept <= k < |cell| :: IsWhitespace(cell[k]) && Blanked(cell)[k] == ' '
  {
    TrimEndIsPrefix(cell);
  }

  /** The last field ends the line, and trimming cannot reach past it. */
  lemma TailOfLine(fields: seq<string>, widths: seq<nat>)
    requires fields != [] && Fitted(fields, widths)
    ensures var line, n := Join(fields, "|"), |fields| - 1;
            var at := Offset(widths, n);
            |line| == Total(widths) && at <= |TrimEnd(line)| <= |line| &&
            TrimEnd(line) == line[..|TrimEnd(line)|] && line[at..] == fields[n] &&
            forall k | |TrimEnd(line)| <= k < |line| :: IsWhitespace(line[k])
  {
    var line, n := Join(fields, "|"), |fields| - 1;
    Layout(fields, widths, '|', n);
    TrimEndIsPrefix(line);
    if n > 0 {
      TrimKeepsSeparators(fields, widths, n);
    }
  }

  predicate Fits(cells: seq<string>, widths: seq<nat>, rights: seq<bool>) {
    cells != [] && |cells| == |widths| == |rights| && forall i | 0 <= i < |cells| :: |cells[i]| <= widths[i]
  }

  /** The cells as a trimmed line still shows them. */
  function Shown(cells: seq<string>): seq<string>
    requires cells != []
  {
    cells[|cells| - 1 := Blanked(cells[|cells| - 1])]
  }

  /** A line is its leading fields with their separators, then its last field. */
  lemma LineEnds(cells: seq<string>, widths: seq<nat>, rights: seq<bool>)
    requires Fits(cells, widths, rights)
    ensures var n := |cells| - 1;
            var lead := Terminated(Fields(cells[..n], widths, rights), "|");
            Line(cells, widths, rights) == lead + Field(cells[n], widths[n], rights[n]) &&
            |lead| == Offset(widths, n)
  {
    hide Offset, Total, Field;
    var n := |cells| - 1;
    var fields, init := Fields(cells, widths, rights), Fields(cells[..n], widths, rights);
    assert fields == init + [fields[n]];
    JoinLast(init, fields[n], "|");
    FieldsFit(cells, widths, rights);
    Layout(fields, widths, '|', n);
  }

  /** Spaced out again, a trimmed line is the line of the shown cells. */
  lemma RestoreShows(cells: seq<string>, widths: seq<nat>, rights: seq<bool>)
    requires Fits(cells, widths, rights)
    ensures Restore(TrimEnd(Line(cells, widths, rights)), Total(widths)) == Line(Shown(cells), widths, rights)
  {
    hide TrimEnd, Join, Offset, Total, Field, Line, Terminated, Blanked, IsWhitespace;
    var n := |cells| - 1;
    var line, shown := Line(cells, widths, rights), Line(Shown(cells), widths, rights);
    assert Fits(Shown(cells), widths, rights) && Shown(cells)[..n] == cells[..n];
    LineEnds(cells, widths, rights);
    LineEnds(Shown(cells), widths, rights);
    LineLength(cells, widths, rights);
    var ink := FieldInk(cells[n], widths[n], rights[n]);
    BlankTail(line, shown, Offset(widths, n), ink);
  }

  lemma LineLength(cells: seq<string>, widths: seq<nat>, rights: seq<bool>)
    requires Fits(cells, widths, rights)
    ensures var line := Line(cells, widths, rights);
            |line| == Total(widths) && Offset(widths, |cells| - 1) <= |TrimEnd(line)|
  {
    hide TrimEnd, Join, Offset, Total, Field;
    FieldsFit(cells, widths, rights);
    TailOfLine(Fields(cells, widths, rights), widths);
  }

  /** Two lines that agree up to the last ink of one and are blank behind it in the other. */
  lemma BlankTail(line: string, shown: string, at: nat, ink: nat)
    requires |line| == |shown| && at + ink <= |line| && at <= |TrimEnd(line)|
    requires line[..at] == shown[..at]
    requires forall j | ink <= j < |line| - at :: IsWhitespace(line[at..][j]) && shown[at..][j] == ' '
    requires forall j | 0 <= j < ink :: shown[at..][j] == line[at..][j]
    requires ink > 0 ==> !IsWhitespace(line[at..][ink - 1])
    ensures |TrimEnd(line)| <= |line| && TrimEnd(line) + Repeat(' ', |line| - |TrimEnd(line)|) == shown
  {
    hide IsWhitespace;
    var kept := |TrimEnd(line)|;
    TrimEndIsPrefix(line);
    hide TrimEnd;
    assert forall k | at <= k < |line| :: line[k] == line[at..][k - at] && shown[k] == shown[at..][k - at];
    assert forall k | 0 <= k < at :: line[k] == line[..at][k] && shown[k] == shown[..at][k];
    assert kept == at + ink;
  }

  lemma InnerSlice(s: string, at: nat, w: nat)
    requires at + w + 2 <= |s|
    ensures s[at + 1..at + 1 + w] == s[at..at + w + 2][1..w + 1]
  {
    var inner, whole := s[at + 1..at + 1 + w], s[at..at + w + 2];
    assert inner == whole[1..w + 1] by {
      assert forall k | 0 <= k < w :: inner[k] == whole[k + 1];
    }
  }

  /** The slice of a line between two separators, less its margins. */
  lemma CellSlice(cells: seq<string>, widths: seq<nat>, rights: seq<bool>, i: nat)
    requires Fits(cells, widths, rights) && i < |cells|
    ensures var line, at := Line(cells, widths, rights), Offset(widths, i) + 1;
            at + widths[i] <= |line| && line[at..at + widths[i]] == Pad(cells[i], widths[i], rights[i])
  {
    hide Join, Offset, Total, Pad;
    var fields := Fields(cells, widths, rights);
    var line, at, w := Line(cells, widths, rights), Offset(widths, i), widths[i];
    FieldsFit(cells, widths, rights);
    Layout(fields, widths, '|', i);
    var padded := Pad(cells[i], w, rights[i]);
    InnerSlice(line, at, w);
    assert (" " + padded + " ")[1..w + 1] == padded;
  }

  /** What a cell needs to be told from its surroundings: no space of its own on the side
      that is padded and, at the end of a line, no other white space to be trimmed. */
  predicate Recoverable(cell: string, right: bool, last: bool) {
    EdgeKept(cell, right) && (last ==> TrimsOnlySpaces(cell))
  }

  /** A cell is recovered from its column range of a trimmed line exactly when it is
      recoverable, whatever its neighbours hold. */
  lemma CellReadsBack(cells: seq<string>, widths: seq<nat>, rights: seq<bool>, i: nat)
    requires Fits(cells, widths, rights) && i < |cells|
    ensures ReadLine(TrimEnd(Line(cells, widths, rights)), widths, rights)[i] == cells[i] <==>
            Recoverable(cells[i], rights[i], i == |cells| - 1)
  {
    hide TrimEnd, Line, Offset, Total, Strip, Restore, Blanked, Pad, TrimsOnlySpaces, EdgeKept;
    var shown := Shown(cells);
    RestoreShows(cells, widths, rights);
    CellSlice(shown, widths, rights, i);
    PaddingUndone(shown[i], cells[i], widths[i], rights[i]);
    BlankedKeeps(cells[i]);
  }

  predicate RowRecoverable(cells: seq<string>, rights: seq<bool>)
    requires |cells| == |rights|
  {
    forall i | 0 <= i < |cells| :: Recoverable(cells[i], rights[i], i == |cells| - 1)
  }

  lemma LineReadsBack(cells: seq<string>, widths: seq<nat>, rights: seq<bool>)
    requires Fits(cells, widths, rights)
    ensures ReadLine(TrimEnd(Line(cells, widths, rights)), widths, rights) == cells <==> RowRecoverable(cells, rights)
  {
    hide TrimEnd, Line, ReadLine, Recoverable;
    ReadLineLength(TrimEnd(Line(cells, widths, rights)), widths, rights);
    forall i | 0 <= i < |cells|
      ensures ReadLine(TrimEnd(Line(cells, widths, rights)), widths, rights)[i] == cells[i] <==>
              Recoverable(cells[i], rights[i], i == |cells| - 1)
    {
      CellReadsBack(cells, widths, rights, i);
    }
  }

  lemma ReadLineLength(line: string, widths: seq<nat>, rights: seq<bool>)
    requires widths != [] && |widths| == |rights|
    ensures |ReadLine(line, widths, rights)| == |widths|
  {
  }

  // ----- The whole table -----

  /** Read a printed table: column names and cells, given how columns are aligned. */
  function ReadTable(text: string, rights: seq<bool>): Option<(seq<string>, seq<seq<string>>)> {
    ReadLines(Split(text, '\n'), rights)
  }

  function ReadLines(lines: seq<string>, rights: seq<bool>): Option<(seq<string>, seq<seq<string>>)> {
    if |lines| < 3 then None
    else
      var widths := ReadRule(lines[1]);
      if |widths| != |rights| then None
      else
        Some((ReadLine(lines[0], widths, LeftAligned(|widths|)),
              seq(|lines| - 3, r requires 0 <= r < |lines| - 3 => ReadLine(lines[r + 2], widths, rights))))
  }

  predicate NoBreaks(cells: seq<string>) {
    forall i | 0 <= i < |cells| :: '\n' !in cells[i]
  }

  lemma {:induction false} JoinHolds(parts: seq<string>, separator: char, c: char)
    requires c != separator
    ensures c in Join(parts, [separator]) <==> exists i :: 0 <= i < |parts| && c in parts[i]
  {
    if |parts| == 1 {
      assert parts == [parts[0]];
    } else if |parts| > 1 {
      JoinHolds(parts[1..], separator, c);
      assert forall i | 1 <= i < |parts| :: parts[i] == parts[1..][i - 1];
    }
  }

  lemma LineHoldsBreaks(cells: seq<string>, widths: seq<nat>, rights: seq<bool>)
    requires |cells| <= |widths| && |cells| <= |rights|
    ensures '\n' in Line(cells, widths, rights) <==> !NoBreaks(cells)
  {
    hide Field;
    var fields := Fields(cells, widths, rights);
    JoinHolds(fields, '|', '\n');
    forall i | 0 <= i < |cells| ensures '\n' in fields[i] <==> '\n' in cells[i] {
      FieldHoldsBreaks(cells[i], widths[i], rights[i]);
    }
  }

  lemma FieldHoldsBreaks(cell: string, width: nat, right: bool)
    ensures '\n' in Field(cell, width, right) <==> '\n' in cell
  {
  }

  /** A trimmed line without line breaks comes from cells without, once nothing but spaces
      was trimmed; and never the other way round. */
  lemma TrimmedBreaks(cells: seq<string>, widths: seq<nat>, rights: seq<bool>)
    requires |cells| <= |widths| && |cells| <= |rights|
    ensures NoBreaks(cells) ==> '\n' !in TrimEnd(Line(cells, widths, rights))
    ensures Fits(cells, widths, rights) && RowRecoverable(cells, rights) && !NoBreaks(cells) ==>
              '\n' in TrimEnd(Line(cells, widths, rights))
  {
    hide Line, NoBreaks, EdgeKept, TrimEnd;
    var line := Line(cells, widths, rights);
    LineHoldsBreaks(cells, widths, rights);
    TrimEndIsPrefix(line);
    if Fits(cells, widths, rights) && RowRecoverable(cells, rights) {
      var n := |cells| - 1;
      assert Recoverable(cells[n], rights[n], true);
      BlankedKeeps(cells[n]);
      RestoreShows(cells, widths, rights);
      assert Shown(cells) == cells;
    }
  }

  lemma {:induction false} OffsetInFront(widths: seq<nat>, n: nat, i: nat)
    requires i < n <= |widths|
    ensures Offset(widths[..n], i) == Offset(widths, i)
  {
    if i > 0 {
      assert widths[..n][1..] == widths[1..][..n - 1];
      OffsetInFront(widths[1..], n - 1, i - 1);
    }
  }

  /** A row's own separators, also those of a row that ends early, stand where its columns
      meet. */
  lemma LineKeepsSeparators(cells: seq<string>, widths: seq<nat>, rights: seq<bool>, i: nat)
    requires |cells| <= |widths| == |rights| && 0 < i < |cells|
    requires forall k | 0 <= k < |cells| :: |cells[k]| <= widths[k]
    ensures var line, at := TrimEnd(Line(cells, widths, rights)), Offset(widths, i) - 1;
            0 <= at < |line| && line[at] == '|'
  {
    hide Offset, TrimEnd, Join, Field;
    var n := |cells|;
    assert Fields(cells, widths, rights) == Fields(cells, widths[..n], rights[..n]);
    OffsetInFront(widths, n, i);
    FieldsFit(cells, widths[..n], rights[..n]);
    TrimKeepsSeparators(Fields(cells, widths, rights), widths[..n], i);
  }

  /** Whatever the cells hold, the separators of the printed header and of every row that
      reaches there stand where the rule has its `+`, in a table without rows too. */
  lemma SeparatorsAlign(rows: Rows, i: nat)
    requires Displayable(rows) && 0 < i < |rows.columns|
    ensures var lines := TableLines(rows);
            var at := Offset(Widths(Names(rows.columns), Cells(rows)), i) - 1;
            |lines| == |rows.rows| + 3 && 0 <= at < |lines[0]| && at < |lines[1]| &&
            lines[0][at] == '|' && lines[1][at] == '+' &&
            forall r | 0 <= r < |rows.rows| && i < |rows.rows[r]| :: at < |lines[r + 2]| && lines[r + 2][at] == '|'
  {
    hide ToString, Widths, TrimEnd, Offset, Total, Line, Field;
    var names, cells, rights := Names(rows.columns), Cells(rows), Alignments(rows.columns);
    var widths := Widths(names, cells);
    forall k | 0 <= k < |widths|
      ensures |names[k]| <= widths[k] && forall r | 0 <= r < |cells| && k < |cells[r]| :: |cells[r][k]| <= widths[k]
    {
      WidthsAreTight(names, cells, k);
    }
    LineKeepsSeparators(names, widths, LeftAligned(|names|), i);
    Layout(Dashes(widths), widths, '+', i);
    forall r | 0 <= r < |rows.rows| && i < |rows.rows[r]|
      ensures var at := Offset(widths, i) - 1;
              0 <= at < |TableLines(rows)[r + 2]| && TableLines(rows)[r + 2][at] == '|'
    {
      LineKeepsSeparators(cells[r], widths, rights, i);
      assert TableLines(rows)[r + 2] == Body(cells, widths, rights)[r];
    }
  }

  lemma {:induction false} OffsetNext(widths: seq<nat>, i: nat)
    requires i + 1 < |widths|
    ensures Offset(widths, i + 1) == Offset(widths, i) + widths[i] + 3
  {
    if i > 0 {
      OffsetNext(widths[1..], i - 1);
    }
  }

  /** Where a cell with ink at its end stands in the trimmed line: at the end of its column
      if that is aligned to the right, and otherwise at the beginning. */
  lemma CellStands(cells: seq<string>, widths: seq<nat>, rights: seq<bool>, i: nat)
    requires Fits(cells, widths, rights) && i < |cells|
    requires cells[i] != [] && (i == |cells| - 1 ==> !IsWhitespace(cells[i][|cells[i]| - 1]))
    ensures var line, n := TrimEnd(Line(cells, widths, rights)), |cells[i]|;
            var at := Offset(widths, i) + 1 + if rights[i] then widths[i] - n else 0;
            at + n <= |line| && line[at..at + n] == cells[i]
  {
    hide Offset, TrimEnd, Join, Field, Total;
    var fields, line, n := Fields(cells, widths, rights), Line(cells, widths, rights), |cells[i]|;
    var from := Offset(widths, i);
    var inner := 1 + if rights[i] then widths[i] - n else 0;
    FieldsFit(cells, widths, rights);
    Layout(fields, widths, '|', i);
    FieldHolds(cells[i], widths[i], rights[i]);
    assert line[from..from + widths[i] + 2] == fields[i];
    SliceOfSlice(line, from, widths[i] + 2, inner, n);
    TrimEndIsPrefix(line);
    if i < |cells| - 1 {
      OffsetNext(widths, i);
      TrimKeepsSeparators(fields, widths, i + 1);
    } else {
      assert line[from + inner..from + inner + n][n - 1] == line[from + inner + n - 1];
    }
  }

  lemma FieldHolds(cell: string, width: nat, right: bool)
    requires |cell| <= width
    ensures var inner := 1 + if right then width - |cell| else 0;
            |Field(cell, width, right)| == width + 2 && Field(cell, width, right)[inner..inner + |cell|] == cell
  {
  }

  lemma SliceOfSlice(s: string, from: nat, length: nat, inner: nat, n: nat)
    requires from + length <= |s| && inner + n <= length
    ensures s[from..from + length][inner..inner + n] == s[from + inner..from + inner + n]
  {
    var inside := s[from..from + length];
    assert |inside| == length && forall k | 0 <= k < length :: inside[k] == s[from + k];
    var a, b := inside[inner..inner + n], s[from + inner..from + inner + n];
    forall k | 0 <= k < n ensures a[k] == b[k] {
      assert inside[inner + k] == s[from + (inner + k)];
    }
  }

  /** Numbers end where their column ends; everything else begins where its column does. */
  lemma NumbersStandRight(rows: Rows, r: nat, i: nat)
    requires Displayable(rows) && r < |rows.rows| && i < |rows.columns| == |rows.rows[r]|
    requires var cell := ToString(rows.rows[r][i]);
             cell != [] && (i == |rows.columns| - 1 ==> !IsWhitespace(cell[|cell| - 1]))
    ensures var line, cell := TableLines(rows)[r + 2], ToString(rows.rows[r][i]);
            var widths := Widths(Names(rows.columns), Cells(rows));
            var dtype := rows.columns[i].dtype;
            var gap := if dtype in {BigInt, Int, SmallInt} || dtype.Decimal? then widths[i] - |cell| else 0;
            var at := Offset(widths, i) + 1 + gap;
            |cell| <= widths[i] && at + |cell| <= |line| && line[at..at + |cell|] == cell
  {
    hide ToString, Widths, TrimEnd, Offset, Line;
    var names, cells, rights := Names(rows.columns), Cells(rows), Alignments(rows.columns);
    var widths := Widths(names, cells);
    CellsFit(names, cells, rights, r);
    CellStands(cells[r], widths, rights, i);
    assert TableLines(rows)[r + 2] == Body(cells, widths, rights)[r];
  }

  /** The text ends with the number of rows, which only one row is not in the plural of,
      and only if there are columns. */
  lemma CountLineReads(rows: Rows) returns (head: string, digits: string)
    requires Displayable(rows)
    ensures TableText(rows) ==
            head + "(" + digits + if |rows.rows| == 1 && rows.columns != [] then " row)" else " rows)"
    ensures IsNumeral(digits) && Number(digits) == |rows.rows|
    ensures head == [] || head[|head| - 1] == '\n'
  {
    hide Numeral, Number, Widths, Line, TrimEnd, Rule;
    digits := Numeral(|rows.rows|);
    NumeralReads(|rows.rows|);
    if rows.columns == [] {
      head := [];
    } else {
      var lines := TableLines(rows);
      var front := lines[..|lines| - 1];
      var footer := Footer(|rows.rows|);
      assert lines == front + [footer];
      JoinLast(front, footer, "\n");
      head := Terminated(front, "\n");
      TerminatedEnds(front, "\n");
      CountEnds(head, digits, |rows.rows| == 1);
    }
  }

  lemma CountEnds(head: string, digits: string, one: bool)
    ensures head + ("(" + digits + " row" + (if one then "" else "s") + ")") ==
            head + "(" + digits + if one then " row)" else " rows)"
  {
    assert " row" + "" + ")" == " row)" && " row" + "s" + ")" == " rows)";
  }

  lemma {:induction false} TerminatedEnds(lines: seq<string>, mark: string)
    requires |mark| == 1
    ensures var text := Terminated(lines, mark); text == [] || text[|text| - 1] == mark[0]
  {
    if lines != [] {
      TerminatedEnds(lines[1..], mark);
    }
  }

  /** The names and cells of a table that its text gives back: rows as wide as the
      schema, every cell recoverable where it stands, and no line breaks. */
  predicate Recovers(names: seq<string>, cells: seq<seq<string>>, rights: seq<bool>)
    requires |names| == |rights|
  {
    RowRecoverable(names, LeftAligned(|names|)) && NoBreaks(names) &&
    forall r | 0 <= r < |cells| ::
      |cells[r]| == |rights| && RowRecoverable(cells[r], rights) && NoBreaks(cells[r])
  }

  /** Only character data can be lost: everything else prints as recoverable text. */
  lemma OnlyTextIsLost(v: Value, right: bool, last: bool)
    requires Printable(v) && !IsTextual(v)
    ensures Recoverable(ToString(v), right, last) && '\n' !in ToString(v)
  {
    hide ToString, TrimEnd;
    OnlyTextPrintsWhitespace(v);
    TrimEndIsPrefix(ToString(v));
  }

  // ----- Lines of a table -----

  ghost predicate Table(names: seq<string>, cells: seq<seq<string>>, rights: seq<bool>) {
    names != [] && |names| == |rights| && forall r | 0 <= r < |cells| :: |cells[r]| <= |names|
  }

  lemma NamesFit(names: seq<string>, cells: seq<seq<string>>, rights: seq<bool>)
    requires Table(names, cells, rights)
    ensures Fits(names, Widths(names, cells), LeftAligned(|names|))
  {
    hide Widths;
    forall i | 0 <= i < |names| ensures |names[i]| <= Widths(names, cells)[i] {
      WidthsAreTight(names, cells, i);
    }
  }

  lemma CellsFit(names: seq<string>, cells: seq<seq<string>>, rights: seq<bool>, r: nat)
    requires Table(names, cells, rights) && r < |cells| && |cells[r]| == |names|
    ensures Fits(cells[r], Widths(names, cells), rights)
  {
    hide Widths;
    forall i | 0 <= i < |names| ensures |cells[r][i]| <= Widths(names, cells)[i] {
      WidthsAreTight(names, cells, i);
    }
  }

  function Header(names: seq<string>, widths: seq<nat>): string
    requires |names| == |widths|
  {
    TrimEnd(Line(names, widths, LeftAligned(|names|)))
  }

  /** The lines between the header and the count, all of them without breaks exactly when
      no row prints one. */
  ghost predicate Unbroken(names: seq<string>, cells: seq<seq<string>>, rights: seq<bool>)
    requires Table(names, cells, rights)
  {
    var widths := Widths(names, cells);
    '\n' !in Header(names, widths) &&
    forall r | 0 <= r < |cells| :: '\n' !in Body(cells, widths, rights)[r]
  }

  lemma RecoversUnbroken(names: seq<string>, cells: seq<seq<string>>, rights: seq<bool>)
    requires Table(names, cells, rights) && Recovers(names, cells, rights)
    ensures Unbroken(names, cells, rights)
  {
    hide Widths, TrimEnd, Line, RowRecoverable;
    var widths := Widths(names, cells);
    TrimmedBreaks(names, widths, LeftAligned(|names|));
    forall r | 0 <= r < |cells| ensures '\n' !in Body(cells, widths, rights)[r] {
      TrimmedBreaks(cells[r], widths, rights);
    }
  }

  /** What unbroken lines read as, row by row. */
  lemma UnbrokenReads(names: seq<string>, cells: seq<seq<string>>, rights: seq<bool>)
    requires Table(names, cells, rights) && Unbroken(names, cells, rights)
    ensures var widths := Widths(names, cells);
            Recovers(names, cells, rights) <==>
            ReadLine(Header(names, widths), widths, LeftAligned(|names|)) == names &&
            forall r | 0 <= r < |cells| :: ReadLine(Body(cells, widths, rights)[r], widths, rights) == cells[r]
  {
    hide Widths, TrimEnd, Line, RowRecoverable, ReadLine, NoBreaks;
    var widths := Widths(names, cells);
    NamesFit(names, cells, rights);
    LineReadsBack(names, widths, LeftAligned(|names|));
    TrimmedBreaks(names, widths, LeftAligned(|names|));
    forall r | 0 <= r < |cells|
      ensures ReadLine(Body(cells, widths, rights)[r], widths, rights) == cells[r] <==>
              |cells[r]| == |rights| && RowRecoverable(cells[r], rights) && NoBreaks(cells[r])
    {
      ReadLineLength(Body(cells, widths, rights)[r], widths, rights);
      if |cells[r]| == |rights| {
        CellsFit(names, cells, rights, r);
        LineReadsBack(cells[r], widths, rights);
        TrimmedBreaks(cells[r], widths, rights);
      }
    }
  }

  lemma RuleLacksBreaks(widths: seq<nat>)
    ensures '\n' !in Rule(widths)
  {
    JoinHolds(Dashes(widths), '+', '\n');
  }

  lemma FooterLacksBreaks(n: nat)
    ensures '\n' !in Footer(n)
  {
    assert forall c | c in Numeral(n) :: IsDigit(c);
  }

  lemma AssembledReads(header: string, body: seq<string>, footer: string, widths: seq<nat>, rights: seq<bool>)
    requires widths != [] && |widths| == |rights|
    ensures var read := ReadLines([header, Rule(widths)] + body + [footer], rights);
            read.Some? && read.value.0 == ReadLine(header, widths, LeftAligned(|widths|)) &&
            |read.value.1| == |body| &&
            forall r | 0 <= r < |body| :: read.value.1[r] == ReadLine(body[r], widths, rights)
  {
    hide ReadRule, ReadLine, Rule;
    var lines := [header, Rule(widths)] + body + [footer];
    RuleReadsBack(widths);
    assert forall r | 0 <= r < |body| :: lines[r + 2] == body[r];
  }

  lemma LinesUnbroken(header: string, rule: string, body: seq<string>, footer: string)
    requires '\n' !in rule && '\n' !in footer
    ensures (forall line | line in [header, rule] + body + [footer] :: '\n' !in line) <==>
            '\n' !in header && forall r | 0 <= r < |body| :: '\n' !in body[r]
  {
    var lines := [header, rule] + body + [footer];
    assert lines[0] == header && forall r | 0 <= r < |body| :: lines[r + 2] == body[r];
    forall line | line in lines && '\n' in line ensures line == header || line in body {
    }
    assert header in lines;
    forall r | 0 <= r < |body| ensures body[r] in lines {
      assert lines[r + 2] in lines;
    }
  }

  /** The number of rows read is the number of lines less three. */
  lemma ReadLinesCount(lines: seq<string>, rights: seq<bool>)
    ensures var read := ReadLines(lines, rights); read.Some? ==> |lines| >= 3 && |read.value.1| == |lines| - 3
  {
    hide ReadRule, ReadLine;
  }

  /** The lines of a table with these names and cells. */
  function Assembled(names: seq<string>, cells: seq<seq<string>>, rights: seq<bool>): seq<string>
    requires |names| == |rights| && forall r | 0 <= r < |cells| :: |cells[r]| <= |names|
  {
    var widths := Widths(names, cells);
    [Header(names, widths), Rule(widths)] + Body(cells, widths, rights) + [Footer(|cells|)]
  }

  /** The text of the lines reads line by line if none of them is broken, and otherwise
      reads as more rows than there are. */
  lemma LinesRead(names: seq<string>, cells: seq<seq<string>>, rights: seq<bool>)
    requires Table(names, cells, rights)
    ensures var widths := Widths(names, cells);
            var read := ReadTable(Join(Assembled(names, cells, rights), "\n"), rights);
            if Unbroken(names, cells, rights) then
              read.Some? && read.value.0 == ReadLine(Header(names, widths), widths, LeftAligned(|names|)) &&
              |read.value.1| == |cells| &&
              forall r | 0 <= r < |cells| ::
                read.value.1[r] == ReadLine(Body(cells, widths, rights)[r], widths, rights)
            else read.Some? ==> |read.value.1| != |cells|
  {
    hide Header, Rule, Footer, Widths, Join, Split, ReadLines, ReadLine;
    var widths := Widths(names, cells);
    var header, rule, body, footer := Header(names, widths), Rule(widths), Body(cells, widths, rights), Footer(|cells|);
    var lines := [header, rule] + body + [footer];
    RuleLacksBreaks(widths);
    FooterLacksBreaks(|cells|);
    LinesUnbroken(header, rule, body, footer);
    SplitCountsParts(lines, '\n');
    if Unbroken(names, cells, rights) {
      SplitUndoesJoin(lines, '\n');
      AssembledReads(header, body, footer, widths, rights);
    } else {
      ReadLinesCount(Split(Join(lines, "\n"), '\n'), rights);
    }
  }

  /** The text of the lines reads as the names and cells exactly when these recover. */
  lemma LinesReadBack(names: seq<string>, cells: seq<seq<string>>, rights: seq<bool>)
    requires Table(names, cells, rights)
    ensures ReadTable(Join(Assembled(names, cells, rights), "\n"), rights) == Some((names, cells)) <==>
            Recovers(names, cells, rights)
  {
    hide Header, Widths, Join, ReadTable, ReadLine, Recovers, Assembled, Unbroken;
    LinesRead(names, cells, rights);
    var read := ReadTable(Join(Assembled(names, cells, rights), "\n"), rights);
    if Unbroken(names, cells, rights) {
      UnbrokenReads(names, cells, rights);
      assert read == Some((names, cells)) <==> read.value.0 == names && read.value.1 == cells;
    } else if Recovers(names, cells, rights) {
      RecoversUnbroken(names, cells, rights);
    }
  }

  /** A printed table reads back to its column names and printed cells exactly when every
      row is as wide as the schema, every name and cell is recoverable where it stands, and
      none holds a line break. */
  lemma TableReadsBack(rows: Rows)
    requires Displayable(rows) && rows.columns != []
    ensures ReadTable(TableText(rows), Alignments(rows.columns)) == Some((Names(rows.columns), Cells(rows))) <==>
            Recovers(Names(rows.columns), Cells(rows), Alignments(rows.columns))
  {
    hide Rule, Footer, Widths, Line, TrimEnd, Join, Recovers, ReadTable, ToString;
    LinesReadBack(Names(rows.columns), Cells(rows), Alignments(rows.columns));
  }
}
