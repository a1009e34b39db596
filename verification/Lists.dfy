/** Reading the server's prose: lists of names, names given by callers, row counts. */
module Lists {
  import opened Wrappers
  import opened Errors
  import opened Machine
  import opened Text
  import opened Digits

  /** A name with its surrounding white space removed, which must leave something. */
  function RequireName(value: string, what: string): Result<string, Error> {
    var trimmed := Trim(value);
    if trimmed == [] then Failure(InvalidArgument(what + " is empty")) else Success(trimmed)
  }

  function TrimAll(items: seq<string>): seq<string> {
    if items == [] then [] else [Trim(items[0])] + TrimAll(items[1..])
  }

  function DropEmpty(items: seq<string>): seq<string> {
    if items == [] then []
    else (if items[0] == [] then [] else [items[0]]) + DropEmpty(items[1..])
  }

  function StripPrefix(message: string, prefix: string): string {
    if prefix <= message then message[|prefix|..] else message
  }

  function ParseList(message: string, prefix: string): seq<string> {
    DropEmpty(TrimAll(Split(StripPrefix(message, prefix), ',')))
  }

  /** A name the server's list can carry. */
  predicate Listable(name: string) {
    name != [] && Trimmed(name) && ',' !in name
  }

  function Indented(names: seq<string>): (items: seq<string>)
    ensures |items| == |names| && forall i | 0 <= i < |names| :: items[i] == " " + names[i]
  {
    seq(|names|, i requires 0 <= i < |names| => " " + names[i])
  }

  /** `", "` between names is `","` between indented names. */
  lemma {:induction false} JoinIndented(names: seq<string>)
    requires names != []
    ensures " " + Join(names, ", ") == Join(Indented(names), ",")
  {
    if |names| > 1 {
      JoinIndented(names[1..]);
      assert Indented(names)[1..] == Indented(names[1..]);
      assert " " + Join(names, ", ") == (" " + names[0]) + "," + (" " + Join(names[1..], ", ")) by {
        assert ", " == "," + " ";
      }
    }
  }

  lemma {:induction false} IndentationTrims(names: seq<string>)
    requires forall name | name in names :: Listable(name)
    ensures DropEmpty(TrimAll(Indented(names))) == names
  {
    if names != [] {
      assert Listable(names[0]) && forall name | name in names[1..] :: Listable(name);
      TrimOfTrimmed(names[0]);
      assert Indented(names)[1..] == Indented(names[1..]);
      IndentationTrims(names[1..]);
      assert names == [names[0]] + names[1..];
    }
  }

  lemma {:induction false} ItemsAreListable(items: seq<string>)
    requires forall item | item in items :: ',' !in item
    ensures forall name | name in DropEmpty(TrimAll(items)) :: Listable(name)
  {
    if items != [] {
      TrimGivesTrimmed(items[0]);
      ItemsAreListable(items[1..]);
    }
  }

  /** Whatever the message, only listable names come out. */
  lemma ParsedNamesAreListable(message: string, prefix: string)
    ensures forall name | name in ParseList(message, prefix) :: Listable(name)
  {
    SplitPartsLackSeparator(StripPrefix(message, prefix), ',');
    ItemsAreListable(Split(StripPrefix(message, prefix), ','));
  }

  /** Parsing undoes the server's listing exactly for lists of listable names, the empty
      list included. */
  lemma ParseUndoesListing(names: seq<string>, prefix: string)
    ensures ParseList(prefix + " " + Join(names, ", "), prefix) == names <==>
            forall name | name in names :: Listable(name)
  {
    var message := prefix + " " + Join(names, ", ");
    var tail := " " + Join(names, ", ");
    assert message == prefix + tail;
    assert StripPrefix(message, prefix) == tail;
    if forall name | name in names :: Listable(name) {
      ListingParses(names);
    } else {
      ParsedNamesAreListable(message, prefix);
    }
  }

  /** A message without the prefix is read as the list itself. */
  lemma UnprefixedListing(names: seq<string>, prefix: string)
    requires !(prefix <= Join(names, ", "))
    ensures ParseList(Join(names, ", "), prefix) == names <==> forall name | name in names :: Listable(name)
  {
    var message := Join(names, ", ");
    if forall name | name in names :: Listable(name) {
      if names == [] {
        TrimOfTrimmed("");
        assert Split("", ',') == [""] && TrimAll([""]) == [""];
      } else {
        PlainListing(names);
      }
    } else {
      ParsedNamesAreListable(message, prefix);
    }
  }

  lemma PlainListing(names: seq<string>)
    requires names != [] && forall name | name in names :: Listable(name)
    ensures DropEmpty(TrimAll(Split(Join(names, ", "), ','))) == names
  {
    ListingParses(names);
    var text := Join(names, ", ");
    assert (" " + text)[1..] == text;
    var parts := Split(text, ',');
    assert Split(" " + text, ',') == [" " + parts[0]] + parts[1..];
    assert TrimAll(Split(" " + text, ','))[1..] == TrimAll(parts)[1..];
    SpaceInFront(parts[0]);
  }

  lemma SpaceInFront(s: string)
    ensures Trim(" " + s) == Trim(s)
  {
    assert (" " + s)[1..] == s;
  }

  lemma ListingParses(names: seq<string>)
    requires forall name | name in names :: Listable(name)
    ensures DropEmpty(TrimAll(Split(" " + Join(names, ", "), ','))) == names
  {
    if names == [] {
      TrimOfTrimmed("");
      SplitWhole(" " + "", ',');
      assert Trim(" " + "") == "";
    } else {
      JoinIndented(names);
      forall item | item in Indented(names) ensures ',' !in item {
        var i :| 0 <= i < |names| && Indented(names)[i] == item;
        assert Listable(names[i]);
      }
      SplitUndoesJoin(Indented(names), ',');
      IndentationTrims(names);
    }
  }

  lemma {:induction false} KeptConcat(a: seq<string>, b: seq<string>)
    ensures DropEmpty(TrimAll(a + b)) == DropEmpty(TrimAll(a)) + DropEmpty(TrimAll(b))
  {
    if a == [] {
      assert a + b == b;
    } else {
      assert (a + b)[1..] == a[1..] + b;
      KeptConcat(a[1..], b);
    }
  }

  /** Items of nothing but white space are passed over, wherever they stand. */
  lemma BlankItemsIgnored(a: seq<string>, blank: string, b: seq<string>, prefix: string)
    requires a + b != [] && AllWhite(blank)
    requires forall item | item in a + b :: ',' !in item
    ensures ParseList(prefix + Join(a + [blank] + b, ","), prefix) == ParseList(prefix + Join(a + b, ","), prefix)
  {
    hide Split, Join, TrimAll, DropEmpty;
    ItemsParse(a + [blank] + b, prefix);
    ItemsParse(a + b, prefix);
    KeptConcat(a + [blank], b);
    KeptConcat(a, [blank]);
    KeptConcat(a, b);
    BlankDropped(blank);
  }

  lemma BlankDropped(blank: string)
    requires AllWhite(blank)
    ensures DropEmpty(TrimAll([blank])) == [] && ',' !in blank
  {
    TrimExactly(blank, "", "");
    assert blank + "" + "" == blank;
    assert TrimAll([blank]) == [[]];
    assert forall k | 0 <= k < |blank| :: IsWhitespace(blank[k]);
  }

  lemma ItemsParse(items: seq<string>, prefix: string)
    requires items != [] && forall item | item in items :: ',' !in item || AllWhite(item)
    ensures ParseList(prefix + Join(items, ","), prefix) == DropEmpty(TrimAll(items))
  {
    forall item | item in items ensures ',' !in item {
      if AllWhite(item) {
        BlankDropped(item);
      }
    }
    SplitUndoesJoin(items, ',');
    assert (prefix + Join(items, ","))[|prefix|..] == Join(items, ",");
  }

  // ----- Row counts -----

  /** Words between white space; the word at hand is `word`. */
  function SplitWords(s: string, word: string): seq<string> {
    if s == [] then (if word == [] then [] else [word])
    else if IsWhitespace(s[0]) then (if word == [] then [] else [word]) + SplitWords(s[1..], [])
    else SplitWords(s[1..], word + [s[0]])
  }

  /** `str::parse::<usize>`: digits with an optional plus sign, within 64 bits. */
  function ParseCount(word: string): Option<nat> {
    var digits := if word != [] && word[0] == '+' then word[1..] else word;
    if digits != [] && AllDigits(digits) && Number(digits) < TWO_64 then Some(Number(digits)) else None
  }

  function FirstCount(words: seq<string>): Option<nat> {
    if words == [] then None
    else if ParseCount(words[0]).Some? then ParseCount(words[0])
    else FirstCount(words[1..])
  }

  function ParseImported(message: string): Result<nat, Error> {
    match FirstCount(SplitWords(message, []))
    case Some(n) => Success(n)
    case None => Failure(UnexpectedResponse)
  }

  lemma {:induction false} WordThenRest(word: string, taken: string, rest: string)
    requires forall k | 0 <= k < |word| :: !IsWhitespace(word[k])
    requires taken + word != []
    ensures SplitWords(word + " " + rest, taken) == [taken + word] + SplitWords(rest, [])
  {
    var s := word + " " + rest;
    if word == [] {
      assert s[1..] == rest && taken + word == taken;
    } else {
      assert s[1..] == word[1..] + " " + rest;
      assert taken + [word[0]] + word[1..] == taken + word;
      WordThenRest(word[1..], taken + [word[0]], rest);
    }
  }

  /** A word: some characters, none of them white space. */
  predicate Solid(word: string) {
    word != [] && forall k | 0 <= k < |word| :: !IsWhitespace(word[k])
  }

  /** The words with gaps of white space around them; only the outer two may be empty. */
  predicate Gaps(words: seq<string>, gaps: seq<string>) {
    |gaps| == |words| + 1 && (forall i | 0 <= i < |gaps| :: AllWhite(gaps[i])) &&
    (forall i | 0 < i < |words| :: gaps[i] != [])
  }

  function Spaced(words: seq<string>, gaps: seq<string>): string
    requires |gaps| == |words| + 1
  {
    if words == [] then gaps[0] else gaps[0] + words[0] + Spaced(words[1..], gaps[1..])
  }

  lemma {:induction false} GapSkipped(gap: string, rest: string)
    requires AllWhite(gap)
    ensures SplitWords(gap + rest, []) == SplitWords(rest, [])
  {
    if gap == [] {
      assert gap + rest == rest;
    } else {
      assert (gap + rest)[1..] == gap[1..] + rest;
      GapSkipped(gap[1..], rest);
    }
  }

  lemma {:induction false} WordTaken(taken: string, word: string, rest: string)
    requires taken + word != [] && forall k | 0 <= k < |word| :: !IsWhitespace(word[k])
    requires rest != [] ==> IsWhitespace(rest[0])
    ensures SplitWords(word + rest, taken) == [taken + word] + SplitWords(rest, [])
    decreases |word|
  {
    if word == [] {
      assert word + rest == rest && taken + word == taken;
    } else {
      assert (word + rest)[1..] == word[1..] + rest;
      assert taken + [word[0]] + word[1..] == taken + word;
      WordTaken(taken + [word[0]], word[1..], rest);
    }
  }

  /** The words of a text are what stands between its white space. */
  lemma {:induction false} WordsRecovered(words: seq<string>, gaps: seq<string>)
    requires Gaps(words, gaps) && forall i | 0 <= i < |words| :: Solid(words[i])
    ensures SplitWords(Spaced(words, gaps), []) == words
  {
    if words == [] {
      GapSkipped(gaps[0], []);
      assert gaps[0] + [] == gaps[0];
    } else {
      var rest := Spaced(words[1..], gaps[1..]);
      assert forall i | 0 <= i < |gaps[1..]| :: gaps[1..][i] == gaps[i + 1];
      assert forall i | 0 <= i < |words[1..]| :: words[1..][i] == words[i + 1];
      WordsRecovered(words[1..], gaps[1..]);
      if |words| > 1 {
        assert gaps[1..][0] == gaps[1];
      }
      assert Spaced(words, gaps) == gaps[0] + (words[0] + rest);
      GapSkipped(gaps[0], words[0] + rest);
      WordTaken([], words[0], rest);
      assert [] + words[0] == words[0] && [words[0]] + words[1..] == words;
    }
  }

  /** A word that counts `n`: digits, perhaps behind a plus sign, that fit 64 bits. */
  ghost predicate Counts(word: string, n: nat) {
    exists digits ::
      (word == digits || word == "+" + digits) && digits != [] && AllDigits(digits) &&
      Number(digits) == n < 18_446_744_073_709_551_616
  }

  lemma CountsExactly(word: string, n: nat)
    ensures ParseCount(word) == Some(n) <==> Counts(word, n)
  {
    if ParseCount(word) == Some(n) {
      assert word != [] && word[0] == '+' ==> word == "+" + word[1..];
    }
    if Counts(word, n) {
      var digits :| (word == digits || word == "+" + digits) && digits != [] && AllDigits(digits) &&
                    Number(digits) == n < 18_446_744_073_709_551_616;
      assert IsDigit(digits[0]);
      assert word == "+" + digits ==> word[1..] == digits;
    }
  }

  lemma {:induction false} FirstCountExactly(words: seq<string>, n: nat)
    ensures FirstCount(words) == Some(n) <==>
            exists i :: 0 <= i < |words| && ParseCount(words[i]) == Some(n) &&
                        forall j | 0 <= j < i :: ParseCount(words[j]) == None
  {
    hide ParseCount;
    if words != [] {
      var rest := words[1..];
      FirstCountExactly(rest, n);
      assert forall i | 0 < i < |words| :: words[i] == rest[i - 1];
      if i :| 0 <= i < |rest| && ParseCount(rest[i]) == Some(n) &&
              forall j | 0 <= j < i :: ParseCount(rest[j]) == None
      {
        assert words[i + 1] == rest[i];
      }
      if i :| 0 < i < |words| && ParseCount(words[i]) == Some(n) &&
              forall j | 0 <= j < i :: ParseCount(words[j]) == None
      {
        assert rest[i - 1] == words[i];
        assert forall j | 0 <= j < i - 1 :: rest[j] == words[j + 1];
      }
    }
  }

  /** The count read from a message is that of the first word that counts anything, and
      without one there is none. */
  lemma ImportedExactly(words: seq<string>, gaps: seq<string>, n: nat)
    requires Gaps(words, gaps) && forall i | 0 <= i < |words| :: Solid(words[i])
    ensures ParseImported(Spaced(words, gaps)) == Success(n) <==>
            exists i :: 0 <= i < |words| && Counts(words[i], n) &&
                        forall j, m: nat | 0 <= j < i :: !Counts(words[j], m)
    ensures ParseImported(Spaced(words, gaps)).Failure? ==>
              ParseImported(Spaced(words, gaps)) == Failure(UnexpectedResponse)
  {
    hide ParseCount, Counts, SplitWords, Spaced;
    WordsRecovered(words, gaps);
    FirstCountExactly(words, n);
    forall i, m: nat | 0 <= i < |words| ensures ParseCount(words[i]) == Some(m) <==> Counts(words[i], m) {
      CountsExactly(words[i], m);
    }
    forall i | 0 <= i < |words| ensures ParseCount(words[i]) == None <==> forall m: nat :: !Counts(words[i], m) {
      if ParseCount(words[i]).Some? {
        CountsExactly(words[i], ParseCount(words[i]).value);
      }
      forall m: nat | Counts(words[i], m) ensures ParseCount(words[i]).Some? {
        CountsExactly(words[i], m);
      }
    }
  }

  /** The count in the server's import message is the one it printed, whatever the
      table is called. */
  lemma ImportCountReads(n: nat, table: string)
    requires n < TWO_64
    ensures ParseImported("Imported " + Numeral(n) + " rows into table " + table) == Success(n)
  {
    var tail := "rows into table " + table;
    var middle := Numeral(n) + " " + tail;
    assert "Imported " + Numeral(n) + " rows into table " + table == "Imported" + " " + middle by {
      assert "Imported " == "Imported" + " ";
      assert " rows into table " == " " + "rows into table ";
    }
    ImportedWords(n, tail);
    CountBehindWord(n, "Imported", SplitWords(tail, []));
  }

  lemma ImportedWords(n: nat, tail: string)
    ensures SplitWords("Imported" + " " + (Numeral(n) + " " + tail), []) ==
            ["Imported"] + ([Numeral(n)] + SplitWords(tail, []))
  {
    WordThenRest("Imported", [], Numeral(n) + " " + tail);
    WordThenRest(Numeral(n), [], tail);
    assert [] + "Imported" == "Imported" && [] + Numeral(n) == Numeral(n);
  }

  lemma CountBehindWord(n: nat, word: string, rest: seq<string>)
    requires n < TWO_64 && word != [] && word[0] != '+' && !IsDigit(word[0])
    ensures FirstCount([word] + ([Numeral(n)] + rest)) == Some(n)
  {
    NumeralReads(n);
    assert IsDigit(Numeral(n)[0]);
    assert ([word] + ([Numeral(n)] + rest))[1..] == [Numeral(n)] + rest;
  }
}
