/** The token grammar behind the statement guard.

    SQL text is a sequence of bytes, one `char` per byte of its UTF-8 encoding. A
    lexing is described declaratively: each token has a shape and a condition on the
    text that follows it, and together these leave exactly one way to cut any text. */
module SqlTokens {
  datatype Kind = LineComment | BlockComment | Terminator | Literal | QuotedName | Space | Word | Symbol

  datatype Token = Token(kind: Kind, text: string)

  /** ASCII white space as the scanner tests it: no vertical tab. */
  predicate IsSpace(c: char) {
    c == ' ' || c == '\t' || c == '\n' || c == '\U{000C}' || c == '\r'
  }

  predicate StartsWord(c: char) {
    'a' <= c <= 'z' || 'A' <= c <= 'Z' || '0' <= c <= '9' || c == '_'
  }

  predicate ContinuesWord(c: char) {
    StartsWord(c) || c >= '\U{0080}'
  }

  predicate Starts(s: string, c: char) {
    s != [] && s[0] == c
  }

  /** Every quote in `s` belongs to an adjacent pair. */
  predicate Doubled(s: string, quote: char) {
    s == [] ||
    (s[0] != quote && Doubled(s[1..], quote)) ||
    (|s| >= 2 && s[0] == quote && s[1] == quote && Doubled(s[2..], quote))
  }

  /** A comment closer begins at position `k`. */
  predicate ClosesAt(s: string, k: int)
    requires 0 <= k < |s|
  {
    k + 1 < |s| && s[k] == '*' && s[k + 1] == '/'
  }

  predicate NoCloser(s: string) {
    forall k | 0 <= k < |s| :: !ClosesAt(s, k)
  }

  /** `text` is quoted text with `quote` doubled inside, closed, or left open at the end
      of input. */
  predicate FitsDoubled(text: string, rest: string, quote: char) {
    Starts(text, quote) &&
    ((|text| >= 2 && text[|text| - 1] == quote && Doubled(text[1..|text| - 1], quote) && !Starts(rest, quote)) ||
     (Doubled(text[1..], quote) && rest == []))
  }

  /** `text` is quoted text that ends at the next quote, or is left open. */
  predicate FitsPlain(text: string, rest: string, quote: char) {
    Starts(text, quote) &&
    ((|text| >= 2 && text[|text| - 1] == quote && quote !in text[1..|text| - 1]) ||
     (quote !in text[1..] && rest == []))
  }

  predicate FitsLineComment(text: string, rest: string) {
    |text| >= 2 && text[0] == '-' && text[1] == '-' && '\n' !in text && (rest == [] || rest[0] == '\n')
  }

  predicate FitsBlockComment(text: string, rest: string) {
    |text| >= 2 && text[0] == '/' && text[1] == '*' &&
    ((|text| >= 4 && ClosesAt(text, |text| - 2) && NoCloser(text[2..|text| - 1])) ||
     (NoCloser(text[2..]) && rest == []))
  }

  predicate FitsWord(text: string, rest: string) {
    text != [] && StartsWord(text[0]) && (forall k | 0 <= k < |text| :: ContinuesWord(text[k])) &&
    (rest != [] ==> !ContinuesWord(rest[0]))
  }

  predicate FitsSymbol(text: string, rest: string) {
    |text| == 1 && !IsSpace(text[0]) && !StartsWord(text[0]) &&
    text[0] != ';' && text[0] != '\'' && text[0] != '"' &&
    !(text[0] == '-' && Starts(rest, '-')) && !(text[0] == '/' && Starts(rest, '*'))
  }

  /** How quoted names are read: up to the next `"`, or with `""` as an escape. */
  datatype Dialect = Plain | Escaping

  /** `t` may stand in front of `rest`. */
  predicate Fits(t: Token, rest: string, d: Dialect) {
    match t.kind
    case LineComment => FitsLineComment(t.text, rest)
    case BlockComment => FitsBlockComment(t.text, rest)
    case Terminator => t.text == ";"
    case Literal => FitsDoubled(t.text, rest, '\'')
    case QuotedName => if d.Plain? then FitsPlain(t.text, rest, '"') else FitsDoubled(t.text, rest, '"')
    case Space => |t.text| == 1 && IsSpace(t.text[0])
    case Word => FitsWord(t.text, rest)
    case Symbol => FitsSymbol(t.text, rest)
  }

  /** `tokens` is a way to cut `s`. */
  predicate Lexes(tokens: seq<Token>, s: string, d: Dialect)
    decreases |tokens|
  {
    if tokens == [] then s == []
    else
      var text := tokens[0].text;
      text <= s && Fits(tokens[0], s[|text|..], d) && Lexes(tokens[1..], s[|text|..], d)
  }

  // ----- Doubled quotes -----

  lemma {:induction false} DoubledConcat(a: string, b: string, quote: char)
    requires Doubled(a, quote)
    ensures Doubled(a + b, quote) <==> Doubled(b, quote)
  {
    if a == [] {
      assert a + b == b;
    } else if a[0] != quote {
      assert (a + b)[1..] == a[1..] + b;
      DoubledConcat(a[1..], b, quote);
    } else {
      assert (a + b)[2..] == a[2..] + b;
      DoubledConcat(a[2..], b, quote);
    }
  }

  // ----- The one lexing -----

  /** The first `c` at or after `i`, or the end. */
  function FirstOf(s: string, i: nat, c: char): (j: nat)
    requires i <= |s|
    ensures i <= j <= |s|
    decreases |s| - i
  {
    if i == |s| || s[i] == c then i else FirstOf(s, i + 1, c)
  }

  /** The first comment closer at or after `i`, or the end. */
  function FirstCloser(s: string, i: nat): (j: nat)
    requires i <= |s|
    ensures i <= j <= |s|
    decreases |s| - i
  {
    if i == |s| || ClosesAt(s, i) then i else FirstCloser(s, i + 1)
  }

  /** Just past the quote that closes the doubled text at `i`, or the end. */
  function DoubledEnd(s: string, i: nat, quote: char): (j: nat)
    requires i <= |s|
    ensures i <= j <= |s|
    decreases |s| - i
  {
    if i == |s| then i
    else if s[i] != quote then DoubledEnd(s, i + 1, quote)
    else if i + 1 < |s| && s[i + 1] == quote then DoubledEnd(s, i + 2, quote)
    else i + 1
  }

  function WordEnd(s: string, i: nat): (j: nat)
    requires i <= |s|
    ensures i <= j <= |s|
    ensures i < |s| && ContinuesWord(s[i]) ==> i < j
    decreases |s| - i
  {
    if i == |s| || !ContinuesWord(s[i]) then i else WordEnd(s, i + 1)
  }

  function Min(a: nat, b: nat): nat {
    if a < b then a else b
  }

  /** The token at the front of `s` ends where its own rule says. */
  function FirstToken(s: string, d: Dialect): (t: Token)
    requires s != []
    ensures t.text != [] && t.text <= s
  {
    var c := s[0];
    if c == '-' && Starts(s[1..], '-') then Token(LineComment, s[..FirstOf(s, 2, '\n')])
    else if c == '/' && Starts(s[1..], '*') then Token(BlockComment, s[..Min(FirstCloser(s, 2) + 2, |s|)])
    else if c == ';' then Token(Terminator, s[..1])
    else if c == '\'' then Token(Literal, s[..DoubledEnd(s, 1, c)])
    else if c == '"' && d.Plain? then Token(QuotedName, s[..Min(FirstOf(s, 1, c) + 1, |s|)])
    else if c == '"' then Token(QuotedName, s[..DoubledEnd(s, 1, c)])
    else if IsSpace(c) then Token(Space, s[..1])
    else if StartsWord(c) then Token(Word, s[..WordEnd(s, 0)])
    else Token(Symbol, s[..1])
  }

  function Tokenize(s: string, d: Dialect): seq<Token>
  {
    if s == [] then []
    else var t := FirstToken(s, d); [t] + Tokenize(s[|t.text|..], d)
  }

  lemma FirstOfIs(s: string, i: nat, c: char)
    requires i <= |s|
    ensures var j := FirstOf(s, i, c);
            (forall k | i <= k < j :: s[k] != c) && (j < |s| ==> s[j] == c)
    decreases |s| - i
  {
  }

  lemma FirstCloserIs(s: string, i: nat)
    requires i <= |s|
    ensures var j := FirstCloser(s, i);
            (forall k | i <= k < j :: !ClosesAt(s, k)) && (j < |s| ==> ClosesAt(s, j))
    decreases |s| - i
  {
  }

  lemma WordEndIs(s: string, i: nat)
    requires i <= |s|
    ensures var j := WordEnd(s, i);
            (forall k | i <= k < j :: ContinuesWord(s[k])) && (j < |s| ==> !ContinuesWord(s[j]))
    decreases |s| - i
  {
  }

  /** Text without quotes is doubled text. */
  lemma {:induction false} NoQuoteIsDoubled(s: string, quote: char)
    requires quote !in s
    ensures Doubled(s, quote)
  {
    if s != [] {
      NoQuoteIsDoubled(s[1..], quote);
    }
  }

  /** Where doubled text ends: at a lone quote, or nowhere. */
  lemma {:induction false} DoubledEndIs(s: string, i: nat, quote: char)
    requires i <= |s|
    ensures var j := DoubledEnd(s, i, quote);
            (j == |s| && Doubled(s[i..], quote)) ||
            (i < j && s[j - 1] == quote && Doubled(s[i..j - 1], quote) && !Starts(s[j..], quote))
    decreases |s| - i
  {
    if i < |s| {
      var step := if s[i] == quote then 2 else 1;
      if s[i] != quote || (i + 1 < |s| && s[i + 1] == quote) {
        DoubledEndIs(s, i + step, quote);
        var j := DoubledEnd(s, i, quote);
        assert s[i..][step..] == s[i + step..];
        if i + step <= j - 1 {
          assert s[i..j - 1][step..] == s[i + step..j - 1];
        }
      }
    }
  }

  lemma {:induction false} OpenDoubledEnd(s: string, i: nat, quote: char)
    requires i <= |s| && Doubled(s[i..], quote)
    ensures DoubledEnd(s, i, quote) == |s|
    decreases |s| - i
  {
    if i < |s| {
      var step := if s[i] == quote then 2 else 1;
      assert s[i..][step..] == s[i + step..];
      OpenDoubledEnd(s, i + step, quote);
    }
  }

  lemma {:induction false} ClosedDoubledEnd(s: string, i: nat, j: nat, quote: char)
    requires i <= j < |s| && Doubled(s[i..j], quote) && s[j] == quote && !Starts(s[j + 1..], quote)
    ensures DoubledEnd(s, i, quote) == j + 1
    decreases j - i
  {
    if i < j {
      var step := if s[i] == quote then 2 else 1;
      assert s[i..j][step..] == s[i + step..j];
      ClosedDoubledEnd(s, i + step, j, quote);
    }
  }

  /** The front token fits in front of what is left. */
  lemma FirstTokenFits(s: string, d: Dialect)
    requires s != []
    ensures var t := FirstToken(s, d); Fits(t, s[|t.text|..], d)
  {
    var t := FirstToken(s, d);
    var n := |t.text|;
    if t.kind.BlockComment? {
      BlockCommentFits(s);
    } else if t.kind.Literal? || (t.kind.QuotedName? && d.Escaping?) {
      DoubledFits(s, s[0]);
    } else if t.kind.QuotedName? {
      PlainFits(s, '"');
    } else if t.kind.LineComment? {
      FirstOfIs(s, 2, '\n');
    } else if t.kind.Word? {
      WordEndIs(s, 0);
    }
  }

  lemma BlockCommentFits(s: string)
    requires Starts(s, '/') && Starts(s[1..], '*')
    ensures var n := Min(FirstCloser(s, 2) + 2, |s|); FitsBlockComment(s[..n], s[n..])
  {
    var j := FirstCloser(s, 2);
    FirstCloserIs(s, 2);
    hide FirstCloser;
    assert s[1] == '*';
    if j < |s| {
      ClosersOfSlice(s, 2, j + 1);
      CommentClosed(s, j);
    } else {
      ClosersOfSlice(s, 2, |s|);
      assert s[..|s|] == s && s[2..|s|] == s[2..];
    }
  }

  lemma CommentClosed(s: string, j: nat)
    requires |s| >= 4 && s[0] == '/' && s[1] == '*' && 2 <= j < |s| - 1
    requires ClosesAt(s, j) && NoCloser(s[2..j + 1])
    ensures FitsBlockComment(s[..j + 2], s[j + 2..])
  {
    var text := s[..j + 2];
    assert text[2..|text| - 1] == s[2..j + 1];
    assert ClosesAt(text, j);
  }

  /** Closers inside a slice are closers of the whole. */
  lemma ClosersOfSlice(s: string, i: nat, j: nat)
    requires i <= j <= |s|
    ensures NoCloser(s[i..j]) <==> forall k | i <= k < j - 1 :: !ClosesAt(s, k)
  {
    var t := s[i..j];
    assert forall k | 0 <= k < |t| - 1 :: ClosesAt(t, k) == ClosesAt(s, i + k);
    assert forall k | i <= k < j - 1 :: ClosesAt(s, k) == ClosesAt(t, k - i);
  }

  lemma DoubledFits(s: string, quote: char)
    requires Starts(s, quote)
    ensures var n := DoubledEnd(s, 1, quote); FitsDoubled(s[..n], s[n..], quote)
  {
    var n := DoubledEnd(s, 1, quote);
    DoubledEndIs(s, 1, quote);
    if n == |s| && Doubled(s[1..], quote) {
      assert s[..n] == s;
    } else {
      assert s[..n][1..n - 1] == s[1..n - 1];
    }
  }

  lemma PlainFits(s: string, quote: char)
    requires Starts(s, quote)
    ensures var n := Min(FirstOf(s, 1, quote) + 1, |s|); FitsPlain(s[..n], s[n..], quote)
  {
    var j := FirstOf(s, 1, quote);
    FirstOfIs(s, 1, quote);
    if j < |s| {
      assert s[..j + 1][1..j] == s[1..j];
    } else {
      assert s[..|s|] == s;
    }
  }

  /** Whatever token fits in front of `rest` is the front token of the two together. */
  lemma FittingIsFirst(t: Token, rest: string, d: Dialect)
    requires Fits(t, rest, d)
    ensures t.text != [] && FirstToken(t.text + rest, d) == t
  {
    var s := t.text + rest;
    assert s[0] == t.text[0];
    assert |t.text| == 1 ==> s[1..] == rest;
    assert |t.text| >= 2 ==> s[1] == t.text[1];
    assert FirstToken(s, d).kind == t.kind;
    assert |FirstToken(s, d).text| == |t.text| by {
      match t.kind
      case LineComment => StopsAt(s, 2, |t.text|, '\n');
      case BlockComment => BlockCommentEnds(t.text, rest);
      case Literal => DoubledEnds(t.text, rest, '\'');
      case QuotedName =>
        if d.Plain? {
          PlainEnds(t.text, rest, '"');
        } else {
          DoubledEnds(t.text, rest, '"');
        }
      case Word => WordEnds(t.text, rest);
      case _ =>
    }
  }

  lemma StopsAt(s: string, i: nat, j: nat, c: char)
    requires i <= j <= |s| && (forall k | i <= k < j :: s[k] != c) && (j < |s| ==> s[j] == c)
    ensures FirstOf(s, i, c) == j
  {
    FirstOfIs(s, i, c);
  }

  lemma BlockCommentEnds(text: string, rest: string)
    requires FitsBlockComment(text, rest)
    ensures Min(FirstCloser(text + rest, 2) + 2, |text + rest|) == |text|
  {
    var s := text + rest;
    var n := |text|;
    FirstCloserIs(s, 2);
    if n >= 4 && ClosesAt(text, n - 2) && NoCloser(text[2..n - 1]) {
      assert s[2..n - 1] == text[2..n - 1];
      ClosersOfSlice(s, 2, n - 1);
      assert ClosesAt(s, n - 2);
    } else {
      assert s == text && text[2..] == text[2..n];
      ClosersOfSlice(s, 2, n);
      assert !ClosesAt(s, n - 1);
    }
  }

  lemma DoubledEnds(text: string, rest: string, quote: char)
    requires FitsDoubled(text, rest, quote)
    ensures DoubledEnd(text + rest, 1, quote) == |text|
  {
    var s := text + rest;
    var n := |text|;
    if n >= 2 && text[n - 1] == quote && Doubled(text[1..n - 1], quote) && !Starts(rest, quote) {
      assert s[1..n - 1] == text[1..n - 1] && s[n..] == rest;
      ClosedDoubledEnd(s, 1, n - 1, quote);
    } else {
      assert s == text;
      OpenDoubledEnd(s, 1, quote);
    }
  }

  lemma PlainEnds(text: string, rest: string, quote: char)
    requires FitsPlain(text, rest, quote)
    ensures Min(FirstOf(text + rest, 1, quote) + 1, |text + rest|) == |text|
  {
    var s := text + rest;
    var n := |text|;
    if n >= 2 && text[n - 1] == quote && quote !in text[1..n - 1] {
      assert forall k | 1 <= k < n - 1 :: s[k] == text[1..n - 1][k - 1];
      StopsAt(s, 1, n - 1, quote);
    } else {
      assert forall k | 1 <= k < n :: s[k] == text[1..][k - 1];
      StopsAt(s, 1, n, quote);
    }
  }

  lemma WordEnds(text: string, rest: string)
    requires FitsWord(text, rest)
    ensures WordEnd(text + rest, 0) == |text|
  {
    var s := text + rest;
    WordEndIs(s, 0);
    assert forall k | 0 <= k < |text| :: s[k] == text[k];
    assert rest != [] ==> s[|text|] == rest[0];
  }

  /** Every text has exactly one lexing. */
  lemma {:induction false} LexingExistsUniquely(tokens: seq<Token>, s: string, d: Dialect)
    ensures Lexes(tokens, s, d) <==> tokens == Tokenize(s, d)
    decreases |s| + |tokens|
  {
    if s != [] && tokens != [] {
      var t := FirstToken(s, d);
      FirstTokenFits(s, d);
      LexingExistsUniquely(tokens[1..], s[|t.text|..], d);
      assert tokens == [tokens[0]] + tokens[1..];
      assert s == s[..|t.text|] + s[|t.text|..];
      if tokens[0].text <= s && Fits(tokens[0], s[|tokens[0].text|..], d) {
        FittingIsFirst(tokens[0], s[|tokens[0].text|..], d);
        assert tokens[0].text + s[|tokens[0].text|..] == s;
      }
    } else if s == [] && tokens != [] && tokens[0].text == [] && Fits(tokens[0], [], d) {
      FittingIsFirst(tokens[0], [], d);
    }
  }
}
