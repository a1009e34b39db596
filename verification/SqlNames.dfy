/** Quoted names: the scanner has no rule for `""`, yet answers as a scanner would that
    reads it as an escaped quote. */
module SqlNames {
  import opened SqlTokens
  import opened SqlGuard
  import opened SqlLaws

  /** Runs of adjacent quoted names made into one. */
  function Glue(tokens: seq<Token>): seq<Token> {
    if tokens == [] then []
    else GlueFront(tokens[0], Glue(tokens[1..]))
  }

  function GlueFront(t: Token, glued: seq<Token>): seq<Token> {
    if t.kind.QuotedName? && glued != [] && glued[0].kind.QuotedName?
    then [Token(QuotedName, t.text + glued[0].text)] + glued[1..]
    else [t] + glued
  }

  /** A plain name in front of anything but a quote is also an escaping one. */
  lemma PlainIsDoubled(text: string, rest: string)
    requires FitsPlain(text, rest, '"') && !Starts(rest, '"')
    ensures FitsDoubled(text, rest, '"')
  {
    var n := |text|;
    if n >= 2 && text[n - 1] == '"' && '"' !in text[1..n - 1] {
      NoQuoteIsDoubled(text[1..n - 1], '"');
    } else {
      NoQuoteIsDoubled(text[1..], '"');
    }
  }

  /** A plain name in front of an escaping one is swallowed by it. */
  lemma PlainThenDoubled(text: string, more: string, rest: string)
    requires FitsPlain(text, more + rest, '"') && more != [] && FitsDoubled(more, rest, '"')
    ensures FitsDoubled(text + more, rest, '"')
  {
    NoQuoteIsDoubled(text[1..|text| - 1], '"');
    if rest == [] && Doubled(more[1..], '"') {
      ClosedThenOpen(text, more, '"');
    } else {
      ClosedQuotesJoin(text, more, '"');
    }
  }

  lemma QuoteStartsName(s: string, d: Dialect)
    requires s != []
    ensures FirstToken(s, d).kind.QuotedName? <==> s[0] == '"'
  {
  }

  /** The escaping reader's tokens are the plain reader's with adjacent names joined. */
  lemma {:induction false} EscapingGlues(s: string)
    ensures Tokenize(s, Escaping) == Glue(Tokenize(s, Plain))
    decreases |s|
  {
    hide FirstToken, FitsPlain, FitsDoubled;
    if s != [] {
      var t := FirstToken(s, Plain);
      var rest := s[|t.text|..];
      FirstTokenFits(s, Plain);
      EscapingGlues(rest);
      assert s == t.text + rest;
      assert ([t] + Tokenize(rest, Plain))[1..] == Tokenize(rest, Plain);
      if rest != [] {
        QuoteStartsName(rest, Escaping);
      }
      if !t.kind.QuotedName? {
        TokenizeFront(t, rest, Escaping);
      } else if !Starts(rest, '"') {
        PlainIsDoubled(t.text, rest);
        TokenizeFront(t, rest, Escaping);
      } else {
        NameBeforeName(t, rest);
      }
    }
  }

  lemma NameBeforeName(t: Token, rest: string)
    requires t.kind.QuotedName? && Fits(t, rest, Plain) && Starts(rest, '"')
    ensures Tokenize(t.text + rest, Escaping) == GlueFront(t, Tokenize(rest, Escaping))
  {
    hide FirstToken, FitsPlain, FitsDoubled;
    var u := FirstToken(rest, Escaping);
    var left := rest[|u.text|..];
    QuoteStartsName(rest, Escaping);
    FirstTokenFits(rest, Escaping);
    assert rest == u.text + left;
    PlainThenDoubled(t.text, u.text, left);
    TokenizeFront(Token(QuotedName, t.text + u.text), left, Escaping);
    Associate(t.text, u.text, left);
    assert ([u] + Tokenize(left, Escaping))[1..] == Tokenize(left, Escaping);
  }

  lemma {:induction false} GlueKeepsVerdict(tokens: seq<Token>)
    ensures Words(Glue(tokens)) == Words(tokens)
    ensures MoreThanOne(Glue(tokens)) <==> MoreThanOne(tokens)
    ensures HasSignificant(Glue(tokens)) <==> HasSignificant(tokens)
  {
    hide MoreThanOne, HasSignificant;
    if tokens != [] {
      var t, glued := tokens[0], Glue(tokens[1..]);
      GlueKeepsVerdict(tokens[1..]);
      assert tokens == [t] + tokens[1..];
      FrontCounts(t, tokens[1..]);
      FrontCounts(t, glued);
      GlueFrontKeeps(t, glued);
    }
  }

  lemma GlueFrontKeeps(t: Token, glued: seq<Token>)
    ensures Words(GlueFront(t, glued)) == Words([t] + glued)
    ensures MoreThanOne(GlueFront(t, glued)) <==> MoreThanOne([t] + glued)
    ensures HasSignificant(GlueFront(t, glued)) <==> HasSignificant([t] + glued)
  {
    hide MoreThanOne, HasSignificant;
    if t.kind.QuotedName? && glued != [] && glued[0].kind.QuotedName? {
      assert glued == [glued[0]] + glued[1..];
      FrontCounts(t, glued);
      FrontCounts(glued[0], glued[1..]);
      FrontCounts(Token(QuotedName, t.text + glued[0].text), glued[1..]);
    }
  }

  /** On every text, open names included, both readings of `""` give one verdict. */
  lemma EscapedNamesDoNotMatter(sql: string)
    ensures Verdict(Tokenize(sql, Escaping)) == Verdict(Tokenize(sql, Plain))
  {
    EscapingGlues(sql);
    GlueKeepsVerdict(Tokenize(sql, Plain));
  }
}
