/** What the statement guard promises across inputs: appending a terminator, quoting
    arbitrary text, letter case, and escaped quoted names. */
module SqlLaws {
  import opened Wrappers
  import opened Errors
  import opened SqlTokens
  import opened SqlGuard

  // ----- Lexing in context -----

  /** `tokens` cut `s` when `after` follows it. */
  predicate Cuts(tokens: seq<Token>, s: string, after: string)
    decreases |tokens|
  {
    if tokens == [] then s == []
    else
      var text := tokens[0].text;
      text <= s && Fits(tokens[0], s[|text|..] + after, Plain) && Cuts(tokens[1..], s[|text|..], after)
  }

  /** Only the first character behind a token matters to it, or that there is none. */
  predicate SameFront(a: string, b: string) {
    (a == [] <==> b == []) && (a != [] ==> a[0] == b[0])
  }

  lemma FitsByFront(t: Token, a: string, b: string, d: Dialect)
    requires Fits(t, a, d) && SameFront(a, b)
    ensures Fits(t, b, d)
  {
  }

  lemma {:induction false} CutsByFront(tokens: seq<Token>, s: string, a: string, b: string)
    requires Cuts(tokens, s, a) && SameFront(a, b)
    ensures Cuts(tokens, s, b)
    decreases |tokens|
  {
    if tokens != [] {
      var rest := s[|tokens[0].text|..];
      FitsByFront(tokens[0], rest + a, rest + b, Plain);
      CutsByFront(tokens[1..], rest, a, b);
    }
  }

  lemma TokenizeFront(t: Token, rest: string, d: Dialect)
    requires Fits(t, rest, d)
    ensures Tokenize(t.text + rest, d) == [t] + Tokenize(rest, d)
  {
    FittingIsFirst(t, rest, d);
    assert (t.text + rest)[|t.text|..] == rest;
  }

  lemma Associate<T>(a: seq<T>, b: seq<T>, c: seq<T>)
    ensures a + b + c == a + (b + c)
  {
  }

  lemma {:induction false} CutsThenLexes(tokens: seq<Token>, s: string, after: string)
    requires Cuts(tokens, s, after)
    ensures Tokenize(s + after, Plain) == tokens + Tokenize(after, Plain)
    decreases |tokens|
  {
    hide FirstToken, Fits;
    if tokens == [] {
      assert s + after == after;
    } else {
      var t, rest := tokens[0], s[|tokens[0].text|..];
      CutsThenLexes(tokens[1..], rest, after);
      TokenizeFront(t, rest + after, Plain);
      Associate(t.text, rest, after);
      Associate([t], tokens[1..], Tokenize(after, Plain));
      assert t.text + rest == s;
      assert [t] + tokens[1..] == tokens;
    }
  }

  /** All but the last token cut their part of the text with the last token behind them. */
  lemma {:induction false} LexingCuts(s: string) returns (init: string, last: Token)
    requires s != []
    ensures var tokens := Tokenize(s, Plain);
            tokens != [] && last == tokens[|tokens| - 1] && s == init + last.text && last.text != [] &&
            Fits(last, [], Plain) && Cuts(tokens[..|tokens| - 1], init, last.text)
    decreases |s|
  {
    hide FirstToken;
    var t := FirstToken(s, Plain);
    var rest := s[|t.text|..];
    FirstTokenFits(s, Plain);
    assert s == t.text + rest;
    if rest == [] {
      init, last := [], t;
    } else {
      var init', last' := LexingCuts(rest);
      var inner := Tokenize(rest, Plain);
      assert Tokenize(s, Plain) == [t] + inner;
      init, last := t.text + init', last';
      assert ([t] + inner)[..|inner|] == [t] + inner[..|inner| - 1];
      CutsGrow(t, inner[..|inner| - 1], init', last.text);
      Associate(t.text, init', last.text);
    }
  }

  lemma CutsGrow(t: Token, tokens: seq<Token>, s: string, after: string)
    requires Cuts(tokens, s, after) && Fits(t, s + after, Plain)
    ensures Cuts([t] + tokens, t.text + s, after)
  {
    assert (t.text + s)[|t.text|..] == s;
    assert ([t] + tokens)[1..] == tokens;
  }

  // ----- Ending between tokens -----

  /** The token is over: nothing more could join it except a character of its own kind. */
  predicate Complete(t: Token) {
    match t.kind
    case LineComment => false
    case BlockComment => |t.text| >= 4 && ClosesAt(t.text, |t.text| - 2)
    case Literal => ClosedQuote(t.text, '\'')
    case QuotedName => |t.text| >= 2 && t.text[|t.text| - 1] == '"'
    case _ => true
  }

  predicate ClosedQuote(text: string, quote: char) {
    |text| >= 2 && text[0] == quote && text[|text| - 1] == quote && Doubled(text[1..|text| - 1], quote)
  }

  /** `s` ends outside comments and quotes. */
  predicate EndsClosed(s: string) {
    var tokens := Tokenize(s, Plain);
    tokens != [] ==> Complete(tokens[|tokens| - 1])
  }

  /** Lexing with the last token read again together with what follows. */
  lemma ReplaceLast(s: string, init: string, last: Token, after: string)
    requires s != [] && s == init + last.text && last.text != []
    requires var tokens := Tokenize(s, Plain);
             tokens != [] && Cuts(tokens[..|tokens| - 1], init, last.text)
    ensures var tokens := Tokenize(s, Plain);
            Tokenize(s + after, Plain) == tokens[..|tokens| - 1] + Tokenize(last.text + after, Plain)
  {
    hide FirstToken;
    var tokens := Tokenize(s, Plain);
    CutsByFront(tokens[..|tokens| - 1], init, last.text, last.text + after);
    CutsThenLexes(tokens[..|tokens| - 1], init, last.text + after);
    Associate(init, last.text, after);
  }

  /** If the last token fits in front of what follows, the two lexings just join. */
  lemma KeepLast(s: string, last: Token, after: string)
    requires var tokens := Tokenize(s, Plain); tokens != [] && last == tokens[|tokens| - 1]
    requires Fits(last, after, Plain)
    ensures Tokenize(s + after, Plain) == Tokenize(s, Plain) + Tokenize(after, Plain)
  {
    hide FirstToken, Fits;
    var tokens := Tokenize(s, Plain);
    var init, last := LexingCuts(s);
    ReplaceLast(s, init, last, after);
    TokenizeFront(last, after, Plain);
    Associate(tokens[..|tokens| - 1], [last], Tokenize(after, Plain));
    assert tokens[..|tokens| - 1] + [last] == tokens;
  }

  /** Text that ends closed is cut the same way in front of anything that does not
      continue its last token. */
  lemma ClosedCuts(s: string, after: string)
    requires EndsClosed(s)
    requires after != [] && !ContinuesWord(after[0]) && after[0] != '\'' && after[0] != '-' && after[0] != '*'
    ensures Tokenize(s + after, Plain) == Tokenize(s, Plain) + Tokenize(after, Plain)
  {
    hide FirstToken;
    if s == [] {
      assert s + after == after;
    } else {
      var init, last := LexingCuts(s);
      CompleteFits(last, after);
      KeepLast(s, last, after);
    }
  }

  lemma CompleteFits(t: Token, after: string)
    requires Fits(t, [], Plain) && Complete(t)
    requires after != [] && !ContinuesWord(after[0]) && after[0] != '\'' && after[0] != '-' && after[0] != '*'
    ensures Fits(t, after, Plain)
  {
    CompleteBlock(t.text);
  }

  lemma CompleteBlock(text: string)
    ensures |text| >= 4 && ClosesAt(text, |text| - 2) ==> !NoCloser(text[2..])
  {
    if |text| >= 4 && ClosesAt(text, |text| - 2) {
      assert ClosesAt(text[2..], |text| - 4);
    }
  }

  lemma {:induction false} WordsAreSignificant(tokens: seq<Token>)
    requires !HasSignificant(tokens)
    ensures Words(tokens) == []
  {
    if tokens != [] {
      assert !Significant(tokens[0].kind);
      assert forall i | 0 <= i < |tokens[1..]| :: tokens[1..][i] == tokens[i + 1];
      WordsAreSignificant(tokens[1..]);
    }
  }

  /** A terminator and more text after a statement that ends closed: the answer stays
      the same exactly when nothing significant follows, and otherwise there is more
      than one statement. */
  lemma AppendAfterTerminator(s: string, t: string)
    requires EndsClosed(s)
    ensures Inspection(s + ";" + t) ==
            if HasSignificant(Tokenize(t, Plain)) then Failure(MultipleStatements) else Inspection(s)
  {
    hide FirstToken;
    var a, b := Tokenize(s, Plain), Tokenize(t, Plain);
    var semi := Token(Terminator, ";");
    ClosedCuts(s, ";" + t);
    Associate(s, ";", t);
    TokenizeFront(semi, t, Plain);
    TerminatorVerdict(a, semi, b);
  }

  lemma TerminatorVerdict(a: seq<Token>, semi: Token, b: seq<Token>)
    requires semi.kind.Terminator?
    ensures Verdict(a + ([semi] + b)) == if HasSignificant(b) then Failure(MultipleStatements) else Verdict(a)
  {
    MoreThanOneConcat(a, [semi] + b);
    MoreThanOneConcat([semi], b);
    assert [semi][0].kind.Terminator?;
    WordsConcat(a, [semi] + b);
    assert ([semi] + b)[1..] == b;
    if !HasSignificant(b) {
      WordsAreSignificant(b);
      assert !HasSignificant([semi] + b) by {
        assert forall i | 0 < i < |[semi] + b| :: ([semi] + b)[i] == b[i - 1];
      }
      assert Words(a) + [] == Words(a);
    }
  }

  /** Text that can end no comment, literal or quoted name. */
  predicate Inert(t: string) {
    '\n' !in t && '\'' !in t && '"' !in t && '/' !in t
  }

  /** Behind text that does not end closed, inert text only makes the open token longer. */
  lemma OpenGrows(t: Token, after: string)
    requires Fits(t, [], Plain) && !Complete(t) && Inert(after)
    ensures Fits(Token(t.kind, t.text + after), [], Plain) && !t.kind.Word?
  {
    hide FitsDoubled, FitsPlain, FitsBlockComment, ClosesAt;
    match t.kind
    case Literal => OpenLiteralGrows(t.text, after);
    case QuotedName => OpenNameGrows(t.text, after);
    case BlockComment => OpenBlockGrows(t.text, after);
    case _ =>
  }

  lemma OpenLiteralGrows(text: string, after: string)
    requires FitsDoubled(text, [], '\'') && !ClosedQuote(text, '\'') && '\'' !in after
    ensures FitsDoubled(text + after, [], '\'')
  {
    hide Doubled;
    NoQuoteIsDoubled(after, '\'');
    DoubledConcat(text[1..], after, '\'');
    assert (text + after)[1..] == text[1..] + after;
  }

  lemma OpenNameGrows(text: string, after: string)
    requires FitsPlain(text, [], '"') && !(|text| >= 2 && text[|text| - 1] == '"') && '"' !in after
    ensures FitsPlain(text + after, [], '"')
  {
    assert (text + after)[1..] == text[1..] + after;
  }

  lemma OpenBlockGrows(text: string, after: string)
    requires FitsBlockComment(text, []) && !(|text| >= 4 && ClosesAt(text, |text| - 2)) && '/' !in after
    ensures FitsBlockComment(text + after, [])
  {
    hide ClosesAt, NoCloser;
    NoCloserGrows(text[2..], after);
    assert (text + after)[2..] == text[2..] + after;
  }

  lemma NoCloserGrows(a: string, b: string)
    requires NoCloser(a) && '/' !in b
    ensures NoCloser(a + b)
  {
    forall k | 0 <= k < |a + b| ensures !ClosesAt(a + b, k) {
      if k < |a| {
        assert !ClosesAt(a, k);
      }
    }
  }

  lemma OpenStaysOpen(s: string, after: string)
    requires !EndsClosed(s) && Inert(after)
    ensures Inspection(s + after) == Inspection(s)
  {
    hide FirstToken, Fits, Complete, Inert;
    var tokens := Tokenize(s, Plain);
    var init, last := LexingCuts(s);
    var longer := Token(last.kind, last.text + after);
    OpenGrows(last, after);
    ReplaceLast(s, init, last, after);
    TokenizeFront(longer, [], Plain);
    assert longer.text + [] == last.text + after;
    var lead := tokens[..|tokens| - 1];
    assert tokens == lead + [last] && Tokenize(s + after, Plain) == lead + [longer];
    WordsConcat(lead, [last]);
    WordsConcat(lead, [longer]);
    SameKinds(lead + [last], lead + [longer]);
  }

  /** A second statement is seen behind a text exactly when the text ends closed; behind
      any other text the answer stays as it was. */
  lemma SecondStatementSeen(s: string, t: string)
    requires Inert(t) && HasSignificant(Tokenize(t, Plain))
    requires Inspection(s) != Failure(MultipleStatements)
    ensures Inspection(s + ";" + t) == Failure(MultipleStatements) <==> EndsClosed(s)
    ensures !EndsClosed(s) ==> Inspection(s + ";" + t) == Inspection(s)
  {
    hide EndsClosed, HasSignificant;
    if EndsClosed(s) {
      AppendAfterTerminator(s, t);
    } else {
      assert Inert(";" + t);
      OpenStaysOpen(s, ";" + t);
      Associate(s, ";", t);
    }
  }

  // ----- What is accepted -----

  /** Token `i` is the first word, and spells `word`. */
  predicate FirstWord(tokens: seq<Token>, i: nat, word: string) {
    i < |tokens| && tokens[i].kind.Word? && Spells(tokens[i].text, word) &&
    forall j | 0 <= j < i :: !tokens[j].kind.Word?
  }

  /** Tokens `i` and `k` are the first two words and spell these. */
  predicate FirstWords(tokens: seq<Token>, i: nat, k: nat, first: string, second: string) {
    FirstWord(tokens, i, first) && i < k < |tokens| && tokens[k].kind.Word? && Spells(tokens[k].text, second) &&
    forall j | i < j < k :: !tokens[j].kind.Word?
  }

  /** A text spells one word only. */
  lemma SpellsOnce(text: string, word: string)
    ensures Spells(text, word) <==> Upper(text) == word
  {
    if Spells(text, word) {
      assert forall k | 0 <= k < |word| :: Upper(text)[k] == word[k];
    }
  }

  lemma {:induction false} LeadingWord(tokens: seq<Token>) returns (i: nat)
    requires Words(tokens) != []
    ensures FirstWord(tokens, i, Words(tokens)[0]) && Words(tokens)[1..] == Words(tokens[i + 1..])
  {
    if tokens[0].kind.Word? {
      i := 0;
    } else {
      i := LeadingWord(tokens[1..]);
      i := i + 1;
      assert forall j | 0 < j < i :: tokens[j] == tokens[1..][j - 1];
      assert tokens[1..][i..] == tokens[i + 1..];
    }
  }

  lemma {:induction false} WordsOfFirst(tokens: seq<Token>, i: nat, word: string)
    requires FirstWord(tokens, i, word)
    ensures Words(tokens) == [word] + Words(tokens[i + 1..])
  {
    SpellsOnce(tokens[i].text, word);
    if i > 0 {
      assert forall j | 0 <= j < i - 1 :: tokens[1..][j] == tokens[j + 1];
      WordsOfFirst(tokens[1..], i - 1, word);
      assert tokens[1..][i..] == tokens[i + 1..];
    }
  }

  lemma SecondLeadingWord(tokens: seq<Token>) returns (i: nat, k: nat)
    requires |Words(tokens)| >= 2
    ensures FirstWords(tokens, i, k, Words(tokens)[0], Words(tokens)[1])
  {
    i := LeadingWord(tokens);
    var j := LeadingWord(tokens[i + 1..]);
    k := i + 1 + j;
    assert Words(tokens)[1] == Words(tokens)[1..][0];
    assert forall l | i < l < k :: tokens[l] == tokens[i + 1..][l - i - 1];
  }

  lemma WordsOfFirstTwo(tokens: seq<Token>, i: nat, k: nat, first: string, second: string)
    requires FirstWords(tokens, i, k, first, second)
    ensures |Words(tokens)| >= 2 && Words(tokens)[0] == first && Words(tokens)[1] == second
  {
    WordsOfFirst(tokens, i, first);
    var rest := tokens[i + 1..];
    assert forall l | 0 <= l < k - i - 1 :: rest[l] == tokens[i + 1 + l];
    WordsOfFirst(rest, k - i - 1, second);
  }

  /** What the guard accepts, and as what: a single statement whose first word is
      `SELECT` or `WITH`, or `INSERT`, or whose first two are `CREATE` and `TABLE`. */
  lemma AcceptedExactly(sql: string, tokens: seq<Token>)
    requires Lexes(tokens, sql, Plain)
    ensures Inspection(sql) == Success(SelectQuery) <==>
            !MoreThanOne(tokens) && exists i :: FirstWord(tokens, i, "SELECT") || FirstWord(tokens, i, "WITH")
    ensures Inspection(sql) == Success(Insert) <==>
            !MoreThanOne(tokens) && exists i :: FirstWord(tokens, i, "INSERT")
    ensures Inspection(sql) == Success(CreateTable) <==>
            !MoreThanOne(tokens) && exists i, k :: FirstWords(tokens, i, k, "CREATE", "TABLE")
  {
    hide FirstToken, MoreThanOne, Lexes, FirstWord, FirstWords;
    LexingExistsUniquely(tokens, sql, Plain);
    ByFirstWord(tokens, "SELECT");
    ByFirstWord(tokens, "WITH");
    ByFirstWord(tokens, "INSERT");
    ByFirstWords(tokens, "CREATE", "TABLE");
    var words := Words(tokens);
    assert words != [] ==> FirstTwo(words) != [] && FirstTwo(words)[0] == words[0];
    assert |words| >= 2 ==> |FirstTwo(words)| == 2 && FirstTwo(words)[1] == words[1];
  }

  /** Without a word there is no statement. */
  lemma WordlessIsEmpty(sql: string, tokens: seq<Token>)
    requires Lexes(tokens, sql, Plain) && !MoreThanOne(tokens)
    requires forall i | 0 <= i < |tokens| :: !tokens[i].kind.Word?
    ensures Inspection(sql) == Failure(InvalidArgument("statement is empty"))
  {
    hide FirstToken, MoreThanOne, Lexes;
    LexingExistsUniquely(tokens, sql, Plain);
    WordlessWords(tokens);
  }

  lemma {:induction false} WordlessWords(tokens: seq<Token>)
    requires forall i | 0 <= i < |tokens| :: !tokens[i].kind.Word?
    ensures Words(tokens) == []
  {
    if tokens != [] {
      assert forall i | 0 <= i < |tokens[1..]| :: tokens[1..][i] == tokens[i + 1];
      WordlessWords(tokens[1..]);
    }
  }

  /** How a single statement is refused by its first word, which is reported in capitals:
      as unsupported, unless it is one of the five that are not. */
  lemma OtherWordRefused(sql: string, tokens: seq<Token>, i: nat, word: string)
    requires Lexes(tokens, sql, Plain) && !MoreThanOne(tokens) && FirstWord(tokens, i, word)
    ensures Inspection(sql) == Failure(Unsupported(word + " statements")) <==>
            word != "SELECT" && word != "WITH" && word != "INSERT" && word != "CREATE"
    ensures Inspection(sql) == Failure(InvalidArgument("incomplete CREATE statement")) <==>
            word == "CREATE" && forall k | i < k < |tokens| :: !tokens[k].kind.Word?
  {
    hide FirstToken, MoreThanOne, Lexes, FirstWord;
    LexingExistsUniquely(tokens, sql, Plain);
    WordsOfFirst(tokens, i, word);
    var words := Words(tokens);
    assert FirstTwo(words)[0] == word;
    LoneWord(tokens, i, word);
    if word == "CREATE" {
      CreateDiffers(if |FirstTwo(words)| == 2 then FirstTwo(words)[1] else []);
    }
  }

  lemma CreateDiffers(second: string)
    ensures "CREATE " + second + " statements" != "CREATE" + " statements"
  {
    assert |"CREATE " + second + " statements"| > |"CREATE" + " statements"|;
  }

  lemma LoneWord(tokens: seq<Token>, i: nat, word: string)
    requires FirstWord(tokens, i, word)
    ensures |Words(tokens)| == 1 <==> forall k | i < k < |tokens| :: !tokens[k].kind.Word?
  {
    WordsOfFirst(tokens, i, word);
    var rest := tokens[i + 1..];
    assert forall k | i < k < |tokens| :: tokens[k] == rest[k - i - 1];
    assert forall k | 0 <= k < |rest| :: rest[k] == tokens[i + 1 + k];
    if forall k | 0 <= k < |rest| :: !rest[k].kind.Word? {
      WordlessWords(rest);
    } else if Words(rest) == [] {
      WordsHold(rest);
    }
  }

  lemma {:induction false} WordsHold(tokens: seq<Token>)
    requires Words(tokens) == []
    ensures forall i | 0 <= i < |tokens| :: !tokens[i].kind.Word?
  {
    if tokens != [] {
      WordsHold(tokens[1..]);
      assert forall i | 0 < i < |tokens| :: tokens[i] == tokens[1..][i - 1];
    }
  }

  /** Of the statements that create something, only tables are let through. */
  lemma CreateRefused(sql: string, tokens: seq<Token>, i: nat, k: nat, second: string)
    requires Lexes(tokens, sql, Plain) && !MoreThanOne(tokens) && FirstWords(tokens, i, k, "CREATE", second)
    ensures Inspection(sql) ==
            if second == "TABLE" then Success(CreateTable) else Failure(Unsupported("CREATE " + second + " statements"))
  {
    hide FirstToken, MoreThanOne, Lexes, FirstWords;
    LexingExistsUniquely(tokens, sql, Plain);
    WordsOfFirstTwo(tokens, i, k, "CREATE", second);
    assert FirstTwo(Words(tokens))[0] == "CREATE" && FirstTwo(Words(tokens))[1] == second;
  }

  /** The leading words by position in the lexing. */
  lemma ByFirstWord(tokens: seq<Token>, word: string)
    ensures (exists i :: FirstWord(tokens, i, word)) <==> Words(tokens) != [] && Words(tokens)[0] == word
  {
    hide FirstWord;
    forall i: nat | FirstWord(tokens, i, word) ensures Words(tokens) != [] && Words(tokens)[0] == word {
      WordsOfFirst(tokens, i, word);
    }
    if Words(tokens) != [] {
      var i := LeadingWord(tokens);
    }
  }

  lemma ByFirstWords(tokens: seq<Token>, first: string, second: string)
    ensures (exists i, k :: FirstWords(tokens, i, k, first, second)) <==>
            |Words(tokens)| >= 2 && Words(tokens)[0] == first && Words(tokens)[1] == second
  {
    hide FirstWords;
    forall i: nat, k: nat | FirstWords(tokens, i, k, first, second)
      ensures |Words(tokens)| >= 2 && Words(tokens)[0] == first && Words(tokens)[1] == second
    {
      WordsOfFirstTwo(tokens, i, k, first, second);
    }
    if |Words(tokens)| >= 2 {
      var i, k := SecondLeadingWord(tokens);
    }
  }

  // ----- Literals are opaque -----

  function Escape(payload: string): string {
    if payload == [] then []
    else (if payload[0] == '\'' then "''" else [payload[0]]) + Escape(payload[1..])
  }

  /** `payload` as a SQL string literal. */
  function Quoted(payload: string): string {
    "'" + Escape(payload) + "'"
  }

  lemma {:induction false} EscapeDoubles(payload: string)
    ensures Doubled(Escape(payload), '\'')
  {
    if payload != [] {
      EscapeDoubles(payload[1..]);
      var head := if payload[0] == '\'' then "''" else [payload[0]];
      assert Doubled(head, '\'') by {
        assert head[|head|..] == [];
      }
      DoubledConcat(head, Escape(payload[1..]), '\'');
    }
  }

  lemma QuotedIsClosed(payload: string)
    ensures ClosedQuote(Quoted(payload), '\'')
  {
    EscapeDoubles(payload);
    assert Quoted(payload)[1..|Quoted(payload)| - 1] == Escape(payload);
  }

  /** Two closed literals side by side read as one. */
  lemma ClosedQuotesJoin(a: string, b: string, quote: char)
    requires ClosedQuote(a, quote) && ClosedQuote(b, quote)
    ensures ClosedQuote(a + b, quote)
  {
    var x, y := a[1..|a| - 1], b[1..|b| - 1];
    var pair := [quote, quote];
    assert Doubled(pair, quote) by {
      assert pair[2..] == [];
    }
    DoubledConcat(x, pair, quote);
    DoubledConcat(x + pair, y, quote);
    assert (a + b)[1..|a + b| - 1] == x + pair + y;
  }

  /** An open quote behind a closed one reads on as one open quote. */
  lemma ClosedThenOpen(a: string, b: string, quote: char)
    requires ClosedQuote(a, quote) && Starts(b, quote) && Doubled(b[1..], quote)
    ensures Doubled((a + b)[1..], quote)
  {
    var x, y := a[1..|a| - 1], b[1..];
    var pair := [quote, quote];
    assert Doubled(pair, quote) by {
      assert pair[2..] == [];
    }
    DoubledConcat(x, pair, quote);
    DoubledConcat(x + pair, y, quote);
    assert (a + b)[1..] == x + pair + y;
  }

  lemma {:induction false} DoubledEndSkips(s: string, i: nat, j: nat, quote: char)
    requires i <= j <= |s| && Doubled(s[i..j], quote)
    ensures DoubledEnd(s, i, quote) == DoubledEnd(s, j, quote)
    decreases j - i
  {
    if i < j {
      var step := if s[i] == quote then 2 else 1;
      assert s[i..j][step..] == s[i + step..j];
      DoubledEndSkips(s, i + step, j, quote);
    }
  }

  lemma {:induction false} DoubledEndShifts(a: string, b: string, i: nat, quote: char)
    requires i <= |b|
    ensures DoubledEnd(a + b, |a| + i, quote) == |a| + DoubledEnd(b, i, quote)
    decreases |b| - i
  {
    if i < |b| {
      var s := a + b;
      assert s[|a| + i] == b[i];
      if b[i] != quote {
        DoubledEndShifts(a, b, i + 1, quote);
      } else if i + 1 < |b| {
        assert s[|a| + i + 1] == b[i + 1];
        if b[i + 1] == quote {
          DoubledEndShifts(a, b, i + 2, quote);
        }
      }
    }
  }

  /** How much of `rest` belongs to a literal that was just closed in front of it. */
  function Carry(rest: string): (n: nat)
    ensures n <= |rest|
  {
    if Starts(rest, '\'') then DoubledEnd(rest, 1, '\'') else 0
  }

  lemma LiteralInFront(text: string, rest: string)
    requires ClosedQuote(text, '\'')
    ensures Tokenize(text + rest, Plain) ==
            [Token(Literal, text + rest[..Carry(rest)])] + Tokenize(rest[Carry(rest)..], Plain)
  {
    hide FirstToken;
    var s, n, k := text + rest, |text|, Carry(rest);
    CarryEnds(text, rest);
    assert s[0] == text[0];
    DoubledFits(s, '\'');
    hide DoubledEnd, Doubled, FitsDoubled, ClosedQuote;
    assert s[..n + k] == text + rest[..k] && s[n + k..] == rest[k..];
    TokenizeFront(Token(Literal, text + rest[..k]), rest[k..], Plain);
    Associate(text, rest[..k], rest[k..]);
    assert rest[..k] + rest[k..] == rest;
  }

  lemma CarryEnds(text: string, rest: string)
    requires ClosedQuote(text, '\'')
    ensures DoubledEnd(text + rest, 1, '\'') == |text| + Carry(rest)
  {
    var s, n := text + rest, |text|;
    assert s[1..n - 1] == text[1..n - 1];
    DoubledEndSkips(s, 1, n - 1, '\'');
    if Starts(rest, '\'') {
      assert s[n] == rest[0];
      DoubledEndShifts(text, rest, 1, '\'');
    }
  }

  /** The tokens a closed text keeps when a literal is written behind it. */
  function Settled(s: string): seq<Token> {
    var tokens := Tokenize(s, Plain);
    if tokens != [] && tokens[|tokens| - 1].kind.Literal? then tokens[..|tokens| - 1] else tokens
  }

  /** A closed literal behind closed text adds one literal token; neither its content
      nor what follows it can tell what it holds. */
  lemma LexAroundLiteral(s: string, literal: string, rest: string) returns (t: Token)
    requires EndsClosed(s) && ClosedQuote(literal, '\'')
    ensures t.kind.Literal?
    ensures Tokenize(s + literal + rest, Plain) == Settled(s) + ([t] + Tokenize(rest[Carry(rest)..], Plain))
  {
    hide FirstToken, Fits;
    Associate(s, literal, rest);
    var after := literal + rest;
    var tokens := Tokenize(s, Plain);
    if s == [] {
      assert s + after == after;
      LiteralInFront(literal, rest);
      t := Token(Literal, literal + rest[..Carry(rest)]);
    } else {
      var init, last := LexingCuts(s);
      if last.kind.Literal? {
        ReplaceLast(s, init, last, after);
        ClosedQuotesJoin(last.text, literal, '\'');
        Associate(last.text, literal, rest);
        LiteralInFront(last.text + literal, rest);
        t := Token(Literal, last.text + literal + rest[..Carry(rest)]);
      } else {
        NonLiteralFits(last, after);
        KeepLast(s, last, after);
        LiteralInFront(literal, rest);
        t := Token(Literal, literal + rest[..Carry(rest)]);
      }
    }
  }

  lemma NonLiteralFits(t: Token, after: string)
    requires Fits(t, [], Plain) && Complete(t) && !t.kind.Literal? && Starts(after, '\'')
    ensures Fits(t, after, Plain)
  {
    CompleteBlock(t.text);
  }

  lemma LiteralVerdict(a: seq<Token>, x: Token, y: Token, b: seq<Token>)
    requires x.kind.Literal? && y.kind.Literal?
    ensures Verdict(a + ([x] + b)) == Verdict(a + ([y] + b))
  {
    WordsConcat(a, [x] + b);
    WordsConcat(a, [y] + b);
    assert ([x] + b)[1..] == b && ([y] + b)[1..] == b;
    SameKinds(a + ([x] + b), a + ([y] + b));
  }

  lemma SameKinds(a: seq<Token>, b: seq<Token>)
    requires |a| == |b| && forall i | 0 <= i < |a| :: a[i].kind == b[i].kind
    ensures MoreThanOne(a) <==> MoreThanOne(b)
  {
  }

  /** Literals are opaque: behind any text that ends outside quotes and comments, and
      whatever follows, a literal can hold any payload without changing the answer. */
  lemma LiteralsAreOpaque(s: string, payload: string, rest: string)
    requires EndsClosed(s)
    ensures Inspection(s + Quoted(payload) + rest) == Inspection(s + Quoted("") + rest)
  {
    hide FirstToken;
    QuotedIsClosed(payload);
    QuotedIsClosed("");
    var x := LexAroundLiteral(s, Quoted(payload), rest);
    var y := LexAroundLiteral(s, Quoted(""), rest);
    LiteralVerdict(Settled(s), x, y, Tokenize(rest[Carry(rest)..], Plain));
  }

  // ----- Letter case -----

  function UpperToken(t: Token): Token {
    Token(t.kind, Upper(t.text))
  }

  function UpperTokens(tokens: seq<Token>): seq<Token> {
    if tokens == [] then [] else [UpperToken(tokens[0])] + UpperTokens(tokens[1..])
  }

  lemma UpperConcat(a: string, b: string)
    ensures Upper(a + b) == Upper(a) + Upper(b)
  {
  }

  lemma {:induction false} DoubledUpper(s: string, quote: char)
    requires quote == '\'' || quote == '"'
    ensures Doubled(Upper(s), quote) == Doubled(s, quote)
  {
    if s != [] {
      assert Upper(s)[1..] == Upper(s[1..]);
      DoubledUpper(s[1..], quote);
      if |s| >= 2 {
        assert Upper(s)[2..] == Upper(s[2..]);
        DoubledUpper(s[2..], quote);
      }
    }
  }

  lemma FitsUpper(t: Token, rest: string)
    requires Fits(t, rest, Plain)
    ensures Fits(UpperToken(t), Upper(rest), Plain)
  {
    if t.kind.Literal? {
      hide FitsDoubled;
      DoubledFitsUpper(t.text, rest, '\'');
    } else if t.kind.BlockComment? {
      hide FitsBlockComment;
      BlockFitsUpper(t.text, rest);
    } else if t.kind.Word? {
      hide FitsWord;
      WordFitsUpper(t.text, rest);
    }
  }

  lemma DoubledFitsUpper(text: string, rest: string, quote: char)
    requires FitsDoubled(text, rest, quote) && (quote == '\'' || quote == '"')
    ensures FitsDoubled(Upper(text), Upper(rest), quote)
  {
    var u, n := Upper(text), |text|;
    if rest == [] && Doubled(text[1..], quote) {
      DoubledUpper(text[1..], quote);
      assert u[1..] == Upper(text[1..]);
    } else {
      DoubledUpper(text[1..n - 1], quote);
      assert u[1..n - 1] == Upper(text[1..n - 1]);
    }
  }

  lemma BlockFitsUpper(text: string, rest: string)
    requires FitsBlockComment(text, rest)
    ensures FitsBlockComment(Upper(text), Upper(rest))
  {
    var u, n := Upper(text), |text|;
    if rest == [] && NoCloser(text[2..]) {
      NoCloserUpper(text[2..]);
      assert u[2..] == Upper(text[2..]);
    } else {
      NoCloserUpper(text[2..n - 1]);
      assert u[2..n - 1] == Upper(text[2..n - 1]);
    }
  }

  lemma NoCloserUpper(s: string)
    ensures NoCloser(Upper(s)) <==> NoCloser(s)
  {
    assert forall k | 0 <= k < |s| :: ClosesAt(Upper(s), k) == ClosesAt(s, k);
  }

  lemma WordFitsUpper(text: string, rest: string)
    requires FitsWord(text, rest)
    ensures FitsWord(Upper(text), Upper(rest))
  {
  }

  lemma {:induction false} TokenizeUpper(s: string)
    ensures Tokenize(Upper(s), Plain) == UpperTokens(Tokenize(s, Plain))
    decreases |s|
  {
    hide FirstToken, Fits;
    if s != [] {
      var t := FirstToken(s, Plain);
      var rest := s[|t.text|..];
      FirstTokenFits(s, Plain);
      FitsUpper(t, rest);
      assert s == t.text + rest;
      UpperConcat(t.text, rest);
      TokenizeFront(UpperToken(t), Upper(rest), Plain);
      TokenizeUpper(rest);
    }
  }

  lemma {:induction false} UpperTokensKeep(tokens: seq<Token>)
    ensures |UpperTokens(tokens)| == |tokens|
    ensures forall i | 0 <= i < |tokens| :: UpperTokens(tokens)[i].kind == tokens[i].kind
    ensures Words(UpperTokens(tokens)) == Words(tokens)
  {
    if tokens != [] {
      UpperTokensKeep(tokens[1..]);
      assert Upper(Upper(tokens[0].text)) == Upper(tokens[0].text);
    }
  }

  /** The same character, or a letter in the other case. */
  predicate SameLetter(c: char, d: char) {
    c == d || ('a' <= c <= 'z' && c as int == d as int + 32) || ('a' <= d <= 'z' && d as int == c as int + 32)
  }

  /** Letter case does not matter: texts that differ only in the case of letters get one
      answer. */
  lemma CaseInsensitive(s: string, s': string)
    requires |s| == |s'| && forall k | 0 <= k < |s| :: SameLetter(s[k], s'[k])
    ensures Inspection(s) == Inspection(s')
  {
    hide FirstToken;
    assert Upper(s) == Upper(s');
    CaseVerdict(s);
    CaseVerdict(s');
  }

  lemma CaseVerdict(s: string)
    ensures Verdict(Tokenize(Upper(s), Plain)) == Verdict(Tokenize(s, Plain))
  {
    hide FirstToken;
    var tokens := Tokenize(s, Plain);
    TokenizeUpper(s);
    UpperTokensKeep(tokens);
    SameKinds(tokens, UpperTokens(tokens));
  }
}
