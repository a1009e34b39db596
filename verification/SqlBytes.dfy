/** The scanner walks bytes, the statement is text: walking the UTF-8 encoding gives the
    answer that walking the characters would. */
module SqlBytes {
  import opened Wrappers
  import opened Errors
  import opened SqlTokens
  import opened SqlGuard
  import opened SqlLaws

  predicate IsAscii(c: char) {
    c < '\U{0080}'
  }

  /** UTF-8 (section 3 of RFC 3629), one `char` per byte. */
  function Utf8(c: char): (bytes: string)
    ensures bytes != [] && (IsAscii(c) ==> bytes == [c])
    ensures !IsAscii(c) ==> forall k | 0 <= k < |bytes| :: '\U{0080}' <= bytes[k] <= '\U{00FF}'
  {
    var n := c as int;
    if n < 0x80 then [c]
    else if n < 0x800 then [(0xC0 + n / 0x40) as char, Tail(n)]
    else if n < 0x1_0000 then [(0xE0 + n / 0x1000) as char, Tail(n / 0x40), Tail(n)]
    else [(0xF0 + n / 0x4_0000) as char, Tail(n / 0x1000), Tail(n / 0x40), Tail(n)]
  }

  /** A continuation byte: the low six bits. */
  function Tail(n: nat): (b: char)
    ensures '\U{0080}' <= b <= '\U{00BF}'
  {
    (0x80 + n % 0x40) as char
  }

  /** The code point that a UTF-8 sequence of this length carries. */
  function CodePoint(bytes: string): int
    requires 1 <= |bytes| <= 4
  {
    if |bytes| == 1 then bytes[0] as int
    else if |bytes| == 2 then 0x40 * (bytes[0] as int - 0xC0) + Low(bytes[1])
    else if |bytes| == 3 then 0x1000 * (bytes[0] as int - 0xE0) + 0x40 * Low(bytes[1]) + Low(bytes[2])
    else 0x4_0000 * (bytes[0] as int - 0xF0) + 0x1000 * Low(bytes[1]) + 0x40 * Low(bytes[2]) + Low(bytes[3])
  }

  function Low(b: char): int {
    b as int - 0x80
  }

  /** Every character is encoded in the shortest sequence that carries its code point. */
  lemma Utf8Carries(c: char)
    ensures var n := c as int;
            |Utf8(c)| == (if n < 0x80 then 1 else if n < 0x800 then 2 else if n < 0x1_0000 then 3 else 4) &&
            CodePoint(Utf8(c)) == n
  {
    var n := c as int;
    assert n == 0x40 * (n / 0x40) + n % 0x40;
    assert n / 0x40 == 0x40 * (n / 0x1000) + n / 0x40 % 0x40;
    assert n / 0x1000 == 0x40 * (n / 0x4_0000) + n / 0x1000 % 0x40;
  }

  function Encode(s: string): string {
    if s == [] then [] else Utf8(s[0]) + Encode(s[1..])
  }

  lemma {:induction false} EncodeConcat(a: string, b: string)
    ensures Encode(a + b) == Encode(a) + Encode(b)
  {
    if a == [] {
      assert a + b == b;
    } else {
      assert (a + b)[1..] == a[1..] + b;
      EncodeConcat(a[1..], b);
      Associate(Utf8(a[0]), Encode(a[1..]), Encode(b));
    }
  }

  /** A position in an encoding is a boundary exactly when it lies between the encodings of
      two characters, or at an end. */
  lemma {:induction false} BoundariesExactly(s: string, i: nat)
    requires i <= |Encode(s)|
    ensures CharBoundary(Encode(s), i) <==> exists n :: 0 <= n <= |s| && |Encode(s[..n])| == i
  {
    hide Utf8;
    assert s[..0] == [] && s[..|s|] == s;
    if s != [] {
      var front, rest := Utf8(s[0]), s[1..];
      Utf8Boundaries(s[0]);
      forall n | 0 < n <= |s| ensures |Encode(s[..n])| == |front| + |Encode(rest[..n - 1])| {
        assert s[..n][1..] == rest[..n - 1];
      }
      if i == 0 {
        assert |Encode(s[..0])| == 0;
      } else if i < |front| {
        assert !CharBoundary(front, i) && Encode(s)[i] == front[i];
        assert |Encode(s[..0])| == 0;
      } else {
        var j := i - |front|;
        assert i < |Encode(s)| ==> Encode(s)[i] == Encode(rest)[j];
        BoundariesExactly(rest, j);
        if n :| 0 <= n <= |rest| && |Encode(rest[..n])| == j {
          assert |Encode(s[..n + 1])| == i;
        }
        if n :| 0 <= n <= |s| && |Encode(s[..n])| == i {
          assert n > 0 && |Encode(rest[..n - 1])| == j;
        }
      }
    }
  }

  lemma Utf8Boundaries(c: char)
    ensures CharBoundary(Utf8(c), 0) && forall k | 0 < k < |Utf8(c)| :: !CharBoundary(Utf8(c), k)
  {
  }

  lemma {:induction false} EncodeAscii(s: string)
    requires forall k | 0 <= k < |s| :: IsAscii(s[k])
    ensures Encode(s) == s
  {
    if s != [] {
      EncodeAscii(s[1..]);
    }
  }

  /** The front of an encoding is the front of the text as far as ASCII goes, and every
      byte of it is high otherwise. */
  lemma EncodeFront(s: string)
    ensures s == [] <==> Encode(s) == []
    ensures s != [] ==> if IsAscii(s[0]) then Encode(s)[0] == s[0] else !IsAscii(Encode(s)[0])
    ensures s != [] && IsAscii(s[0]) ==> Encode(s)[1..] == Encode(s[1..])
  {
  }

  lemma {:induction false} EncodeKeepsAscii(s: string, c: char)
    requires IsAscii(c)
    ensures c in Encode(s) <==> c in s
  {
    if s != [] {
      EncodeKeepsAscii(s[1..], c);
      assert s == [s[0]] + s[1..];
    }
  }

  lemma {:induction false} EncodeKeepsDoubled(s: string, quote: char)
    requires IsAscii(quote)
    ensures Doubled(Encode(s), quote) <==> Doubled(s, quote)
  {
    if s != [] {
      var rest := Encode(s[1..]);
      EncodeKeepsDoubled(s[1..], quote);
      EncodeFront(s[1..]);
      if s[0] != quote {
        NoQuoteIsDoubled(Utf8(s[0]), quote);
        DoubledConcat(Utf8(s[0]), rest, quote);
      } else if |s| >= 2 && s[1] == quote {
        EncodeKeepsDoubled(s[2..], quote);
        assert s[1..][1..] == s[2..];
        assert Encode(s) == [quote, quote] + Encode(s[2..]);
        assert Encode(s)[2..] == Encode(s[2..]);
      } else {
        assert Encode(s) == [quote] + rest;
        assert |s| >= 2 ==> s[1..][0] == s[1];
      }
    }
  }

  lemma NoCloserFront(c: char, s: string)
    ensures NoCloser([c] + s) <==> NoCloser(s) && !(c == '*' && Starts(s, '/'))
  {
    var t := [c] + s;
    assert ClosesAt(t, 0) <==> c == '*' && Starts(s, '/');
    assert forall k | 0 <= k < |s| :: ClosesAt(t, k + 1) == ClosesAt(s, k);
    assert forall k | 0 < k < |t| :: ClosesAt(t, k) == ClosesAt(s, k - 1);
  }

  lemma {:induction false} HighBytesClose(high: string, s: string)
    requires forall k | 0 <= k < |high| :: !IsAscii(high[k])
    ensures NoCloser(high + s) <==> NoCloser(s)
  {
    if high == [] {
      assert high + s == s;
    } else {
      HighBytesClose(high[1..], s);
      NoCloserFront(high[0], high[1..] + s);
      assert high + s == [high[0]] + (high[1..] + s);
    }
  }

  lemma {:induction false} EncodeKeepsClosers(s: string)
    ensures NoCloser(Encode(s)) <==> NoCloser(s)
  {
    if s != [] {
      EncodeKeepsClosers(s[1..]);
      EncodeFront(s[1..]);
      NoCloserFront(s[0], s[1..]);
      assert s == [s[0]] + s[1..];
      if IsAscii(s[0]) {
        NoCloserFront(s[0], Encode(s[1..]));
      } else {
        HighBytesClose(Utf8(s[0]), Encode(s[1..]));
      }
    }
  }

  // ----- Tokens -----

  function HighSymbols(bytes: string): seq<Token> {
    if bytes == [] then [] else [Token(Symbol, bytes[..1])] + HighSymbols(bytes[1..])
  }

  /** The tokens a token's encoding is cut into: itself, except that a symbol beyond
      ASCII becomes one symbol for each of its bytes. */
  function ByteTokens(t: Token): seq<Token> {
    if t.kind.Symbol? then HighSymbols(Encode(t.text)) else [Token(t.kind, Encode(t.text))]
  }

  function AllByteTokens(tokens: seq<Token>): seq<Token> {
    if tokens == [] then [] else ByteTokens(tokens[0]) + AllByteTokens(tokens[1..])
  }

  /** Text between ASCII delimiters keeps its delimiters. */
  lemma EncodeBetween(a: string, body: string, b: string)
    requires (forall k | 0 <= k < |a| :: IsAscii(a[k])) && forall k | 0 <= k < |b| :: IsAscii(b[k])
    ensures Encode(a + body + b) == a + Encode(body) + b
  {
    EncodeConcat(a + body, b);
    EncodeConcat(a, body);
    EncodeAscii(a);
    EncodeAscii(b);
  }

  lemma EncodeAfter(a: string, body: string)
    requires forall k | 0 <= k < |a| :: IsAscii(a[k])
    ensures Encode(a + body) == a + Encode(body)
  {
    EncodeConcat(a, body);
    EncodeAscii(a);
  }

  lemma DoubledFitsBytes(text: string, rest: string, quote: char)
    requires FitsDoubled(text, rest, quote) && IsAscii(quote)
    ensures FitsDoubled(Encode(text), Encode(rest), quote)
  {
    hide Encode;
    var u := Encode(text);
    EncodeFront(rest);
    if rest == [] && Doubled(text[1..], quote) {
      assert text == [quote] + text[1..];
      EncodeAfter([quote], text[1..]);
      EncodeKeepsDoubled(text[1..], quote);
      assert u[1..] == Encode(text[1..]);
    } else {
      var body := text[1..|text| - 1];
      assert text == [quote] + body + [quote];
      EncodeBetween([quote], body, [quote]);
      EncodeKeepsDoubled(body, quote);
      assert u[1..|u| - 1] == Encode(body);
    }
  }

  lemma PlainFitsBytes(text: string, rest: string, quote: char)
    requires FitsPlain(text, rest, quote) && IsAscii(quote)
    ensures FitsPlain(Encode(text), Encode(rest), quote)
  {
    hide Encode;
    var u := Encode(text);
    EncodeFront(rest);
    if rest == [] && quote !in text[1..] {
      assert text == [quote] + text[1..];
      EncodeAfter([quote], text[1..]);
      EncodeKeepsAscii(text[1..], quote);
      assert u[1..] == Encode(text[1..]);
    } else {
      var body := text[1..|text| - 1];
      assert text == [quote] + body + [quote];
      EncodeBetween([quote], body, [quote]);
      EncodeKeepsAscii(body, quote);
      assert u[1..|u| - 1] == Encode(body);
    }
  }

  lemma BlockFitsBytes(text: string, rest: string)
    requires FitsBlockComment(text, rest)
    ensures FitsBlockComment(Encode(text), Encode(rest))
  {
    if rest == [] && NoCloser(text[2..]) {
      OpenBlockBytes(text);
    } else {
      ClosedBlockBytes(text, Encode(rest));
    }
  }

  lemma OpenBlockBytes(text: string)
    requires |text| >= 2 && text[0] == '/' && text[1] == '*' && NoCloser(text[2..])
    ensures FitsBlockComment(Encode(text), [])
  {
    hide Encode;
    assert text == "/*" + text[2..];
    EncodeAfter("/*", text[2..]);
    EncodeKeepsClosers(text[2..]);
    assert Encode(text)[2..] == Encode(text[2..]);
  }

  lemma ClosedBlockBytes(text: string, rest: string)
    requires |text| >= 4 && text[0] == '/' && text[1] == '*'
    requires ClosesAt(text, |text| - 2) && NoCloser(text[2..|text| - 1])
    ensures FitsBlockComment(Encode(text), rest)
  {
    hide Encode, NoCloser;
    var body := text[2..|text| - 2];
    assert text == "/*" + body + "*/";
    assert text[2..|text| - 1] == [] + body + "*";
    EncodeBetween("/*", body, "*/");
    EncodeBetween([], body, "*");
    EncodeKeepsClosers(text[2..|text| - 1]);
    assert [] + Encode(body) + "*" == Encode(body) + "*";
    ClosedBlock(Encode(body));
  }

  lemma ClosedBlock(body: string)
    requires NoCloser(body + "*")
    ensures forall rest :: FitsBlockComment("/*" + body + "*/", rest)
  {
    var u := "/*" + body + "*/";
    assert u[2..|u| - 1] == body + "*";
  }

  lemma LineFitsBytes(text: string, rest: string)
    requires FitsLineComment(text, rest)
    ensures FitsLineComment(Encode(text), Encode(rest))
  {
    hide Encode;
    EncodeFront(rest);
    assert text == "--" + text[2..];
    EncodeAfter("--", text[2..]);
    EncodeKeepsAscii(text, '\n');
  }

  lemma {:induction false} EncodeContinues(s: string)
    requires forall k | 0 <= k < |s| :: ContinuesWord(s[k])
    ensures forall k | 0 <= k < |Encode(s)| :: ContinuesWord(Encode(s)[k])
  {
    if s != [] {
      EncodeContinues(s[1..]);
    }
  }

  lemma WordFitsBytes(text: string, rest: string)
    requires FitsWord(text, rest)
    ensures FitsWord(Encode(text), Encode(rest))
  {
    EncodeFront(text);
    EncodeFront(rest);
    EncodeContinues(text);
  }

  /** Every token but a symbol beyond ASCII keeps its place in the encoding. */
  lemma FitsBytes(t: Token, rest: string)
    requires Fits(t, rest, Plain) && (t.kind.Symbol? ==> IsAscii(t.text[0]))
    ensures Fits(Token(t.kind, Encode(t.text)), Encode(rest), Plain)
  {
    hide FitsDoubled, FitsPlain, FitsBlockComment, FitsLineComment, FitsWord;
    match t.kind
    case LineComment => LineFitsBytes(t.text, rest);
    case BlockComment => BlockFitsBytes(t.text, rest);
    case Literal => DoubledFitsBytes(t.text, rest, '\'');
    case QuotedName => PlainFitsBytes(t.text, rest, '"');
    case Word => WordFitsBytes(t.text, rest);
    case _ =>
      EncodeAscii(t.text);
      EncodeFront(rest);
  }

  lemma {:induction false} HighBytesLex(high: string, after: string)
    requires forall k | 0 <= k < |high| :: !IsAscii(high[k])
    ensures Tokenize(high + after, Plain) == HighSymbols(high) + Tokenize(after, Plain)
  {
    hide FirstToken;
    if high == [] {
      assert high + after == after;
    } else {
      var t := Token(Symbol, high[..1]);
      HighBytesLex(high[1..], after);
      TokenizeFront(t, high[1..] + after, Plain);
      Associate(high[..1], high[1..], after);
      assert high[..1] + high[1..] == high;
      Associate([t], HighSymbols(high[1..]), Tokenize(after, Plain));
    }
  }

  lemma ByteTokensLex(t: Token, rest: string)
    requires Fits(t, rest, Plain)
    ensures Tokenize(Encode(t.text + rest), Plain) == ByteTokens(t) + Tokenize(Encode(rest), Plain)
  {
    hide FirstToken;
    EncodeConcat(t.text, rest);
    if t.kind.Symbol? && !IsAscii(t.text[0]) {
      assert t.text == [t.text[0]];
      assert Encode(t.text) == Utf8(t.text[0]) + [];
      HighBytesLex(Encode(t.text), Encode(rest));
    } else {
      hide Fits;
      FitsBytes(t, rest);
      TokenizeFront(Token(t.kind, Encode(t.text)), Encode(rest), Plain);
      if t.kind.Symbol? {
        AsciiSymbol(t, rest);
      }
    }
  }

  lemma AsciiSymbol(t: Token, rest: string)
    requires Fits(t, rest, Plain) && t.kind.Symbol? && IsAscii(t.text[0])
    ensures ByteTokens(t) == [Token(Symbol, Encode(t.text))]
  {
    EncodeAscii(t.text);
    assert t.text[..1] == t.text && HighSymbols(t.text[1..]) == [];
  }

  lemma {:induction false} TokenizeBytes(s: string)
    ensures Tokenize(Encode(s), Plain) == AllByteTokens(Tokenize(s, Plain))
    decreases |s|
  {
    hide FirstToken, Fits;
    if s != [] {
      var t := FirstToken(s, Plain);
      var rest := s[|t.text|..];
      FirstTokenFits(s, Plain);
      assert s == t.text + rest;
      ByteTokensLex(t, rest);
      TokenizeBytes(rest);
      assert Tokenize(s, Plain) == [t] + Tokenize(rest, Plain);
      assert ([t] + Tokenize(rest, Plain))[1..] == Tokenize(rest, Plain);
    }
  }

  // ----- Verdicts -----

  function EncodeAll(words: seq<string>): (encoded: seq<string>)
    ensures |encoded| == |words| && forall i | 0 <= i < |words| :: encoded[i] == Encode(words[i])
  {
    seq(|words|, i requires 0 <= i < |words| => Encode(words[i]))
  }

  lemma {:induction false} EncodeUpper(s: string)
    ensures Upper(Encode(s)) == Encode(Upper(s))
  {
    if s != [] {
      EncodeUpper(s[1..]);
      assert Upper(s)[1..] == Upper(s[1..]);
      UpperConcat(Utf8(s[0]), Encode(s[1..]));
      if !IsAscii(s[0]) {
        assert Upper(Utf8(s[0])) == Utf8(s[0]);
      }
    }
  }

  lemma {:induction false} HighSymbolsCount(bytes: string)
    ensures Words(HighSymbols(bytes)) == [] && !HasTerminator(HighSymbols(bytes))
    ensures HasSignificant(HighSymbols(bytes)) <==> bytes != []
  {
    if bytes != [] {
      HighSymbolsCount(bytes[1..]);
      FrontCounts(Token(Symbol, bytes[..1]), HighSymbols(bytes[1..]));
    }
  }

  lemma HasSignificantConcat(a: seq<Token>, b: seq<Token>)
    ensures HasSignificant(a + b) <==> HasSignificant(a) || HasSignificant(b)
  {
    var c := a + b;
    assert forall i | 0 <= i < |a| :: c[i] == a[i];
    assert forall i | 0 <= i < |b| :: c[|a| + i] == b[i];
  }

  /** One token's bytes count as the token does. */
  lemma ByteTokensCount(t: Token)
    requires t.text != []
    ensures Words(ByteTokens(t)) == if t.kind.Word? then [Encode(Upper(t.text))] else []
    ensures HasTerminator(ByteTokens(t)) <==> t.kind.Terminator?
    ensures HasSignificant(ByteTokens(t)) <==> Significant(t.kind)
    ensures !MoreThanOne(ByteTokens(t))
  {
    if t.kind.Symbol? {
      HighSymbolsCount(Encode(t.text));
      EncodeFront(t.text);
    } else {
      var b := Token(t.kind, Encode(t.text));
      FrontCounts(b, []);
      assert [b] + [] == [b];
      EncodeUpper(t.text);
    }
  }

  lemma {:induction false} AllByteTokensWords(tokens: seq<Token>)
    requires forall i | 0 <= i < |tokens| :: tokens[i].text != []
    ensures Words(AllByteTokens(tokens)) == EncodeAll(Words(tokens))
  {
    hide ByteTokens, Encode;
    if tokens != [] {
      AllByteTokensWords(tokens[1..]);
      ByteTokensCount(tokens[0]);
      WordsConcat(ByteTokens(tokens[0]), AllByteTokens(tokens[1..]));
    }
  }

  lemma {:induction false} AllByteTokensCount(tokens: seq<Token>)
    requires forall i | 0 <= i < |tokens| :: tokens[i].text != []
    ensures HasSignificant(AllByteTokens(tokens)) <==> HasSignificant(tokens)
    ensures MoreThanOne(AllByteTokens(tokens)) <==> MoreThanOne(tokens)
  {
    hide HasSignificant, HasTerminator, MoreThanOne, ByteTokens, Words;
    if tokens == [] {
      NothingCounts();
    } else {
      var t, rest := tokens[0], AllByteTokens(tokens[1..]);
      AllByteTokensCount(tokens[1..]);
      ByteTokensCount(t);
      assert tokens == [t] + tokens[1..];
      FrontCounts(t, tokens[1..]);
      MoreThanOneConcat(ByteTokens(t), rest);
      HasSignificantConcat(ByteTokens(t), rest);
    }
  }

  lemma NothingCounts()
    ensures !HasSignificant([]) && !MoreThanOne([])
  {
  }

  lemma {:induction false} TokensAreNotEmpty(s: string)
    ensures forall i | 0 <= i < |Tokenize(s, Plain)| :: Tokenize(s, Plain)[i].text != []
    decreases |s|
  {
    hide FirstToken;
    if s != [] {
      TokensAreNotEmpty(s[|FirstToken(s, Plain).text|..]);
    }
  }

  function EncodeError(e: Error): Error {
    if e.Unsupported? then Unsupported(Encode(e.what)) else e
  }

  lemma {:induction false} EncodeInjectiveOnAscii(word: string, keyword: string)
    requires forall k | 0 <= k < |keyword| :: IsAscii(keyword[k])
    ensures Encode(word) == keyword <==> word == keyword
  {
    if word != [] {
      EncodeFront(word);
      if keyword != [] && IsAscii(word[0]) {
        EncodeInjectiveOnAscii(word[1..], keyword[1..]);
        assert Encode(word) == [word[0]] + Encode(word[1..]);
        assert keyword == [keyword[0]] + keyword[1..] && word == [word[0]] + word[1..];
        assert Encode(word) == keyword ==> Encode(word)[1..] == keyword[1..];
      }
    }
  }

  lemma ClassifyBytes(words: seq<string>)
    ensures Classify(EncodeAll(words)) == match Classify(words)
                                          case Success(kind) => Success(kind)
                                          case Failure(e) => Failure(EncodeError(e))
  {
    hide Encode;
    if words != [] {
      EncodeInjectiveOnAscii(words[0], "SELECT");
      EncodeInjectiveOnAscii(words[0], "WITH");
      EncodeInjectiveOnAscii(words[0], "INSERT");
      EncodeInjectiveOnAscii(words[0], "CREATE");
      EncodeMessage("", words[0]);
      assert "" + words[0] == words[0] && "" + Encode(words[0]) == Encode(words[0]);
      if |words| > 1 {
        EncodeInjectiveOnAscii(words[1], "TABLE");
        EncodeMessage("CREATE ", words[1]);
      }
    }
  }

  lemma EncodeMessage(prefix: string, word: string)
    requires forall k | 0 <= k < |prefix| :: IsAscii(prefix[k])
    ensures Encode(prefix + word + " statements") == prefix + Encode(word) + " statements"
  {
    EncodeBetween(prefix, word, " statements");
  }

  /** Inspecting the bytes of a text is inspecting the text: the same kind, the same
      error, with the word an error names in bytes as well. */
  lemma BytesInspectAsText(sql: string)
    ensures Inspection(Encode(sql)) == match Inspection(sql)
                                       case Success(kind) => Success(kind)
                                       case Failure(e) => Failure(EncodeError(e))
  {
    hide FirstToken, Classify, MoreThanOne, Encode;
    var tokens := Tokenize(sql, Plain);
    TokenizeBytes(sql);
    TokensAreNotEmpty(sql);
    AllByteTokensWords(tokens);
    AllByteTokensCount(tokens);
    var words := Words(tokens);
    assert FirstTwo(EncodeAll(words)) == EncodeAll(FirstTwo(words));
    ClassifyBytes(FirstTwo(words));
  }
}
