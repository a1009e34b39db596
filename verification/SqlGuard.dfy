/** The statement guard: one pass over the text that must agree with its lexing. */
module SqlGuard {
  import opened Wrappers
  import opened Errors
  import opened SqlTokens

  datatype StatementKind = SelectQuery | Insert | CreateTable

  predicate Significant(kind: Kind) {
    kind.Literal? || kind.QuotedName? || kind.Word? || kind.Symbol?
  }

  function UpperChar(c: char): char {
    if 'a' <= c <= 'z' then (c as int - 32) as char else c
  }

  /** `text` reads as `word`, which holds no small letter, when letter case is ignored. */
  predicate Spells(text: string, word: string) {
    |text| == |word| &&
    forall k | 0 <= k < |word| ::
      !('a' <= word[k] <= 'z') &&
      (text[k] == word[k] || ('A' <= word[k] <= 'Z' && text[k] as int == word[k] as int + 32))
  }

  /** The one word that `s` spells. */
  function Upper(s: string): (u: string)
    ensures Spells(s, u)
    ensures |u| == |s| && forall k | 0 <= k < |s| :: u[k] == UpperChar(s[k])
  {
    seq(|s|, k requires 0 <= k < |s| => UpperChar(s[k]))
  }

  // ----- What a lexing says -----

  predicate HasTerminator(tokens: seq<Token>) {
    exists i | 0 <= i < |tokens| :: tokens[i].kind.Terminator?
  }

  predicate HasSignificant(tokens: seq<Token>) {
    exists i | 0 <= i < |tokens| :: Significant(tokens[i].kind)
  }

  /** Something significant follows a terminator. */
  predicate MoreThanOne(tokens: seq<Token>) {
    exists i, j | 0 <= i < j < |tokens| :: tokens[i].kind.Terminator? && Significant(tokens[j].kind)
  }

  /** The words in order, upper-cased. */
  function Words(tokens: seq<Token>): seq<string> {
    if tokens == [] then []
    else (if tokens[0].kind.Word? then [Upper(tokens[0].text)] else []) + Words(tokens[1..])
  }

  function FirstTwo(words: seq<string>): seq<string> {
    if |words| <= 2 then words else words[..2]
  }

  function Verdict(tokens: seq<Token>): Result<seq<string>, Error> {
    if MoreThanOne(tokens) then Failure(MultipleStatements) else Success(FirstTwo(Words(tokens)))
  }

  function Classify(words: seq<string>): Result<StatementKind, Error> {
    if words == [] then Failure(InvalidArgument("statement is empty"))
    else if words[0] == "SELECT" || words[0] == "WITH" then Success(SelectQuery)
    else if words[0] == "INSERT" then Success(Insert)
    else if words[0] == "CREATE" then
      if |words| == 1 then Failure(InvalidArgument("incomplete CREATE statement"))
      else if words[1] == "TABLE" then Success(CreateTable)
      else Failure(Unsupported("CREATE " + words[1] + " statements"))
    else Failure(Unsupported(words[0] + " statements"))
  }

  /** The guard's answer, read off the lexing. */
  function Inspection(sql: string): Result<StatementKind, Error> {
    var words :- Verdict(Tokenize(sql, Plain));
    Classify(words)
  }

  lemma {:induction false} WordsConcat(a: seq<Token>, b: seq<Token>)
    ensures Words(a + b) == Words(a) + Words(b)
  {
    if a == [] {
      assert a + b == b;
    } else {
      assert (a + b)[1..] == a[1..] + b;
      WordsConcat(a[1..], b);
    }
  }

  /** The second half adds a violation exactly when it is one itself or is significant
      after a terminator of the first. */
  lemma MoreThanOneConcat(a: seq<Token>, b: seq<Token>)
    ensures MoreThanOne(a + b) <==> MoreThanOne(a) || MoreThanOne(b) || (HasTerminator(a) && HasSignificant(b))
  {
    var c := a + b;
    if MoreThanOne(a) {
      var i, j :| 0 <= i < j < |a| && a[i].kind.Terminator? && Significant(a[j].kind);
      assert c[i] == a[i] && c[j] == a[j];
    }
    if MoreThanOne(b) {
      var i, j :| 0 <= i < j < |b| && b[i].kind.Terminator? && Significant(b[j].kind);
      assert c[|a| + i] == b[i] && c[|a| + j] == b[j];
    }
    if HasTerminator(a) && HasSignificant(b) {
      var i :| 0 <= i < |a| && a[i].kind.Terminator?;
      var j :| 0 <= j < |b| && Significant(b[j].kind);
      assert c[i] == a[i] && c[|a| + j] == b[j];
    }
  }

  /** What one token in front adds. */
  lemma FrontCounts(t: Token, rest: seq<Token>)
    ensures Words([t] + rest) == (if t.kind.Word? then [Upper(t.text)] else []) + Words(rest)
    ensures HasTerminator([t] + rest) <==> t.kind.Terminator? || HasTerminator(rest)
    ensures MoreThanOne([t] + rest) <==> MoreThanOne(rest) || (t.kind.Terminator? && HasSignificant(rest))
    ensures HasSignificant([t] + rest) <==> Significant(t.kind) || HasSignificant(rest)
  {
    MoreThanOneConcat([t], rest);
    assert [t][0] == t;
    assert ([t] + rest)[1..] == rest;
    assert ([t] + rest)[0] == t;
    assert forall i | 0 <= i < |rest| :: ([t] + rest)[i + 1] == rest[i];
  }

  // ----- The scanner -----

  /** `bytes.get(i)`. */
  function Get(s: string, i: nat): Option<char> {
    if i < |s| then Some(s[i]) else None
  }

  /** A position where a string slice may begin or end: not inside a UTF-8 sequence. */
  predicate CharBoundary(s: string, i: nat) {
    i == |s| || (i < |s| && !('\U{0080}' <= s[i] <= '\U{00BF}'))
  }

  /** `sql[a..b]`, which panics off the boundaries. */
  function Slice(s: string, a: nat, b: nat): string
    requires a <= b <= |s| && CharBoundary(s, a) && CharBoundary(s, b)
  {
    s[a..b]
  }

  /** What is left at `i`, which may be one past the end. */
  ghost function Rest(s: string, i: nat): string {
    if i <= |s| then s[i..] else []
  }

  /** The scanner has moved from `start` to `i` over exactly the front token. */
  ghost predicate Scans(s: string, start: nat, i: nat, kind: Kind) {
    start < |s| && start < i <= |s| + 1 &&
    var t := FirstToken(s[start..], Plain);
    t.kind == kind && Rest(s, i) == s[start + |t.text|..]
  }

  method SkipLineComment(s: string, start: nat) returns (i: nat)
    requires start + 2 <= |s| && s[start] == '-' && s[start + 1] == '-'
    ensures Scans(s, start, i, LineComment) && start < i <= |s|
  {
    ghost var u := s[start..];
    i := start + 2;
    while i < |s| && s[i] != '\n'
      invariant start + 2 <= i <= |s|
      invariant FirstOf(u, i - start, '\n') == FirstOf(u, 2, '\n')
    {
      i := i + 1;
    }
  }

  method SkipBlockComment(s: string, start: nat) returns (i: nat)
    requires start + 2 <= |s| && s[start] == '/' && s[start + 1] == '*'
    ensures Scans(s, start, i, BlockComment) && start < i <= |s|
  {
    ghost var u := s[start..];
    i := start + 2;
    while i < |s| && !(s[i] == '*' && Get(s, i + 1) == Some('/'))
      invariant start + 2 <= i <= |s|
      invariant FirstCloser(u, i - start) == FirstCloser(u, 2)
    {
      i := i + 1;
    }
    i := if i + 2 < |s| then i + 2 else |s|;
  }

  method SkipLiteral(s: string, start: nat) returns (i: nat)
    requires start < |s| && s[start] == '\''
    ensures Scans(s, start, i, Literal) && start < i <= |s|
  {
    ghost var u := s[start..];
    i := start + 1;
    while i < |s|
      invariant start + 1 <= i <= |s|
      invariant DoubledEnd(u, i - start, '\'') == DoubledEnd(u, 1, '\'')
    {
      if s[i] == '\'' {
        if Get(s, i + 1) == Some('\'') {
          i := i + 2;
          continue;
        }
        i := i + 1;
        return;
      }
      i := i + 1;
    }
  }

  /** Ends one past the closing quote, or one past the end of an open name. */
  method SkipQuotedName(s: string, start: nat) returns (i: nat)
    requires start < |s| && s[start] == '"'
    ensures Scans(s, start, i, QuotedName) && start < i <= |s| + 1
  {
    ghost var u := s[start..];
    i := start + 1;
    while i < |s| && s[i] != '"'
      invariant start + 1 <= i <= |s|
      invariant FirstOf(u, i - start, '"') == FirstOf(u, 1, '"')
    {
      i := i + 1;
    }
    i := i + 1;
  }

  method SkipWord(s: string, start: nat) returns (i: nat)
    requires start < |s| && StartsWord(s[start])
    ensures Scans(s, start, i, Word) && start < i <= |s|
    ensures CharBoundary(s, i) && s[start..i] == FirstToken(s[start..], Plain).text
  {
    ghost var u := s[start..];
    i := start;
    while i < |s| && ContinuesWord(s[i])
      invariant start <= i <= |s|
      invariant WordEnd(u, i - start) == WordEnd(u, 0)
    {
      i := i + 1;
    }
  }

  /** The bookkeeping of one scanned token. */
  lemma Scanned(done: seq<Token>, t: Token)
    ensures Words(done + [t]) == Words(done) + if t.kind.Word? then [Upper(t.text)] else []
    ensures HasTerminator(done + [t]) <==> HasTerminator(done) || t.kind.Terminator?
    ensures MoreThanOne(done + [t]) <==> MoreThanOne(done) || (HasTerminator(done) && Significant(t.kind))
  {
    WordsConcat(done, [t]);
    MoreThanOneConcat(done, [t]);
    assert (done + [t])[|done|] == t;
    assert forall i | 0 <= i < |done| :: (done + [t])[i] == done[i];
    assert [t][0] == t && Words([t]) == if t.kind.Word? then [Upper(t.text)] else [];
  }

  /** The scanner's variables say what the tokens behind it say. */
  ghost predicate Progress(sql: string, done: seq<Token>, i: nat, words: seq<string>, terminated: bool) {
    && i <= |sql| + 1
    && Tokenize(sql, Plain) == done + Tokenize(Rest(sql, i), Plain)
    && words == FirstTwo(Words(done))
    && terminated == HasTerminator(done)
    && !MoreThanOne(done)
  }

  lemma Progresses(sql: string, done: seq<Token>, start: nat, i: nat, words: seq<string>, terminated: bool, t: Token)
    requires Progress(sql, done, start, words, terminated)
    requires i <= |sql| + 1
    requires Tokenize(Rest(sql, start), Plain) == [t] + Tokenize(Rest(sql, i), Plain)
    requires !(terminated && Significant(t.kind))
    ensures Progress(sql, done + [t], i,
                     if t.kind.Word? && |words| < 2 then words + [Upper(t.text)] else words,
                     terminated || t.kind.Terminator?)
  {
    Scanned(done, t);
    FirstTwoGrows(Words(done), Upper(t.text));
    Regroup(done, t, Tokenize(Rest(sql, i), Plain));
  }

  lemma ScanBegins(sql: string)
    ensures Progress(sql, [], 0, [], false)
  {
    hide FirstToken;
    assert sql[0..] == sql;
    assert [] + Tokenize(sql, Plain) == Tokenize(sql, Plain);
  }

  lemma ScanEnds(sql: string, done: seq<Token>, i: nat, words: seq<string>, terminated: bool)
    requires Progress(sql, done, i, words, terminated) && i >= |sql|
    ensures Verdict(Tokenize(sql, Plain)) == Success(words)
  {
    hide FirstToken;
    assert Rest(sql, i) == [];
    assert done + [] == done;
  }

  lemma FirstTwoGrows(words: seq<string>, word: string)
    ensures FirstTwo(words + [word]) == if |FirstTwo(words)| < 2 then FirstTwo(words) + [word] else FirstTwo(words)
  {
  }

  lemma Regroup(done: seq<Token>, t: Token, left: seq<Token>)
    ensures done + ([t] + left) == done + [t] + left
  {
  }

  lemma LexingAdvances(sql: string, start: nat, i: nat, t: Token)
    requires Scans(sql, start, i, t.kind) && t == FirstToken(sql[start..], Plain)
    ensures Tokenize(Rest(sql, start), Plain) == [t] + Tokenize(Rest(sql, i), Plain)
  {
    assert sql[start..][|t.text|..] == sql[start + |t.text|..];
  }

  /** The bytes the scanner's branches look at settle the kind of the front token. */
  function KindAt(s: string, i: nat): Kind
    requires i < |s|
  {
    var byte := s[i];
    if byte == '-' && Get(s, i + 1) == Some('-') then LineComment
    else if byte == '/' && Get(s, i + 1) == Some('*') then BlockComment
    else if byte == ';' then Terminator
    else if byte == '\'' then Literal
    else if byte == '"' then QuotedName
    else if IsSpace(byte) then Space
    else if StartsWord(byte) then Word
    else Symbol
  }

  lemma FrontKind(s: string, i: nat)
    requires i < |s|
    ensures FirstToken(s[i..], Plain).kind == KindAt(s, i)
    ensures KindAt(s, i).Terminator? || KindAt(s, i).Space? || KindAt(s, i).Symbol? ==>
              Scans(s, i, i + 1, KindAt(s, i))
  {
    assert i + 1 < |s| ==> s[i..][1..][0] == s[i + 1];
    assert s[i..][1..] == s[i + 1..];
  }

  /** A significant token behind a terminator settles the verdict. */
  lemma SecondStatement(sql: string, done: seq<Token>, start: nat, words: seq<string>, t: Token)
    requires Progress(sql, done, start, words, true) && start < |sql|
    requires t == FirstToken(sql[start..], Plain) && Significant(t.kind)
    ensures Verdict(Tokenize(sql, Plain)) == Failure(MultipleStatements)
  {
    var rest := Tokenize(sql[start..], Plain);
    MoreThanOneConcat(done, rest);
    assert rest[0] == t;
  }

  /** One pass over the bytes, with the verdict of the only lexing there is. */
  method Scan(sql: string) returns (r: Result<seq<string>, Error>)
    ensures r == Verdict(Tokenize(sql, Plain))
    ensures forall tokens | Lexes(tokens, sql, Plain) :: r == Verdict(tokens)
  {
    hide FirstToken, Tokenize, Verdict, Progress, Scans, Lexes, Upper;
    forall tokens | Lexes(tokens, sql, Plain) ensures tokens == Tokenize(sql, Plain) {
      LexingExistsUniquely(tokens, sql, Plain);
    }
    var i := 0;
    var words: seq<string> := [];
    var terminated := false;
    ghost var done: seq<Token> := [];
    ScanBegins(sql);
    while i < |sql|
      invariant 0 <= i <= |sql| + 1
      invariant Progress(sql, done, i, words, terminated)
      decreases |sql| + 1 - i
    {
      ghost var start, seen, before := i, words, terminated;
      ghost var t := FirstToken(sql[i..], Plain);
      FrontKind(sql, i);
      if terminated && Significant(t.kind) {
        SecondStatement(sql, done, i, words, t);
      }
      var byte := sql[i];
      if byte == '-' && Get(sql, i + 1) == Some('-') {
        i := SkipLineComment(sql, i);
      } else if byte == '/' && Get(sql, i + 1) == Some('*') {
        i := SkipBlockComment(sql, i);
      } else if byte == ';' {
        terminated := true;
        i := i + 1;
      } else if byte == '\'' {
        if terminated { return Failure(MultipleStatements); }
        i := SkipLiteral(sql, i);
      } else if byte == '"' {
        if terminated { return Failure(MultipleStatements); }
        i := SkipQuotedName(sql, i);
      } else if IsSpace(byte) {
        i := i + 1;
      } else if StartsWord(byte) {
        if terminated { return Failure(MultipleStatements); }
        var from := i;
        i := SkipWord(sql, i);
        if |words| < 2 {
          words := words + [Upper(Slice(sql, from, i))];
        }
      } else {
        if terminated { return Failure(MultipleStatements); }
        i := i + 1;
      }
      LexingAdvances(sql, start, i, t);
      Progresses(sql, done, start, i, seen, before, t);
      done := done + [t];
    }
    ScanEnds(sql, done, i, words, terminated);
    return Success(words);
  }

  /** The answer that `Inspection` reads off the lexing, or its error. */
  method Inspect(sql: string) returns (r: Result<StatementKind, Error>)
    ensures r == Inspection(sql)
  {
    var words := Scan(sql);
    if words.Failure? {
      return Failure(words.error);
    }
    return Classify(words.value);
  }
}
