/** Single characters, by their code points: which are white space, and which make words. */
module SqlCharacters {
  import opened Wrappers
  import opened Errors
  import opened SqlTokens
  import opened SqlGuard
  import opened SqlLaws

  /** Behind a terminator only tab, line feed, form feed, carriage return, space and a
      further terminator are nothing; any other character begins a second statement. */
  lemma TrailingCharacter(s: string, c: char)
    requires EndsClosed(s) && Inspection(s) != Failure(MultipleStatements)
    ensures Inspection(s + ";" + [c]) ==
            if c as int in {9, 10, 12, 13, 32, 59} then Inspection(s) else Failure(MultipleStatements)
  {
    hide EndsClosed, Inspection;
    AppendAfterTerminator(s, [c]);
    LoneCharacter(c);
  }

  lemma LoneCharacter(c: char)
    ensures HasSignificant(Tokenize([c], Plain)) <==> c as int !in {9, 10, 12, 13, 32, 59}
  {
    var t := FirstToken([c], Plain);
    FrontKind([c], 0);
    assert [c][0..] == [c];
    assert t.text == [c];
    assert Tokenize([c][1..], Plain) == [];
    assert Tokenize([c], Plain) == [t] && [t][0] == t;
  }

  /** A digit, a letter or the underscore. */
  predicate WordCode(c: char) {
    var n := c as int;
    48 <= n <= 57 || 65 <= n <= 90 || n == 95 || 97 <= n <= 122
  }

  /** A text is one word exactly when it begins with a digit, a letter or the underscore and
      goes on with these and with characters beyond ASCII. */
  lemma WordTextExactly(s: string)
    ensures Tokenize(s, Plain) == [Token(Word, s)] <==>
            s != [] && WordCode(s[0]) && forall k | 0 <= k < |s| :: WordCode(s[k]) || s[k] as int >= 128
  {
    hide FirstToken;
    var whole := Token(Word, s);
    if s != [] {
      FirstTokenFits(s, Plain);
      assert s[|s|..] == [];
      if Fits(whole, [], Plain) {
        TokenizeFront(whole, [], Plain);
        assert s + [] == s;
      }
    }
  }
}
