/** Strings as sequences of characters: white space, padding, joining, splitting. */
module Text {
  /** The characters with the Unicode White_Space property. */
  predicate IsWhitespace(c: char) {
    var n := c as int;
    9 <= n <= 13 || n == 0x20 || n == 0x85 || n == 0xA0 || n == 0x1680 || 0x2000 <= n <= 0x200A ||
    n == 0x2028 || n == 0x2029 || n == 0x202F || n == 0x205F || n == 0x3000
  }

  function TrimStart(s: string): string {
    if s != [] && IsWhitespace(s[0]) then TrimStart(s[1..]) else s
  }

  function TrimEnd(s: string): string {
    if s != [] && IsWhitespace(s[|s| - 1]) then TrimEnd(s[..|s| - 1]) else s
  }

  function Trim(s: string): string {
    TrimEnd(TrimStart(s))
  }

  /** No white space at either end. */
  predicate Trimmed(s: string) {
    s != [] ==> !IsWhitespace(s[0]) && !IsWhitespace(s[|s| - 1])
  }

  function Repeat(c: char, n: nat): (s: string)
    ensures |s| == n && forall k | 0 <= k < n :: s[k] == c
  {
    seq(n, _ => c)
  }

  function Join(parts: seq<string>, separator: string): string {
    if parts == [] then []
    else if |parts| == 1 then parts[0]
    else parts[0] + separator + Join(parts[1..], separator)
  }

  /** The pieces of `s` between separators; at least one. */
  function Split(s: string, separator: char): (parts: seq<string>)
    ensures |parts| >= 1
  {
    if s == [] then [[]]
    else
      var rest := Split(s[1..], separator);
      if s[0] == separator then [[]] + rest
      else [[s[0]] + rest[0]] + rest[1..]
  }

  /** Trimming the end leaves a prefix, cuts only white space, and stops at the first
      character that is not white space. */
  lemma {:induction false} TrimEndIsPrefix(s: string)
    ensures TrimEnd(s) <= s
    ensures forall k | |TrimEnd(s)| <= k < |s| :: IsWhitespace(s[k])
    ensures TrimEnd(s) != [] ==> !IsWhitespace(TrimEnd(s)[|TrimEnd(s)| - 1])
  {
    if s != [] && IsWhitespace(s[|s| - 1]) {
      TrimEndIsPrefix(s[..|s| - 1]);
    }
  }

  lemma {:induction false} TrimStartIsSuffix(s: string)
    ensures |TrimStart(s)| <= |s| && TrimStart(s) == s[|s| - |TrimStart(s)|..]
    ensures forall k | 0 <= k < |s| - |TrimStart(s)| :: IsWhitespace(s[k])
    ensures TrimStart(s) != [] ==> !IsWhitespace(TrimStart(s)[0])
  {
    if s != [] && IsWhitespace(s[0]) {
      var rest := s[1..];
      TrimStartIsSuffix(rest);
      var n := |rest| - |TrimStart(rest)|;
      assert rest[n..] == s[n + 1..];
      forall k | 0 <= k < n + 1 ensures IsWhitespace(s[k]) {
        if k > 0 {
          assert s[k] == rest[k - 1];
        }
      }
    }
  }

  lemma TrimGivesTrimmed(s: string)
    ensures Trimmed(Trim(s))
    ensures forall c | c in Trim(s) :: c in s
  {
    TrimStartIsSuffix(s);
    TrimEndIsPrefix(TrimStart(s));
  }

  predicate AllWhite(s: string) {
    forall k | 0 <= k < |s| :: IsWhitespace(s[k])
  }

  /** Trimming takes all the white space at both ends, and nothing else. */
  lemma TrimExactly(before: string, s: string, after: string)
    requires AllWhite(before) && Trimmed(s) && AllWhite(after)
    ensures Trim(before + s + after) == s
  {
    var text := before + s + after;
    TrimStartIsSuffix(text);
    TrimEndIsPrefix(TrimStart(text));
    TrimsOnce(text, before, s, after, |text| - |TrimStart(text)|, |Trim(text)|);
  }

  lemma TrimsOnce(text: string, before: string, s: string, after: string, from: nat, n: nat)
    requires AllWhite(before) && Trimmed(s) && AllWhite(after) && text == before + s + after && from + n <= |text|
    requires forall k | 0 <= k < from :: IsWhitespace(text[k])
    requires forall k | from + n <= k < |text| :: IsWhitespace(text[k])
    requires n > 0 ==> !IsWhitespace(text[from]) && !IsWhitespace(text[from + n - 1])
    ensures text[from..from + n] == s
  {
    var b, m := |before|, |s|;
    assert forall k | 0 <= k < b :: text[k] == before[k];
    assert forall k | 0 <= k < m :: text[b + k] == s[k];
    assert forall k | b + m <= k < |text| :: text[k] == after[k - b - m];
    if m > 0 {
      assert text[b] == s[0] && text[b + m - 1] == s[m - 1];
    }
  }

  /** The white space of Unicode, 25 characters, by code points. */
  lemma WhitespaceCodes(c: char)
    ensures IsWhitespace(c) <==>
            c as int in {0x9, 0xA, 0xB, 0xC, 0xD, 0x20, 0x85, 0xA0, 0x1680, 0x2000, 0x2001, 0x2002, 0x2003, 0x2004,
                         0x2005, 0x2006, 0x2007, 0x2008, 0x2009, 0x200A, 0x2028, 0x2029, 0x202F, 0x205F, 0x3000}
  {
  }

  lemma TrimOfTrimmed(s: string)
    requires Trimmed(s)
    ensures Trim(s) == s && Trim(" " + s) == s
  {
    assert (" " + s)[1..] == s;
    assert TrimStart(" " + s) == TrimStart(s);
  }

  /** Splitting a join gives the parts back when no part holds the separator. */
  lemma {:induction false} SplitUndoesJoin(parts: seq<string>, separator: char)
    requires parts != [] && forall p | p in parts :: separator !in p
    ensures Split(Join(parts, [separator]), separator) == parts
  {
    if |parts| == 1 {
      SplitWhole(parts[0], separator);
    } else {
      var rest := Join(parts[1..], [separator]);
      assert forall p | p in parts[1..] :: p in parts;
      SplitUndoesJoin(parts[1..], separator);
      assert Join(parts, [separator]) == parts[0] + [separator] + rest;
      SplitFirst(parts[0], rest, separator);
      assert [parts[0]] + parts[1..] == parts;
    }
  }

  lemma {:induction false} SplitWhole(s: string, separator: char)
    requires separator !in s
    ensures Split(s, separator) == [s]
  {
    if s != [] {
      SplitWhole(s[1..], separator);
      assert s == [s[0]] + s[1..];
    }
  }

  lemma {:induction false} SplitFirst(first: string, rest: string, separator: char)
    requires separator !in first
    ensures Split(first + [separator] + rest, separator) == [first] + Split(rest, separator)
  {
    var s := first + [separator] + rest;
    if first == [] {
      assert s[1..] == rest;
    } else {
      assert s[1..] == first[1..] + [separator] + rest;
      SplitFirst(first[1..], rest, separator);
      assert first == [first[0]] + first[1..];
    }
  }

  lemma {:induction false} SplitOnce(s: string, separator: char)
    ensures |Split(s, separator)| == 1 <==> separator !in s
  {
    if s != [] {
      SplitOnce(s[1..], separator);
      assert s == [s[0]] + s[1..];
    }
  }

  lemma {:induction false} SplitAdds(a: string, b: string, separator: char)
    ensures |Split(a + [separator] + b, separator)| == |Split(a, separator)| + |Split(b, separator)|
  {
    var s := a + [separator] + b;
    if a == [] {
      assert s[1..] == b;
    } else {
      assert s[1..] == a[1..] + [separator] + b;
      SplitAdds(a[1..], b, separator);
    }
  }

  /** A join splits into more pieces than it was made of exactly when some part holds the
      separator. */
  lemma {:induction false} SplitCountsParts(parts: seq<string>, separator: char)
    requires parts != []
    ensures |Split(Join(parts, [separator]), separator)| >= |parts|
    ensures |Split(Join(parts, [separator]), separator)| == |parts| <==> forall p | p in parts :: separator !in p
  {
    SplitOnce(parts[0], separator);
    if |parts| == 1 {
      assert parts == [parts[0]];
    } else {
      SplitCountsParts(parts[1..], separator);
      assert Join(parts, [separator]) == parts[0] + [separator] + Join(parts[1..], [separator]);
      SplitAdds(parts[0], Join(parts[1..], [separator]), separator);
      assert parts == [parts[0]] + parts[1..];
    }
  }

  lemma {:induction false} SplitPartsLackSeparator(s: string, separator: char)
    ensures forall p | p in Split(s, separator) :: separator !in p
  {
    if s != [] {
      SplitPartsLackSeparator(s[1..], separator);
    }
  }

  /** Joining the pieces of a split gives the string back. */
  lemma {:induction false} JoinUndoesSplit(s: string, separator: char)
    ensures Join(Split(s, separator), [separator]) == s
  {
    if s != [] {
      var rest := Split(s[1..], separator);
      JoinUndoesSplit(s[1..], separator);
      assert s == [s[0]] + s[1..];
      if s[0] == separator {
        assert ([[]] + rest)[1..] == rest;
      } else {
        assert ([[s[0]] + rest[0]] + rest[1..])[1..] == rest[1..];
      }
    }
  }

  /** `a` sorts before `b`, character by character. */
  predicate StringLess(a: string, b: string) {
    LessFrom(a, b, 0)
  }

  predicate LessFrom(a: string, b: string, i: nat)
    decreases |b| - i
  {
    if i >= |b| then false
    else if i >= |a| then true
    else a[i] < b[i] || (a[i] == b[i] && LessFrom(a, b, i + 1))
  }

  /** Strings with heads of equal length compare by head, then by tail. */
  lemma StringLessConcat(a: string, a': string, b: string, b': string)
    requires |a| == |b|
    ensures StringLess(a + a', b + b') <==> StringLess(a, b) || (a == b && StringLess(a', b'))
  {
    LessFromConcat(a, a', b, b', 0);
  }

  lemma {:induction false} LessFromConcat(a: string, a': string, b: string, b': string, i: nat)
    requires |a| == |b| && i <= |a| && a[..i] == b[..i]
    ensures LessFrom(a + a', b + b', i) <==> LessFrom(a, b, i) || (a == b && StringLess(a', b'))
    decreases |a| - i
  {
    if i == |a| {
      assert a == a[..i] && b == b[..i];
      LessFromTail(a, a', b, b', 0);
    } else if a[i] == b[i] {
      assert a[..i + 1] == a[..i] + [a[i]] && b[..i + 1] == b[..i] + [b[i]];
      LessFromConcat(a, a', b, b', i + 1);
    }
  }

  lemma {:induction false} LessFromTail(a: string, a': string, b: string, b': string, i: nat)
    requires |a| == |b|
    ensures LessFrom(a + a', b + b', |a| + i) == LessFrom(a', b', i)
    decreases |b'| - i
  {
    if i < |a'| && i < |b'| {
      LessFromTail(a, a', b, b', i + 1);
    }
  }
}
