/** Resolving a column name against a schema. */
module Schemas {
  import opened Wrappers
  import opened Text
  import opened Values

  datatype Attribute = Attribute(name: string, dtype: DataType)

  /** The part of a name after its last dot, or the whole name. */
  function Unqualified(name: string): string {
    var parts := Split(name, '.');
    parts[|parts| - 1]
  }

  predicate Exact(columns: seq<Attribute>, name: string, i: nat) {
    i < |columns| && columns[i].name == name
  }

  predicate Loose(columns: seq<Attribute>, name: string, i: nat) {
    i < |columns| && Unqualified(columns[i].name) == name
  }

  /** `i` is the only column whose unqualified name is `name`. */
  predicate OnlyLoose(columns: seq<Attribute>, name: string, i: nat) {
    Loose(columns, name, i) && forall j | 0 <= j < |columns| && Loose(columns, name, j) :: j == i
  }

  /** What a name resolves to: its first exact match; failing that, its only match
      after the last dot; failing that, nothing. */
  ghost predicate Resolves(columns: seq<Attribute>, name: string, r: Option<nat>) {
    if exists i :: Exact(columns, name, i) then
      r.Some? && Exact(columns, name, r.value) && forall j | 0 <= j < r.value :: !Exact(columns, name, j)
    else match r
      case Some(i) => OnlyLoose(columns, name, i)
      case None => forall i :: !OnlyLoose(columns, name, i)
  }

  method IndexOf(columns: seq<Attribute>, name: string) returns (r: Option<nat>)
    ensures Resolves(columns, name, r)
  {
    for i := 0 to |columns|
      invariant forall j | 0 <= j < i :: !Exact(columns, name, j)
    {
      if columns[i].name == name {
        assert Exact(columns, name, i);
        return Some(i);
      }
    }
    var found: Option<nat> := None;
    for i := 0 to |columns|
      invariant found.Some? ==> found.value < i && Loose(columns, name, found.value)
      invariant forall j | 0 <= j < i && Loose(columns, name, j) :: found == Some(j)
    {
      if Unqualified(columns[i].name) == name {
        assert Loose(columns, name, i);
        if found.Some? {
          assert Loose(columns, name, found.value) && found.value != i;
          return None;
        }
        found := Some(i);
      }
    }
    return found;
  }

  /** The rule leaves no choice. */
  lemma ResolutionUnique(columns: seq<Attribute>, name: string, a: Option<nat>, b: Option<nat>)
    requires Resolves(columns, name, a) && Resolves(columns, name, b)
    ensures a == b
  {
    if a.Some? && b.Some? && !exists i :: Exact(columns, name, i) {
      assert Loose(columns, name, a.value);
    }
  }

  /** A column resolves from its own full name exactly when no earlier column has it. */
  lemma FullNameResolves(columns: seq<Attribute>, i: nat)
    requires i < |columns|
    ensures Resolves(columns, columns[i].name, Some(i)) <==>
            forall j | 0 <= j < i :: columns[j].name != columns[i].name
  {
    assert Exact(columns, columns[i].name, i);
    assert forall j | 0 <= j < i :: Exact(columns, columns[i].name, j) <==> columns[j].name == columns[i].name;
  }

  /** A name with a dot in it is only ever matched in full. */
  lemma DottedResolvesExactly(columns: seq<Attribute>, name: string, i: nat)
    requires '.' in name && Resolves(columns, name, Some(i))
    ensures i < |columns| && columns[i].name == name
  {
    forall j | 0 <= j < |columns| ensures !Loose(columns, name, j) {
      UnqualifiedHasNoDot(columns[j].name);
    }
  }

  /** Whatever stands before the last dot is dropped, dots included. */
  lemma {:induction false} UnqualifiedDropsQualifier(qualifier: string, name: string)
    requires '.' !in name
    ensures Unqualified(name) == name && Unqualified(qualifier + "." + name) == name
    ensures |Split(qualifier + "." + name, '.')| >= 2
  {
    if qualifier == [] {
      SplitWhole(name, '.');
      assert qualifier + "." + name == ['.'] + name;
      assert (['.'] + name)[1..] == name;
    } else {
      hide Split, Unqualified;
      var rest := qualifier[1..] + "." + name;
      UnqualifiedDropsQualifier(qualifier[1..], name);
      LastPartStays(qualifier[0], rest);
      assert qualifier + "." + name == [qualifier[0]] + rest;
    }
  }

  lemma LastPartStays(c: char, s: string)
    requires |Split(s, '.')| >= 2
    ensures Unqualified([c] + s) == Unqualified(s) && |Split([c] + s, '.')| >= 2
  {
    var parts := Split(s, '.');
    assert ([c] + s)[1..] == s;
    assert Split([c] + s, '.') == if c == '.' then [[]] + parts else [[c] + parts[0]] + parts[1..];
  }

  lemma UnqualifiedHasNoDot(name: string)
    ensures '.' !in Unqualified(name)
  {
    SplitPartsLackSeparator(name, '.');
    var parts := Split(name, '.');
    assert parts[|parts| - 1] in parts;
  }

  ghost predicate Reached(order: seq<nat>, i: nat) {
    exists k :: 0 <= k < |order| && order[k] == i
  }

  /** `order` lists every position of a sequence of length `n` once. */
  ghost predicate Reorders(order: seq<nat>, n: nat) {
    |order| == n && (forall k | 0 <= k < n :: order[k] < n) &&
    (forall i | 0 <= i < n :: Reached(order, i)) &&
    (forall j, k | 0 <= j < k < n :: order[j] != order[k])
  }

  predicate FirstExact(columns: seq<Attribute>, name: string, i: nat) {
    Exact(columns, name, i) && forall j | 0 <= j < i :: !Exact(columns, name, j)
  }

  /** The reordering puts no other column of that name in front of the first one. */
  ghost predicate FirstStaysFirst(columns: seq<Attribute>, order: seq<nat>, name: string) {
    forall k | 0 <= k < |order| && FirstExact(columns, name, order[k]) ::
      forall j | 0 <= j < k :: !Exact(columns, name, order[j])
  }

  /** Reordering columns keeps whether a name resolves, and moves the answer along with
      its column exactly when the first column of that name, if any, stays the first. */
  lemma ReorderingMovesAnswer(columns: seq<Attribute>, moved: seq<Attribute>, order: seq<nat>, name: string,
                              r: Option<nat>, r': Option<nat>)
    requires Reorders(order, |columns|)
    requires |moved| == |columns| && forall k | 0 <= k < |moved| :: moved[k] == columns[order[k]]
    requires Resolves(columns, name, r) && Resolves(moved, name, r')
    ensures r.Some? <==> r'.Some?
    ensures r'.Some? ==>
              r'.value < |order| && (r == Some(order[r'.value]) <==> FirstStaysFirst(columns, order, name))
  {
    forall k: nat | k < |moved|
      ensures Exact(moved, name, k) <==> Exact(columns, name, order[k])
      ensures Loose(moved, name, k) <==> Loose(columns, name, order[k])
    {
    }
    if i: nat :| Exact(columns, name, i) {
      assert Reached(order, i);
      var k :| 0 <= k < |order| && order[k] == i;
      assert Exact(moved, name, k);
      assert FirstExact(columns, name, r.value) && FirstExact(moved, name, r'.value);
      FirstMoves(columns, moved, order, name, r.value, r'.value);
    } else {
      assert forall k :: !Exact(moved, name, k);
      if r.Some? {
        assert Reached(order, r.value);
        var k :| 0 <= k < |order| && order[k] == r.value;
        assert OnlyLoose(moved, name, k);
      }
      if r'.Some? {
        OnlyLooseMoves(columns, moved, order, name, r'.value);
      }
    }
  }

  lemma FirstMoves(columns: seq<Attribute>, moved: seq<Attribute>, order: seq<nat>, name: string, i: nat, k: nat)
    requires Reorders(order, |columns|)
    requires |moved| == |columns| && forall k | 0 <= k < |moved| :: moved[k] == columns[order[k]]
    requires FirstExact(columns, name, i) && FirstExact(moved, name, k)
    ensures i == order[k] <==> FirstStaysFirst(columns, order, name)
  {
    assert forall j | 0 <= j < |moved| :: Exact(moved, name, j) <==> Exact(columns, name, order[j]);
    assert Reached(order, i);
    var at :| 0 <= at < |order| && order[at] == i;
    assert FirstExact(columns, name, order[at]);
    if i == order[k] {
      forall l, j | 0 <= j < l < |order| && FirstExact(columns, name, order[l])
        ensures !Exact(columns, name, order[j])
      {
        assert order[l] == i;
      }
    }
  }

  lemma OnlyLooseMoves(columns: seq<Attribute>, moved: seq<Attribute>, order: seq<nat>, name: string, k: nat)
    requires Reorders(order, |columns|)
    requires |moved| == |columns| && forall k | 0 <= k < |moved| :: moved[k] == columns[order[k]]
    requires OnlyLoose(moved, name, k)
    ensures OnlyLoose(columns, name, order[k])
  {
    forall j | 0 <= j < |columns| && Loose(columns, name, j) ensures j == order[k] {
      assert Reached(order, j);
      var l :| 0 <= l < |order| && order[l] == j;
      assert Loose(moved, name, l);
    }
  }
}
