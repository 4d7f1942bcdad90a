/** The LINQ operators the repository code relies on (Select, Where, SelectMany,
    GroupBy, Distinct, First), as functions over finite sequences, with the
    facts about them the rest of the model uses. */
module Linq {
  import opened Wrappers

  /** The InvalidOperationException cases raised by First() and SingleOrDefault(). */
  datatype Fault = SequenceContainsNoElements | SequenceContainsMoreThanOneElement

  /** xs.Select(f) */
  function Select<T, U>(xs: seq<T>, f: T -> U): (ys: seq<U>)
    ensures |ys| == |xs|
    ensures forall i :: 0 <= i < |xs| ==> ys[i] == f(xs[i])
  {
    seq(|xs|, i requires 0 <= i < |xs| => f(xs[i]))
  }

  /** xs.Where(x => key(x) == k), order kept. */
  function WithKey<T, K(==)>(xs: seq<T>, key: T -> K, k: K): (ys: seq<T>)
    ensures |ys| <= |xs|
    ensures forall y :: y in ys ==> y in xs && key(y) == k
    ensures forall x :: x in xs && key(x) == k ==> x in ys
  {
    if xs == [] then []
    else (if key(xs[0]) == k then [xs[0]] else []) + WithKey(xs[1..], key, k)
  }

  /** xs.Where(x => key(x) != k), order kept. */
  function WithoutKey<T, K(==)>(xs: seq<T>, key: T -> K, k: K): (ys: seq<T>)
    ensures |ys| <= |xs|
    ensures forall y :: y in ys ==> y in xs && key(y) != k
  {
    if xs == [] then []
    else (if key(xs[0]) != k then [xs[0]] else []) + WithoutKey(xs[1..], key, k)
  }

  /** xs.GroupBy(key): one group per distinct key, in the order in which the
      keys first occur, each group holding its elements in their original order. */
  function GroupBy<T, K(==)>(xs: seq<T>, key: T -> K): (groups: seq<seq<T>>)
    ensures (groups == []) == (xs == [])
    ensures forall i :: 0 <= i < |groups| ==> groups[i] != []
    ensures forall i, x :: 0 <= i < |groups| && x in groups[i] ==> x in xs && key(x) == key(groups[i][0])
    ensures xs != [] ==> groups[0] == WithKey(xs, key, key(xs[0]))
    decreases |xs|
  {
    if xs == [] then []
    else
      var k := key(xs[0]);
      [WithKey(xs, key, k)] + GroupBy(WithoutKey(xs[1..], key, k), key)
  }

  /** xs.SelectMany(f) */
  function SelectMany<T, U>(xs: seq<T>, f: T -> seq<U>): seq<U>
  {
    if xs == [] then [] else f(xs[0]) + SelectMany(xs[1..], f)
  }

  /** xs.Where(x => x != null), order kept. */
  function Somes<T>(xs: seq<Option<T>>): (ys: seq<T>)
    ensures |ys| <= |xs|
    ensures forall y :: y in ys ==> Some(y) in xs
    ensures forall i :: 0 <= i < |xs| && xs[i].Some? ==> xs[i].value in ys
  {
    if xs == [] then []
    else (if xs[0].Some? then [xs[0].value] else []) + Somes(xs[1..])
  }

  ghost predicate NoDuplicates<T>(xs: seq<T>)
  {
    forall i, j :: 0 <= i < j < |xs| ==> xs[i] != xs[j]
  }

  /** xs.Distinct(): the first occurrence of every element, in order. */
  function Distinct<T(==)>(xs: seq<T>): (ys: seq<T>)
    ensures NoDuplicates(ys)
    ensures forall x :: x in ys ==> x in xs
    ensures forall x :: x in xs ==> x in ys
    ensures |ys| <= |xs|
  {
    if xs == [] then []
    else
      var init := Distinct(xs[..|xs| - 1]);
      var last := xs[|xs| - 1];
      assert xs == xs[..|xs| - 1] + [last];
      if last in init then init else init + [last]
  }

  lemma {:induction false} WithKeyAppend<T, K>(a: seq<T>, b: seq<T>, key: T -> K, k: K)
    ensures WithKey(a + b, key, k) == WithKey(a, key, k) + WithKey(b, key, k)
  {
    if a != [] {
      assert (a + b)[1..] == a[1..] + b;
      WithKeyAppend(a[1..], b, key, k);
    } else {
      assert a + b == b;
    }
  }

  /** Filtering by a key that every element has keeps everything. */
  lemma {:induction false} WithKeyAll<T, K>(xs: seq<T>, key: T -> K, k: K)
    requires forall x :: x in xs ==> key(x) == k
    ensures WithKey(xs, key, k) == xs
  {
    if xs != [] {
      WithKeyAll(xs[1..], key, k);
    }
  }

  /** Filtering commutes with a Select that preserves the key. */
  lemma {:induction false} WithKeySelect<T, U, K>(xs: seq<T>, f: T -> U, key: U -> K, key': T -> K, k: K)
    requires forall x :: key'(x) == key(f(x))
    ensures WithKey(Select(xs, f), key, k) == Select(WithKey(xs, key', k), f)
  {
    if xs != [] {
      assert Select(xs, f)[1..] == Select(xs[1..], f);
      WithKeySelect(xs[1..], f, key, key', k);
      var head := if key'(xs[0]) == k then [xs[0]] else [];
      assert WithKey(xs, key', k) == head + WithKey(xs[1..], key', k);
      assert Select(head + WithKey(xs[1..], key', k), f) == Select(head, f) + Select(WithKey(xs[1..], key', k), f);
    }
  }

  lemma SelectMember<T, U>(xs: seq<T>, f: T -> U, x: T)
    requires x in xs
    ensures f(x) in Select(xs, f)
  {
    var i :| 0 <= i < |xs| && xs[i] == x;
    assert Select(xs, f)[i] == f(x);
  }

  lemma SelectAppend<T, U>(a: seq<T>, b: seq<T>, f: T -> U)
    ensures Select(a + b, f) == Select(a, f) + Select(b, f)
  {
  }

  /** SelectMany over a Select whose every image contributes a single item is a Select. */
  lemma {:induction false} SelectManyOfSingletons<T, M, U>(xs: seq<T>, f: T -> M, h: M -> seq<U>, g: T -> U)
    requires forall x :: x in xs ==> h(f(x)) == [g(x)]
    ensures SelectMany(Select(xs, f), h) == Select(xs, g)
  {
    if xs != [] {
      assert Select(xs, f)[1..] == Select(xs[1..], f);
      SelectManyOfSingletons(xs[1..], f, h, g);
      assert Select(xs, g) == [g(xs[0])] + Select(xs[1..], g);
    }
  }

  lemma {:induction false} SomesAppend<T>(a: seq<Option<T>>, b: seq<Option<T>>)
    ensures Somes(a + b) == Somes(a) + Somes(b)
  {
    if a != [] {
      assert (a + b)[1..] == a[1..] + b;
      SomesAppend(a[1..], b);
    } else {
      assert a + b == b;
    }
  }

  /** Appending elements that were already seen does not change Distinct. */
  lemma {:induction false} DistinctAppendSeen<T>(s: seq<T>, t: seq<T>)
    requires forall x :: x in t ==> x in s
    ensures Distinct(s + t) == Distinct(s)
  {
    if t != [] {
      var t' := t[..|t| - 1];
      assert (s + t)[..|s + t| - 1] == s + t';
      assert (s + t)[|s + t| - 1] == t[|t| - 1];
      DistinctAppendSeen(s, t');
    } else {
      assert s + t == s;
    }
  }

  /** Distinct leaves a duplicate-free sequence as it is. */
  lemma {:induction false} DistinctOfNoDuplicates<T>(xs: seq<T>)
    requires NoDuplicates(xs)
    ensures Distinct(xs) == xs
  {
    if xs != [] {
      var init := xs[..|xs| - 1];
      assert NoDuplicates(init);
      DistinctOfNoDuplicates(init);
      assert xs[|xs| - 1] !in init;
      assert init + [xs[|xs| - 1]] == xs;
    }
  }

  /** A duplicate-free sequence has as many elements as its set of elements. */
  lemma {:induction false} NoDuplicatesCard<T>(xs: seq<T>)
    requires NoDuplicates(xs)
    ensures |set x | x in xs| == |xs|
  {
    if xs != [] {
      var tail := xs[1..];
      assert NoDuplicates(tail);
      NoDuplicatesCard(tail);
      assert (set x | x in xs) == {xs[0]} + (set x | x in tail);
      assert xs[0] !in (set x | x in tail);
    }
  }

  /** Two duplicate-free sequences with the same elements have the same length. */
  lemma SameElementsSameLength<T>(a: seq<T>, b: seq<T>)
    requires NoDuplicates(a) && NoDuplicates(b)
    requires forall x :: x in a <==> x in b
    ensures |a| == |b|
  {
    NoDuplicatesCard(a);
    NoDuplicatesCard(b);
    assert (set x | x in a) == (set x | x in b);
  }
}
