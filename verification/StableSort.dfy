/**
 Stable sorting, as Go's sort.SliceStable promises it: ordered by key, and elements of
 equal key left in the order they came in. Those two facts alone determine the result,
 so the insertion sort below stands for whatever algorithm the library runs.
 */
module StableSort {

  /** A two-level sort key: major first, then minor. */
  datatype Key = Key(major: int, minor: int)

  predicate Before(a: Key, b: Key) {
    a.major < b.major || (a.major == b.major && a.minor < b.minor)
  }

  ghost predicate Ordered<T>(s: seq<T>, key: T -> Key) {
    forall i, j :: 0 <= i < j < |s| ==> !Before(key(s[j]), key(s[i]))
  }

  /** The elements of one key, in the order they stand. */
  function WithKey<T>(s: seq<T>, key: T -> Key, k: Key): seq<T> {
    if s == [] then []
    else WithKey(s[..|s| - 1], key, k) + (if key(s[|s| - 1]) == k then [s[|s| - 1]] else [])
  }

  /** x goes in behind every element its key does not precede. */
  function Insert<T>(s: seq<T>, x: T, key: T -> Key): (t: seq<T>)
    ensures |t| == |s| + 1
  {
    if s == [] || !Before(key(x), key(s[|s| - 1])) then s + [x]
    else Insert(s[..|s| - 1], x, key) + [s[|s| - 1]]
  }

  function Sorted<T>(s: seq<T>, key: T -> Key): (t: seq<T>)
    ensures |t| == |s|
  {
    if s == [] then [] else Insert(Sorted(s[..|s| - 1], key), s[|s| - 1], key)
  }

  lemma InsertUnfolds<T>(s: seq<T>, x: T, key: T -> Key)
    requires s != [] && Before(key(x), key(s[|s| - 1]))
    ensures Insert(s, x, key) == Insert(s[..|s| - 1], x, key) + [s[|s| - 1]]
  {
  }

  lemma {:induction false} InsertKeepsElements<T>(s: seq<T>, x: T, key: T -> Key)
    ensures multiset(Insert(s, x, key)) == multiset(s) + multiset{x}
  {
    if s != [] && Before(key(x), key(s[|s| - 1])) {
      InsertKeepsElements(s[..|s| - 1], x, key);
      assert s == s[..|s| - 1] + [s[|s| - 1]];
    }
  }

  lemma {:induction false} InsertKeepsOrder<T>(s: seq<T>, x: T, key: T -> Key)
    requires Ordered(s, key)
    ensures Ordered(Insert(s, x, key), key)
  {
    hide Insert, Ordered, Before;
    if s != [] && Before(key(x), key(s[|s| - 1])) {
      var n := |s| - 1;
      InsertUnfolds(s, x, key);
      OrderedInFront(s, key);
      InsertKeepsOrder(s[..n], x, key);
      InsertKeepsElements(s[..n], x, key);
      var t := Insert(s[..n], x, key);
      forall i | 0 <= i < |t| ensures !Before(key(s[n]), key(t[i])) {
        assert t[i] in multiset(t);
        assert t[i] == x || t[i] in s[..n];
        NotBoth(key(x), key(s[n]));
      }
      OrderedAddingLast(t, s[n], key);
    } else {
      InsertsHere(s, x, key);
      if s != [] {
        LastPrecedes(s, x, key);
      }
      OrderedAddingLast(s, x, key);
    }
  }

  lemma NotBoth(a: Key, b: Key)
    ensures !(Before(a, b) && Before(b, a))
  {
  }

  lemma OrderedInFront<T>(s: seq<T>, key: T -> Key)
    requires s != [] && Ordered(s, key)
    ensures Ordered(s[..|s| - 1], key)
    ensures forall x :: x in s[..|s| - 1] ==> !Before(key(s[|s| - 1]), key(x))
  {
    hide Before;
  }

  lemma OrderedAddingLast<T>(s: seq<T>, x: T, key: T -> Key)
    requires Ordered(s, key) && forall i :: 0 <= i < |s| ==> !Before(key(x), key(s[i]))
    ensures Ordered(s + [x], key)
  {
    hide Before;
  }

  /** What the last does not follow, nothing before it does. */
  lemma LastPrecedes<T>(s: seq<T>, x: T, key: T -> Key)
    requires s != [] && Ordered(s, key) && !Before(key(x), key(s[|s| - 1]))
    ensures forall i :: 0 <= i < |s| ==> !Before(key(x), key(s[i]))
  {
    forall i | 0 <= i < |s| ensures !Before(key(x), key(s[i])) {
      if i < |s| - 1 {
        assert !Before(key(s[|s| - 1]), key(s[i]));
      }
    }
  }

  /** Sorting rearranges and orders. */
  lemma {:induction false} SortedIsOrdered<T>(s: seq<T>, key: T -> Key)
    ensures Ordered(Sorted(s, key), key)
    ensures multiset(Sorted(s, key)) == multiset(s)
  {
    if s != [] {
      var n := |s| - 1;
      SortedIsOrdered(s[..n], key);
      InsertKeepsOrder(Sorted(s[..n], key), s[n], key);
      InsertKeepsElements(Sorted(s[..n], key), s[n], key);
      assert s == s[..n] + [s[n]];
    }
  }

  lemma {:induction false} InsertIsStable<T>(s: seq<T>, x: T, key: T -> Key, k: Key)
    requires Ordered(s, key)
    ensures WithKey(Insert(s, x, key), key, k) == WithKey(s, key, k) + (if key(x) == k then [x] else [])
  {
    if s == [] || !Before(key(x), key(s[|s| - 1])) {
      assert (s + [x])[..|s|] == s;
    } else {
      var n := |s| - 1;
      var t := Insert(s[..n], x, key);
      InsertIsStable(s[..n], x, key, k);
      assert (t + [s[n]])[..|t|] == t;
      if key(s[n]) == k {
        assert key(x) != k;
      }
    }
  }

  lemma {:induction false} SortedIsStable<T>(s: seq<T>, key: T -> Key, k: Key)
    ensures WithKey(Sorted(s, key), key, k) == WithKey(s, key, k)
  {
    if s != [] {
      var n := |s| - 1;
      SortedIsOrdered(s[..n], key);
      SortedIsStable(s[..n], key, k);
      InsertIsStable(Sorted(s[..n], key), s[n], key, k);
    }
  }

  lemma {:induction false} WithKeyIsEmpty<T>(s: seq<T>, key: T -> Key, k: Key)
    ensures WithKey(s, key, k) == [] <==> forall i :: 0 <= i < |s| ==> key(s[i]) != k
  {
    if s != [] {
      WithKeyIsEmpty(s[..|s| - 1], key, k);
    }
  }

  lemma EmptyTogether<T>(s: seq<T>, t: seq<T>, key: T -> Key)
    requires forall k :: WithKey(s, key, k) == WithKey(t, key, k)
    ensures t == [] ==> s == []
  {
    if s != [] {
      var k := key(s[|s| - 1]);
      WithKeyIsEmpty(s, key, k);
      WithKeyIsEmpty(t, key, k);
    }
  }

  /** Order and stability leave no choice: every stable sort returns the same sequence. */
  lemma {:induction false} StableSortIsUnique<T>(s: seq<T>, t: seq<T>, key: T -> Key)
    requires Ordered(s, key) && Ordered(t, key)
    requires forall k :: WithKey(s, key, k) == WithKey(t, key, k)
    ensures s == t
  {
    hide WithKey, Ordered;
    EmptyTogether(s, t, key);
    EmptyTogether(t, s, key);
    if s != [] {
      var m, n := |s| - 1, |t| - 1;
      SameLast(s, t, key);
      forall l ensures WithKey(s[..m], key, l) == WithKey(t[..n], key, l) {
        assert WithKey(s, key, l) == WithKey(t, key, l);
        LastOfItsKey(s, key, l);
        LastOfItsKey(t, key, l);
        SameEndingCancels(WithKey(s[..m], key, l), WithKey(t[..n], key, l), if key(s[m]) == l then [s[m]] else []);
      }
      OrderedInFront(s, key);
      OrderedInFront(t, key);
      StableSortIsUnique(s[..m], t[..n], key);
      assert s == s[..m] + [s[m]] && t == t[..n] + [t[n]];
    }
  }

  lemma LastOfItsKey<T>(s: seq<T>, key: T -> Key, k: Key)
    requires s != []
    ensures var n := |s| - 1;
            WithKey(s, key, k) == WithKey(s[..n], key, k) + (if key(s[n]) == k then [s[n]] else [])
  {
  }

  /** Two such sequences end alike. */
  lemma SameLast<T>(s: seq<T>, t: seq<T>, key: T -> Key)
    requires s != [] && t != [] && Ordered(s, key) && Ordered(t, key)
    requires forall k :: WithKey(s, key, k) == WithKey(t, key, k)
    ensures s[|s| - 1] == t[|t| - 1]
  {
    hide WithKey, Ordered;
    var x, y := s[|s| - 1], t[|t| - 1];
    LastIsGreatest(s, t, key);
    LastIsGreatest(t, s, key);
    SameKey(key(x), key(y));
    LastOfItsKey(s, key, key(x));
    LastOfItsKey(t, key, key(x));
    assert WithKey(s, key, key(x)) == WithKey(t, key, key(x));
    assert x == WithKey(s, key, key(x))[|WithKey(s, key, key(x))| - 1] == y;
  }

  lemma SameKey(a: Key, b: Key)
    requires !Before(a, b) && !Before(b, a)
    ensures a == b
  {
  }

  /** No element of t has a key that the last of s precedes. */
  lemma LastIsGreatest<T>(s: seq<T>, t: seq<T>, key: T -> Key)
    requires s != [] && t != [] && Ordered(s, key)
    requires forall k :: WithKey(s, key, k) == WithKey(t, key, k)
    ensures !Before(key(s[|s| - 1]), key(t[|t| - 1]))
  {
    hide WithKey, Ordered, Before;
    var k := key(t[|t| - 1]);
    WithKeyIsEmpty(t, key, k);
    WithKeyIsEmpty(s, key, k);
    var i :| 0 <= i < |s| && key(s[i]) == k;
    OrderedInFront(s, key);
    if i < |s| - 1 {
      assert s[i] in s[..|s| - 1];
    } else {
      NotBoth(k, k);
    }
  }

  lemma SameEndingCancels<T>(a: seq<T>, b: seq<T>, ending: seq<T>)
    requires a + ending == b + ending
    ensures a == b
  {
    assert a == (a + ending)[..|a|] && b == (b + ending)[..|a|];
  }

  /** sort.SliceStable, in place. */
  method SliceStable<T>(a: array<T>, key: T -> Key)
    modifies a
    ensures a[..] == Sorted(old(a[..]), key)
  {
    hide Insert;
    ghost var was := a[..];
    for n := 0 to a.Length
      invariant a[..n] == Sorted(was[..n], key)
      invariant a[n..] == was[n..]
    {
      assert a[n] == a[n..][0] == was[n];
      assert a[n + 1..] == a[n..][1..] == was[n + 1..];
      assert was[..n + 1][..n] == was[..n] && was[..n + 1][n] == was[n];
      SinkIntoPlace(a, n, key);
    }
    assert a[..a.Length] == a[..] && was[..a.Length] == was;
  }

  /** Moves a[n] back over the elements its key precedes. */
  method SinkIntoPlace<T>(a: array<T>, n: nat, key: T -> Key)
    requires n < a.Length
    modifies a
    ensures a[..n + 1] == Insert(old(a[..n]), old(a[n]), key)
    ensures a[n + 1..] == old(a[n + 1..])
  {
    hide Insert;
    ghost var before, x := a[..n], a[n];
    var j := n;
    InsertFrom(before, n, x, key);
    while j > 0 && Before(key(a[j]), key(a[j - 1]))
      invariant 0 <= j <= n
      invariant a[..n + 1] == before[..j] + [x] + before[j..]
      invariant a[n + 1..] == old(a[n + 1..])
      invariant Insert(before, x, key) == Insert(before[..j], x, key) + before[j..]
    {
      ghost var was := a[..n + 1];
      assert was[j] == x && was[j - 1] == before[j - 1];
      InsertFromOneBack(before, j, x, key);
      OneBack(before, j, x);
      a[j - 1], a[j] := a[j], a[j - 1];
      assert a[..n + 1] == was[j - 1 := x][j := before[j - 1]];
      j := j - 1;
    }
    assert a[..n + 1][j] == x && (j > 0 ==> a[..n + 1][j - 1] == before[j - 1]);
    InsertsHere(before[..j], x, key);
  }

  lemma OneBack<T>(s: seq<T>, j: nat, x: T)
    requires 0 < j <= |s|
    ensures s[..j - 1] + [x] + s[j - 1..] == (s[..j] + [x] + s[j..])[j - 1 := x][j := s[j - 1]]
  {
  }

  lemma InsertsHere<T>(s: seq<T>, x: T, key: T -> Key)
    requires s == [] || !Before(key(x), key(s[|s| - 1]))
    ensures Insert(s, x, key) == s + [x]
  {
  }

  lemma InsertFrom<T>(s: seq<T>, n: nat, x: T, key: T -> Key)
    requires n == |s|
    ensures Insert(s, x, key) == Insert(s[..n], x, key) + s[n..]
  {
    assert s[..n] == s;
  }

  lemma InsertFromOneBack<T>(s: seq<T>, j: nat, x: T, key: T -> Key)
    requires 0 < j <= |s| && Before(key(x), key(s[j - 1]))
    requires Insert(s, x, key) == Insert(s[..j], x, key) + s[j..]
    ensures Insert(s, x, key) == Insert(s[..j - 1], x, key) + s[j - 1..]
  {
    hide Insert;
    InsertUnfolds(s[..j], x, key);
    assert s[..j][..j - 1] == s[..j - 1];
    assert s[j - 1..] == [s[j - 1]] + s[j..];
    assert Insert(s[..j - 1], x, key) + [s[j - 1]] + s[j..] == Insert(s[..j - 1], x, key) + ([s[j - 1]] + s[j..]);
  }
}
