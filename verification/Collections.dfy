/** Optional values, sorting, and counting facts about sequences, sets and multisets. */
module Collections {

  datatype Option<+T> = None | Some(value: T)

  // ----- Sorting -----

  ghost predicate Ascending<T>(s: seq<T>, key: T -> int)
  {
    forall i, j :: 0 <= i < j < |s| ==> key(s[i]) <= key(s[j])
  }

  /** Places x before the elements of equal or larger key. */
  function Place<T>(x: T, s: seq<T>, key: T -> int): seq<T>
  {
    if s == [] || key(x) <= key(s[0]) then [x] + s else [s[0]] + Place(x, s[1..], key)
  }

  /** The insertion sort; equal keys keep their order. */
  function SortOn<T>(s: seq<T>, key: T -> int): seq<T>
  {
    if s == [] then [] else Place(s[0], SortOn(s[1..], key), key)
  }

  lemma {:induction false} PlaceKeeps<T>(x: T, s: seq<T>, key: T -> int)
    ensures multiset(Place(x, s, key)) == multiset{x} + multiset(s)
  {
    if !(s == [] || key(x) <= key(s[0])) {
      PlaceKeeps(x, s[1..], key);
      assert s == [s[0]] + s[1..];
    }
  }

  lemma {:induction false} PlaceAscends<T>(x: T, s: seq<T>, key: T -> int)
    requires Ascending(s, key)
    ensures Ascending(Place(x, s, key), key)
  {
    if !(s == [] || key(x) <= key(s[0])) {
      PlaceAscends(x, s[1..], key);
      PlaceKeeps(x, s[1..], key);
      var t := Place(x, s[1..], key);
      forall i | 0 <= i < |t| ensures key(s[0]) <= key(t[i]) {
        assert t[i] in multiset(t);
        assert t[i] == x || t[i] in s[1..];
      }
    }
  }

  lemma {:induction false} SortOnLaws<T>(s: seq<T>, key: T -> int)
    ensures Ascending(SortOn(s, key), key) && multiset(SortOn(s, key)) == multiset(s)
  {
    if s != [] {
      SortOnLaws(s[1..], key);
      PlaceKeeps(s[0], SortOn(s[1..], key), key);
      PlaceAscends(s[0], SortOn(s[1..], key), key);
      assert s == [s[0]] + s[1..];
    }
  }

  // ----- Counting -----

  lemma SubsetSize<T>(a: set<T>, b: set<T>)
    requires a <= b
    ensures |a| <= |b|
  {
    assert b == a + (b - a);
  }

  lemma EqualBySize<T>(a: set<T>, b: set<T>)
    requires a <= b && |a| >= |b|
    ensures a == b
  {
    assert b == a + (b - a);
    assert |b - a| == 0;
  }

  /** s without its element at i. */
  function Without<T>(s: seq<T>, i: nat): seq<T>
    requires i < |s|
  {
    s[..i] + s[i + 1..]
  }

  lemma WithoutOne<T>(s: seq<T>, i: nat)
    requires i < |s|
    ensures multiset(s) == multiset(Without(s, i)) + multiset{s[i]}
  {
    assert s == s[..i] + [s[i]] + s[i + 1..];
  }

  lemma CancelOne<T>(a: multiset<T>, b: multiset<T>, x: T)
    requires a + multiset{x} == b + multiset{x}
    ensures a == b
  {
    assert a == a + multiset{x} - multiset{x} && b == b + multiset{x} - multiset{x};
  }

  /** Rearrangements of each other without an element both have. */
  lemma StillPermuted<T>(a: seq<T>, i: nat, b: seq<T>, j: nat)
    requires i < |a| && j < |b| && a[i] == b[j] && multiset(a) == multiset(b)
    ensures multiset(Without(a, i)) == multiset(Without(b, j))
  {
    WithoutOne(a, i);
    WithoutOne(b, j);
    CancelOne(multiset(Without(a, i)), multiset(Without(b, j)), a[i]);
  }

  lemma Twice<T>(s: seq<T>, i: nat, j: nat)
    requires i < j < |s| && s[i] == s[j]
    ensures multiset(s)[s[i]] >= 2
  {
    assert s == s[..i] + [s[i]] + s[i + 1..j] + [s[j]] + s[j + 1..];
  }

  lemma {:induction false} AtMostOnce<T>(s: seq<T>, x: T)
    requires forall i, j :: 0 <= i < j < |s| ==> s[i] != s[j]
    ensures multiset(s)[x] <= 1
  {
    if s != [] {
      AtMostOnce(s[1..], x);
      assert s == [s[0]] + s[1..];
      assert s[0] !in s[1..];
    }
  }
}
