/** Go's string order, bytewise and lexicographic, and the sorted listings the
    program builds with sort.Strings and sort.Slice over distinct string keys. */
module StringOrder {

  /** a < b for Go strings. */
  predicate Below(a: string, b: string)
  {
    |b| > 0 && (|a| == 0 || a[0] < b[0] || (a[0] == b[0] && Below(a[1..], b[1..])))
  }

  lemma {:induction false} BelowIrreflexive(a: string)
    ensures !Below(a, a)
  {
    if |a| > 0 { BelowIrreflexive(a[1..]); }
  }

  /** The strings agree up to n, and there a ends or has the smaller byte. */
  predicate SmallerAt(a: string, b: string, n: nat)
  {
    n <= |a| && n < |b| && a[..n] == b[..n] && (n == |a| || a[n] < b[n])
  }

  lemma SmallerAtHead(a: string, b: string, n: nat)
    requires SmallerAt(a, b, n)
    ensures n == 0 ==> a == "" || a[0] < b[0]
    ensures n > 0 ==> a[0] == b[0] && SmallerAt(a[1..], b[1..], n - 1)
  {
    if n > 0 {
      assert a[..n][0] == b[..n][0];
      assert a[1..][..n - 1] == a[..n][1..] && b[1..][..n - 1] == b[..n][1..];
    }
  }

  /** The order goes by the first place where the strings differ; a proper prefix is smaller. */
  lemma {:induction false} BelowExactlyWhen(a: string, b: string)
    ensures Below(a, b) <==> exists n: nat :: SmallerAt(a, b, n)
    decreases a
  {
    if n: nat :| SmallerAt(a, b, n) {
      SmallerAtHead(a, b, n);
      if n > 0 { BelowExactlyWhen(a[1..], b[1..]); }
    }
    if Below(a, b) {
      if a == "" || a[0] < b[0] {
        assert SmallerAt(a, b, 0);
      } else {
        BelowExactlyWhen(a[1..], b[1..]);
        var n: nat :| SmallerAt(a[1..], b[1..], n);
        assert a[..n + 1] == [a[0]] + a[1..][..n] && b[..n + 1] == [b[0]] + b[1..][..n];
        assert SmallerAt(a, b, n + 1);
      }
    }
  }

  lemma {:induction false} BelowTransitive(a: string, b: string, c: string)
    requires Below(a, b) && Below(b, c)
    ensures Below(a, c)
  {
    if |a| > 0 && a[0] == b[0] == c[0] { BelowTransitive(a[1..], b[1..], c[1..]); }
  }

  lemma {:induction false} BelowTotal(a: string, b: string)
    ensures a == b || Below(a, b) || Below(b, a)
  {
    if |a| > 0 && |b| > 0 && a[0] == b[0] {
      BelowTotal(a[1..], b[1..]);
      assert a == [a[0]] + a[1..] && b == [b[0]] + b[1..];
    }
  }

  lemma BelowAsymmetric(a: string, b: string)
    requires Below(a, b)
    ensures !Below(b, a) && a != b
  {
    BelowIrreflexive(a);
    if Below(b, a) { BelowTransitive(a, b, a); }
  }

  /** The listing is strictly increasing in its keys. */
  ghost predicate SortedBy<T(!new)>(key: T -> string, s: seq<T>)
  {
    forall i, j :: 0 <= i < j < |s| ==> Below(key(s[i]), key(s[j]))
  }

  ghost function Elems<T>(s: seq<T>): set<T>
  {
    set x | x in s
  }

  ghost predicate Distinct<T(!new)>(s: seq<T>)
  {
    forall i, j :: 0 <= i < j < |s| ==> s[i] != s[j]
  }

  lemma DistinctSnoc<T(!new)>(s: seq<T>, x: T)
    requires Distinct(s) && x !in s
    ensures Distinct(s + [x])
  {
    forall i, j | 0 <= i < j < |s| + 1 ensures (s + [x])[i] != (s + [x])[j] {
      assert s[i] in s;
    }
  }

  lemma NonEmptyHasElement<T(!new)>(s: seq<T>)
    ensures s == [] || exists x :: x in s
  {
    if s != [] { assert s[0] in s; }
  }

  /** Strictly sorted listings of the same elements are the same listing. */
  lemma {:induction false} SortedByUnique<T(!new)>(key: T -> string, s: seq<T>, t: seq<T>)
    requires SortedBy(key, s) && SortedBy(key, t)
    requires forall x :: x in s <==> x in t
    ensures s == t
    decreases |s|
  {
    NonEmptyHasElement(s);
    NonEmptyHasElement(t);
    if s != [] && t != [] {
      SameFirst(key, s, t);
      forall x ensures x in s[1..] <==> x in t[1..] {
        BelowIrreflexive(key(s[0]));
        assert x in s <==> x == s[0] || x in s[1..];
        assert x in t <==> x == t[0] || x in t[1..];
        assert s[0] !in s[1..] && t[0] !in t[1..];
      }
      SortedByUnique(key, s[1..], t[1..]);
      assert s == [s[0]] + s[1..] && t == [t[0]] + t[1..];
    }
  }

  lemma SameFirst<T(!new)>(key: T -> string, s: seq<T>, t: seq<T>)
    requires SortedBy(key, s) && SortedBy(key, t) && s != [] && t != []
    requires forall x :: x in s <==> x in t
    ensures s[0] == t[0]
  {
    assert s[0] in t && t[0] in s;
    var i :| 0 <= i < |t| && t[i] == s[0];
    var j :| 0 <= j < |s| && s[j] == t[0];
    if i > 0 && j > 0 { BelowAsymmetric(key(s[0]), key(s[j])); }
  }

  /** Distinct elements are as many as the set they form. */
  lemma {:induction false} DistinctSize<T(!new)>(s: seq<T>)
    requires Distinct(s)
    ensures |Elems(s)| == |s|
  {
    if s == [] {
    } else {
      var last := |s| - 1;
      DistinctSize(s[..last]);
      assert Elems(s) == Elems(s[..last]) + {s[last]};
    }
  }

  lemma SortedIsDistinct<T(!new)>(key: T -> string, s: seq<T>)
    requires SortedBy(key, s)
    ensures Distinct(s)
  {
    forall i, j | 0 <= i < j < |s| ensures s[i] != s[j] {
      BelowIrreflexive(key(s[i]));
    }
  }

  lemma SortedPrepend<T(!new)>(key: T -> string, x: T, s: seq<T>)
    requires SortedBy(key, s) && (s != [] ==> Below(key(x), key(s[0])))
    ensures SortedBy(key, [x] + s)
  {
    forall j | 0 <= j < |s| ensures Below(key(x), key(s[j])) {
      if j > 0 { BelowTransitive(key(x), key(s[0]), key(s[j])); }
    }
  }

  /** Places x among elements already sorted; its key differs from all of theirs. */
  function InsertBy<T(!new)>(key: T -> string, x: T, s: seq<T>): (r: seq<T>)
    requires SortedBy(key, s) && forall y :: y in s ==> key(y) != key(x)
    ensures SortedBy(key, r) && r != [] && (r[0] == x || (s != [] && r[0] == s[0]))
    ensures forall y :: y in r <==> y == x || y in s
  {
    if s == [] then [x]
    else if Below(key(x), key(s[0])) then
      SortedPrepend(key, x, s);
      [x] + s
    else
      BelowTotal(key(x), key(s[0]));
      assert s == [s[0]] + s[1..];
      var rest := InsertBy(key, x, s[1..]);
      SortedPrepend(key, s[0], rest);
      [s[0]] + rest
  }

  /** What sort.Strings and sort.Slice return on elements with distinct keys. */
  function SortBy<T(!new)>(key: T -> string, s: seq<T>): (r: seq<T>)
    requires forall i, j :: 0 <= i < j < |s| ==> key(s[i]) != key(s[j])
    ensures SortedBy(key, r)
    ensures forall y :: y in r <==> y in s
  {
    if s == [] then []
    else
      var last := |s| - 1;
      assert forall y :: y in s <==> y in s[..last] || y == s[last];
      InsertBy(key, s[last], SortBy(key, s[..last]))
  }
}
