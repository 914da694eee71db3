/** Near-duplicate clustering (pkg/dream/analyzer.go): a union-find over a map of
    parents, whose result is compared with the connected components of the pairs. */
module Clusters {
  import opened Collections
  import opened StringOrder

  type Pair = (string, string)

  // ----- The reference notion: connected components -----

  ghost predicate Linked(edges: seq<Pair>, a: string, b: string)
  {
    (a, b) in edges || (b, a) in edges
  }

  ghost predicate Walk(edges: seq<Pair>, w: seq<string>)
  {
    |w| > 0 && forall i :: 0 <= i < |w| - 1 ==> Linked(edges, w[i], w[i + 1])
  }

  /** A walk along the edges, in either direction, leads from a to b. */
  ghost predicate Connected(edges: seq<Pair>, a: string, b: string)
  {
    exists w :: Walk(edges, w) && w[0] == a && w[|w| - 1] == b
  }

  lemma ConnectedReflexive(edges: seq<Pair>, a: string)
    ensures Connected(edges, a, a)
  {
    assert Walk(edges, [a]) && [a][0] == a && [a][|[a]| - 1] == a;
  }

  lemma ConnectedTransitive(edges: seq<Pair>, a: string, b: string, c: string)
    requires Connected(edges, a, b) && Connected(edges, b, c)
    ensures Connected(edges, a, c)
  {
    var v :| Walk(edges, v) && v[0] == a && v[|v| - 1] == b;
    var w :| Walk(edges, w) && w[0] == b && w[|w| - 1] == c;
    var u := v + w[1..];
    assert forall i :: 0 <= i < |w| - 1 ==> u[|v| - 1 + i] == w[i] && Linked(edges, w[i], w[i + 1]);
    forall i | 0 <= i < |u| - 1 ensures Linked(edges, u[i], u[i + 1]) {
      if i >= |v| - 1 {
        assert u[i] == w[i - (|v| - 1)] && u[i + 1] == w[i - (|v| - 1) + 1];
      }
    }
    assert u[0] == a && u[|u| - 1] == c;
  }

  lemma ConnectedSymmetric(edges: seq<Pair>, a: string, b: string)
    requires Connected(edges, a, b)
    ensures Connected(edges, b, a)
  {
    var w :| Walk(edges, w) && w[0] == a && w[|w| - 1] == b;
    var r := seq(|w|, i requires 0 <= i < |w| => w[|w| - 1 - i]);
    forall i | 0 <= i < |r| - 1 ensures Linked(edges, r[i], r[i + 1]) {
      assert Linked(edges, w[|w| - 2 - i], w[|w| - 2 - i + 1]);
    }
    assert r[0] == b && r[|r| - 1] == a;
  }

  /** More edges connect at least as much. */
  lemma ConnectedMonotone(edges: seq<Pair>, more: seq<Pair>, a: string, b: string)
    requires Connected(edges, a, b)
    requires forall x, y :: Linked(edges, x, y) ==> Linked(more, x, y)
    ensures Connected(more, a, b)
  {
    var w :| Walk(edges, w) && w[0] == a && w[|w| - 1] == b;
    assert Walk(more, w);
  }

  /** The ids that occur in some pair. */
  ghost function Nodes(pairs: seq<Pair>): set<string>
  {
    (set p | p in pairs :: p.0) + (set p | p in pairs :: p.1)
  }

  ghost function Component(nodes: set<string>, edges: seq<Pair>, x: string): set<string>
  {
    set y | y in nodes && Connected(edges, x, y)
  }

  /** A cluster's sort key: its leader. */
  function Leader(c: seq<string>): string
  {
    if c == [] then "" else c[0]
  }

  const SELF := (x: string) => x

  /** `out` lists exactly the components with at least minSize members, each one
      strictly sorted, the list itself ordered by first member. */
  ghost predicate IsClusters(nodes: set<string>, edges: seq<Pair>, minSize: int, out: seq<seq<string>>)
  {
    && SortedBy(Leader, out)
    && (forall c :: c in out ==>
          c != [] && SortedBy(SELF, c) && |c| >= minSize && c[0] in nodes && Elems(c) == Component(nodes, edges, c[0]))
    && (forall x {:trigger Listed(out, Component(nodes, edges, x))} ::
          x in nodes && |Component(nodes, edges, x)| >= minSize ==> Listed(out, Component(nodes, edges, x)))
  }

  ghost predicate Listed(out: seq<seq<string>>, component: set<string>)
  {
    exists c :: c in out && Elems(c) == component
  }

  lemma ComponentsAgree(nodes: set<string>, edges: seq<Pair>, a: string, b: string)
    requires Connected(edges, a, b)
    ensures Component(nodes, edges, a) == Component(nodes, edges, b)
  {
    forall y | y in nodes ensures Connected(edges, a, y) <==> Connected(edges, b, y) {
      if Connected(edges, a, y) {
        ConnectedSymmetric(edges, a, b);
        ConnectedTransitive(edges, b, a, y);
      }
      if Connected(edges, b, y) { ConnectedTransitive(edges, a, b, y); }
    }
  }

  /** Clusters are pairwise disjoint and cover every id of a large enough component. */
  lemma ClustersPartition(nodes: set<string>, edges: seq<Pair>, minSize: int, out: seq<seq<string>>)
    requires IsClusters(nodes, edges, minSize, out)
    ensures forall i, j :: 0 <= i < j < |out| ==> Elems(out[i]) !! Elems(out[j])
    ensures forall x :: x in nodes && |Component(nodes, edges, x)| >= minSize ==> exists c :: c in out && x in c
  {
    forall i, j | 0 <= i < j < |out| ensures Elems(out[i]) !! Elems(out[j]) {
      var c, d := out[i], out[j];
      if x :| x in Elems(c) && x in Elems(d) {
        ComponentsAgree(nodes, edges, c[0], x);
        ComponentsAgree(nodes, edges, d[0], x);
        assert Elems(c) == Elems(d);
        SameElemsSameCluster(c, d);
        BelowIrreflexive(Leader(c));
      }
    }
    forall x | x in nodes && |Component(nodes, edges, x)| >= minSize ensures exists c :: c in out && x in c {
      assert Listed(out, Component(nodes, edges, x));
      var c :| c in out && Elems(c) == Component(nodes, edges, x);
      ConnectedReflexive(edges, x);
      assert x in Elems(c);
    }
  }

  lemma SameElemsSameCluster(c: seq<string>, d: seq<string>)
    requires SortedBy(SELF, c) && SortedBy(SELF, d) && Elems(c) == Elems(d)
    ensures c == d
  {
    forall x ensures x in c <==> x in d {
      assert x in c <==> x in Elems(c);
      assert x in d <==> x in Elems(d);
    }
    SortedByUnique(SELF, c, d);
  }

  /** The result is determined by the ids and by which of them are connected:
      neither the order nor the direction of the pairs can change it. */
  lemma ClustersUnique(nodes: set<string>, e1: seq<Pair>, e2: seq<Pair>, minSize: int,
                       out1: seq<seq<string>>, out2: seq<seq<string>>)
    requires IsClusters(nodes, e1, minSize, out1) && IsClusters(nodes, e2, minSize, out2)
    requires forall x, y :: x in nodes && y in nodes ==> (Connected(e1, x, y) <==> Connected(e2, x, y))
    ensures out1 == out2
  {
    forall c ensures c in out1 <==> c in out2 {
      if c in out1 { ClusterIncluded(nodes, e1, e2, minSize, out1, out2, c); }
      if c in out2 { ClusterIncluded(nodes, e2, e1, minSize, out2, out1, c); }
    }
    SortedByUnique(Leader, out1, out2);
  }

  lemma ClusterIncluded(nodes: set<string>, e1: seq<Pair>, e2: seq<Pair>, minSize: int,
                        out1: seq<seq<string>>, out2: seq<seq<string>>, c: seq<string>)
    requires IsClusters(nodes, e1, minSize, out1) && IsClusters(nodes, e2, minSize, out2)
    requires forall x, y :: x in nodes && y in nodes ==> (Connected(e1, x, y) <==> Connected(e2, x, y))
    requires c in out1
    ensures c in out2
  {
    SortedIsDistinct(SELF, c);
    DistinctSize(c);
    assert Component(nodes, e1, c[0]) == Component(nodes, e2, c[0]);
    assert Listed(out2, Component(nodes, e2, c[0]));
    var d :| d in out2 && Elems(d) == Component(nodes, e2, c[0]);
    SameElemsSameCluster(c, d);
  }

  /** Reordering pairs, repeating them or swapping their ids changes nothing. */
  lemma PairOrderIrrelevant(p1: seq<Pair>, p2: seq<Pair>, minSize: int, out1: seq<seq<string>>,
                            out2: seq<seq<string>>)
    requires forall x, y :: Linked(p1, x, y) <==> Linked(p2, x, y)
    requires IsClusters(Nodes(p1), p1, minSize, out1) && IsClusters(Nodes(p2), p2, minSize, out2)
    ensures out1 == out2
  {
    forall x, y ensures Connected(p1, x, y) <==> Connected(p2, x, y) {
      if Connected(p1, x, y) { ConnectedMonotone(p1, p2, x, y); }
      if Connected(p2, x, y) { ConnectedMonotone(p2, p1, x, y); }
    }
    LinkedNodes(p1, p2);
    LinkedNodes(p2, p1);
    assert Nodes(p1) == Nodes(p2);
    ClustersUnique(Nodes(p1), p1, p2, minSize, out1, out2);
  }

  lemma LinkedNodes(p1: seq<Pair>, p2: seq<Pair>)
    requires forall x, y :: Linked(p1, x, y) ==> Linked(p2, x, y)
    ensures Nodes(p1) <= Nodes(p2)
  {
    forall x | x in Nodes(p1) ensures x in Nodes(p2) {
      var p :| p in p1 && (p.0 == x || p.1 == x);
      assert Linked(p1, p.0, p.1);
    }
  }

  // ----- The partition that union-find maintains -----

  /** The root of x after merging the pairs in turn. A merge hangs the first id's
      root under the second's, and is lost when that second root is the empty
      string, which the parent map cannot tell from "no parent". */
  function RootOf(pairs: seq<Pair>, x: string): string
  {
    if pairs == [] then x
    else
      var before, p := pairs[..|pairs| - 1], pairs[|pairs| - 1];
      var r, rb := RootOf(before, x), RootOf(before, p.1);
      if rb != "" && r == RootOf(before, p.0) then rb else r
  }

  lemma RootOfAppend(pairs: seq<Pair>, p: Pair, x: string)
    ensures var r, rb := RootOf(pairs, x), RootOf(pairs, p.1);
            RootOf(pairs + [p], x) == if rb != "" && r == RootOf(pairs, p.0) then rb else r
  {
    assert (pairs + [p])[..|pairs + [p]| - 1] == pairs;
  }

  /** A root is its own root, and only the empty id can have the empty root. */
  lemma {:induction false} RootOfIsRoot(pairs: seq<Pair>, x: string)
    ensures RootOf(pairs, RootOf(pairs, x)) == RootOf(pairs, x)
    ensures RootOf(pairs, x) == "" ==> x == ""
  {
    if pairs != [] {
      var before, p := pairs[..|pairs| - 1], pairs[|pairs| - 1];
      RootOfIsRoot(before, x);
      RootOfIsRoot(before, p.1);
    }
  }

  /** The empty id has been given a parent. */
  ghost predicate Anchored(pairs: seq<Pair>)
  {
    exists b :: b != "" && ("", b) in pairs
  }

  /** The pair merges nothing: its second id is the still parentless empty string. */
  ghost predicate Lost(before: seq<Pair>, p: Pair)
  {
    p.1 == "" && p.0 != "" && !Anchored(before)
  }

  /** The pairs whose merge takes effect. */
  ghost function Effective(pairs: seq<Pair>): seq<Pair>
  {
    if pairs == [] then []
    else
      var last := |pairs| - 1;
      Effective(pairs[..last]) + (if Lost(pairs[..last], pairs[last]) then [] else [pairs[last]])
  }

  lemma {:induction false} EmptyIdRoot(pairs: seq<Pair>)
    ensures RootOf(pairs, "") == "" <==> !Anchored(pairs)
  {
    if pairs != [] {
      var before, p := pairs[..|pairs| - 1], pairs[|pairs| - 1];
      EmptyIdRoot(before);
      assert pairs == before + [p];
      assert Anchored(pairs) <==> Anchored(before) || (p.0 == "" && p.1 != "");
      RootOfIsRoot(before, p.0);
      RootOfIsRoot(before, p.1);
    }
  }

  /** Every id is connected to its root by the effective pairs. */
  lemma {:induction false} RootConnected(pairs: seq<Pair>, a: string)
    ensures Connected(Effective(pairs), a, RootOf(pairs, a))
    decreases |pairs|
  {
    var e := Effective(pairs);
    if pairs == [] {
      ConnectedReflexive(e, a);
    } else {
      var before, p := pairs[..|pairs| - 1], pairs[|pairs| - 1];
      var r, ra, rb := RootOf(before, a), RootOf(before, p.0), RootOf(before, p.1);
      RootConnectedBefore(pairs, a);
      if rb != "" && r == ra {
        EmptyIdRoot(before);
        RootConnectedBefore(pairs, p.0);
        RootConnectedBefore(pairs, p.1);
        PairConnected(e, p);
        ConnectedSymmetric(e, p.0, ra);
        ConnectedTransitive(e, a, ra, p.0);
        ConnectedTransitive(e, a, p.0, p.1);
        ConnectedTransitive(e, a, p.1, rb);
      }
    }
  }

  lemma {:induction false} RootConnectedBefore(pairs: seq<Pair>, a: string)
    requires pairs != []
    ensures Connected(Effective(pairs), a, RootOf(pairs[..|pairs| - 1], a))
    decreases |pairs|, 0
  {
    var before := pairs[..|pairs| - 1];
    RootConnected(before, a);
    ConnectedMonotone(Effective(before), Effective(pairs), a, RootOf(before, a));
  }

  lemma PairConnected(edges: seq<Pair>, p: Pair)
    requires p in edges
    ensures Connected(edges, p.0, p.1) && Connected(edges, p.1, p.0)
  {
    var w := [p.0, p.1];
    assert Walk(edges, w) && w[0] == p.0 && w[|w| - 1] == p.1;
    ConnectedSymmetric(edges, p.0, p.1);
  }

  /** The two ids of an effective pair have one root. */
  lemma {:induction false} RootsJoinEdges(pairs: seq<Pair>, p: Pair)
    requires p in Effective(pairs)
    ensures RootOf(pairs, p.0) == RootOf(pairs, p.1)
  {
    var before := pairs[..|pairs| - 1];
    if p in Effective(before) {
      RootsJoinEdges(before, p);
    } else {
      EmptyIdRoot(before);
      RootOfIsRoot(before, p.1);
    }
  }

  lemma {:induction false} RootsAlongWalk(pairs: seq<Pair>, w: seq<string>)
    requires Walk(Effective(pairs), w)
    ensures RootOf(pairs, w[0]) == RootOf(pairs, w[|w| - 1])
    decreases |w|
  {
    if |w| > 1 {
      var x, y := w[|w| - 2], w[|w| - 1];
      RootsAlongWalk(pairs, w[..|w| - 1]);
      assert Linked(Effective(pairs), w[|w| - 2], w[|w| - 2 + 1]);
      RootsJoinEdges(pairs, if (x, y) in Effective(pairs) then (x, y) else (y, x));
    }
  }

  /** Union-find's partition is the connectivity of the effective pairs. */
  lemma RootsAreComponents(pairs: seq<Pair>, a: string, b: string)
    ensures RootOf(pairs, a) == RootOf(pairs, b) <==> Connected(Effective(pairs), a, b)
  {
    var e := Effective(pairs);
    if RootOf(pairs, a) == RootOf(pairs, b) {
      RootConnected(pairs, a);
      RootConnected(pairs, b);
      ConnectedSymmetric(e, b, RootOf(pairs, b));
      ConnectedTransitive(e, a, RootOf(pairs, a), b);
    }
    if Connected(e, a, b) {
      var w :| Walk(e, w) && w[0] == a && w[|w| - 1] == b;
      RootsAlongWalk(pairs, w);
    }
  }

  // ----- Empty ids -----

  /** Without empty ids every pair is effective. */
  lemma {:induction false} NonEmptyIdsAllEffective(pairs: seq<Pair>)
    requires "" !in Nodes(pairs)
    ensures Effective(pairs) == pairs
  {
    if pairs != [] {
      var last := |pairs| - 1;
      assert pairs == pairs[..last] + [pairs[last]];
      assert pairs[last] in pairs;
      assert forall p :: p in pairs[..last] ==> p in pairs;
      assert Nodes(pairs[..last]) <= Nodes(pairs);
      assert pairs[last].1 in Nodes(pairs);
      NonEmptyIdsAllEffective(pairs[..last]);
    }
  }

  /** p is one of the pairs and its merge was lost. */
  ghost predicate LostIn(pairs: seq<Pair>, p: Pair)
  {
    exists i :: 0 <= i < |pairs| && pairs[i] == p && Lost(pairs[..i], p)
  }

  lemma {:induction false} EffectiveOrLost(pairs: seq<Pair>, p: Pair)
    ensures p in Effective(pairs) ==> p in pairs
    ensures p in pairs ==> p in Effective(pairs) || LostIn(pairs, p)
  {
    if pairs != [] {
      var last := |pairs| - 1;
      var before := pairs[..last];
      EffectiveOrLost(before, p);
      assert pairs == before + [pairs[last]];
      if LostIn(before, p) {
        var i :| 0 <= i < |before| && before[i] == p && Lost(before[..i], p);
        assert pairs[i] == p && pairs[..i] == before[..i];
      }
    }
  }

  /** The partition is the connectivity of all the pairs exactly when every lost
      pair's first id reaches the empty id by the effective ones. */
  lemma PartitionExactWhen(pairs: seq<Pair>)
    ensures (forall a, b :: RootOf(pairs, a) == RootOf(pairs, b) <==> Connected(pairs, a, b))
       <==> (forall a :: LostIn(pairs, (a, "")) ==> Connected(Effective(pairs), a, ""))
  {
    if forall a, b :: RootOf(pairs, a) == RootOf(pairs, b) <==> Connected(pairs, a, b) {
      forall a | LostIn(pairs, (a, "")) ensures Connected(Effective(pairs), a, "") {
        PairConnected(pairs, (a, ""));
        RootsAreComponents(pairs, a, "");
      }
    }
    if forall a :: LostIn(pairs, (a, "")) ==> Connected(Effective(pairs), a, "") {
      forall a, b ensures RootOf(pairs, a) == RootOf(pairs, b) <==> Connected(pairs, a, b) {
        RootsAreComponents(pairs, a, b);
        BridgedConnectivity(pairs, a, b);
      }
    }
  }

  lemma BridgedConnectivity(pairs: seq<Pair>, a: string, b: string)
    requires forall x :: LostIn(pairs, (x, "")) ==> Connected(Effective(pairs), x, "")
    ensures Connected(Effective(pairs), a, b) <==> Connected(pairs, a, b)
  {
    EffectiveConnects(pairs, a, b);
    if Connected(pairs, a, b) {
      var w :| Walk(pairs, w) && w[0] == a && w[|w| - 1] == b;
      LostPairsBridged(pairs, w);
    }
  }

  lemma {:induction false} LostPairsBridged(pairs: seq<Pair>, w: seq<string>)
    requires Walk(pairs, w)
    requires forall a :: LostIn(pairs, (a, "")) ==> Connected(Effective(pairs), a, "")
    ensures Connected(Effective(pairs), w[0], w[|w| - 1])
    decreases |w|
  {
    var e := Effective(pairs);
    if |w| == 1 {
      ConnectedReflexive(e, w[0]);
    } else {
      var x, y := w[|w| - 2], w[|w| - 1];
      LostPairsBridged(pairs, w[..|w| - 1]);
      assert Linked(pairs, w[|w| - 2], w[|w| - 2 + 1]);
      EffectiveOrLost(pairs, (x, y));
      EffectiveOrLost(pairs, (y, x));
      if Linked(e, x, y) {
        assert Walk(e, [x, y]) && [x, y][0] == x && [x, y][|[x, y]| - 1] == y;
      } else if (x, y) in pairs {
        assert LostIn(pairs, (x, y));
      } else {
        assert LostIn(pairs, (y, x));
        ConnectedSymmetric(e, y, "");
      }
      ConnectedTransitive(e, w[0], x, y);
    }
  }

  /** Away from the empty id no merge is lost: a walk that cannot reach it uses effective pairs. */
  lemma {:induction false} AwayFromEmptyId(pairs: seq<Pair>, w: seq<string>)
    requires Walk(pairs, w) && !Connected(pairs, w[0], "")
    ensures Connected(Effective(pairs), w[0], w[|w| - 1])
    decreases |w|
  {
    var e := Effective(pairs);
    if |w| == 1 {
      ConnectedReflexive(e, w[0]);
    } else {
      var v, x, y := w[..|w| - 1], w[|w| - 2], w[|w| - 1];
      AwayFromEmptyId(pairs, v);
      assert Linked(pairs, w[|w| - 2], w[|w| - 2 + 1]);
      assert Connected(pairs, w[0], x) by { assert Walk(pairs, v); }
      assert Connected(pairs, w[0], y) by { assert Walk(pairs, w); }
      EffectiveOrLost(pairs, (x, y));
      EffectiveOrLost(pairs, (y, x));
      assert Linked(e, x, y);
      PairConnected(e, if (x, y) in e then (x, y) else (y, x));
      ConnectedTransitive(e, w[0], x, y);
    }
  }

  lemma EffectiveConnects(pairs: seq<Pair>, a: string, b: string)
    ensures Connected(Effective(pairs), a, b) ==> Connected(pairs, a, b)
    ensures Connected(pairs, a, b) && !Connected(pairs, a, "") ==> Connected(Effective(pairs), a, b)
  {
    var e := Effective(pairs);
    if Connected(e, a, b) {
      forall x, y | Linked(e, x, y) ensures Linked(pairs, x, y) {
        EffectiveOrLost(pairs, (x, y));
        EffectiveOrLost(pairs, (y, x));
      }
      ConnectedMonotone(e, pairs, a, b);
    }
    if Connected(pairs, a, b) && !Connected(pairs, a, "") {
      var w :| Walk(pairs, w) && w[0] == a && w[|w| - 1] == b;
      AwayFromEmptyId(pairs, w);
    }
  }

  /** The component of x is that by the effective pairs, or lies in the empty id's. */
  lemma ComponentOrEmptyIds(pairs: seq<Pair>, nodes: set<string>, x: string)
    ensures Component(nodes, Effective(pairs), x) <= Component(nodes, pairs, x)
    ensures Component(nodes, Effective(pairs), x) == Component(nodes, pairs, x)
            || Component(nodes, pairs, x) == Component(nodes, pairs, "")
  {
    forall y ensures Connected(Effective(pairs), x, y) ==> Connected(pairs, x, y) {
      EffectiveConnects(pairs, x, y);
    }
    if Connected(pairs, x, "") {
      ComponentsAgree(nodes, pairs, x, "");
    } else {
      forall y ensures Connected(Effective(pairs), x, y) <==> Connected(pairs, x, y) {
        EffectiveConnects(pairs, x, y);
      }
    }
  }

  /** A lost merge shows in the result when the whole component of the empty id is large
      enough and its pair is not bridged. */
  lemma LostMergeShows(pairs: seq<Pair>, minSize: int, out: seq<seq<string>>, a: string)
    requires IsClusters(Nodes(pairs), Effective(pairs), minSize, out) && IsClusters(Nodes(pairs), pairs, minSize, out)
    requires LostIn(pairs, (a, "")) && |Component(Nodes(pairs), pairs, "")| >= minSize
    ensures Connected(Effective(pairs), a, "")
  {
    var nodes, e := Nodes(pairs), Effective(pairs);
    assert (a, "") in pairs;
    assert a in nodes && "" in nodes by { assert (a, "").0 == a && (a, "").1 == ""; }
    PairConnected(pairs, (a, ""));
    ConnectedReflexive(pairs, "");
    assert Listed(out, Component(nodes, pairs, ""));
    var c :| c in out && Elems(c) == Component(nodes, pairs, "");
    assert a in Elems(c) && "" in Elems(c);
    assert Elems(c) == Component(nodes, e, c[0]);
    ConnectedSymmetric(e, c[0], a);
    ConnectedTransitive(e, a, c[0], "");
  }

  /** The returned list is that of the pairs as given exactly when every lost pair's first
      id reaches the empty id by the effective ones, or the component of the empty id by all
      the pairs is too small to be returned. */
  lemma ResultExactWhen(pairs: seq<Pair>, minSize: int, out: seq<seq<string>>)
    requires IsClusters(Nodes(pairs), Effective(pairs), minSize, out)
    ensures IsClusters(Nodes(pairs), pairs, minSize, out) <==>
              || (forall a :: LostIn(pairs, (a, "")) ==> Connected(Effective(pairs), a, ""))
              || |Component(Nodes(pairs), pairs, "")| < minSize
  {
    var nodes, e := Nodes(pairs), Effective(pairs);
    if IsClusters(nodes, pairs, minSize, out) && |Component(nodes, pairs, "")| >= minSize {
      forall a | LostIn(pairs, (a, "")) ensures Connected(e, a, "") {
        LostMergeShows(pairs, minSize, out, a);
      }
    }
    if forall a :: LostIn(pairs, (a, "")) ==> Connected(e, a, "") {
      forall a, b ensures Connected(e, a, b) <==> Connected(pairs, a, b) {
        BridgedConnectivity(pairs, a, b);
      }
      forall x ensures Component(nodes, e, x) == Component(nodes, pairs, x) {
      }
      SameComponents(nodes, e, pairs, minSize, out);
    }
    if |Component(nodes, pairs, "")| < minSize {
      forall x ensures Component(nodes, e, x) == Component(nodes, pairs, x)
                       || (|Component(nodes, e, x)| < minSize && |Component(nodes, pairs, x)| < minSize)
      {
        ComponentOrEmptyIds(pairs, nodes, x);
        SubsetSize(Component(nodes, e, x), Component(nodes, pairs, x));
      }
      SameComponents(nodes, e, pairs, minSize, out);
    }
  }

  /** Components that are too small by either list of pairs do not matter. */
  lemma SameComponents(nodes: set<string>, e1: seq<Pair>, e2: seq<Pair>, minSize: int, out: seq<seq<string>>)
    requires IsClusters(nodes, e1, minSize, out)
    requires forall x :: Component(nodes, e1, x) == Component(nodes, e2, x)
                         || (|Component(nodes, e1, x)| < minSize && |Component(nodes, e2, x)| < minSize)
    ensures IsClusters(nodes, e2, minSize, out)
  {
    forall c | c in out ensures Elems(c) == Component(nodes, e2, c[0]) {
      SortedIsDistinct(SELF, c);
      DistinctSize(c);
    }
    forall x | x in nodes && |Component(nodes, e2, x)| >= minSize ensures Listed(out, Component(nodes, e2, x)) {
      assert Listed(out, Component(nodes, e1, x));
    }
  }

  /** With an empty id the order of the pairs matters: here "a" and "b" are
      linked through it, yet only one of the two orders puts them together. */
  lemma EmptyIdOrderMatters()
    ensures RootOf([("a", ""), ("", "b")], "a") != RootOf([("a", ""), ("", "b")], "b")
    ensures RootOf([("", "b"), ("a", "")], "a") == RootOf([("", "b"), ("a", "")], "b")
  {
    forall p: Pair, q: Pair, x: string
      ensures RootOf([p, q], x) ==
        var r, rb := RootOf([p], x), RootOf([p], q.1);
        if rb != "" && r == RootOf([p], q.0) then rb else r
    {
      assert [p, q] == [p] + [q];
      RootOfAppend([p], q, x);
    }
    forall p: Pair, x: string
      ensures RootOf([p], x) == if p.1 != "" && x == p.0 then p.1 else x
    {
      assert [p] == [] + [p];
      RootOfAppend([], p, x);
    }
  }

  // ----- The mutable forest -----

  /** A missing key and a key mapped to "" read alike, as in Go. */
  predicate IsRoot(parent: map<string, string>, x: string)
  {
    x !in parent || parent[x] == "" || parent[x] == x
  }

  /** Parents strictly climb in rank, so the forest has no cycle, and every id
      hangs below its root. */
  ghost predicate Sound(parent: map<string, string>, rank: map<string, nat>, height: nat, root: string -> string)
  {
    && rank.Keys == parent.Keys
    && (forall x :: x in rank ==> rank[x] <= height)
    && (forall x {:trigger root(x)} :: if x in parent then root(x) in parent else root(x) == x)
    && (forall x {:trigger IsRoot(parent, x)} :: x in parent ==>
          if IsRoot(parent, x) then root(x) == x
          else
            && parent[x] in parent && rank[x] < rank[parent[x]]
            && root(x) == root(parent[x]) != x)
  }

  lemma CompressKeepsSound(parent: map<string, string>, rank: map<string, nat>, height: nat, root: string -> string,
                           x: string, r: string)
    requires Sound(parent, rank, height, root)
    requires x in parent && r == root(x) == root(r) && r != "" && rank[x] < rank[r]
    ensures Sound(parent[x := r], rank, height, root)
  {
    var after := parent[x := r];
    assert forall y :: y != x ==> (IsRoot(after, y) <==> IsRoot(parent, y));
  }

  lemma PlantKeepsSound(parent: map<string, string>, rank: map<string, nat>, height: nat, root: string -> string,
                        x: string)
    requires Sound(parent, rank, height, root) && IsRoot(parent, x)
    ensures Sound(parent[x := x], if x in rank then rank else rank[x := 0], height, root)
  {
    var after := parent[x := x];
    assert forall y :: y != x ==> (IsRoot(after, y) <==> IsRoot(parent, y));
    assert root(x) == x;
  }

  /** Lifts rb above ra when ra is hung below it. */
  ghost function Climb(rank: map<string, nat>, ra: string, rb: string): map<string, nat>
    requires ra in rank && rb in rank
  {
    if ra != rb && rb != "" && rank[rb] <= rank[ra] then rank[rb := rank[ra] + 1] else rank
  }

  lemma HangKeepsSound(parent: map<string, string>, rank: map<string, nat>, height: nat,
                       root: string -> string, joined: string -> string, ra: string, rb: string)
    requires Sound(parent, rank, height, root) && ra in parent && rb in parent
    requires root(ra) == ra && root(rb) == rb
    requires forall x :: joined(x) == if rb != "" && root(x) == ra then rb else root(x)
    ensures var ranked := Climb(rank, ra, rb);
            Sound(parent[ra := rb], ranked, if height < ranked[rb] then ranked[rb] else height, joined)
  {
    var hung := parent[ra := rb];
    assert IsRoot(parent, ra) && IsRoot(parent, rb);
    assert forall x :: x != ra ==> (IsRoot(hung, x) <==> IsRoot(parent, x));
  }

  ghost function Rooting(merged: seq<Pair>): string -> string
  {
    x => RootOf(merged, x)
  }

  lemma RootingAppend(merged: seq<Pair>, a: string, b: string)
    ensures var f, g := Rooting(merged), Rooting(merged + [(a, b)]);
            && f(f(a)) == f(a) && f(f(b)) == f(b)
            && forall x :: g(x) == if f(b) != "" && f(x) == f(a) then f(b) else f(x)
  {
    RootOfIsRoot(merged, a);
    RootOfIsRoot(merged, b);
    forall x ensures Rooting(merged + [(a, b)])(x) ==
      if RootOf(merged, b) != "" && RootOf(merged, x) == RootOf(merged, a) then RootOf(merged, b) else RootOf(merged, x)
    {
      RootOfAppend(merged, (a, b), x);
    }
  }

  /** The parent map of clustersFromPairs, with the merges it stands for. */
  class Forest {
    var parent: map<string, string>
    ghost var merged: seq<Pair>
    ghost var rank: map<string, nat>
    ghost var height: nat

    ghost predicate Valid()
      reads this
    {
      Sound(parent, rank, height, Rooting(merged))
    }

    constructor ()
      ensures Valid() && parent == map[] && merged == []
    {
      parent, merged, rank, height := map[], [], map[], 0;
    }

    /** Returns x's root, pointing every id on the way straight at it. */
    method Find(x: string) returns (r: string)
      requires Valid()
      modifies this
      ensures Valid() && height == old(height) && merged == old(merged)
      ensures parent.Keys == old(parent.Keys) + {x}
      ensures x in old(parent) ==> parent.Keys == old(parent.Keys)
      ensures r == RootOf(merged, x)
      ensures forall y :: y in old(rank) ==> rank[y] == old(rank)[y]
      ensures r in parent && parent[x] == r && rank[x] <= rank[r] <= height
      decreases if x in rank then height - rank[x] else 0
    {
      if IsRoot(parent, x) {
        PlantKeepsSound(parent, rank, height, Rooting(merged), x);
        assert Rooting(merged)(x) == x;
        rank := if x in rank then rank else rank[x := 0];
        parent := parent[x := x];
        return x;
      }
      assert Rooting(merged)(x) == Rooting(merged)(parent[x]);
      r := Find(parent[x]);
      RootOfIsRoot(merged, x);
      CompressKeepsSound(parent, rank, height, Rooting(merged), x, r);
      parent := parent[x := r];
    }

    /** The assignment of Union: parent[ra] = rb for the roots of a and b. */
    method Hang(ra: string, rb: string, ghost a: string, ghost b: string)
      requires Valid() && ra in parent && rb in parent
      requires ra == RootOf(merged, a) && rb == RootOf(merged, b)
      modifies this
      ensures Valid() && parent == old(parent)[ra := rb]
      ensures merged == old(merged) + [(a, b)]
    {
      RootingAppend(merged, a, b);
      HangKeepsSound(parent, rank, height, Rooting(merged), Rooting(merged + [(a, b)]), ra, rb);
      rank := Climb(rank, ra, rb);
      height := if height < rank[rb] then rank[rb] else height;
      merged := merged + [(a, b)];
      parent := parent[ra := rb];
    }

    /** Hangs a's root under b's root. */
    method Union(a: string, b: string)
      requires Valid()
      modifies this
      ensures Valid() && parent.Keys == old(parent.Keys) + {a, b}
      ensures merged == old(merged) + [(a, b)]
    {
      var ra := Find(a);
      var rb := Find(b);
      Hang(ra, rb, a, b);
    }
  }

  // ----- clustersFromPairs -----

  /** The ids that share x's root. */
  ghost function Group(root: string -> string, nodes: set<string>, x: string): set<string>
  {
    set y | y in nodes && root(y) == root(x)
  }

  lemma GroupIsComponent(pairs: seq<Pair>, nodes: set<string>, x: string)
    ensures Group(Rooting(pairs), nodes, x) == Component(nodes, Effective(pairs), x)
  {
    forall y | y in nodes
      ensures RootOf(pairs, y) == RootOf(pairs, x) <==> Connected(Effective(pairs), x, y)
    {
      RootsAreComponents(pairs, x, y);
    }
  }

  /** The ids gathered so far, listed once each under their roots. */
  ghost predicate Gathered(root: string -> string, done: set<string>, groups: map<string, seq<string>>)
  {
    && (forall r :: r in groups ==> groups[r] != [] && Distinct(groups[r]))
    && (forall r, x :: r in groups && x in groups[r] ==> x in done && root(x) == r)
    && (forall x :: x in done ==> root(x) in groups && x in groups[root(x)])
  }

  lemma GatherOne(root: string -> string, done: set<string>, groups: map<string, seq<string>>, node: string)
    requires Gathered(root, done, groups) && node !in done
    ensures Gathered(root, done + {node}, AddTo(groups, root(node), node))
  {
  }

  /** Go's groups[r] = append(groups[r], node). */
  function AddTo(groups: map<string, seq<string>>, r: string, node: string): map<string, seq<string>>
  {
    groups[r := (if r in groups then groups[r] else []) + [node]]
  }

  /** c lists, strictly sorted, the ids of one root. */
  ghost predicate IsGroup(root: string -> string, nodes: set<string>, c: seq<string>)
  {
    c != [] && SortedBy(SELF, c) && c[0] in nodes && Elems(c) == Group(root, nodes, c[0])
  }

  /** The clusters formed from the roots already visited. */
  ghost predicate Formed(root: string -> string, nodes: set<string>, left: set<string>, minSize: int,
                         out: seq<seq<string>>)
  {
    FormedSoundly(root, nodes, left, minSize, out) && FormedFully(root, nodes, left, minSize, out)
  }

  ghost predicate FormedSoundly(root: string -> string, nodes: set<string>, left: set<string>, minSize: int,
                                out: seq<seq<string>>)
  {
    && (forall c :: c in out ==> IsGroup(root, nodes, c) && |c| >= minSize && root(Leader(c)) !in left)
    && (forall i, j :: 0 <= i < j < |out| ==> root(Leader(out[i])) != root(Leader(out[j])))
  }

  ghost predicate FormedFully(root: string -> string, nodes: set<string>, left: set<string>, minSize: int,
                              out: seq<seq<string>>)
  {
    forall x {:trigger Listed(out, Group(root, nodes, x))} ::
      x in nodes && root(x) !in left && |Group(root, nodes, x)| >= minSize ==> Listed(out, Group(root, nodes, x))
  }

  lemma GroupOfMembers(root: string -> string, nodes: set<string>, groups: map<string, seq<string>>, r: string,
                       x: string)
    requires Gathered(root, nodes, groups) && r in groups && x in nodes && root(x) == r
    ensures Elems(groups[r]) == Group(root, nodes, x) && |groups[r]| == |Group(root, nodes, x)|
  {
    assert forall y :: y in groups[r] <==> y in nodes && root(y) == r;
    DistinctSize(groups[r]);
  }

  lemma SortedMembers(root: string -> string, nodes: set<string>, groups: map<string, seq<string>>, r: string)
    requires Gathered(root, nodes, groups) && r in groups
    ensures var c := SortBy(SELF, groups[r]);
            IsGroup(root, nodes, c) && root(c[0]) == r && |c| == |groups[r]|
  {
    var members, c := groups[r], SortBy(SELF, groups[r]);
    SortedSameSize(members, c);
    assert Elems(c) == Elems(members);
    assert members[0] in members && c[0] in c;
    assert c[0] in members;
    GroupOfMembers(root, nodes, groups, r, c[0]);
  }

  lemma FormOneSoundly(root: string -> string, nodes: set<string>, left: set<string>, minSize: int,
                       out: seq<seq<string>>,
                       r: string, c: seq<string>)
    requires FormedSoundly(root, nodes, left, minSize, out) && r in left
    requires IsGroup(root, nodes, c) && root(c[0]) == r && |c| >= minSize
    ensures FormedSoundly(root, nodes, left - {r}, minSize, out + [c])
  {
  }

  lemma FormOneFully(root: string -> string, nodes: set<string>, left: set<string>, minSize: int,
                     out: seq<seq<string>>,
                     r: string, c: seq<string>)
    requires FormedFully(root, nodes, left, minSize, out) && IsGroup(root, nodes, c) && root(c[0]) == r
    ensures FormedFully(root, nodes, left - {r}, minSize, if |c| >= minSize then out + [c] else out)
  {
    SortedIsDistinct(SELF, c);
    DistinctSize(c);
    forall x | x in nodes && root(x) !in left - {r} && |Group(root, nodes, x)| >= minSize
      ensures Listed(if |c| >= minSize then out + [c] else out, Group(root, nodes, x))
    {
      if root(x) == r {
        assert Group(root, nodes, x) == Group(root, nodes, c[0]);
        ListedLast(out, c);
      } else {
        ListedStays(out, c, Group(root, nodes, x));
      }
    }
  }

  lemma FormOne(root: string -> string, nodes: set<string>, left: set<string>, minSize: int, out: seq<seq<string>>,
                r: string, c: seq<string>)
    requires Formed(root, nodes, left, minSize, out) && r in left
    requires IsGroup(root, nodes, c) && root(c[0]) == r
    ensures Formed(root, nodes, left - {r}, minSize, if |c| >= minSize then out + [c] else out)
  {
    FormOneFully(root, nodes, left, minSize, out, r, c);
    if |c| >= minSize { FormOneSoundly(root, nodes, left, minSize, out, r, c); }
  }

  lemma ListedLast(out: seq<seq<string>>, c: seq<string>)
    ensures Listed(out + [c], Elems(c))
  {
    assert (out + [c])[|out|] == c;
  }

  lemma ListedStays(out: seq<seq<string>>, c: seq<string>, group: set<string>)
    requires Listed(out, group)
    ensures Listed(out + [c], group)
  {
    var d :| d in out && Elems(d) == group;
    assert d in out + [c];
  }

  lemma SortedSameSize(members: seq<string>, c: seq<string>)
    requires Distinct(members) && SortedBy(SELF, c) && forall x :: x in c <==> x in members
    ensures |c| == |members|
  {
    SortedIsDistinct(SELF, c);
    DistinctSize(c);
    DistinctSize(members);
    assert Elems(c) == Elems(members);
  }

  lemma FormedIsClusters(pairs: seq<Pair>, minSize: int, out: seq<seq<string>>, sorted: seq<seq<string>>)
    requires Formed(Rooting(pairs), Nodes(pairs), {}, minSize, out)
    requires SortedBy(Leader, sorted) && forall c :: c in sorted <==> c in out
    ensures IsClusters(Nodes(pairs), Effective(pairs), minSize, sorted)
  {
    var nodes, e := Nodes(pairs), Effective(pairs);
    forall x ensures Group(Rooting(pairs), nodes, x) == Component(nodes, e, x) {
      GroupIsComponent(pairs, nodes, x);
    }
    forall x | x in nodes && |Component(nodes, e, x)| >= minSize ensures Listed(sorted, Component(nodes, e, x)) {
      assert Listed(out, Group(Rooting(pairs), nodes, x));
      var c :| c in out && Elems(c) == Group(Rooting(pairs), nodes, x);
      assert c in sorted;
    }
  }

  lemma NodesAppend(pairs: seq<Pair>, k: nat)
    requires k < |pairs|
    ensures pairs[..k + 1] == pairs[..k] + [pairs[k]]
    ensures Nodes(pairs[..k + 1]) == Nodes(pairs[..k]) + {pairs[k].0, pairs[k].1}
  {
    assert pairs[..k + 1] == pairs[..k] + [pairs[k]];
    forall x ensures x in Nodes(pairs[..k + 1]) <==> x in Nodes(pairs[..k]) + {pairs[k].0, pairs[k].1} {
    }
  }

  /** The first loop: one union per pair. */
  method MergeAll(pairs: seq<Pair>) returns (forest: Forest)
    ensures fresh(forest) && forest.Valid()
    ensures forest.merged == pairs && forest.parent.Keys == Nodes(pairs)
  {
    forest := new Forest();
    for k := 0 to |pairs|
      invariant forest.Valid() && fresh(forest)
      invariant forest.merged == pairs[..k] && forest.parent.Keys == Nodes(pairs[..k])
    {
      forest.Union(pairs[k].0, pairs[k].1);
      NodesAppend(pairs, k);
    }
    assert pairs[..|pairs|] == pairs;
  }

  ghost predicate Split(all: set<string>, done: set<string>, todo: set<string>)
  {
    all == done + todo && done * todo == {}
  }

  lemma MoveOver(all: set<string>, done: set<string>, todo: set<string>, x: string)
    requires Split(all, done, todo) && x in todo
    ensures x in all && x !in done && Split(all, done + {x}, todo - {x})
  {
    assert x in done ==> x in done * todo;
  }

  /** The second loop: every id is listed under its root, in any order. */
  method GatherGroups(forest: Forest) returns (groups: map<string, seq<string>>)
    requires forest.Valid()
    modifies forest
    ensures Gathered(Rooting(old(forest.merged)), old(forest.parent.Keys), groups)
  {
    groups := map[];
    ghost var root, done := Rooting(forest.merged), {};
    var todo := forest.parent.Keys;
    while todo != {}
      invariant forest.Valid() && forest.merged == old(forest.merged)
      invariant forest.parent.Keys == old(forest.parent.Keys) && Split(old(forest.parent.Keys), done, todo)
      invariant Gathered(root, done, groups)
    {
      var node :| node in todo;
      MoveOver(old(forest.parent.Keys), done, todo, node);
      var r := forest.Find(node);
      GatherOne(root, done, groups, node);
      groups := AddTo(groups, r, node);
      done, todo := done + {node}, todo - {node};
    }
  }

  /** The third loop: large enough groups, sorted, and then the list of them sorted. */
  method SelectClusters(groups: map<string, seq<string>>, minSize: int, ghost root: string -> string,
                        ghost ids: set<string>)
    returns (out: seq<seq<string>>, ghost formed: seq<seq<string>>)
    requires Gathered(root, ids, groups)
    ensures Formed(root, ids, {}, minSize, formed)
    ensures SortedBy(Leader, out) && forall c :: c in out <==> c in formed
  {
    out := [];
    var left := groups.Keys;
    while left != {}
      invariant left <= groups.Keys && Formed(root, ids, left, minSize, out)
    {
      var r :| r in left;
      var members := groups[r];
      SortedMembers(root, ids, groups, r);
      FormOne(root, ids, left, minSize, out, r, SortBy(SELF, members));
      if |members| >= minSize {
        out := out + [SortBy(SELF, members)];
      }
      left := left - {r};
    }
    formed := out;
    FormedDistinct(root, ids, minSize, out);
    out := SortBy(Leader, out);
  }

  lemma FormedDistinct(root: string -> string, ids: set<string>, minSize: int, out: seq<seq<string>>)
    requires Formed(root, ids, {}, minSize, out)
    ensures forall i, j :: 0 <= i < j < |out| ==> Leader(out[i]) != Leader(out[j])
  {
  }

  /** Groups near-duplicate pairs into the components with at least minSize ids,
      whatever order the two maps are walked in. */
  method ClustersFromPairs(pairs: seq<Pair>, minSize: int) returns (out: seq<seq<string>>)
    ensures IsClusters(Nodes(pairs), Effective(pairs), minSize, out)
    ensures "" !in Nodes(pairs) ==> IsClusters(Nodes(pairs), pairs, minSize, out)
  {
    var forest := MergeAll(pairs);
    var groups := GatherGroups(forest);
    ghost var formed;
    out, formed := SelectClusters(groups, minSize, Rooting(pairs), Nodes(pairs));
    FormedIsClusters(pairs, minSize, formed, out);
    if "" !in Nodes(pairs) { NonEmptyIdsAllEffective(pairs); }
  }
}
