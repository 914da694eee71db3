/** Local re-ranking of recall hits (cmd/anchored/hook_userpromptsubmit.go): hits that
    mention an anchor token count 1.3 times their rank score, and a hand-written
    insertion sort orders them. Scores are scaled by ten, so that 1.3 is 13. */
module Rerank {
  import opened Collections
  import opened StringOrder
  import opened Text

  datatype Hit = Hit(id: string, content: string)

  datatype ScoredHit = ScoredHit(hit: Hit, score: int, order: nat)

  /** Higher score first; among equals, the earlier one. */
  predicate Ahead(a: ScoredHit, b: ScoredHit)
  {
    a.score > b.score || (a.score == b.score && a.order < b.order)
  }

  // ----- The sort as a function -----

  /** Walks in from the right past everything that key goes ahead of. */
  function InsertFromRight(s: seq<ScoredHit>, key: ScoredHit): seq<ScoredHit>
  {
    if s == [] then [key]
    else
      var last := |s| - 1;
      if Ahead(key, s[last]) then InsertFromRight(s[..last], key) + [s[last]] else s + [key]
  }

  function Sorted(s: seq<ScoredHit>): seq<ScoredHit>
  {
    if s == [] then [] else InsertFromRight(Sorted(s[..|s| - 1]), s[|s| - 1])
  }

  /** No element goes ahead of one before it. */
  ghost predicate InOrder(s: seq<ScoredHit>)
  {
    forall a, b :: 0 <= a < b < |s| ==> !Ahead(s[b], s[a])
  }

  lemma {:induction false} InsertKeeps(s: seq<ScoredHit>, key: ScoredHit)
    ensures multiset(InsertFromRight(s, key)) == multiset(s) + multiset{key}
    ensures |InsertFromRight(s, key)| == |s| + 1
  {
    if s != [] {
      var last := |s| - 1;
      assert s == s[..last] + [s[last]];
      if Ahead(key, s[last]) { InsertKeeps(s[..last], key); }
    }
  }

  lemma {:induction false} InsertInOrder(s: seq<ScoredHit>, key: ScoredHit)
    requires InOrder(s)
    ensures InOrder(InsertFromRight(s, key))
  {
    if s != [] {
      var last := |s| - 1;
      if Ahead(key, s[last]) {
        InsertInOrder(s[..last], key);
        InsertKeeps(s[..last], key);
        var r := InsertFromRight(s[..last], key);
        forall a | 0 <= a < |r| ensures !Ahead(s[last], r[a]) {
          assert r[a] in multiset(r);
          assert r[a] == key || r[a] in s[..last];
        }
      } else {
        forall a | 0 <= a < |s| ensures !Ahead(key, s[a]) {
          assert a < last ==> !Ahead(s[last], s[a]);
        }
      }
    }
  }

  /** The sort returns its input rearranged and in order. */
  lemma {:induction false} SortedPermutes(s: seq<ScoredHit>)
    ensures multiset(Sorted(s)) == multiset(s) && |Sorted(s)| == |s|
    ensures InOrder(Sorted(s))
  {
    if s != [] {
      var last := |s| - 1;
      assert s == s[..last] + [s[last]];
      SortedPermutes(s[..last]);
      InsertKeeps(Sorted(s[..last]), s[last]);
      InsertInOrder(Sorted(s[..last]), s[last]);
    }
  }

  // ----- The sort in place -----

  /** Where the walk stops: key is ahead of all from m on and not of the one before. */
  ghost predicate StopsAt(p: seq<ScoredHit>, key: ScoredHit, m: int)
  {
    0 <= m <= |p| && (forall k :: m <= k < |p| ==> Ahead(key, p[k])) && (m > 0 ==> !Ahead(key, p[m - 1]))
  }

  lemma {:induction false} InsertedAt(p: seq<ScoredHit>, key: ScoredHit, m: nat)
    requires StopsAt(p, key, m)
    ensures InsertFromRight(p, key) == p[..m] + [key] + p[m..]
  {
    if m < |p| {
      var last := |p| - 1;
      var front := p[..last];
      assert StopsAt(front, key, m) by { assert forall k :: m <= k < last ==> front[k] == p[k]; }
      InsertedAt(front, key, m);
      assert front[..m] == p[..m] && p[m..] == front[m..] + [p[last]];
      assert InsertFromRight(p, key) == InsertFromRight(front, key) + [p[last]];
      Regroup(p[..m] + [key], front[m..], [p[last]]);
    } else {
      assert p[..m] == p && p[m..] == [];
      assert p + [key] + [] == p + [key];
    }
  }

  /** The walk of one round has reached j: what lies between j and i moved one place up. */
  ghost predicate Shifting(now: seq<ScoredHit>, was: seq<ScoredHit>, i: int, j: int)
  {
    && -1 <= j < i < |was| == |now|
    && (forall k :: 0 <= k <= j ==> now[k] == was[k])
    && (forall k :: j + 1 < k <= i ==> now[k] == was[k - 1])
    && (forall k :: i < k < |was| ==> now[k] == was[k])
    && (forall k :: j < k < i ==> Ahead(was[i], was[k]))
  }

  lemma ShiftStep(now: seq<ScoredHit>, was: seq<ScoredHit>, i: int, j: int)
    requires Shifting(now, was, i, j) && j >= 0 && Ahead(was[i], was[j])
    ensures Shifting(now[j + 1 := now[j]], was, i, j - 1)
  {
  }

  /** What one round makes of the list: element i inserted among those before it. */
  ghost function Round(was: seq<ScoredHit>, i: nat): seq<ScoredHit>
    requires i < |was|
  {
    InsertFromRight(was[..i], was[i]) + was[i + 1..]
  }

  /** was with its element at i moved to m, those between one place up. */
  ghost function Slid(was: seq<ScoredHit>, m: nat, i: nat): (r: seq<ScoredHit>)
    requires m <= i < |was|
    ensures |r| == |was| && forall k :: 0 <= k < |was| ==>
              r[k] == if k < m || k > i then was[k] else if k == m then was[i] else was[k - 1]
  {
    was[..m] + [was[i]] + was[m..i] + was[i + 1..]
  }

  lemma ShiftEnds(now: seq<ScoredHit>, was: seq<ScoredHit>, i: int, j: int)
    requires Shifting(now, was, i, j) && (j >= 0 ==> !Ahead(was[i], was[j]))
    ensures now[j + 1 := was[i]] == Round(was, i)
  {
    InsertedAt(was[..i], was[i], j + 1);
    assert was[..i][..j + 1] == was[..j + 1] && was[..i][j + 1..] == was[j + 1..i];
    assert Round(was, i) == Slid(was, j + 1, i);
  }

  method InsertRound(items: array<ScoredHit>, i: nat)
    requires 0 < i < items.Length
    modifies items
    ensures items[..] == Round(old(items[..]), i)
  {
    ghost var was := items[..];
    var key := items[i];
    var j := i - 1;
    while j >= 0 && (items[j].score < key.score || (items[j].score == key.score && items[j].order > key.order))
      invariant Shifting(items[..], was, i, j)
    {
      ShiftStep(items[..], was, i, j);
      assert items[j] == items[..][j];
      ghost var now := items[..];
      items[j + 1] := items[j];
      assert items[..] == now[j + 1 := now[j]];
      j := j - 1;
    }
    assert j >= 0 ==> items[j] == items[..][j];
    ShiftEnds(items[..], was, i, j);
    ghost var now := items[..];
    items[j + 1] := key;
    assert items[..] == now[j + 1 := key];
  }

  lemma NextRound(was: seq<ScoredHit>, i: nat)
    requires i < |was|
    ensures |Sorted(was[..i])| == i && Round(Sorted(was[..i]) + was[i..], i) == Sorted(was[..i + 1]) + was[i + 1..]
  {
    SortedPermutes(was[..i]);
    var now := Sorted(was[..i]) + was[i..];
    assert now[..i] == Sorted(was[..i]) && now[i] == was[i] && now[i + 1..] == was[i + 1..];
    assert was[..i + 1][..i] == was[..i];
  }

  method StableSort(items: array<ScoredHit>)
    modifies items
    ensures items[..] == Sorted(old(items[..]))
  {
    ghost var was := items[..];
    var n := items.Length;
    if n > 0 {
      NextRound(was, 0);
      assert was[..0] == [] && Round([] + was[0..], 0) == was by { assert was[..0] == []; }
    }
    assert was[..|was|] == was && was[|was|..] == [];
    var i := 1;
    while i < n
      invariant 1 <= i && (n > 0 ==> i <= n)
      invariant n > 0 ==> items[..] == Sorted(was[..i]) + was[i..]
    {
      NextRound(was, i);
      InsertRound(items, i);
      i := i + 1;
    }
  }

  // ----- Re-ranking -----

  /** Lower-casing is a parameter. */
  type Lower = string -> string

  predicate Mentions(hay: string, token: string)
  {
    Index(hay, token) >= 0
  }

  predicate Boosted(lower: Lower, tokens: seq<string>, h: Hit)
  {
    exists k :: 0 <= k < |tokens| && Mentions(lower(h.content), tokens[k])
  }

  /** Ten times the score of hit i out of n. */
  function Score(n: nat, i: nat, boosted: bool): int
    requires i < n
  {
    (if boosted then 13 else 10) * (n - i)
  }

  function ScoredAt(lower: Lower, tokens: seq<string>, hits: seq<Hit>, i: nat): ScoredHit
    requires i < |hits|
  {
    ScoredHit(hits[i], Score(|hits|, i, Boosted(lower, tokens, hits[i])), i)
  }

  method IsBoosted(lower: Lower, tokens: seq<string>, h: Hit) returns (boosted: bool)
    ensures boosted == Boosted(lower, tokens, h)
  {
    var hay := lower(h.content);
    boosted := false;
    for k := 0 to |tokens|
      invariant boosted == exists m :: 0 <= m < k && Mentions(hay, tokens[m])
    {
      if Mentions(hay, tokens[k]) {
        boosted := true;
      }
    }
  }

  /** Hit i of the search stands at place rank[k] of the result; of any two hits the one
      with the greater score comes first, and of equals the one found first. */
  ghost predicate IsRanking(n: nat, boosted: nat -> bool, rank: seq<nat>)
  {
    && |rank| == n
    && (forall k :: 0 <= k < n ==> rank[k] < n)
    && (forall k, l :: 0 <= k < l < n ==> rank[k] != rank[l] && Outranks(n, boosted, rank[k], rank[l]))
  }

  ghost predicate Outranks(n: nat, boosted: nat -> bool, i: nat, j: nat)
    requires i < n && j < n
  {
    var a, b := Score(n, i, boosted(i)), Score(n, j, boosted(j));
    a > b || (a == b && i < j)
  }

  ghost function Picked(hits: seq<Hit>, rank: seq<nat>): seq<Hit>
    requires forall k :: 0 <= k < |rank| ==> rank[k] < |hits|
  {
    seq(|rank|, k requires 0 <= k < |rank| => hits[rank[k]])
  }

  ghost function Hits(s: seq<ScoredHit>): seq<Hit>
  {
    seq(|s|, i requires 0 <= i < |s| => s[i].hit)
  }

  lemma HitsWithout(s: seq<ScoredHit>, i: nat)
    requires i < |s|
    ensures multiset(Hits(s)) == multiset(Hits(Without(s, i))) + multiset{s[i].hit}
  {
    assert s == s[..i] + [s[i]] + s[i + 1..];
    assert Hits(s) == Hits(s[..i]) + [s[i].hit] + Hits(s[i + 1..]);
    assert Hits(Without(s, i)) == Hits(s[..i]) + Hits(s[i + 1..]);
  }

  lemma {:induction false} HitsKept(s: seq<ScoredHit>, t: seq<ScoredHit>)
    requires multiset(s) == multiset(t)
    ensures multiset(Hits(s)) == multiset(Hits(t))
    decreases |s|
  {
    if s == [] {
      assert |multiset(t)| == 0;
    } else {
      var last := |s| - 1;
      assert s[last] in multiset(t);
      var i :| 0 <= i < |t| && t[i] == s[last];
      StillPermuted(s, last, t, i);
      HitsWithout(s, last);
      HitsWithout(t, i);
      HitsKept(Without(s, last), Without(t, i));
    }
  }

  ghost predicate AllScored(lower: Lower, tokens: seq<string>, hits: seq<Hit>, scored: seq<ScoredHit>)
  {
    |scored| == |hits| && forall k :: 0 <= k < |hits| ==> scored[k] == ScoredAt(lower, tokens, hits, k)
  }

  lemma PlacesOf(lower: Lower, tokens: seq<string>, hits: seq<Hit>, scored: seq<ScoredHit>, k: nat)
    requires AllScored(lower, tokens, hits, scored) && k < |hits|
    ensures |Sorted(scored)| == |hits|
    ensures var x := Sorted(scored)[k];
            x.order < |hits| && x == scored[x.order] == ScoredAt(lower, tokens, hits, x.order)
  {
    SortedPermutes(scored);
    assert Sorted(scored)[k] in multiset(scored);
  }

  lemma RanksDiffer(lower: Lower, tokens: seq<string>, hits: seq<Hit>, scored: seq<ScoredHit>, k: nat, l: nat)
    requires AllScored(lower, tokens, hits, scored) && k < l < |hits|
    ensures |Sorted(scored)| == |hits| && Sorted(scored)[k].order != Sorted(scored)[l].order
  {
    PlacesOf(lower, tokens, hits, scored, k);
    PlacesOf(lower, tokens, hits, scored, l);
    var s := Sorted(scored);
    if s[k].order == s[l].order {
      Twice(s, k, l);
      AtMostOnce(scored, s[k]);
      SortedPermutes(scored);
    }
  }

  ghost function BoostedAt(lower: Lower, tokens: seq<string>, hits: seq<Hit>): nat -> bool
  {
    (i: nat) => i < |hits| && Boosted(lower, tokens, hits[i])
  }

  /** The places in the sorted list are a ranking. */
  lemma SortedRanks(lower: Lower, tokens: seq<string>, hits: seq<Hit>, scored: seq<ScoredHit>)
    returns (rank: seq<nat>)
    requires AllScored(lower, tokens, hits, scored)
    ensures IsRanking(|hits|, BoostedAt(lower, tokens, hits), rank)
    ensures Picked(hits, rank) == Hits(Sorted(scored))
  {
    SortedPermutes(scored);
    var s := Sorted(scored);
    rank := seq(|hits|, k requires 0 <= k < |hits| => s[k].order);
    forall k | 0 <= k < |hits| ensures rank[k] < |hits| && s[k] == ScoredAt(lower, tokens, hits, rank[k]) {
      PlacesOf(lower, tokens, hits, scored, k);
    }
    forall k, l | 0 <= k < l < |hits|
      ensures rank[k] != rank[l] && Outranks(|hits|, BoostedAt(lower, tokens, hits), rank[k], rank[l])
    {
      RanksDiffer(lower, tokens, hits, scored, k, l);
      assert !Ahead(s[l], s[k]);
    }
  }

  method ScoreAll(lower: Lower, hits: seq<Hit>, tokens: seq<string>) returns (scored: seq<ScoredHit>)
    ensures AllScored(lower, tokens, hits, scored)
  {
    scored := [];
    for i := 0 to |hits|
      invariant |scored| == i
      invariant forall k :: 0 <= k < i ==> scored[k] == ScoredAt(lower, tokens, hits, k)
    {
      var s := ScoredHit(hits[i], 10 * (|hits| - i), i);
      var boosted := IsBoosted(lower, tokens, hits[i]);
      if boosted {
        s := s.(score := 13 * (|hits| - i));
      }
      scored := scored + [s];
    }
  }

  method Unwrap(items: array<ScoredHit>) returns (out: seq<Hit>)
    ensures out == Hits(items[..])
  {
    out := [];
    for i := 0 to items.Length
      invariant |out| == i
      invariant forall k :: 0 <= k < i ==> out[k] == items[k].hit
    {
      out := out + [items[i].hit];
    }
  }

  /** reRankHits, without the signal labels. */
  method ReRankHits(lower: Lower, hits: seq<Hit>, tokens: seq<string>) returns (out: seq<Hit>, ghost rank: seq<nat>)
    ensures tokens == [] ==> out == hits
    ensures IsRanking(|hits|, BoostedAt(lower, tokens, hits), rank)
    ensures out == Picked(hits, rank)
    ensures multiset(out) == multiset(hits)
  {
    if |tokens| == 0 {
      rank := seq(|hits|, i requires 0 <= i < |hits| => i);
      out := hits;
      return;
    }
    var scored := ScoreAll(lower, hits, tokens);
    var items := new ScoredHit[|scored|](i requires 0 <= i < |scored| => scored[i]);
    assert items[..] == scored;
    StableSort(items);
    out := Unwrap(items);
    rank := SortedRanks(lower, tokens, hits, scored);
    SortedPermutes(scored);
    HitsKept(Sorted(scored), scored);
    assert hits == Hits(scored);
  }

  // ----- What the ranking means -----

  /** Rank order decides, whatever the places: i stands before j when it outranks it. */
  lemma RankedBefore(n: nat, boosted: nat -> bool, rank: seq<nat>, k: nat, l: nat)
    requires IsRanking(n, boosted, rank) && k < n && l < n && k != l
    ensures k < l <==> Outranks(n, boosted, rank[k], rank[l])
  {
    if l < k {
      assert Outranks(n, boosted, rank[l], rank[k]);
    }
  }

  /** A hit found later (j) overtakes one found earlier (i) exactly when it alone is
      boosted and 1.3 (n - j) > n - i. In particular boosted hits keep their order, and
      so do the others. */
  lemma OvertakesExactlyWhen(n: nat, boosted: nat -> bool, rank: seq<nat>, k: nat, l: nat)
    requires IsRanking(n, boosted, rank) && k < n && l < n
    requires rank[k] < rank[l]
    ensures var i, j := rank[k], rank[l];
            l < k <==> boosted(j) && !boosted(i) && 13 * (n - j) > 10 * (n - i)
  {
    RankedBefore(n, boosted, rank, k, l);
  }

  /** The hit's lower-cased text has one of the tokens in it. */
  ghost predicate HasToken(lower: Lower, tokens: seq<string>, h: Hit)
  {
    exists k, i :: 0 <= k < |tokens| && Occurs(lower(h.content), tokens[k], i)
  }

  lemma BoostedExactlyWhen(lower: Lower, tokens: seq<string>, h: Hit)
    ensures Boosted(lower, tokens, h) <==> HasToken(lower, tokens, h)
  {
    if k, i :| 0 <= k < |tokens| && Occurs(lower(h.content), tokens[k], i) {
      assert Mentions(lower(h.content), tokens[k]);
    }
    if k :| 0 <= k < |tokens| && Mentions(lower(h.content), tokens[k]) {
      assert Occurs(lower(h.content), tokens[k], Index(lower(h.content), tokens[k]));
    }
  }

  /** In the result a hit j found later stands before an earlier one i exactly when j has a
      token, i has none and 1.3 (n - j) > n - i. */
  lemma TokensOvertakeExactlyWhen(lower: Lower, tokens: seq<string>, hits: seq<Hit>, rank: seq<nat>, k: nat, l: nat)
    requires IsRanking(|hits|, BoostedAt(lower, tokens, hits), rank) && k < |hits| && l < |hits|
    requires rank[k] < rank[l]
    ensures var i, j := rank[k], rank[l];
            l < k <==>
              && HasToken(lower, tokens, hits[j]) && !HasToken(lower, tokens, hits[i])
              && 13 * (|hits| - j) > 10 * (|hits| - i)
  {
    OvertakesExactlyWhen(|hits|, BoostedAt(lower, tokens, hits), rank, k, l);
    BoostedExactlyWhen(lower, tokens, hits[rank[k]]);
    BoostedExactlyWhen(lower, tokens, hits[rank[l]]);
  }

  ghost function UpTo(n: nat): (r: set<nat>)
    ensures |r| == n && forall i: nat :: i in r <==> i < n
  {
    if n == 0 then {} else UpTo(n - 1) + {n - 1}
  }

  /** n different places below n leave no hit out. */
  lemma EveryHitIsRanked(n: nat, boosted: nat -> bool, rank: seq<nat>, i: nat)
    requires IsRanking(n, boosted, rank) && i < n
    ensures i in rank
  {
    if i !in rank {
      DistinctSize(rank);
      assert UpTo(n) == UpTo(n) - {i} + {i};
      SubsetSize(Elems(rank), UpTo(n) - {i});
    }
  }

  /** Where two rankings first differ, each would put its hit before the other's. */
  lemma FirstDifference(n: nat, boosted: nat -> bool, rank: seq<nat>, other: seq<nat>, k: nat)
    requires IsRanking(n, boosted, rank) && IsRanking(n, boosted, other) && k < n
    requires (forall h :: 0 <= h < k ==> rank[h] == other[h]) && rank[k] != other[k]
    ensures Outranks(n, boosted, rank[k], other[k])
  {
    EveryHitIsRanked(n, boosted, rank, other[k]);
    var l :| 0 <= l < n && rank[l] == other[k];
  }

  /** There is only one ranking, so the result depends on nothing else. */
  lemma {:induction false} RankingUnique(n: nat, boosted: nat -> bool, rank: seq<nat>, other: seq<nat>, k: nat)
    requires IsRanking(n, boosted, rank) && IsRanking(n, boosted, other) && k < n
    ensures rank[k] == other[k]
    decreases k
  {
    forall h | 0 <= h < k ensures rank[h] == other[h] {
      RankingUnique(n, boosted, rank, other, h);
    }
    if rank[k] != other[k] {
      FirstDifference(n, boosted, rank, other, k);
      FirstDifference(n, boosted, other, rank, k);
    }
  }
}
