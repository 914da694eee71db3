/** Term positions and the smallest window over them (pkg/context/searcher.go). */
module Proximity {
  import opened Collections
  import opened StringOrder
  import opened Text

  // ----- findTermPositions -----

  ghost predicate Increasing(ps: seq<int>)
  {
    forall i, j :: 0 <= i < j < |ps| ==> ps[i] < ps[j]
  }

  /** ps lists every offset of term in text, overlapping ones included, in order. */
  ghost predicate ListsAll(text: string, term: string, ps: seq<int>)
  {
    Increasing(ps) && forall i :: i in ps <==> Occurs(text, term, i)
  }

  method FindAll(text: string, term: string) returns (ps: seq<int>)
    requires term != ""
    ensures ListsAll(text, term, ps)
  {
    ps := [];
    var idx := 0;
    while true
      invariant 0 <= idx <= |text| && ListsBefore(text, term, idx, ps)
      decreases |text| - idx
    {
      var pos := Index(text[idx..], term);
      IndexBehind(text, term, idx);
      FindNext(text, term, idx, pos, ps);
      if pos == -1 { break; }
      ps := ps + [idx + pos];
      idx := idx + pos + 1;
    }
  }

  /** ps lists the offsets of term before idx. */
  ghost predicate ListsBefore(text: string, term: string, idx: int, ps: seq<int>)
  {
    Increasing(ps) && forall i :: i in ps <==> Occurs(text, term, i) && i < idx
  }

  lemma FindNext(text: string, term: string, idx: int, pos: int, ps: seq<int>)
    requires ListsBefore(text, term, idx, ps) && pos >= -1
    requires pos == -1 ==> forall i :: i >= idx ==> !Occurs(text, term, i)
    requires pos >= 0 ==> Occurs(text, term, idx + pos) && forall i :: idx <= i < idx + pos ==> !Occurs(text, term, i)
    ensures pos == -1 ==> ListsAll(text, term, ps)
    ensures pos >= 0 ==> ListsBefore(text, term, idx + pos + 1, ps + [idx + pos])
  {
    assert forall j :: 0 <= j < |ps| ==> ps[j] in ps;
    forall i ensures i in ps + [idx + pos] <==> i in ps || i == idx + pos {}
  }

  /** Terms without an occurrence get no entry in the map. */
  method FindTermPositions(text: string, terms: seq<string>) returns (positions: map<string, seq<int>>)
    requires Distinct(terms) && "" !in terms
    ensures PositionsOf(text, terms, positions)
  {
    positions := map[];
    for k := 0 to |terms|
      invariant PositionsOf(text, terms[..k], positions)
    {
      var ps := FindAll(text, terms[k]);
      assert terms[..k + 1] == terms[..k] + [terms[k]];
      assert terms[k] !in terms[..k];
      if ps != [] {
        assert ps[0] in ps;
        positions := positions[terms[k] := ps];
      }
    }
    assert terms[..|terms|] == terms;
  }

  ghost predicate PositionsOf(text: string, terms: seq<string>, positions: map<string, seq<int>>)
  {
    && (forall t :: t in positions ==> t in terms && positions[t] != [] && ListsAll(text, t, positions[t]))
    && (forall t, i :: t in terms && Occurs(text, t, i) ==> t in positions)
  }

  // ----- The true minimum -----

  /** The terms with a position in the window from a to b. */
  ghost function TermsWithin(positions: map<string, seq<int>>, a: int, b: int): set<string>
  {
    set t | t in positions && exists p :: p in positions[t] && a <= p <= b
  }

  /** m is the length of the shortest window that touches at least n terms. */
  ghost predicate IsMinSpan(positions: map<string, seq<int>>, n: int, m: int)
  {
    && (exists a, b :: b - a + 1 == m && |TermsWithin(positions, a, b)| >= n)
    && (forall a, b :: |TermsWithin(positions, a, b)| >= n ==> m <= b - a + 1)
  }

  lemma MinSpanUnique(positions: map<string, seq<int>>, n: int, m1: int, m2: int)
    requires IsMinSpan(positions, n, m1) && IsMinSpan(positions, n, m2)
    ensures m1 == m2
  {
  }

  datatype Entry = Entry(pos: int, term: string)

  /** Every position of every term, as one entry each. */
  ghost function Entries(positions: map<string, seq<int>>): set<Entry>
  {
    set t, p | t in positions && p in positions[t] :: Entry(p, t)
  }

  predicate ByPosition(entries: seq<Entry>)
  {
    forall i, j :: 0 <= i < j < |entries| ==> entries[i].pos <= entries[j].pos
  }

  // ----- Windows of entries -----

  ghost function TermsIn(entries: seq<Entry>, l: nat, r: nat): set<string>
    requires l <= r <= |entries|
  {
    set i | l <= i < r :: entries[i].term
  }

  function CountIn(entries: seq<Entry>, l: nat, r: nat, t: string): nat
    requires l <= r <= |entries|
    decreases r
  {
    if l == r then 0 else CountIn(entries, l, r - 1, t) + (if entries[r - 1].term == t then 1 else 0)
  }

  lemma {:induction false} CountDropFirst(entries: seq<Entry>, l: nat, r: nat, t: string)
    requires l < r <= |entries|
    ensures CountIn(entries, l, r, t) == CountIn(entries, l + 1, r, t) + (if entries[l].term == t then 1 else 0)
    decreases r
  {
    if l + 1 < r { CountDropFirst(entries, l, r - 1, t); }
  }

  lemma {:induction false} CountPositive(entries: seq<Entry>, l: nat, r: nat, t: string)
    requires l <= r <= |entries|
    ensures t in TermsIn(entries, l, r) <==> CountIn(entries, l, r, t) > 0
    decreases r
  {
    if l < r {
      CountPositive(entries, l, r - 1, t);
      assert t in TermsIn(entries, l, r) <==> t in TermsIn(entries, l, r - 1) || t == entries[r - 1].term;
    }
  }

  lemma WindowGrows(entries: seq<Entry>, l: nat, r: nat)
    requires l <= r < |entries|
    ensures |TermsIn(entries, l, r + 1)| ==
              |TermsIn(entries, l, r)| + (if CountIn(entries, l, r, entries[r].term) == 0 then 1 else 0)
  {
    CountPositive(entries, l, r, entries[r].term);
    assert TermsIn(entries, l, r + 1) == TermsIn(entries, l, r) + {entries[r].term};
  }

  lemma WindowShrinks(entries: seq<Entry>, l: nat, r: nat)
    requires l < r <= |entries|
    ensures |TermsIn(entries, l, r)| ==
              |TermsIn(entries, l + 1, r)| + (if CountIn(entries, l + 1, r, entries[l].term) == 0 then 1 else 0)
  {
    CountPositive(entries, l + 1, r, entries[l].term);
    assert TermsIn(entries, l, r) == TermsIn(entries, l + 1, r) + {entries[l].term};
  }

  lemma WindowInside(entries: seq<Entry>, l: nat, l': nat, r: nat)
    requires l <= l' <= r <= |entries|
    ensures |TermsIn(entries, l', r)| <= |TermsIn(entries, l, r)|
  {
    SubsetSize(TermsIn(entries, l', r), TermsIn(entries, l, r));
  }

  function SpanOf(entries: seq<Entry>, l: nat, r: nat): int
    requires l <= r < |entries|
  {
    entries[r].pos - entries[l].pos + 1
  }

  /** No window of entries ending before `upTo` that holds n terms is shorter than best. */
  ghost predicate NoneShorter(entries: seq<Entry>, n: int, best: int, upTo: nat)
    requires upTo <= |entries|
  {
    forall l, r :: 0 <= l <= r < upTo && |TermsIn(entries, l, r + 1)| >= n ==> best <= SpanOf(entries, l, r)
  }

  /** best is the length of a window of entries that holds n terms. */
  ghost predicate Attained(entries: seq<Entry>, n: int, best: int)
  {
    exists l, r :: 0 <= l <= r < |entries| && |TermsIn(entries, l, r + 1)| >= n && best == SpanOf(entries, l, r)
  }

  /** A window [a, b] over n terms contains a window of entries over n terms. */
  lemma IntervalToEntries(positions: map<string, seq<int>>, entries: seq<Entry>, n: int, a: int, b: int)
    returns (l: nat, r: nat)
    requires ByPosition(entries) && Elems(entries) == Entries(positions)
    requires n >= 1 && |TermsWithin(positions, a, b)| >= n
    ensures l <= r < |entries| && |TermsIn(entries, l, r + 1)| >= n && SpanOf(entries, l, r) <= b - a + 1
  {
    l := FirstFrom(entries, a);
    var e := FirstFrom(entries, b + 1);
    var terms := TermsWithin(positions, a, b);
    assert terms != {};
    forall t | t in terms ensures exists i :: l <= i < e && entries[i].term == t {
      var p :| p in positions[t] && a <= p <= b;
      assert Entry(p, t) in Entries(positions);
      assert Entry(p, t) in Elems(entries);
      var i :| 0 <= i < |entries| && entries[i] == Entry(p, t);
    }
    assert l < e by {
      var t :| t in terms;
    }
    r := e - 1;
    assert terms <= TermsIn(entries, l, e);
    SubsetSize(terms, TermsIn(entries, l, e));
  }

  /** The first entry at or behind a position. */
  lemma FirstFrom(entries: seq<Entry>, a: int) returns (k: nat)
    requires ByPosition(entries)
    ensures k <= |entries|
    ensures forall i :: 0 <= i < |entries| ==> (i < k <==> entries[i].pos < a)
  {
    k := 0;
    while k < |entries| && entries[k].pos < a
      invariant k <= |entries| && forall i :: 0 <= i < k ==> entries[i].pos < a
    {
      k := k + 1;
    }
  }

  /** A window of entries is a window of positions. */
  lemma EntriesToInterval(positions: map<string, seq<int>>, entries: seq<Entry>, l: nat, r: nat)
    requires ByPosition(entries) && Elems(entries) == Entries(positions) && l <= r < |entries|
    ensures |TermsIn(entries, l, r + 1)| <= |TermsWithin(positions, entries[l].pos, entries[r].pos)|
  {
    var a, b := entries[l].pos, entries[r].pos;
    forall t | t in TermsIn(entries, l, r + 1) ensures t in TermsWithin(positions, a, b) {
      var i :| l <= i < r + 1 && entries[i].term == t;
      assert entries[i] in Elems(entries);
      assert entries[i] in Entries(positions);
      assert entries[i].pos in positions[t] && a <= entries[i].pos <= b;
    }
    SubsetSize(TermsIn(entries, l, r + 1), TermsWithin(positions, a, b));
  }

  lemma AttainedIsMin(positions: map<string, seq<int>>, entries: seq<Entry>, n: int, best: int)
    requires ByPosition(entries) && Elems(entries) == Entries(positions) && n >= 1
    requires NoneShorter(entries, n, best, |entries|) && Attained(entries, n, best)
    ensures IsMinSpan(positions, n, best)
  {
    var l, r :| 0 <= l <= r < |entries| && |TermsIn(entries, l, r + 1)| >= n && best == SpanOf(entries, l, r);
    EntriesToInterval(positions, entries, l, r);
    forall a, b | |TermsWithin(positions, a, b)| >= n ensures best <= b - a + 1 {
      var l', r' := IntervalToEntries(positions, entries, n, a, b);
    }
  }

  lemma NoneShorterBoundsMin(positions: map<string, seq<int>>, entries: seq<Entry>, n: int, best: int, m: int)
    requires ByPosition(entries) && Elems(entries) == Entries(positions) && n >= 1
    requires NoneShorter(entries, n, best, |entries|) && IsMinSpan(positions, n, m)
    ensures best <= m
  {
    var a, b :| b - a + 1 == m && |TermsWithin(positions, a, b)| >= n;
    var l, r := IntervalToEntries(positions, entries, n, a, b);
  }

  // ----- computeMinSpan -----

  ghost predicate SingleEntries(positions: map<string, seq<int>>)
  {
    forall t :: t in positions ==> Distinct(positions[t])
  }

  function EntriesOf(t: string, ps: seq<int>): seq<Entry>
  {
    seq(|ps|, i requires 0 <= i < |ps| => Entry(ps[i], t))
  }

  /** Walks the map in whatever order it offers its keys. */
  method GatherEntries(positions: map<string, seq<int>>) returns (entries: seq<Entry>)
    requires SingleEntries(positions)
    ensures Distinct(entries) && forall e :: e in entries <==> e in Entries(positions)
  {
    entries := [];
    var todo := positions.Keys;
    while todo != {}
      invariant todo <= positions.Keys && Distinct(entries)
      invariant forall e :: e in entries <==> e.term in positions && e.term !in todo && e.pos in positions[e.term]
    {
      var t :| t in todo;
      var more := EntriesOf(t, positions[t]);
      assert forall i :: 0 <= i < |more| ==> more[i].term == t && positions[t][i] in positions[t];
      forall e: Entry | e.term == t && e.pos in positions[t] ensures e in more {
        var i :| 0 <= i < |positions[t]| && positions[t][i] == e.pos;
        assert more[i] == e;
      }
      DistinctAppend(entries, more);
      entries := entries + more;
      todo := todo - {t};
    }
  }

  lemma DistinctAppend(a: seq<Entry>, b: seq<Entry>)
    requires Distinct(a) && Distinct(b) && forall e :: e in a ==> e !in b
    ensures Distinct(a + b)
  {
    forall i, j | 0 <= i < j < |a + b| ensures (a + b)[i] != (a + b)[j] {
      if i < |a| <= j { assert (a + b)[i] in a && (a + b)[j] in b; }
    }
  }

  /** sort.Slice may leave entries of equal position in any order. */
  predicate SortingOf(sorted: seq<Entry>, entries: seq<Entry>)
  {
    ByPosition(sorted) && multiset(sorted) == multiset(entries)
  }

  function Position(e: Entry): int
  {
    e.pos
  }

  lemma SortingExists(entries: seq<Entry>) returns (sorted: seq<Entry>)
    ensures SortingOf(sorted, entries)
  {
    sorted := SortOn(entries, Position);
    SortOnLaws(entries, Position);
    assert forall e: Entry :: Position(e) == e.pos;
  }

  lemma SortingKeeps(sorted: seq<Entry>, entries: seq<Entry>)
    requires multiset(sorted) == multiset(entries)
    ensures |sorted| == |entries| && Elems(sorted) == Elems(entries)
  {
    assert |multiset(sorted)| == |sorted| && |multiset(entries)| == |entries|;
    forall e ensures e in sorted <==> e in entries {
      assert e in sorted <==> e in multiset(sorted);
      assert e in entries <==> e in multiset(entries);
    }
  }

  function CountOf(termCount: map<string, int>, t: string): int
  {
    if t in termCount then termCount[t] else 0
  }

  /** Every window starting before `left` and ending at `from` or later is long enough. */
  ghost predicate Passed(entries: seq<Entry>, minSpan: int, left: nat, from: int)
  {
    forall l, r :: 0 <= l < left && l < |entries| && from <= r < |entries| && 0 <= r ==>
      minSpan <= entries[r].pos - entries[l].pos + 1
  }

  ghost predicate BestSoFar(entries: seq<Entry>, n: int, minSpan: int)
  {
    minSpan == |entries| + 1 || (minSpan <= |entries| && Attained(entries, n, minSpan))
  }

  /** The counts and the number of distinct terms of the window [left, right). */
  ghost predicate Counted(entries: seq<Entry>, left: nat, right: nat, termCount: map<string, int>, distinct: int)
    requires left <= right <= |entries|
  {
    && (forall t :: CountOf(termCount, t) == CountIn(entries, left, right, t))
    && distinct == |TermsIn(entries, left, right)|
  }

  lemma EnterWindow(entries: seq<Entry>, left: nat, right: nat, termCount: map<string, int>, distinct: int)
    requires left <= right < |entries| && Counted(entries, left, right, termCount, distinct)
    ensures var t := entries[right].term;
            Counted(entries, left, right + 1, termCount[t := CountOf(termCount, t) + 1],
                    if CountOf(termCount, t) == 0 then distinct + 1 else distinct)
  {
    WindowGrows(entries, left, right);
    var term := entries[right].term;
    var after := termCount[term := CountOf(termCount, term) + 1];
    forall t ensures CountOf(after, t) == CountIn(entries, left, right + 1, t) {
      assert CountOf(termCount, t) == CountIn(entries, left, right, t);
    }
  }

  lemma LeaveWindow(entries: seq<Entry>, left: nat, right: nat, termCount: map<string, int>, distinct: int)
    requires left < right <= |entries| && Counted(entries, left, right, termCount, distinct)
    ensures var t := entries[left].term;
            Counted(entries, left + 1, right, termCount[t := CountOf(termCount, t) - 1],
                    if CountOf(termCount, t) == 1 then distinct - 1 else distinct)
  {
    WindowShrinks(entries, left, right);
    var term := entries[left].term;
    var after := termCount[term := CountOf(termCount, term) - 1];
    forall t ensures CountOf(after, t) == CountIn(entries, left + 1, right, t) {
      CountDropFirst(entries, left, right, t);
      assert CountOf(termCount, t) == CountIn(entries, left, right, t);
    }
    CountDropFirst(entries, left, right, term);
  }

  /** What the sweep knows: the best window so far, no shorter one ending before
      `right`, and none starting before `left` and ending at `from` or later. */
  ghost predicate Swept(entries: seq<Entry>, n: int, minSpan: int, left: nat, right: nat, from: int)
    requires right <= |entries|
  {
    BestSoFar(entries, n, minSpan) && NoneShorter(entries, n, minSpan, right) && Passed(entries, minSpan, left, from)
  }

  lemma PassOne(entries: seq<Entry>, n: int, minSpan: int, left: nat, right: nat)
    requires ByPosition(entries) && left <= right < |entries| && |TermsIn(entries, left, right + 1)| >= n
    requires Swept(entries, n, minSpan, left, right, right)
    ensures var span := SpanOf(entries, left, right);
            Swept(entries, n, if span < minSpan then span else minSpan, left + 1, right, right)
  {
    var span := SpanOf(entries, left, right);
    if span < minSpan { assert Attained(entries, n, span); }
  }

  lemma FinishRight(entries: seq<Entry>, n: int, minSpan: int, left: nat, right: nat)
    requires left <= right + 1 <= |entries| && |TermsIn(entries, left, right + 1)| < n
    requires Swept(entries, n, minSpan, left, right, right)
    ensures Swept(entries, n, minSpan, left, right + 1, right + 1)
  {
    forall l, r | 0 <= l <= r < right + 1 && |TermsIn(entries, l, r + 1)| >= n
      ensures minSpan <= SpanOf(entries, l, r)
    {
      if r == right && l >= left { WindowInside(entries, left, l, r + 1); }
    }
  }

  lemma EmptyWindow(entries: seq<Entry>, k: nat)
    requires k <= |entries|
    ensures TermsIn(entries, k, k) == {}
  {
  }

  /** The inner loop: drops entries on the left while the window holds all terms. */
  method Shrink(entries: seq<Entry>, numTerms: int, right: nat, left0: nat, minSpan0: int,
                termCount0: map<string, int>, distinct0: int)
    returns (left: nat, minSpan: int, termCount: map<string, int>, distinct: int)
    requires ByPosition(entries) && left0 <= right < |entries|
    requires Counted(entries, left0, right + 1, termCount0, distinct0)
    requires numTerms >= 1 && distinct0 <= numTerms && Swept(entries, numTerms, minSpan0, left0, right, right)
    ensures left <= right + 1 && Counted(entries, left, right + 1, termCount, distinct)
    ensures distinct < numTerms && Swept(entries, numTerms, minSpan, left, right, right)
  {
    left, minSpan, termCount, distinct := left0, minSpan0, termCount0, distinct0;
    EmptyWindow(entries, right + 1);
    while distinct == numTerms
      invariant 0 <= left <= right + 1 && Counted(entries, left, right + 1, termCount, distinct)
      invariant distinct <= numTerms && Swept(entries, numTerms, minSpan, left, right, right)
      decreases right + 1 - left
    {
      PassOne(entries, numTerms, minSpan, left, right);
      var span := entries[right].pos - entries[left].pos + 1;
      if span < minSpan {
        minSpan := span;
      }
      LeaveWindow(entries, left, right + 1, termCount, distinct);
      var first := entries[left].term;
      if CountOf(termCount, first) == 1 {
        distinct := distinct - 1;
      }
      termCount := termCount[first := CountOf(termCount, first) - 1];
      left := left + 1;
    }
  }

  /** The sweep over the sorted entries. minSpan starts one above the number of
      entries, so no longer window is ever recorded. Without terms the window never
      holds exactly numTerms of them. */
  method Sweep(entries: seq<Entry>, numTerms: int) returns (minSpan: int)
    requires ByPosition(entries)
    ensures numTerms <= 0 ==> minSpan == |entries| + 1
    ensures numTerms >= 1 ==> Swept(entries, numTerms, minSpan, 0, |entries|, |entries|)
  {
    var termCount: map<string, int> := map[];
    var distinct := 0;
    minSpan := |entries| + 1;
    var left := 0;
    EmptyWindow(entries, 0);
    for right := 0 to |entries|
      invariant 0 <= left <= right && Counted(entries, left, right, termCount, distinct)
      invariant numTerms >= 1 ==> distinct < numTerms && Swept(entries, numTerms, minSpan, left, right, right)
      invariant numTerms <= 0 ==> left == 0 && minSpan == |entries| + 1
    {
      var term := entries[right].term;
      EnterWindow(entries, left, right, termCount, distinct);
      if CountOf(termCount, term) == 0 {
        distinct := distinct + 1;
      }
      termCount := termCount[term := CountOf(termCount, term) + 1];
      if numTerms >= 1 {
        left, minSpan, termCount, distinct :=
          Shrink(entries, numTerms, right, left, minSpan, termCount, distinct);
        FinishRight(entries, numTerms, minSpan, left, right);
      } else {
        assert term in TermsIn(entries, left, right + 1);
        assert distinct != numTerms;
      }
    }
  }

  lemma {:induction false} TermsInSize(entries: seq<Entry>, l: nat, r: nat)
    requires l <= r <= |entries|
    ensures |TermsIn(entries, l, r)| <= r - l
    decreases r
  {
    if l == r {
      EmptyWindow(entries, l);
    } else {
      TermsInSize(entries, l, r - 1);
      WindowGrows(entries, l, r - 1);
    }
  }

  /** The shortest window over numTerms terms, when it is no longer than the number
      of positions; 0 otherwise. Map order and the order of equal positions do not
      matter, since the minimum is unique. */
  method ComputeMinSpan(positions: map<string, seq<int>>, numTerms: int) returns (span: int)
    requires SingleEntries(positions)
    ensures numTerms <= 0 ==> span == 0
    ensures span != 0 ==> IsMinSpan(positions, numTerms, span) && 0 < span <= |Entries(positions)|
    ensures numTerms >= 1 && span == 0 ==> forall m :: IsMinSpan(positions, numTerms, m) ==> m > |Entries(positions)|
  {
    if |positions| < numTerms {
      TooFewTerms(positions, numTerms);
      return 0;
    }
    var entries := GatherEntries(positions);
    DistinctSize(entries);
    assert Elems(entries) == Entries(positions);
    ghost var someOrder := SortingExists(entries);
    var sorted: seq<Entry> :| SortingOf(sorted, entries);
    assert SortingOf(sorted, entries);
    SortingKeeps(sorted, entries);
    if |entries| < numTerms {
      TooFewEntries(positions, sorted, numTerms);
      return 0;
    }
    var minSpan := Sweep(sorted, numTerms);
    if numTerms >= 1 {
      forall m | IsMinSpan(positions, numTerms, m) ensures minSpan <= m {
        NoneShorterBoundsMin(positions, sorted, numTerms, minSpan, m);
      }
    }
    if minSpan > |entries| {
      return 0;
    }
    AttainedIsMin(positions, sorted, numTerms, minSpan);
    return minSpan;
  }

  lemma TooFewTerms(positions: map<string, seq<int>>, n: int)
    requires |positions| < n
    ensures forall m :: !IsMinSpan(positions, n, m)
  {
    forall a, b ensures |TermsWithin(positions, a, b)| < n {
      assert |positions.Keys| == |positions|;
      SubsetSize(TermsWithin(positions, a, b), positions.Keys);
    }
  }

  lemma TooFewEntries(positions: map<string, seq<int>>, entries: seq<Entry>, n: int)
    requires ByPosition(entries) && Elems(entries) == Entries(positions) && |entries| < n
    ensures forall m :: !IsMinSpan(positions, n, m)
  {
    forall a, b ensures |TermsWithin(positions, a, b)| < n {
      if |TermsWithin(positions, a, b)| >= n {
        var l, r := IntervalToEntries(positions, entries, n, a, b);
        TermsInSize(entries, l, r + 1);
      }
    }
  }

  // ----- Both together -----

  /** Every term starts somewhere in the window from a to b. */
  ghost predicate HoldsAll(text: string, terms: seq<string>, a: int, b: int)
  {
    forall t :: t in terms ==> StartsWithin(text, t, a, b)
  }

  ghost predicate StartsWithin(text: string, t: string, a: int, b: int)
  {
    exists i :: a <= i <= b && Occurs(text, t, i)
  }

  ghost predicate ShortestIn(text: string, terms: seq<string>, m: int)
  {
    && (exists a, b :: b - a + 1 == m && HoldsAll(text, terms, a, b))
    && (forall a, b :: HoldsAll(text, terms, a, b) ==> m <= b - a + 1)
  }

  /** All occurrences of all terms. */
  ghost function Occurrences(text: string, terms: seq<string>): set<Entry>
  {
    set t, i | t in terms && 0 <= i <= |text| && Occurs(text, t, i) :: Entry(i, t)
  }

  lemma WindowOverText(text: string, terms: seq<string>, positions: map<string, seq<int>>, a: int, b: int)
    requires Distinct(terms) && PositionsOf(text, terms, positions)
    ensures |TermsWithin(positions, a, b)| >= |terms| <==> HoldsAll(text, terms, a, b)
  {
    var within, all := TermsWithin(positions, a, b), Elems(terms);
    DistinctSize(terms);
    forall t ensures t in within <==> t in all && StartsWithin(text, t, a, b) {
      if t in all && StartsWithin(text, t, a, b) {
        var i :| a <= i <= b && Occurs(text, t, i);
        assert i in positions[t];
      }
      if t in within {
        var p :| p in positions[t] && a <= p <= b;
        assert Occurs(text, t, p);
      }
    }
    assert within <= all;
    assert forall t :: t in terms <==> t in all;
    if HoldsAll(text, terms, a, b) { assert all == within; }
    if |within| >= |terms| { EqualBySize(within, all); }
  }

  lemma ShortestIsMinSpan(text: string, terms: seq<string>, positions: map<string, seq<int>>, m: int)
    requires Distinct(terms) && PositionsOf(text, terms, positions)
    ensures IsMinSpan(positions, |terms|, m) <==> ShortestIn(text, terms, m)
  {
    forall a, b ensures |TermsWithin(positions, a, b)| >= |terms| <==> HoldsAll(text, terms, a, b) {
      WindowOverText(text, terms, positions, a, b);
    }
  }

  /** The span that re-ranking sees for a text: the length of its shortest window
      with every term, unless that length exceeds the number of occurrences. */
  ghost predicate SpanSeen(text: string, terms: seq<string>, span: int)
  {
    && (span != 0 ==> ShortestIn(text, terms, span) && 0 < span <= |Occurrences(text, terms)|)
    && (terms != [] && span == 0 ==> forall m :: ShortestIn(text, terms, m) ==> m > |Occurrences(text, terms)|)
  }

  method SpanInText(text: string, terms: seq<string>) returns (span: int)
    requires Distinct(terms) && "" !in terms
    ensures SpanSeen(text, terms, span)
  {
    var positions := FindTermPositions(text, terms);
    forall t | t in positions ensures Distinct(positions[t]) {
      assert Increasing(positions[t]);
    }
    span := ComputeMinSpan(positions, |terms|);
    assert Entries(positions) == Occurrences(text, terms) by {
      assert forall t, i :: t in positions && i in positions[t] ==>
               t in terms && Occurs(text, t, i) && 0 <= i <= |text|;
      forall e | e in Occurrences(text, terms) ensures e in Entries(positions) {
        assert Occurs(text, e.term, e.pos);
        assert e.pos in positions[e.term];
      }
    }
    forall m ensures IsMinSpan(positions, |terms|, m) <==> ShortestIn(text, terms, m) {
      ShortestIsMinSpan(text, terms, positions, m);
    }
  }

  /** 1.5 for a span of 1, decaying by 0.02 a character down to 1. */
  function ProximityBoost(minSpan: int): real
  {
    if minSpan <= 0 then 1.0
    else
      var boost := 1.5 - (minSpan - 1) as real * 0.02;
      if boost < 1.0 then 1.0 else boost
  }

  /** The boost is 1.5 for adjacent terms, falls with the span and is 1 from 26 on. */
  lemma BoostFalls(span: int, longer: int)
    requires 1 <= span <= longer
    ensures 1.0 <= ProximityBoost(longer) <= ProximityBoost(span) <= 1.5
    ensures ProximityBoost(span) == 1.5 <==> span == 1
    ensures ProximityBoost(span) == 1.0 <==> span >= 26
    ensures longer <= 26 ==> ProximityBoost(span) - ProximityBoost(longer) == 0.02 * (longer - span) as real
    ensures ProximityBoost(0) == 1.0
  {
  }

  /** A text with all the terms loses the boost that its shortest window earns exactly
      when that window is longer than the number of occurrences and shorter than 26. */
  lemma BoostLostExactlyWhen(text: string, terms: seq<string>, span: int, m: int)
    requires terms != [] && SpanSeen(text, terms, span) && ShortestIn(text, terms, m)
    ensures ProximityBoost(span) != ProximityBoost(m) <==> |Occurrences(text, terms)| < m < 26
  {
    var a, b :| b - a + 1 == m && HoldsAll(text, terms, a, b);
    assert StartsWithin(text, terms[0], a, b);
    assert m >= 1;
  }

  /** Two terms ten bytes apart: the shortest window is 11 long, more than the two
      positions there are, so the sweep answers 0 although both terms occur. */
  lemma DistantTermsScoreNothing()
    ensures var positions := map["a" := [0], "b" := [10]];
            IsMinSpan(positions, 2, 11) && |Entries(positions)| == 2
  {
    var positions := map["a" := [0], "b" := [10]];
    assert Entries(positions) == {Entry(0, "a"), Entry(10, "b")};
    assert positions["a"][0] == 0 && positions["b"][0] == 10;
    assert TermsWithin(positions, 0, 10) == {"a", "b"} by {
      assert 0 in positions["a"] && 10 in positions["b"];
    }
    forall a, b | |TermsWithin(positions, a, b)| >= 2 ensures 11 <= b - a + 1 {
      var within := TermsWithin(positions, a, b);
      assert within <= {"a", "b"};
      EqualBySize(within, {"a", "b"});
      assert "a" in within && "b" in within;
    }
  }
}
