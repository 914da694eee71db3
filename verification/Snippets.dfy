/** The excerpt shown for a search hit (pkg/context/searcher.go): a window around the
    densest cluster of term positions, widened to whole words. */
module Snippets {
  import opened Collections
  import opened Text
  import opened Proximity

  // ----- The densest cluster -----

  /** How many of the positions lie within w of c. */
  function Near(positions: seq<int>, c: int, w: int): nat
  {
    if positions == [] then 0
    else Near(positions[1..], c, w) + if c - w <= positions[0] <= c + w then 1 else 0
  }

  lemma {:induction false} NearConcat(a: seq<int>, b: seq<int>, c: int, w: int)
    ensures Near(a + b, c, w) == Near(a, c, w) + Near(b, c, w)
  {
    if a == [] {
      assert a + b == b;
    } else {
      NearConcat(a[1..], b, c, w);
      assert (a + b)[1..] == a[1..] + b;
    }
  }

  /** The places of the positions from a to b, ends included. */
  ghost function PlacesWithin(positions: seq<int>, a: int, b: int): set<nat>
  {
    set i: nat | i < |positions| && a <= positions[i] <= b
  }

  lemma {:induction false} NearIs(positions: seq<int>, c: int, w: int)
    ensures Near(positions, c, w) == |PlacesWithin(positions, c - w, c + w)|
    decreases |positions|
  {
    if positions == [] {
      assert PlacesWithin(positions, c - w, c + w) == {};
    } else {
      var n := |positions| - 1;
      var front, last := positions[..n], positions[n];
      NearIs(front, c, w);
      NearConcat(front, [last], c, w);
      assert positions == front + [last] && [last][1..] == [];
      var all, before := PlacesWithin(positions, c - w, c + w), PlacesWithin(front, c - w, c + w);
      assert all == before + (if c - w <= last <= c + w then {n} else {});
    }
  }

  /** Counting does not depend on the order of the positions. */
  lemma {:induction false} NearPermuted(a: seq<int>, b: seq<int>, c: int, w: int)
    requires multiset(a) == multiset(b)
    ensures Near(a, c, w) == Near(b, c, w)
  {
    if a == [] {
      assert |multiset(b)| == 0;
    } else {
      assert a[0] in multiset(b);
      var i :| 0 <= i < |b| && b[i] == a[0];
      StillPermuted(a, 0, b, i);
      assert Without(a, 0) == a[1..];
      NearPermuted(a[1..], Without(b, i), c, w);
      assert b == b[..i] + ([b[i]] + b[i + 1..]);
      NearConcat(b[..i], [b[i]] + b[i + 1..], c, w);
      NearConcat(b[..i], b[i + 1..], c, w);
      assert ([b[i]] + b[i + 1..])[1..] == b[i + 1..];
    }
  }

  /** c has the most positions near it, and is the smallest that does. */
  ghost predicate IsDensest(positions: seq<int>, w: int, c: int)
  {
    && c in positions
    && forall p :: p in positions ==>
         || Near(positions, p, w) < Near(positions, c, w)
         || (Near(positions, p, w) == Near(positions, c, w) && c <= p)
  }

  function Itself(x: int): int
  {
    x
  }

  /** sort.Ints */
  function SortInts(s: seq<int>): (r: seq<int>)
    ensures multiset(r) == multiset(s) && Ascending(r, Itself)
  {
    SortOnLaws(s, Itself);
    SortOn(s, Itself)
  }

  lemma SameMembers(a: seq<int>, b: seq<int>)
    requires multiset(a) == multiset(b)
    ensures forall x :: x in a <==> x in b
  {
    forall x ensures x in a <==> x in b {
      assert x in multiset(a) <==> x in multiset(b);
    }
  }

  method CountNear(positions: seq<int>, center: int, windowSize: int) returns (count: nat)
    ensures count == Near(positions, center, windowSize)
  {
    count := 0;
    assert positions[0..] == positions;
    for i := 0 to |positions|
      invariant count + Near(positions[i..], center, windowSize) == Near(positions, center, windowSize)
    {
      assert positions[i..][1..] == positions[i + 1..];
      if center - windowSize <= positions[i] <= center + windowSize {
        count := count + 1;
      }
    }
  }

  lemma {:induction false} NearItself(positions: seq<int>, c: int, w: int)
    requires c in positions && w >= 0
    ensures Near(positions, c, w) > 0
  {
    if positions[0] != c { NearItself(positions[1..], c, w); }
  }

  /** The best center among the first k, with its count. */
  ghost predicate BestOf(sorted: seq<int>, w: int, k: nat, center: int, bestCount: nat)
    requires k <= |sorted|
  {
    && center in sorted
    && (if k == 0 then bestCount == 0 else bestCount == Near(sorted, center, w))
    && (k == 0 ==> center == sorted[0])
    && forall m :: 0 <= m < k ==>
         || Near(sorted, sorted[m], w) < bestCount
         || (Near(sorted, sorted[m], w) == bestCount && center <= sorted[m])
  }

  lemma NextCenter(sorted: seq<int>, w: int, k: nat, center: int, bestCount: nat)
    requires Ascending(sorted, Itself) && k < |sorted| && w >= 0 && BestOf(sorted, w, k, center, bestCount)
    requires k > 0 ==> center <= sorted[k]
    ensures var count := Near(sorted, sorted[k], w);
            if count > bestCount then BestOf(sorted, w, k + 1, sorted[k], count)
            else BestOf(sorted, w, k + 1, center, bestCount)
  {
    NearItself(sorted, sorted[k], w);
  }

  /** The walk over the sorted positions. */
  method WalkCenters(sorted: seq<int>, windowSize: int) returns (center: int)
    requires windowSize >= 0 && Ascending(sorted, Itself) && sorted != []
    ensures IsDensest(sorted, windowSize, center)
  {
    center := sorted[0];
    var bestCount: nat := 0;
    for k := 0 to |sorted|
      invariant BestOf(sorted, windowSize, k, center, bestCount)
      invariant exists m :: 0 <= m <= k && m < |sorted| && center == sorted[m] && (k > 0 ==> m < k)
    {
      var count := CountNear(sorted, sorted[k], windowSize);
      NextCenter(sorted, windowSize, k, center, bestCount);
      if count > bestCount {
        bestCount := count;
        center := sorted[k];
      }
    }
    forall p | p in sorted
      ensures Near(sorted, p, windowSize) < bestCount || (Near(sorted, p, windowSize) == bestCount && center <= p)
    {
      var m :| 0 <= m < |sorted| && sorted[m] == p;
    }
  }

  lemma DensestPermuted(a: seq<int>, b: seq<int>, w: int, c: int)
    requires multiset(a) == multiset(b) && IsDensest(a, w, c)
    ensures IsDensest(b, w, c)
  {
    SameMembers(a, b);
    forall p ensures Near(a, p, w) == Near(b, p, w) {
      NearPermuted(a, b, p, w);
    }
  }

  method DensestClusterCenter(positions: seq<int>, windowSize: int) returns (center: int)
    requires windowSize >= 0
    ensures if positions == [] then center == 0 else IsDensest(positions, windowSize, center)
  {
    if |positions| == 0 {
      return 0;
    }
    var sorted := SortInts(positions);
    assert positions[0] in multiset(sorted);
    center := WalkCenters(sorted, windowSize);
    DensestPermuted(sorted, positions, windowSize, center);
  }

  // ----- Whole words -----

  ghost predicate NoSpace(s: string, a: int, b: int)
    requires 0 <= a && b <= |s|
  {
    forall i :: a <= i < b ==> !IsSpace(s[i])
  }

  /** No word is cut at offset i. */
  predicate AtBoundary(s: string, i: int)
    requires 0 <= i <= |s|
  {
    i == 0 || i == |s| || IsSpace(s[i - 1]) || IsSpace(s[i])
  }

  ghost predicate SpaceFrom(s: string, i: int)
  {
    exists k :: 0 <= i <= k < |s| && IsSpace(s[k])
  }

  /** Back to the start of the word. */
  method WordStart(content: string, start: int) returns (lo: int)
    requires 0 <= start <= |content| && (start > 0 ==> start < |content|)
    ensures 0 <= lo <= start && NoSpace(content, lo, start) && AtBoundary(content, lo)
    ensures start < |content| && IsSpace(content[start]) ==> lo == start
  {
    lo := start;
    if start > 0 && !IsSpace(content[start]) {
      var i := start - 1;
      while i >= 0
        invariant -1 <= i < start && NoSpace(content, i + 1, start)
        invariant lo == if i == -1 then 0 else start
      {
        if IsSpace(content[i]) {
          lo := i + 1;
          break;
        }
        if i == 0 {
          lo := 0;
        }
        i := i - 1;
      }
    }
  }

  /** On to the end of the word; without any space ahead the end stays where it is. */
  method WordEnd(content: string, end: int) returns (hi: int)
    requires 0 <= end <= |content|
    ensures end <= hi <= |content| && NoSpace(content, end, hi)
    ensures SpaceFrom(content, end) ==> hi < |content| && IsSpace(content[hi])
    ensures !SpaceFrom(content, end) ==> hi == end
  {
    hi := end;
    if end < |content| && !IsSpace(content[end]) {
      var i := end;
      while i < |content|
        invariant end <= i <= |content| && NoSpace(content, end, i) && hi == end
      {
        if IsSpace(content[i]) {
          hi := i;
          break;
        }
        i := i + 1;
      }
    }
  }

  /** content[lo..hi] is the window from start to end with the words at its edges. */
  ghost predicate Widened(content: string, start: int, end: int, lo: int, hi: int)
  {
    && 0 <= lo <= start < end <= hi <= |content|
    && NoSpace(content, lo, start) && NoSpace(content, end, hi)
    && AtBoundary(content, lo) && (IsSpace(content[start]) ==> lo == start)
    && (AtBoundary(content, hi) <==> AtBoundary(content, end) || SpaceFrom(content, end))
  }

  function Min(a: int, b: int): int
  {
    if a < b then a else b
  }

  /** The excerpt contains the window and cuts no word at its beginning; it cuts one at
      its end exactly when the window does and no space follows. Only an empty window
      can fall back to the 300 characters from its start. */
  method SnapToWords(content: string, start: int, end: int) returns (r: string, ghost lo: int, ghost hi: int)
    requires end >= 0 && (start > 0 ==> start < |content|)
    ensures var s, e := if start < 0 then 0 else start, Min(end, |content|);
            && (s < e ==> Widened(content, s, e, lo, hi) && r == content[lo..hi])
            && (s >= e ==>
                  && 0 <= lo <= s && e <= hi <= |content|
                  && r == if hi <= lo then content[lo..Min(lo + 300, |content|)] else content[lo..hi])
  {
    var s, e := start, end;
    if s < 0 {
      s := 0;
    }
    if e > |content| {
      e := |content|;
    }
    var a := WordStart(content, s);
    var b := WordEnd(content, e);
    lo, hi := a, b;
    if b <= a {
      return content[a..Min(a + 300, |content|)], a, b;
    }
    if s < e { BoundaryAhead(content, e, b); }
    return content[a..b], a, b;
  }

  lemma BoundaryAhead(content: string, end: int, hi: int)
    requires 0 < end <= hi <= |content| && NoSpace(content, end, hi)
    requires SpaceFrom(content, end) ==> hi < |content| && IsSpace(content[hi])
    requires !SpaceFrom(content, end) ==> hi == end
    ensures AtBoundary(content, hi) <==> AtBoundary(content, end) || SpaceFrom(content, end)
  {
  }

  /** The last word is cut when no space follows the window. */
  lemma LastWordCanBeCut()
    ensures !AtBoundary("one word", 6) && !SpaceFrom("one word", 6)
  {
  }

  // ----- The excerpt -----

  const ELLIPSIS := "..."

  ghost predicate PositionsOfAny(text: string, terms: seq<string>, positions: seq<int>)
  {
    forall p :: p in positions <==> exists k :: 0 <= k < |terms| && Occurs(text, terms[k], p)
  }

  /** All positions of all terms, sorted. */
  method FindAllTermPositions(text: string, terms: seq<string>) returns (all: seq<int>)
    requires "" !in terms
    ensures PositionsOfAny(text, terms, all)
  {
    var found := [];
    for k := 0 to |terms|
      invariant forall p :: p in found <==> exists m :: 0 <= m < k && Occurs(text, terms[m], p)
    {
      var ps := FindAll(text, terms[k]);
      found := found + ps;
    }
    all := SortInts(found);
    SameMembers(found, all);
  }

  /** The window that the excerpt is widened from: maxLen long and around the center,
      so that it holds every position of the cluster but one exactly half the length ahead. */
  ghost predicate Around(content: string, center: int, maxLen: int, start: int, end: int)
  {
    && 0 <= start <= center < end <= |content| && end == start + maxLen
    && (start == 0 || start <= center - maxLen / 2) && (end == |content| || end >= center + maxLen / 2)
    && (start > 0 && end < |content| ==> start == center - maxLen / 2)
  }

  /** The excerpt with its ellipses. */
  ghost predicate IsExcerpt(content: string, start: int, end: int, r: string)
  {
    exists lo, hi :: Widened(content, start, end, lo, hi) &&
      r == (if start > 0 then "..." else "") + content[lo..hi] + (if end < |content| then "..." else "")
  }

  /** generateSnippet; lower keeps lengths, and terms are the query's distinct words.
      Positions, center and window are named to say what the excerpt shows. */
  method GenerateSnippet(lower: string -> string, content: string, terms: seq<string>, maxLen: int)
    returns (r: string, ghost positions: seq<int>, ghost center: int, ghost start: int, ghost end: int)
    requires maxLen > 0 && |lower(content)| == |content| && "" !in terms
    ensures |content| <= maxLen ==> r == content
    ensures |content| > maxLen ==> PositionsOfAny(lower(content), terms, positions)
    ensures |content| > maxLen && positions == [] ==>
              exists lo, hi :: Widened(content, 0, maxLen, lo, hi) && r == content[lo..hi]
    ensures |content| > maxLen && positions != [] ==>
              && IsDensest(positions, maxLen / 2, center)
              && Around(content, center, maxLen, start, end) && IsExcerpt(content, start, end, r)
  {
    positions, center, start, end := [], 0, 0, maxLen;
    if |content| <= maxLen {
      return content, positions, center, start, end;
    }
    ghost var lo, hi;
    if |terms| == 0 {
      r, lo, hi := SnapToWords(content, 0, maxLen);
      return;
    }
    var text := lower(content);
    var found := FindAllTermPositions(text, terms);
    positions := found;
    if |found| == 0 {
      r, lo, hi := SnapToWords(content, 0, maxLen);
      return;
    }
    var middle := DensestClusterCenter(found, maxLen / 2);
    CenterInside(text, terms, found, middle);
    center := middle;
    r, start, end := Excerpt(content, middle, maxLen);
  }

  lemma CenterInside(text: string, terms: seq<string>, positions: seq<int>, center: int)
    requires "" !in terms && center in positions
    requires PositionsOfAny(text, terms, positions)
    ensures 0 <= center < |text|
  {
    var k :| 0 <= k < |terms| && Occurs(text, terms[k], center);
    assert terms[k] in terms;
    assert terms[k] <= text[center..] && |terms[k]| > 0;
  }

  /** The second half of generateSnippet. */
  method Excerpt(content: string, center: int, maxLen: int) returns (r: string, ghost from: int, ghost to: int)
    requires 0 < maxLen < |content| && 0 <= center < |content|
    ensures Around(content, center, maxLen, from, to) && IsExcerpt(content, from, to, r)
  {
    var half := maxLen / 2;
    var start := center - half;
    if start < 0 {
      start := 0;
    }
    var end := start + maxLen;
    if end > |content| {
      end := |content|;
      start := end - maxLen;
    }
    ghost var lo, hi;
    var snippet;
    snippet, lo, hi := SnapToWords(content, start, end);
    var prefix, suffix := "", "";
    if start > 0 {
      prefix := ELLIPSIS;
    }
    if end < |content| {
      suffix := ELLIPSIS;
    }
    r := prefix + snippet + suffix;
    from, to := start, end;
  }
}
