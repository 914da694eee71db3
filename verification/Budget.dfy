/** The tiered context allocator (pkg/contextbudget/budget.go). Texts are sequences
    of characters; one approximate token is four of them. */
module Budget {
  import opened Collections
  import opened Text

  /** A quarter of the characters, rounded up. */
  function ApproxTokens(s: string): (tokens: nat)
    ensures |s| <= 4 * tokens <= |s| + 3
  {
    if s == "" then 0 else (|s| + 3) / 4
  }

  datatype Item = Item(text: string, priority: int)

  datatype Tier = Tier(items: seq<Item>, minItems: int)

  // ----- Preparation: drop empty texts, sort stably by priority -----

  function WithText(items: seq<Item>): seq<Item>
  {
    if items == [] then []
    else if items[0].text == "" then WithText(items[1..])
    else [items[0]] + WithText(items[1..])
  }

  function Priority(it: Item): int
  {
    it.priority
  }

  /** sort.SliceStable by priority. */
  function StableSort(s: seq<Item>): seq<Item>
  {
    SortOn(s, Priority)
  }

  function OfPriority(s: seq<Item>, p: int): seq<Item>
  {
    if s == [] then []
    else if s[0].priority == p then [s[0]] + OfPriority(s[1..], p)
    else OfPriority(s[1..], p)
  }

  lemma {:induction false} PlaceStable(x: Item, s: seq<Item>, p: int)
    ensures OfPriority(Place(x, s, Priority), p) == OfPriority([x] + s, p)
  {
    assert ([x] + s)[1..] == s;
    if !(s == [] || x.priority <= s[0].priority) {
      PlaceStable(x, s[1..], p);
      var t := Place(x, s[1..], Priority);
      assert ([s[0]] + t)[1..] == t;
      assert ([x] + s[1..])[1..] == s[1..];
    }
  }

  /** The sort orders by priority, keeps every item, and keeps the given order
      among items of one priority. */
  lemma {:induction false} StableSortLaws(s: seq<Item>, p: int)
    ensures var r := StableSort(s); forall i, j :: 0 <= i < j < |r| ==> r[i].priority <= r[j].priority
    ensures multiset(StableSort(s)) == multiset(s)
    ensures OfPriority(StableSort(s), p) == OfPriority(s, p)
  {
    SortOnLaws(s, Priority);
    if s != [] {
      var t := StableSort(s[1..]);
      StableSortLaws(s[1..], p);
      PlaceStable(s[0], t, p);
      assert ([s[0]] + t)[1..] == t;
    }
  }

  /** from[k] is the place of items[k] in the given list, and no text there is empty. */
  ghost predicate Located(given: seq<Item>, items: seq<Item>, from: seq<nat>)
  {
    && |from| == |items|
    && forall k :: 0 <= k < |from| ==> from[k] < |given| && items[k] == given[from[k]] && items[k].text != ""
  }

  /** Every given item with a text has its place in the list. */
  ghost predicate Complete(given: seq<Item>, from: seq<nat>)
  {
    forall i: nat :: i < |given| && given[i].text != "" ==> i in from
  }

  /** By priority, and within a priority by the place in the given list. */
  ghost predicate InOrder(items: seq<Item>, from: seq<nat>)
    requires |from| == |items|
  {
    forall j, k :: 0 <= j < k < |from| ==>
      || items[j].priority < items[k].priority
      || (items[j].priority == items[k].priority && from[j] < from[k])
  }

  /** items are the given ones that have a text, sorted stably by priority. */
  ghost predicate Arranged(given: seq<Item>, items: seq<Item>, from: seq<nat>)
  {
    Located(given, items, from) && Complete(given, from) && InOrder(items, from)
  }

  lemma {:induction false} PlaceAt(x: Item, s: seq<Item>) returns (k: nat)
    requires forall i, j :: 0 <= i < j < |s| ==> s[i].priority <= s[j].priority
    ensures k <= |s| && Place(x, s, Priority) == s[..k] + [x] + s[k..]
    ensures forall i :: 0 <= i < |s| ==> if i < k then s[i].priority < x.priority else x.priority <= s[i].priority
  {
    if s == [] || x.priority <= s[0].priority {
      k := 0;
      assert s[..0] + [x] + s[0..] == [x] + s;
    } else {
      k := PlaceAt(x, s[1..]);
      k := k + 1;
      assert s[1..][..k - 1] == s[1..k] && s[1..][k - 1..] == s[k..];
      assert [s[0]] + (s[1..k] + [x] + s[k..]) == s[..k] + [x] + s[k..];
      assert forall i :: 0 < i < |s| ==> s[i] == s[1..][i - 1];
    }
  }

  function Shifted(from: seq<nat>): seq<nat>
  {
    seq(|from|, k requires 0 <= k < |from| => from[k] + 1)
  }

  lemma ShiftedHas(from: seq<nat>, i: nat)
    ensures i + 1 in Shifted(from) <==> i in from
  {
    if i in from {
      var k :| 0 <= k < |from| && from[k] == i;
      assert Shifted(from)[k] == i + 1;
    }
  }

  lemma LocatedSkip(x: Item, rest: seq<Item>, items: seq<Item>, from: seq<nat>)
    requires Located(rest, items, from)
    ensures Located([x] + rest, items, Shifted(from))
  {
    var given := [x] + rest;
    assert forall i: nat :: i < |rest| ==> given[i + 1] == rest[i];
  }

  lemma CompleteSkip(x: Item, rest: seq<Item>, from: seq<nat>)
    requires x.text == "" && Complete(rest, from)
    ensures Complete([x] + rest, Shifted(from))
  {
    var given := [x] + rest;
    forall i: nat | i < |given| && given[i].text != "" ensures i in Shifted(from) {
      assert rest[i - 1] == given[i];
      ShiftedHas(from, i - 1);
    }
  }

  /** s with x before the element at k. */
  function Inserted<T>(x: T, s: seq<T>, k: nat): (r: seq<T>)
    requires k <= |s|
    ensures |r| == |s| + 1
    ensures forall i :: 0 <= i < |r| ==> r[i] == if i < k then s[i] else if i == k then x else s[i - 1]
  {
    s[..k] + [x] + s[k..]
  }

  lemma InsertedHas<T>(x: T, s: seq<T>, k: nat, y: T)
    requires k <= |s|
    ensures y in Inserted(x, s, k) <==> y == x || y in s
  {
    assert s == s[..k] + s[k..];
  }

  lemma LocatedInsert(x: Item, rest: seq<Item>, items: seq<Item>, from: seq<nat>, k: nat)
    requires x.text != "" && Located(rest, items, from) && k <= |items|
    ensures Located([x] + rest, Inserted(x, items, k), Inserted(0, Shifted(from), k))
  {
    var given, all, up := [x] + rest, Inserted(x, items, k), Inserted(0, Shifted(from), k);
    forall i | 0 <= i < |up| ensures up[i] < |given| && all[i] == given[up[i]] && all[i].text != "" {
      if i != k {
        var h := if i < k then i else i - 1;
        assert up[i] == from[h] + 1 && all[i] == items[h] && given[from[h] + 1] == rest[from[h]];
      }
    }
  }

  lemma CompleteInsert(x: Item, rest: seq<Item>, from: seq<nat>, k: nat)
    requires Complete(rest, from) && k <= |from|
    ensures Complete([x] + rest, Inserted(0, Shifted(from), k))
  {
    var given := [x] + rest;
    forall i: nat | i < |given| && given[i].text != "" ensures i in Inserted(0, Shifted(from), k) {
      InsertedHas(0, Shifted(from), k, i);
      if i > 0 {
        assert rest[i - 1] == given[i];
        ShiftedHas(from, i - 1);
      }
    }
  }

  lemma InOrderInsert(x: Item, items: seq<Item>, from: seq<nat>, k: nat)
    requires |from| == |items| && InOrder(items, from) && k <= |items|
    requires forall i :: 0 <= i < |items| ==>
               if i < k then items[i].priority < x.priority else x.priority <= items[i].priority
    ensures InOrder(Inserted(x, items, k), Inserted(0, Shifted(from), k))
  {
  }

  /** Preparing drops the items without a text and sorts the others stably. */
  lemma {:induction false} PreparedIsArranged(given: seq<Item>) returns (from: seq<nat>)
    ensures Arranged(given, StableSort(WithText(given)), from)
  {
    if given == [] {
      from := [];
    } else {
      var x, rest := given[0], given[1..];
      var items := StableSort(WithText(rest));
      from := PreparedIsArranged(rest);
      assert given == [x] + rest;
      if x.text == "" {
        LocatedSkip(x, rest, items, from);
        CompleteSkip(x, rest, from);
        from := Shifted(from);
      } else {
        var k := PlaceAt(x, items);
        LocatedInsert(x, rest, items, from, k);
        CompleteInsert(x, rest, from, k);
        InOrderInsert(x, items, from, k);
        from := Inserted(0, Shifted(from), k);
        assert ([x] + WithText(rest))[1..] == WithText(rest);
        assert StableSort(WithText(given)) == Place(x, items, Priority) == Inserted(x, items, k);
      }
    }
  }

  function Prepare(t: Tier): Tier
  {
    t.(items := StableSort(WithText(t.items)))
  }

  // ----- One tier -----

  /** What an item takes of the budget: its tokens and a separator's one. The first
      item has no separator, so the budget counts as one larger: see Fits. */
  function Weight(it: Item): nat
  {
    ApproxTokens(it.text) + 1
  }

  /** The weight of the included items. */
  function Used(items: seq<Item>, row: seq<bool>): nat
    requires |row| == |items|
  {
    if items == [] then 0 else (if row[0] then Weight(items[0]) else 0) + Used(items[1..], row[1..])
  }

  /** Pass 1 on a tier: the first items that fit, at most `min` of them. */
  function ReserveRow(items: seq<Item>, min: int, used: nat, cap: int): (row: seq<bool>)
    ensures |row| == |items|
    decreases |items|
  {
    if items == [] then []
    else if min > 0 && used + Weight(items[0]) <= cap then
      [true] + ReserveRow(items[1..], min - 1, used + Weight(items[0]), cap)
    else [false] + ReserveRow(items[1..], min, used, cap)
  }

  /** Pass 2 takes an item that is not reserved and still fits. */
  predicate Adds(it: Item, reserved: bool, used: nat, cap: int)
  {
    !reserved && used + Weight(it) <= cap
  }

  function UsedNext(it: Item, reserved: bool, used: nat, cap: int): nat
  {
    if Adds(it, reserved, used, cap) then used + Weight(it) else used
  }

  /** Pass 2 on a tier. */
  function FillRow(items: seq<Item>, row: seq<bool>, used: nat, cap: int): (full: seq<bool>)
    requires |row| == |items|
    ensures |full| == |items|
    decreases |items|
  {
    if items == [] then []
    else
      [row[0] || Adds(items[0], row[0], used, cap)]
      + FillRow(items[1..], row[1..], UsedNext(items[0], row[0], used, cap), cap)
  }

  lemma {:induction false} ReserveFits(items: seq<Item>, min: int, used: nat, cap: int)
    requires used <= cap
    ensures used + Used(items, ReserveRow(items, min, used, cap)) <= cap
    decreases |items|
  {
    if items != [] {
      if min > 0 && used + Weight(items[0]) <= cap {
        ReserveFits(items[1..], min - 1, used + Weight(items[0]), cap);
      } else {
        ReserveFits(items[1..], min, used, cap);
      }
    }
  }

  lemma {:induction false} NothingReserved(items: seq<Item>, min: int, used: nat, cap: int)
    requires min <= 0
    ensures forall i :: 0 <= i < |items| ==> !ReserveRow(items, min, used, cap)[i]
    decreases |items|
  {
    if items != [] { NothingReserved(items[1..], min, used, cap); }
  }

  /** Everything a includes, b includes too. */
  ghost predicate Included(a: seq<bool>, b: seq<bool>)
  {
    |a| == |b| && forall i :: 0 <= i < |a| && a[i] ==> b[i]
  }

  lemma {:induction false} UsedMonotone(items: seq<Item>, a: seq<bool>, b: seq<bool>)
    requires |a| == |items| && Included(a, b)
    ensures Used(items, a) <= Used(items, b)
  {
    if items != [] { UsedMonotone(items[1..], a[1..], b[1..]); }
  }

  /** Pass 2 keeps the reservation and stays within the cap. */
  lemma {:induction false} FillFits(items: seq<Item>, row: seq<bool>, used: nat, cap: int)
    requires |row| == |items|
    ensures var full := FillRow(items, row, used, cap);
            Included(row, full) && Used(items, full) >= Used(items, row)
            && (used <= cap ==> used + Used(items, full) <= cap + Used(items, row))
    decreases |items|
  {
    if items != [] { FillFits(items[1..], row[1..], UsedNext(items[0], row[0], used, cap), cap); }
  }

  /** r is s, or includes the first item on which the two differ. */
  predicate LexAtLeast(r: seq<bool>, s: seq<bool>)
    requires |r| == |s|
  {
    r == [] || (r[0] && !s[0]) || (r[0] == s[0] && LexAtLeast(r[1..], s[1..]))
  }

  /** Pass 2 picks the lexicographically greatest selection among those that keep
      what was reserved and fit. */
  lemma {:induction false} FillGreatest(items: seq<Item>, row: seq<bool>, used: nat, cap: int, s: seq<bool>)
    requires |row| == |items| && Included(row, s) && used + Used(items, s) <= cap + Used(items, row)
    ensures LexAtLeast(FillRow(items, row, used, cap), s)
    decreases |items|
  {
    if items != [] {
      UsedMonotone(items[1..], row[1..], s[1..]);
      if !Adds(items[0], row[0], used, cap) || s[0] {
        FillGreatest(items[1..], row[1..], UsedNext(items[0], row[0], used, cap), cap, s[1..]);
      }
    }
  }

  /** No item left out would still fit. */
  lemma {:induction false} FillMaximal(items: seq<Item>, row: seq<bool>, used: nat, cap: int, p: nat)
    requires |row| == |items| && p < |items| && !FillRow(items, row, used, cap)[p]
    ensures used + Used(items, FillRow(items, row, used, cap)) + Weight(items[p]) > cap + Used(items, row)
    decreases |items|
  {
    var used' := UsedNext(items[0], row[0], used, cap);
    if p > 0 {
      FillMaximal(items[1..], row[1..], used', cap, p - 1);
    } else {
      FillFits(items[1..], row[1..], used', cap);
    }
  }

  /** With d of the budget taken away, pass 2 chooses the same exactly when its
      former choice still fits. */
  lemma {:induction false} FillUnderPressure(items: seq<Item>, row: seq<bool>, used: nat, d: nat, cap: int)
    requires |row| == |items| && used + d <= cap
    ensures FillRow(items, row, used + d, cap) == FillRow(items, row, used, cap)
       <==> used + Used(items, FillRow(items, row, used, cap)) + d <= cap + Used(items, row)
    decreases |items|
  {
    if items != [] {
      var it, flag, rest, more := items[0], row[0], items[1..], row[1..];
      FillFits(rest, more, UsedNext(it, flag, used, cap), cap);
      if Adds(it, flag, used, cap) == Adds(it, flag, used + d, cap) {
        var used' := UsedNext(it, flag, used, cap);
        FillUnderPressure(rest, more, used', d, cap);
        assert FillRow(items, row, used, cap)[1..] == FillRow(rest, more, used', cap);
        assert FillRow(items, row, used + d, cap)[1..] == FillRow(rest, more, used' + d, cap);
      }
    }
  }

  /** The guaranteed items of a tier: its first `min`. */
  function MinRow(items: seq<Item>, min: int): (row: seq<bool>)
    ensures |row| == |items|
  {
    seq(|items|, i requires 0 <= i < |items| => i < min)
  }

  /** If the guaranteed items fit, pass 1 reserves exactly them. */
  lemma {:induction false} ReserveIsMin(items: seq<Item>, min: int, used: nat, cap: int)
    requires used + Used(items, MinRow(items, min)) <= cap
    ensures ReserveRow(items, min, used, cap) == MinRow(items, min)
    decreases |items|
  {
    if min <= 0 {
      NothingReserved(items, min, used, cap);
    } else if items != [] {
      assert MinRow(items, min)[1..] == MinRow(items[1..], min - 1);
      assert MinRow(items, min) == [true] + MinRow(items[1..], min - 1);
      ReserveIsMin(items[1..], min - 1, used + Weight(items[0]), cap);
    }
  }

  // ----- All tiers -----

  function AllItems(tiers: seq<Tier>): seq<Item>
  {
    if tiers == [] then [] else tiers[0].items + AllItems(tiers[1..])
  }

  function Flat(rows: seq<seq<bool>>): seq<bool>
  {
    if rows == [] then [] else rows[0] + Flat(rows[1..])
  }

  /** rows has one entry per item of each tier. */
  ghost predicate Shaped(tiers: seq<Tier>, rows: seq<seq<bool>>)
  {
    |rows| == |tiers| && (tiers == [] || (|rows[0]| == |tiers[0].items| && Shaped(tiers[1..], rows[1..])))
  }

  ghost function UsedAll(tiers: seq<Tier>, rows: seq<seq<bool>>): nat
    requires Shaped(tiers, rows)
  {
    if tiers == [] then 0 else Used(tiers[0].items, rows[0]) + UsedAll(tiers[1..], rows[1..])
  }

  /** Pass 1. */
  function Reserve(tiers: seq<Tier>, used: nat, cap: int): (rows: seq<seq<bool>>)
    ensures |rows| == |tiers|
    decreases |tiers|
  {
    if tiers == [] then []
    else
      var row := ReserveRow(tiers[0].items, tiers[0].minItems, used, cap);
      [row] + Reserve(tiers[1..], used + Used(tiers[0].items, row), cap)
  }

  lemma {:induction false} ReserveShaped(tiers: seq<Tier>, used: nat, cap: int)
    ensures Shaped(tiers, Reserve(tiers, used, cap))
    decreases |tiers|
  {
    if tiers != [] {
      var row := ReserveRow(tiers[0].items, tiers[0].minItems, used, cap);
      ReserveShaped(tiers[1..], used + Used(tiers[0].items, row), cap);
      assert Reserve(tiers, used, cap)[1..] == Reserve(tiers[1..], used + Used(tiers[0].items, row), cap);
    }
  }

  /** What is used once pass 2 has been through a tier. */
  function UsedBehind(items: seq<Item>, row: seq<bool>, used: nat, cap: int): nat
    requires |row| == |items|
  {
    FillFits(items, row, used, cap);
    used + Used(items, FillRow(items, row, used, cap)) - Used(items, row)
  }

  /** Pass 2. */
  function Fill(tiers: seq<Tier>, rows: seq<seq<bool>>, used: nat, cap: int): (full: seq<seq<bool>>)
    requires Shaped(tiers, rows)
    ensures Shaped(tiers, full)
    decreases |tiers|
  {
    if tiers == [] then []
    else
      [FillRow(tiers[0].items, rows[0], used, cap)]
      + Fill(tiers[1..], rows[1..], UsedBehind(tiers[0].items, rows[0], used, cap), cap)
  }

  lemma {:induction false} UsedConcat(a: seq<Item>, b: seq<Item>, r: seq<bool>, q: seq<bool>)
    requires |r| == |a| && |q| == |b|
    ensures Used(a + b, r + q) == Used(a, r) + Used(b, q)
  {
    if a == [] {
      assert a + b == b && r + q == q;
    } else {
      UsedConcat(a[1..], b, r[1..], q);
      assert (a + b)[1..] == a[1..] + b && (r + q)[1..] == r[1..] + q;
    }
  }

  lemma {:induction false} UsedFlat(tiers: seq<Tier>, rows: seq<seq<bool>>)
    requires Shaped(tiers, rows)
    ensures |Flat(rows)| == |AllItems(tiers)|
    ensures Used(AllItems(tiers), Flat(rows)) == UsedAll(tiers, rows)
    decreases |tiers|
  {
    if tiers != [] {
      UsedFlat(tiers[1..], rows[1..]);
      UsedConcat(tiers[0].items, AllItems(tiers[1..]), rows[0], Flat(rows[1..]));
    }
  }

  /** Filling one tier after another is filling all items in their order. */
  lemma {:induction false} FillConcat(a: seq<Item>, b: seq<Item>, r: seq<bool>, q: seq<bool>, used: nat, cap: int)
    requires |r| == |a| && |q| == |b|
    ensures FillRow(a + b, r + q, used, cap) ==
              FillRow(a, r, used, cap) + FillRow(b, q, UsedBehind(a, r, used, cap), cap)
    decreases |a|
  {
    if a == [] {
      assert a + b == b && r + q == q;
    } else {
      var used' := UsedNext(a[0], r[0], used, cap);
      FillConcat(a[1..], b, r[1..], q, used', cap);
      assert (a + b)[1..] == a[1..] + b && (r + q)[1..] == r[1..] + q;
      UsedBehindStep(a, r, used, cap);
      Regroup([FillRow(a, r, used, cap)[0]], FillRow(a[1..], r[1..], used', cap),
              FillRow(b, q, UsedBehind(a, r, used, cap), cap));
    }
  }

  lemma UsedBehindStep(items: seq<Item>, row: seq<bool>, used: nat, cap: int)
    requires |row| == |items| > 0
    ensures UsedBehind(items, row, used, cap) ==
              UsedBehind(items[1..], row[1..], UsedNext(items[0], row[0], used, cap), cap)
    ensures FillRow(items, row, used, cap)[1..] ==
              FillRow(items[1..], row[1..], UsedNext(items[0], row[0], used, cap), cap)
  {
  }

  lemma {:induction false} FillIsFlat(tiers: seq<Tier>, rows: seq<seq<bool>>, used: nat, cap: int)
    requires Shaped(tiers, rows)
    ensures |Flat(rows)| == |AllItems(tiers)|
    ensures Flat(Fill(tiers, rows, used, cap)) == FillRow(AllItems(tiers), Flat(rows), used, cap)
    decreases |tiers|
  {
    UsedFlat(tiers, rows);
    if tiers != [] {
      UsedFlat(tiers[1..], rows[1..]);
      FillConcat(tiers[0].items, AllItems(tiers[1..]), rows[0], Flat(rows[1..]), used, cap);
      FillIsFlat(tiers[1..], rows[1..], UsedBehind(tiers[0].items, rows[0], used, cap), cap);
      assert Fill(tiers, rows, used, cap)[1..] ==
             Fill(tiers[1..], rows[1..], UsedBehind(tiers[0].items, rows[0], used, cap), cap);
    }
  }

  /** What pass 1 uses. */
  ghost function UsedByReserve(tiers: seq<Tier>, used: nat, cap: int): nat
  {
    ReserveShaped(tiers, used, cap);
    UsedAll(tiers, Reserve(tiers, used, cap))
  }

  /** What pass 1 reserves fits. */
  lemma {:induction false} ReserveAllFits(tiers: seq<Tier>, used: nat, cap: int)
    requires used <= cap
    ensures used + UsedByReserve(tiers, used, cap) <= cap
    decreases |tiers|
  {
    if tiers != [] {
      var row := ReserveRow(tiers[0].items, tiers[0].minItems, used, cap);
      ReserveFits(tiers[0].items, tiers[0].minItems, used, cap);
      ReserveAllFits(tiers[1..], used + Used(tiers[0].items, row), cap);
      ReserveHead(tiers, used, cap);
    }
  }

  lemma ReserveHead(tiers: seq<Tier>, used: nat, cap: int)
    requires tiers != []
    ensures var row := ReserveRow(tiers[0].items, tiers[0].minItems, used, cap);
            var rest := Reserve(tiers[1..], used + Used(tiers[0].items, row), cap);
            && Reserve(tiers, used, cap) == [row] + rest
            && Reserve(tiers, used, cap)[0] == row && Reserve(tiers, used, cap)[1..] == rest
            && UsedByReserve(tiers, used, cap) ==
                 Used(tiers[0].items, row) + UsedByReserve(tiers[1..], used + Used(tiers[0].items, row), cap)
  {
  }

  /** What is used once pass 1 has been through the tiers. */
  function UsedAfter(tiers: seq<Tier>, used: nat, cap: int): nat
    decreases |tiers|
  {
    if tiers == [] then used
    else
      var row := ReserveRow(tiers[0].items, tiers[0].minItems, used, cap);
      UsedAfter(tiers[1..], used + Used(tiers[0].items, row), cap)
  }

  lemma {:induction false} UsedAfterReserve(tiers: seq<Tier>, used: nat, cap: int)
    ensures UsedAfter(tiers, used, cap) == used + UsedByReserve(tiers, used, cap)
    decreases |tiers|
  {
    if tiers != [] {
      var row := ReserveRow(tiers[0].items, tiers[0].minItems, used, cap);
      UsedAfterReserve(tiers[1..], used + Used(tiers[0].items, row), cap);
      ReserveHead(tiers, used, cap);
    }
  }

  /** Pass 1 on the first tiers does not depend on the tiers behind them. */
  lemma {:induction false} ReservePrefix(hi: seq<Tier>, lo: seq<Tier>, used: nat, cap: int)
    ensures Reserve(hi + lo, used, cap) == Reserve(hi, used, cap) + Reserve(lo, UsedAfter(hi, used, cap), cap)
    decreases |hi|
  {
    if hi == [] {
      assert hi + lo == lo;
    } else {
      var row := ReserveRow(hi[0].items, hi[0].minItems, used, cap);
      var used' := used + Used(hi[0].items, row);
      ReservePrefix(hi[1..], lo, used', cap);
      var all := hi + lo;
      assert all[1..] == hi[1..] + lo && all[0] == hi[0];
      Regroup([row], Reserve(hi[1..], used', cap), Reserve(lo, UsedAfter(hi, used, cap), cap));
    }
  }

  /** The guaranteed items of every tier. */
  function MinRows(tiers: seq<Tier>): (rows: seq<seq<bool>>)
    ensures Shaped(tiers, rows)
  {
    if tiers == [] then [] else [MinRow(tiers[0].items, tiers[0].minItems)] + MinRows(tiers[1..])
  }

  lemma {:induction false} ReserveAllMin(tiers: seq<Tier>, used: nat, cap: int)
    requires used + UsedAll(tiers, MinRows(tiers)) <= cap
    ensures Reserve(tiers, used, cap) == MinRows(tiers)
    decreases |tiers|
  {
    if tiers != [] {
      var items, row := tiers[0].items, MinRow(tiers[0].items, tiers[0].minItems);
      assert MinRows(tiers)[1..] == MinRows(tiers[1..]);
      ReserveIsMin(items, tiers[0].minItems, used, cap);
      ReserveAllMin(tiers[1..], used + Used(items, row), cap);
    }
  }

  // ----- Selections -----

  function PrepareAll(tiers: seq<Tier>): seq<Tier>
  {
    if tiers == [] then [] else [Prepare(tiers[0])] + PrepareAll(tiers[1..])
  }

  /** The reservation for a budget. */
  function Reserved(tiers: seq<Tier>, budget: nat): (rows: seq<seq<bool>>)
    ensures Shaped(tiers, rows)
  {
    ReserveShaped(tiers, 0, budget + 1);
    Reserve(tiers, 0, budget + 1)
  }

  /** Pass 2 on the tiers after pass 1 on them, when d of the budget is taken besides. */
  ghost function FilledBeside(tiers: seq<Tier>, d: nat, budget: nat): (full: seq<seq<bool>>)
    ensures Shaped(tiers, full)
  {
    Fill(tiers, Reserved(tiers, budget), UsedAll(tiers, Reserved(tiers, budget)) + d, budget + 1)
  }

  /** The items Assemble includes, for prepared tiers. */
  ghost function Selection(tiers: seq<Tier>, budget: nat): (full: seq<seq<bool>>)
    ensures Shaped(tiers, full)
  {
    FilledBeside(tiers, 0, budget)
  }

  /** The texts of the included items. */
  function Chosen(items: seq<Item>, row: seq<bool>): seq<string>
    requires |row| == |items|
  {
    if items == [] then []
    else (if row[0] then [items[0].text] else []) + Chosen(items[1..], row[1..])
  }

  /** A selection fits the budget. */
  ghost predicate Fits(tiers: seq<Tier>, flat: seq<bool>, budget: nat)
  {
    |flat| == |AllItems(tiers)| && Used(AllItems(tiers), flat) <= budget + 1
  }

  // ----- What pass 1 reserves in general -----

  function Taken(row: seq<bool>): nat
  {
    if row == [] then 0 else (if row[0] then 1 else 0) + Taken(row[1..])
  }

  /** From each tier at most its guaranteed number of items. */
  ghost predicate WithinMins(tiers: seq<Tier>, rows: seq<seq<bool>>)
    requires Shaped(tiers, rows)
  {
    tiers == [] || (
      (Taken(rows[0]) == 0 || Taken(rows[0]) <= tiers[0].minItems) && WithinMins(tiers[1..], rows[1..]))
  }

  lemma {:induction false} ReserveRowGreatest(items: seq<Item>, min: int, used: nat, cap: int, s: seq<bool>)
    requires |s| == |items| && (Taken(s) == 0 || Taken(s) <= min) && used + Used(items, s) <= cap
    ensures LexAtLeast(ReserveRow(items, min, used, cap), s)
    decreases |items|
  {
    if items != [] {
      if min > 0 && used + Weight(items[0]) <= cap {
        if s[0] { ReserveRowGreatest(items[1..], min - 1, used + Weight(items[0]), cap, s[1..]); }
      } else {
        ReserveRowGreatest(items[1..], min, used, cap, s[1..]);
      }
    }
  }

  lemma {:induction false} ReserveRowTakes(items: seq<Item>, min: int, used: nat, cap: int)
    ensures var taken := Taken(ReserveRow(items, min, used, cap));
            taken == 0 || taken <= min
    decreases |items|
  {
    if items != [] {
      ReserveRowTakes(items[1..], min - 1, used + Weight(items[0]), cap);
      ReserveRowTakes(items[1..], min, used, cap);
    }
  }

  lemma {:induction false} LexConcat(a: seq<bool>, b: seq<bool>, c: seq<bool>, d: seq<bool>)
    requires |a| == |b| && |c| == |d| && LexAtLeast(a, b) && (a == b ==> LexAtLeast(c, d))
    ensures LexAtLeast(a + c, b + d)
  {
    if a == [] {
      assert a + c == c && b + d == d;
    } else {
      assert (a + c)[1..] == a[1..] + c && (b + d)[1..] == b[1..] + d;
      assert a == [a[0]] + a[1..] && b == [b[0]] + b[1..];
      if a[0] == b[0] { LexConcat(a[1..], b[1..], c, d); }
    }
  }

  predicate RowsAtLeast(r: seq<seq<bool>>, s: seq<seq<bool>>)
  {
    |Flat(r)| == |Flat(s)| && LexAtLeast(Flat(r), Flat(s))
  }

  /** Two lists of rows compare as their first rows do, and by the others if those agree. */
  lemma FlatGreatest(row: seq<bool>, rest: seq<seq<bool>>, s: seq<seq<bool>>)
    requires s != [] && |row| == |s[0]| && |Flat(rest)| == |Flat(s[1..])|
    requires LexAtLeast(row, s[0]) && (row == s[0] ==> RowsAtLeast(rest, s[1..]))
    ensures RowsAtLeast([row] + rest, s)
  {
    assert ([row] + rest)[1..] == rest;
    LexConcat(row, s[0], Flat(rest), Flat(s[1..]));
  }

  lemma ShapedSize(tiers: seq<Tier>, rows: seq<seq<bool>>)
    requires Shaped(tiers, rows)
    ensures |Flat(rows)| == |AllItems(tiers)|
  {
    UsedFlat(tiers, rows);
  }

  lemma {:induction false} ReserveGreatestFrom(tiers: seq<Tier>, used: nat, cap: int, s: seq<seq<bool>>)
    requires Shaped(tiers, s) && WithinMins(tiers, s) && used + UsedAll(tiers, s) <= cap
    ensures RowsAtLeast(Reserve(tiers, used, cap), s)
    decreases |tiers|
  {
    if tiers != [] {
      var items, row := tiers[0].items, ReserveRow(tiers[0].items, tiers[0].minItems, used, cap);
      var used' := used + Used(items, row);
      ReserveRowGreatest(items, tiers[0].minItems, used, cap, s[0]);
      if row == s[0] { ReserveGreatestFrom(tiers[1..], used', cap, s[1..]); }
      ReserveShaped(tiers[1..], used', cap);
      ShapedSize(tiers[1..], Reserve(tiers[1..], used', cap));
      ShapedSize(tiers[1..], s[1..]);
      var rest := Reserve(tiers[1..], used', cap);
      assert Reserve(tiers, used, cap) == [row] + rest;
      FlatGreatest(row, rest, s);
    }
  }

  lemma {:induction false} ReserveWithinMins(tiers: seq<Tier>, used: nat, cap: int)
    ensures Shaped(tiers, Reserve(tiers, used, cap)) && WithinMins(tiers, Reserve(tiers, used, cap))
    decreases |tiers|
  {
    ReserveShaped(tiers, used, cap);
    if tiers != [] {
      var row := ReserveRow(tiers[0].items, tiers[0].minItems, used, cap);
      ReserveRowTakes(tiers[0].items, tiers[0].minItems, used, cap);
      ReserveWithinMins(tiers[1..], used + Used(tiers[0].items, row), cap);
      ReserveHead(tiers, used, cap);
    }
  }

  /** Pass 1 makes the lexicographically greatest of the selections that take at most the
      guaranteed number of items from each tier and fit. */
  lemma ReserveGreatest(tiers: seq<Tier>, budget: nat, s: seq<seq<bool>>)
    requires Shaped(tiers, s) && WithinMins(tiers, s) && Fits(tiers, Flat(s), budget)
    ensures var rows := Reserved(tiers, budget);
            && WithinMins(tiers, rows) && Fits(tiers, Flat(rows), budget)
            && LexAtLeast(Flat(rows), Flat(s))
  {
    UsedFlat(tiers, s);
    UsedFlat(tiers, Reserved(tiers, budget));
    ReserveAllFits(tiers, 0, budget + 1);
    ReserveWithinMins(tiers, 0, budget + 1);
    ReserveGreatestFrom(tiers, 0, budget + 1, s);
  }

  /** Among all selections that keep the reservation and fit, pass 2 makes the
      lexicographically greatest in tier-then-priority order; it is maximal too. */
  lemma SelectionGreatest(tiers: seq<Tier>, budget: nat)
    ensures var flat, reserved := Flat(Selection(tiers, budget)), Flat(Reserved(tiers, budget));
            && Fits(tiers, flat, budget) && Included(reserved, flat)
            && (forall s :: Fits(tiers, s, budget) && Included(reserved, s) ==> LexAtLeast(flat, s))
            && (forall p :: 0 <= p < |flat| && !flat[p] ==>
                  Used(AllItems(tiers), flat) + Weight(AllItems(tiers)[p]) > budget + 1)
  {
    var rows, cap := Reserved(tiers, budget), budget + 1;
    var items, reserved, used := AllItems(tiers), Flat(rows), UsedAll(tiers, rows);
    ReserveAllFits(tiers, 0, cap);
    UsedFlat(tiers, rows);
    FillIsFlat(tiers, rows, used, cap);
    FillFits(items, reserved, used, cap);
    forall s | Fits(tiers, s, budget) && Included(reserved, s)
      ensures LexAtLeast(FillRow(items, reserved, used, cap), s)
    {
      FillGreatest(items, reserved, used, cap, s);
    }
    forall p | 0 <= p < |items| && !FillRow(items, reserved, used, cap)[p]
      ensures Used(items, FillRow(items, reserved, used, cap)) + Weight(items[p]) > cap
    {
      FillMaximal(items, reserved, used, cap, p);
    }
  }

  /** The guaranteed items of all tiers are all included exactly when they fit together. */
  lemma GuaranteeExactlyWhen(tiers: seq<Tier>, budget: nat)
    ensures Included(Flat(MinRows(tiers)), Flat(Selection(tiers, budget)))
       <==> Fits(tiers, Flat(MinRows(tiers)), budget)
  {
    var min := Flat(MinRows(tiers));
    UsedFlat(tiers, MinRows(tiers));
    SelectionGreatest(tiers, budget);
    if Fits(tiers, min, budget) {
      ReserveAllMin(tiers, 0, budget + 1);
    }
    if Included(min, Flat(Selection(tiers, budget))) {
      UsedMonotone(AllItems(tiers), min, Flat(Selection(tiers, budget)));
    }
  }

  /** The tokens of some texts, each counted by itself. */
  function TokensOf(texts: seq<string>): nat
  {
    if texts == [] then 0 else ApproxTokens(texts[0]) + TokensOf(texts[1..])
  }

  /** A selection fits the budget exactly when its texts and one token for each separator
      between two of them do. */
  lemma FitsExactlyWhen(tiers: seq<Tier>, flat: seq<bool>, budget: nat)
    requires |flat| == |AllItems(tiers)|
    ensures Fits(tiers, flat, budget) <==>
              var texts := Chosen(AllItems(tiers), flat);
              texts == [] || TokensOf(texts) + (|texts| - 1) <= budget
  {
    UsedIsTokens(AllItems(tiers), flat);
  }

  lemma {:induction false} UsedIsTokens(items: seq<Item>, row: seq<bool>)
    requires |row| == |items|
    ensures Used(items, row) == TokensOf(Chosen(items, row)) + |Chosen(items, row)|
  {
    if items != [] {
      UsedIsTokens(items[1..], row[1..]);
      if row[0] {
        assert ([items[0].text] + Chosen(items[1..], row[1..]))[1..] == Chosen(items[1..], row[1..]);
      } else {
        assert [] + Chosen(items[1..], row[1..]) == Chosen(items[1..], row[1..]);
      }
    }
  }

  /** texts are those of included items, at rising places. */
  ghost predicate PickedAt(items: seq<Item>, row: seq<bool>, texts: seq<string>, at: seq<nat>)
    requires |row| == |items|
  {
    && |at| == |texts|
    && (forall k :: 0 <= k < |at| ==> at[k] < |items| && row[at[k]] && texts[k] == items[at[k]].text)
    && (forall j, k :: 0 <= j < k < |at| ==> at[j] < at[k])
  }

  ghost predicate AllPicked(row: seq<bool>, at: seq<nat>)
  {
    forall i: nat :: i < |row| && row[i] ==> i in at
  }

  lemma PickedSkip(it: Item, items: seq<Item>, row: seq<bool>, texts: seq<string>, at: seq<nat>)
    requires |row| == |items| && PickedAt(items, row, texts, at)
    ensures PickedAt([it] + items, [false] + row, texts, Shifted(at))
  {
    var more, r, up := [it] + items, [false] + row, Shifted(at);
    forall k | 0 <= k < |up| ensures up[k] < |more| && r[up[k]] && texts[k] == more[up[k]].text {
      assert more[up[k]] == items[at[k]] && r[up[k]] == row[at[k]];
    }
  }

  lemma PickedTake(it: Item, items: seq<Item>, row: seq<bool>, texts: seq<string>, at: seq<nat>)
    requires |row| == |items| && PickedAt(items, row, texts, at)
    ensures PickedAt([it] + items, [true] + row, [it.text] + texts, [0] + Shifted(at))
  {
    var more, r, up, ts := [it] + items, [true] + row, [0] + Shifted(at), [it.text] + texts;
    forall k | 0 <= k < |up| ensures up[k] < |more| && r[up[k]] && ts[k] == more[up[k]].text {
      if k > 0 {
        assert up[k] == at[k - 1] + 1;
        assert more[up[k]] == items[at[k - 1]] && r[up[k]] == row[at[k - 1]] && ts[k] == texts[k - 1];
      }
    }
    forall j, k | 0 <= j < k < |up| ensures up[j] < up[k] {
      assert up[k] == at[k - 1] + 1 && (j > 0 ==> up[j] == at[j - 1] + 1);
    }
  }

  lemma AllPickedBehind(b: bool, row: seq<bool>, at: seq<nat>)
    requires AllPicked(row, at)
    ensures AllPicked([b] + row, (if b then [0] else []) + Shifted(at))
  {
    forall i: nat | i < |row| + 1 && ([b] + row)[i] ensures i in (if b then [0] else []) + Shifted(at) {
      if i > 0 {
        assert row[i - 1];
        ShiftedHas(at, i - 1);
      }
    }
  }

  /** The chosen texts are those of the included items, each once and in their order. */
  lemma {:induction false} ChosenAre(items: seq<Item>, row: seq<bool>) returns (at: seq<nat>)
    requires |row| == |items|
    ensures PickedAt(items, row, Chosen(items, row), at) && AllPicked(row, at)
  {
    if items == [] {
      at := [];
    } else {
      var rest := ChosenAre(items[1..], row[1..]);
      assert items == [items[0]] + items[1..] && row == [row[0]] + row[1..];
      AllPickedBehind(row[0], row[1..], rest);
      if row[0] {
        PickedTake(items[0], items[1..], row[1..], Chosen(items[1..], row[1..]), rest);
        at := [0] + Shifted(rest);
      } else {
        PickedSkip(items[0], items[1..], row[1..], Chosen(items[1..], row[1..]), rest);
        assert [] + Chosen(items[1..], row[1..]) == Chosen(items, row) && [] + Shifted(rest) == Shifted(rest);
        at := Shifted(rest);
      }
    }
  }

  lemma {:induction false} ChosenTokens(items: seq<Item>, row: seq<bool>)
    requires |row| == |items| && forall it :: it in items ==> it.text != ""
    ensures var out := Join(Chosen(items, row), "\n");
            && ("" !in Chosen(items, row))
            && (Chosen(items, row) == [] <==> Used(items, row) == 0)
            && (Chosen(items, row) != [] ==> ApproxTokens(out) + 1 <= Used(items, row))
  {
    if items != [] {
      var rest := Chosen(items[1..], row[1..]);
      assert items[0] in items;
      ChosenTokens(items[1..], row[1..]);
      if row[0] {
        assert ([items[0].text] + rest)[1..] == rest;
      } else {
        assert [] + rest == rest;
      }
    }
  }

  // ----- A higher tier and the tiers behind it -----

  /** What pass 1 takes for the tiers behind hi. */
  ghost function LowerReserve(hi: seq<Tier>, lo: seq<Tier>, budget: nat): nat
  {
    UsedByReserve(lo, UsedAll(hi, Reserved(hi, budget)), budget + 1)
  }

  lemma {:induction false} UsedAllConcat(hi: seq<Tier>, lo: seq<Tier>, a: seq<seq<bool>>, b: seq<seq<bool>>)
    requires Shaped(hi, a) && Shaped(lo, b)
    ensures Shaped(hi + lo, a + b) && UsedAll(hi + lo, a + b) == UsedAll(hi, a) + UsedAll(lo, b)
    decreases |hi|
  {
    if hi == [] {
      assert hi + lo == lo && a + b == b;
    } else {
      UsedAllConcat(hi[1..], lo, a[1..], b);
      assert (hi + lo)[1..] == hi[1..] + lo && (a + b)[1..] == a[1..] + b && (hi + lo)[0] == hi[0];
    }
  }

  lemma {:induction false} FillPrefix(hi: seq<Tier>, lo: seq<Tier>, a: seq<seq<bool>>, b: seq<seq<bool>>, used: nat,
                                      cap: int)
    requires Shaped(hi, a) && Shaped(hi + lo, a + b)
    ensures Fill(hi + lo, a + b, used, cap)[..|hi|] == Fill(hi, a, used, cap)
    decreases |hi|
  {
    if hi != [] {
      assert (hi + lo)[1..] == hi[1..] + lo && (a + b)[1..] == a[1..] + b && (hi + lo)[0] == hi[0];
      FillPrefix(hi[1..], lo, a[1..], b, UsedBehind(hi[0].items, a[0], used, cap), cap);
    }
  }

  lemma {:induction false} FlatInjective(tiers: seq<Tier>, a: seq<seq<bool>>, b: seq<seq<bool>>)
    requires Shaped(tiers, a) && Shaped(tiers, b)
    ensures Flat(a) == Flat(b) <==> a == b
    decreases |tiers|
  {
    if tiers != [] {
      FlatInjective(tiers[1..], a[1..], b[1..]);
      var x, y := Flat(a), Flat(b);
      assert x[..|a[0]|] == a[0] && y[..|b[0]|] == b[0];
      assert x[|a[0]|..] == Flat(a[1..]) && y[|b[0]|..] == Flat(b[1..]);
      assert a == [a[0]] + a[1..] && b == [b[0]] + b[1..];
    }
  }

  /** hi's rows when lower tiers stand behind it. */
  lemma SelectionBefore(hi: seq<Tier>, lo: seq<Tier>, budget: nat)
    ensures Selection(hi + lo, budget)[..|hi|] == FilledBeside(hi, LowerReserve(hi, lo, budget), budget)
  {
    var cap := budget + 1;
    var a := Reserved(hi, budget);
    var used := UsedAll(hi, a);
    var b := Reserve(lo, used, cap);
    ReserveShaped(lo, used, cap);
    ReservePrefix(hi, lo, 0, cap);
    UsedAfterReserve(hi, 0, cap);
    UsedAllConcat(hi, lo, a, b);
    FillPrefix(hi, lo, a, b, used + UsedAll(lo, b), cap);
  }

  /** Higher tiers lose nothing to lower ones exactly when what they would take
      alone fits beside the lower tiers' reservation. */
  lemma HigherTiersKeepExactlyWhen(hi: seq<Tier>, lo: seq<Tier>, budget: nat)
    ensures Selection(hi + lo, budget)[..|hi|] == Selection(hi, budget)
       <==> UsedAll(hi, Selection(hi, budget)) + LowerReserve(hi, lo, budget) <= budget + 1
  {
    SelectionBefore(hi, lo, budget);
    ReservationsFit(hi, lo, budget);
    FilledUnderPressure(hi, LowerReserve(hi, lo, budget), budget);
  }

  lemma ReservationsFit(hi: seq<Tier>, lo: seq<Tier>, budget: nat)
    ensures UsedAll(hi, Reserved(hi, budget)) + LowerReserve(hi, lo, budget) <= budget + 1
  {
    ReserveAllFits(hi, 0, budget + 1);
    ReserveAllFits(lo, UsedAll(hi, Reserved(hi, budget)), budget + 1);
  }

  lemma FilledUnderPressure(tiers: seq<Tier>, d: nat, budget: nat)
    requires UsedAll(tiers, Reserved(tiers, budget)) + d <= budget + 1
    ensures FilledBeside(tiers, d, budget) == FilledBeside(tiers, 0, budget)
       <==> UsedAll(tiers, FilledBeside(tiers, 0, budget)) + d <= budget + 1
  {
    var rows, cap := Reserved(tiers, budget), budget + 1;
    var used := UsedAll(tiers, rows);
    UsedFlat(tiers, rows);
    UsedFlat(tiers, FilledBeside(tiers, 0, budget));
    FillIsFlat(tiers, rows, used, cap);
    FillIsFlat(tiers, rows, used + d, cap);
    FlatInjective(tiers, FilledBeside(tiers, d, budget), FilledBeside(tiers, 0, budget));
    FillUnderPressure(AllItems(tiers), Flat(rows), used, d, cap);
  }

  lemma PairRows(x: Item, y: Item, f: bool, g: bool, used: nat, cap: int)
    ensures Used([x, y], [f, g]) == (if f then Weight(x) else 0) + (if g then Weight(y) else 0)
    ensures var u := UsedNext(x, f, used, cap);
            FillRow([x, y], [f, g], used, cap) == [f || Adds(x, f, used, cap), g || Adds(y, g, u, cap)]
    ensures ReserveRow([x, y], 1, used, cap) ==
              if used + Weight(x) <= cap then [true, false] else [false, used + Weight(y) <= cap]
  {
    assert [x, y][1..] == [y] && [f, g][1..] == [g];
    assert Used([y], [g]) == if g then Weight(y) else 0;
    assert forall u: nat :: FillRow([y], [g], u, cap) == [g || Adds(y, g, u, cap)];
    assert ReserveRow([y], 0, used + Weight(x), cap) == [false];
    assert ReserveRow([y], 1, used, cap) == [used + Weight(y) <= cap];
  }

  lemma OneTierReserve(x: Item, used: nat, cap: int)
    requires used + Weight(x) <= cap
    ensures UsedByReserve([Tier([x], 1)], used, cap) == Weight(x)
  {
    assert ReserveRow([x], 1, used, cap) == [true] && Used([x], [true]) == Weight(x);
    var tiers := [Tier([x], 1)];
    assert tiers[1..] == [] && Reserve(tiers, used, cap) == [[true]];
    assert UsedAll(tiers[1..], [[true]][1..]) == 0;
  }

  /** A tier of two items of which one is guaranteed and fits. */
  lemma TwoItemTier(x: Item, y: Item, d: nat, budget: nat)
    requires Weight(x) <= budget + 1
    ensures var tiers := [Tier([x, y], 1)];
            && UsedAll(tiers, Reserved(tiers, budget)) == Weight(x)
            && FilledBeside(tiers, d, budget) == [[true, Weight(x) + d + Weight(y) <= budget + 1]]
  {
    var tiers := [Tier([x, y], 1)];
    PairRows(x, y, true, false, 0, budget + 1);
    PairRows(x, y, true, false, Weight(x) + d, budget + 1);
    assert tiers[1..] == [] && Reserve(tiers, 0, budget + 1) == [[true, false]];
    assert UsedAll(tiers[1..], [[true, false]][1..]) == 0;
  }

  /** One tier's guaranteed item can push out a higher tier's second one. */
  lemma HigherTierCanLose()
    ensures var hi, lo := [Tier([Item("aaaa", 0), Item("bbbb", 1)], 1)], [Tier([Item("cccc", 0)], 1)];
            && Selection(hi, 3) == [[true, true]]
            && Selection(hi + lo, 3)[..1] == [[true, false]]
  {
    var a, b, c := Item("aaaa", 0), Item("bbbb", 1), Item("cccc", 0);
    TwoItemTier(a, b, 0, 3);
    TwoItemTier(a, b, 2, 3);
    OneTierReserve(c, 2, 4);
    SelectionBefore([Tier([a, b], 1)], [Tier([c], 1)], 3);
  }

  // ----- Assemble -----

  /** The running budget: a separator is charged for every item but the first. */
  predicate Ledger(remaining: int, hasAny: bool, used: nat, cap: int)
  {
    (hasAny <==> used > 0) && remaining == cap - 1 - (if used == 0 then 0 else used - 1)
  }

  function Cost(text: string, hasAny: bool): nat
  {
    if hasAny then ApproxTokens("\n") + ApproxTokens(text) else ApproxTokens(text)
  }

  /** Charges the budget for an item if the item fits, as both passes do. */
  method Charge(it: Item, remaining0: int, hasAny0: bool, ghost used: nat, ghost cap: int)
    returns (took: bool, remaining: int, hasAny: bool)
    requires Ledger(remaining0, hasAny0, used, cap)
    ensures took <==> used + Weight(it) <= cap
    ensures Ledger(remaining, hasAny, if took then used + Weight(it) else used, cap)
  {
    took, remaining, hasAny := false, remaining0, hasAny0;
    var c := Cost(it.text, hasAny);
    if c <= remaining {
      remaining := remaining - c;
      hasAny := true;
      took := true;
    }
  }

  /** mins and us record, before each item of a tier, how many items pass 1 may
      still take and what is used; all is the row that results. */
  ghost predicate ReserveTrace(items: seq<Item>, all: seq<bool>, mins: seq<int>, us: seq<nat>, cap: int)
  {
    && |all| == |items| && |mins| == |us| == |items| + 1
    && (forall j :: 0 <= j < |items| ==>
          && (all[j] <==> mins[j] > 0 && us[j] + Weight(items[j]) <= cap)
          && mins[j + 1] == (if all[j] then mins[j] - 1 else mins[j])
          && us[j + 1] == (if all[j] then us[j] + Weight(items[j]) else us[j]))
  }

  lemma {:induction false} TraceReserve(items: seq<Item>, min: int, used: nat, cap: int)
    returns (mins: seq<int>, us: seq<nat>)
    ensures ReserveTrace(items, ReserveRow(items, min, used, cap), mins, us, cap)
    ensures mins[0] == min && us[0] == used
    ensures us[|items|] == used + Used(items, ReserveRow(items, min, used, cap))
    decreases |items|
  {
    if items == [] {
      mins, us := [min], [used];
    } else {
      var took := min > 0 && used + Weight(items[0]) <= cap;
      var min' := if took then min - 1 else min;
      var used' := if took then used + Weight(items[0]) else used;
      var ms, vs := TraceReserve(items[1..], min', used', cap);
      ExtendReserveTrace(items, ReserveRow(items[1..], min', used', cap), ms, vs, cap, min, used);
      mins, us := [min] + ms, [used] + vs;
    }
  }

  lemma ExtendReserveTrace(items: seq<Item>, rest: seq<bool>, mins: seq<int>, us: seq<nat>, cap: int, min: int,
                           used: nat)
    requires items != [] && ReserveTrace(items[1..], rest, mins, us, cap)
    requires var took := min > 0 && used + Weight(items[0]) <= cap;
             mins[0] == (if took then min - 1 else min) && us[0] == (if took then used + Weight(items[0]) else used)
    ensures ReserveTrace(items, [min > 0 && used + Weight(items[0]) <= cap] + rest, [min] + mins, [used] + us, cap)
  {
    var all := [min > 0 && used + Weight(items[0]) <= cap] + rest;
    forall j | 0 < j < |items|
      ensures all[j] == rest[j - 1] && ([min] + mins)[j] == mins[j - 1] && ([used] + us)[j] == us[j - 1]
              && items[j] == items[1..][j - 1]
    {
    }
  }

  lemma {:induction false} ReserveEnds(items: seq<Item>, all: seq<bool>, mins: seq<int>, us: seq<nat>, cap: int,
                                       j: nat, k: nat)
    requires ReserveTrace(items, all, mins, us, cap) && j <= k <= |items| && mins[j] <= 0
    ensures us[j] == us[k] && mins[k] <= 0 && (k < |items| ==> !all[k])
    decreases k
  {
    if j < k { ReserveEnds(items, all, mins, us, cap, j, k - 1); }
  }

  /** Pass 1 on one tier. */
  method ReserveTier(items: seq<Item>, minItems: int, remaining0: int, hasAny0: bool, ghost used: nat, ghost cap: int)
    returns (row: seq<bool>, remaining: int, hasAny: bool)
    requires Ledger(remaining0, hasAny0, used, cap)
    ensures row == ReserveRow(items, minItems, used, cap)
    ensures Ledger(remaining, hasAny, used + Used(items, row), cap)
  {
    row, remaining, hasAny := seq(|items|, _ => false), remaining0, hasAny0;
    var reserved := 0;
    ghost var all := ReserveRow(items, minItems, used, cap);
    ghost var mins, us := TraceReserve(items, minItems, used, cap);
    var j := 0;
    while j < |items|
      invariant j <= |items| && RowSoFar(row, all, j)
      invariant minItems - reserved == mins[j] && Ledger(remaining, hasAny, us[j], cap)
    {
      if reserved >= minItems {
        break;
      }
      var took;
      took, remaining, hasAny := Charge(items[j], remaining, hasAny, us[j], cap);
      if took {
        row := row[j := true];
        reserved := reserved + 1;
      }
      j := j + 1;
    }
    forall k | j <= k <= |items| && mins[j] <= 0 ensures us[j] == us[k] && (k < |items| ==> !all[k]) {
      ReserveEnds(items, all, mins, us, cap, j, k);
    }
    assert row == all;
  }

  /** The row up to item j is the final one, and empty behind it. */
  ghost predicate RowSoFar(row: seq<bool>, all: seq<bool>, j: nat)
  {
    |row| == |all| && forall k :: 0 <= k < |row| ==> row[k] == (k < j && all[k])
  }

  ghost predicate FillTrace(items: seq<Item>, all: seq<bool>, row0: seq<bool>, us: seq<nat>, cap: int)
  {
    && |all| == |row0| == |items| && |us| == |items| + 1
    && (forall j :: 0 <= j < |items| ==>
          && (all[j] <==> row0[j] || Adds(items[j], row0[j], us[j], cap))
          && us[j + 1] == UsedNext(items[j], row0[j], us[j], cap))
  }

  lemma {:induction false} TraceFill(items: seq<Item>, row0: seq<bool>, used: nat, cap: int) returns (us: seq<nat>)
    requires |row0| == |items|
    ensures FillTrace(items, FillRow(items, row0, used, cap), row0, us, cap)
    ensures us[0] == used && us[|items|] == UsedBehind(items, row0, used, cap)
    decreases |items|
  {
    if items == [] {
      us := [used];
    } else {
      us := TraceFill(items[1..], row0[1..], UsedNext(items[0], row0[0], used, cap), cap);
      us := [used] + us;
      UsedBehindStep(items, row0, used, cap);
    }
  }

  /** Pass 2 on one tier. */
  method FillTier(items: seq<Item>, row0: seq<bool>, remaining0: int, hasAny0: bool, ghost used: nat, ghost cap: int)
    returns (row: seq<bool>, remaining: int, hasAny: bool)
    requires |row0| == |items| && Ledger(remaining0, hasAny0, used, cap)
    ensures row == FillRow(items, row0, used, cap)
    ensures Ledger(remaining, hasAny, UsedBehind(items, row0, used, cap), cap)
  {
    row, remaining, hasAny := row0, remaining0, hasAny0;
    ghost var all := FillRow(items, row0, used, cap);
    ghost var us := TraceFill(items, row0, used, cap);
    for j := 0 to |items|
      invariant |row| == |items| && forall k :: 0 <= k < |row| ==> row[k] == if k < j then all[k] else row0[k]
      invariant Ledger(remaining, hasAny, us[j], cap)
    {
      if !row[j] {
        var took;
        took, remaining, hasAny := Charge(items[j], remaining, hasAny, us[j], cap);
        if took {
          row := row[j := true];
        }
      }
    }
    assert row == all;
  }

  lemma TailStep<T>(s: seq<T>, j: nat)
    requires j < |s|
    ensures s[j..][0] == s[j] && s[j..][1..] == s[j + 1..]
  {
  }

  /** Pass 1 stands before tier i, has used u, and will reserve `all` in the end. */
  ghost predicate ReservedUpTo(tiers: seq<Tier>, i: nat, u: nat, all: seq<seq<bool>>, end: nat, cap: int)
  {
    i <= |tiers| == |all| && all[i..] == Reserve(tiers[i..], u, cap) && UsedAfter(tiers[i..], u, cap) == end
  }

  lemma ReserveNext(tiers: seq<Tier>, i: nat, u: nat, all: seq<seq<bool>>, end: nat, cap: int)
    requires i < |tiers| && ReservedUpTo(tiers, i, u, all, end, cap)
    ensures all[i] == ReserveRow(tiers[i].items, tiers[i].minItems, u, cap) && |all[i]| == |tiers[i].items|
    ensures ReservedUpTo(tiers, i + 1, u + Used(tiers[i].items, all[i]), all, end, cap)
  {
    TailStep(tiers, i);
    TailStep(all, i);
  }

  /** Pass 1 over all tiers. */
  method ReserveTiers(tiers: seq<Tier>, budget: nat) returns (included: seq<seq<bool>>, remaining: int, hasAny: bool)
    ensures included == Reserved(tiers, budget)
    ensures Ledger(remaining, hasAny, UsedAll(tiers, included), budget + 1)
  {
    included, remaining, hasAny := [], budget, false;
    ghost var u: nat, all, cap := 0, Reserved(tiers, budget), budget + 1;
    ghost var end := UsedAfter(tiers, 0, cap);
    for i := 0 to |tiers|
      invariant included == all[..i] && ReservedUpTo(tiers, i, u, all, end, cap)
      invariant Ledger(remaining, hasAny, u, cap)
    {
      ReserveNext(tiers, i, u, all, end, cap);
      var row;
      row, remaining, hasAny := ReserveTier(tiers[i].items, tiers[i].minItems, remaining, hasAny, u, cap);
      included := included + [row];
      u := u + Used(tiers[i].items, row);
    }
    UsedAfterReserve(tiers, 0, cap);
  }

  lemma FillHead(tiers: seq<Tier>, rows: seq<seq<bool>>, used: nat, cap: int, i: nat)
    requires i < |tiers| == |rows| && Shaped(tiers[i..], rows[i..])
    ensures |rows[i]| == |tiers[i].items| && Shaped(tiers[i + 1..], rows[i + 1..])
    ensures Fill(tiers[i..], rows[i..], used, cap) ==
              [FillRow(tiers[i].items, rows[i], used, cap)]
              + Fill(tiers[i + 1..], rows[i + 1..], UsedBehind(tiers[i].items, rows[i], used, cap), cap)
  {
    assert tiers[i..][1..] == tiers[i + 1..] && rows[i..][1..] == rows[i + 1..];
  }

  /** Pass 2 over all tiers. */
  method FillTiers(tiers: seq<Tier>, rows: seq<seq<bool>>, remaining0: int, hasAny0: bool, ghost used: nat,
                   ghost cap: int)
    returns (included: seq<seq<bool>>)
    requires Shaped(tiers, rows) && Ledger(remaining0, hasAny0, used, cap)
    ensures included == Fill(tiers, rows, used, cap)
  {
    var remaining, hasAny := remaining0, hasAny0;
    included := [];
    ghost var u: nat := used;
    for i := 0 to |tiers|
      invariant Shaped(tiers[i..], rows[i..])
      invariant included + Fill(tiers[i..], rows[i..], u, cap) == Fill(tiers, rows, used, cap)
      invariant Ledger(remaining, hasAny, u, cap)
    {
      FillHead(tiers, rows, u, cap, i);
      var row;
      row, remaining, hasAny := FillTier(tiers[i].items, rows[i], remaining, hasAny, u, cap);
      ghost var u' := UsedBehind(tiers[i].items, rows[i], u, cap);
      Regroup(included, [row], Fill(tiers[i + 1..], rows[i + 1..], u', cap));
      included := included + [row];
      u := u';
    }
  }

  /** Writes the included texts of one tier behind `sb` and counts the dropped ones. */
  method RenderTier(items: seq<Item>, row: seq<bool>, sb: string, first: bool, dropped: nat,
                    ghost before: seq<string>)
    returns (sb': string, first': bool, dropped': nat, ghost texts: seq<string>)
    requires |row| == |items| && sb == Join(before, "\n") && (first <==> before == [])
    ensures texts == before + Chosen(items, row) && sb' == Join(texts, "\n") && (first' <==> texts == [])
    ensures dropped' + |Chosen(items, row)| == dropped + |items|
  {
    sb', first', dropped', texts := sb, first, dropped, before;
    for j := 0 to |items|
      invariant texts + Chosen(items[j..], row[j..]) == before + Chosen(items, row)
      invariant sb' == Join(texts, "\n") && (first' <==> texts == [])
      invariant dropped' + |Chosen(items, row)| == dropped + |Chosen(items[j..], row[j..])| + j
    {
      assert items[j..][1..] == items[j + 1..] && row[j..][1..] == row[j + 1..] && items[j..][0] == items[j];
      if row[j] {
        JoinSnoc(texts, items[j].text, "\n");
        Regroup(texts, [items[j].text], Chosen(items[j + 1..], row[j + 1..]));
        assert "" + items[j].text == items[j].text;
        if !first' {
          sb' := sb' + "\n";
        }
        sb' := sb' + items[j].text;
        first' := false;
        texts := texts + [items[j].text];
      } else {
        dropped' := dropped' + 1;
      }
    }
  }

  /** out has the included texts on lines of their own, and the others were dropped. */
  ghost predicate Rendered(items: seq<Item>, flat: seq<bool>, out: string, dropped: nat)
  {
    |flat| == |items| && out == Join(Chosen(items, flat), "\n") && dropped + |Chosen(items, flat)| == |items|
  }

  /** Writes all included texts in tier-then-priority order. */
  method Render(tiers: seq<Tier>, included: seq<seq<bool>>) returns (out: string, dropped: nat)
    requires Shaped(tiers, included)
    ensures Rendered(AllItems(tiers), Flat(included), out, dropped)
  {
    out, dropped := "", 0;
    var first := true;
    ghost var texts: seq<string> := [];
    UsedFlat(tiers, included);
    ghost var all := Chosen(AllItems(tiers), Flat(included));
    for i := 0 to |tiers|
      invariant Shaped(tiers[i..], included[i..]) && |Flat(included[i..])| == |AllItems(tiers[i..])|
      invariant texts + Chosen(AllItems(tiers[i..]), Flat(included[i..])) == all
      invariant out == Join(texts, "\n") && (first <==> texts == [])
      invariant dropped + |texts| + |AllItems(tiers[i..])| == |AllItems(tiers)|
    {
      ChosenHead(tiers, included, i);
      ghost var was := texts;
      out, first, dropped, texts := RenderTier(tiers[i].items, included[i], out, first, dropped, texts);
      Regroup(was, Chosen(tiers[i].items, included[i]), Chosen(AllItems(tiers[i + 1..]), Flat(included[i + 1..])));
    }
    assert texts + [] == texts;
  }

  lemma ChosenHead(tiers: seq<Tier>, rows: seq<seq<bool>>, i: nat)
    requires i < |tiers| == |rows| && Shaped(tiers[i..], rows[i..])
    ensures |rows[i]| == |tiers[i].items| && Shaped(tiers[i + 1..], rows[i + 1..])
    ensures |Flat(rows[i..])| == |AllItems(tiers[i..])| && |Flat(rows[i + 1..])| == |AllItems(tiers[i + 1..])|
    ensures |AllItems(tiers[i..])| == |tiers[i].items| + |AllItems(tiers[i + 1..])|
    ensures Chosen(AllItems(tiers[i..]), Flat(rows[i..])) ==
              Chosen(tiers[i].items, rows[i]) + Chosen(AllItems(tiers[i + 1..]), Flat(rows[i + 1..]))
  {
    assert tiers[i..][1..] == tiers[i + 1..] && rows[i..][1..] == rows[i + 1..];
    UsedFlat(tiers[i..], rows[i..]);
    UsedFlat(tiers[i + 1..], rows[i + 1..]);
    ChosenConcat(tiers[i].items, AllItems(tiers[i + 1..]), rows[i], Flat(rows[i + 1..]));
  }

  lemma {:induction false} ChosenConcat(a: seq<Item>, b: seq<Item>, r: seq<bool>, q: seq<bool>)
    requires |r| == |a| && |q| == |b|
    ensures Chosen(a + b, r + q) == Chosen(a, r) + Chosen(b, q)
  {
    if a == [] {
      assert a + b == b && r + q == q;
    } else {
      ChosenConcat(a[1..], b, r[1..], q);
      assert (a + b)[1..] == a[1..] + b && (r + q)[1..] == r[1..] + q;
      Regroup(if r[0] then [a[0].text] else [], Chosen(a[1..], r[1..]), Chosen(b, q));
    }
  }

  lemma {:induction false} PreparedHaveText(tiers: seq<Tier>)
    ensures forall it :: it in AllItems(PrepareAll(tiers)) ==> it.text != ""
    ensures |PrepareAll(tiers)| == |tiers|
  {
    if tiers != [] {
      PreparedHaveText(tiers[1..]);
      var items := WithText(tiers[0].items);
      WithTextHasText(tiers[0].items);
      StableSortLaws(items, 0);
      SameItems(StableSort(items), items);
    }
  }

  lemma SameItems(a: seq<Item>, b: seq<Item>)
    requires multiset(a) == multiset(b)
    ensures forall it :: it in a ==> it in b
  {
    forall it | it in a ensures it in b {
      assert it in multiset(a);
      assert it in multiset(b);
    }
  }

  lemma {:induction false} WithTextHasText(items: seq<Item>)
    ensures forall it :: it in WithText(items) ==> it.text != ""
  {
    if items != [] { WithTextHasText(items[1..]); }
  }

  ghost predicate PreparedTier(t: Tier, p: Tier)
  {
    p.minItems == t.minItems && exists from :: Arranged(t.items, p.items, from)
  }

  /** The tiers in their order, each with its guarantee and its arranged items. */
  ghost predicate PreparedAs(tiers: seq<Tier>, sorted: seq<Tier>)
  {
    |sorted| == |tiers| && forall i :: 0 <= i < |tiers| ==> PreparedTier(tiers[i], sorted[i])
  }

  lemma {:induction false} PreparedAll(tiers: seq<Tier>)
    ensures PreparedAs(tiers, PrepareAll(tiers))
  {
    if tiers != [] {
      PreparedAll(tiers[1..]);
      var from := PreparedIsArranged(tiers[0].items);
      assert PreparedTier(tiers[0], Prepare(tiers[0]));
      PreparedCons(tiers[0], Prepare(tiers[0]), tiers[1..], PrepareAll(tiers[1..]));
      assert tiers == [tiers[0]] + tiers[1..];
    }
  }

  lemma PreparedCons(t: Tier, p: Tier, tiers: seq<Tier>, sorted: seq<Tier>)
    requires PreparedTier(t, p) && PreparedAs(tiers, sorted)
    ensures PreparedAs([t] + tiers, [p] + sorted)
  {
  }

  /** How many of the items have a text. */
  function TextCount(items: seq<Item>): nat
  {
    if items == [] then 0 else (if items[0].text != "" then 1 else 0) + TextCount(items[1..])
  }

  lemma {:induction false} TextCountConcat(a: seq<Item>, b: seq<Item>)
    ensures TextCount(a + b) == TextCount(a) + TextCount(b)
  {
    if a == [] {
      assert a + b == b;
    } else {
      TextCountConcat(a[1..], b);
      assert (a + b)[1..] == a[1..] + b;
    }
  }

  lemma {:induction false} WithTextCount(items: seq<Item>)
    ensures |WithText(items)| == TextCount(items)
  {
    if items != [] { WithTextCount(items[1..]); }
  }

  lemma {:induction false} PreparedCount(tiers: seq<Tier>)
    ensures |AllItems(PrepareAll(tiers))| == TextCount(AllItems(tiers))
  {
    if tiers != [] {
      PreparedCount(tiers[1..]);
      WithTextCount(tiers[0].items);
      StableSortLaws(WithText(tiers[0].items), 0);
      assert |multiset(StableSort(WithText(tiers[0].items)))| == |multiset(WithText(tiers[0].items))|;
      TextCountConcat(tiers[0].items, AllItems(tiers[1..]));
      assert PrepareAll(tiers)[1..] == PrepareAll(tiers[1..]);
    }
  }

  lemma WithTextAppend(items: seq<Item>, it: Item)
    ensures WithText(items + [it]) == WithText(items) + (if it.text == "" then [] else [it])
  {
    WithTextConcat(items, [it]);
    assert [it][1..] == [];
  }

  lemma {:induction false} WithTextConcat(a: seq<Item>, b: seq<Item>)
    ensures WithText(a + b) == WithText(a) + WithText(b)
  {
    if a == [] {
      assert a + b == b;
    } else {
      WithTextConcat(a[1..], b);
      assert (a + b)[1..] == a[1..] + b;
      if a[0].text != "" { Regroup([a[0]], WithText(a[1..]), WithText(b)); }
    }
  }

  /** One tier's items with a text, sorted. */
  method PrepareTier(t: Tier) returns (p: Tier, count: nat)
    ensures p == Prepare(t) && count == TextCount(t.items)
  {
    var items: seq<Item> := [];
    for j := 0 to |t.items|
      invariant items == WithText(t.items[..j])
    {
      assert t.items[..j + 1] == t.items[..j] + [t.items[j]];
      WithTextAppend(t.items[..j], t.items[j]);
      if t.items[j].text != "" {
        items := items + [t.items[j]];
      }
    }
    assert t.items[..|t.items|] == t.items;
    WithTextCount(t.items);
    return Tier(StableSort(items), t.minItems), |items|;
  }

  lemma {:induction false} PrepareAllAppend(tiers: seq<Tier>, t: Tier)
    ensures PrepareAll(tiers + [t]) == PrepareAll(tiers) + [Prepare(t)]
  {
    if tiers == [] {
      assert tiers + [t] == [t] && [t][1..] == [];
    } else {
      PrepareAllAppend(tiers[1..], t);
      assert (tiers + [t])[1..] == tiers[1..] + [t];
    }
  }

  lemma {:induction false} AllItemsAppend(tiers: seq<Tier>, t: Tier)
    ensures AllItems(tiers + [t]) == AllItems(tiers) + t.items
  {
    if tiers == [] {
      assert tiers + [t] == [t] && [t][1..] == [];
    } else {
      AllItemsAppend(tiers[1..], t);
      assert (tiers + [t])[1..] == tiers[1..] + [t];
      Regroup(tiers[0].items, AllItems(tiers[1..]), t.items);
    }
  }

  /** Sorted copies of all tiers, and the number of items with a text. */
  method PrepareTiers(tiers: seq<Tier>) returns (sorted: seq<Tier>, totalNonEmpty: nat)
    ensures sorted == PrepareAll(tiers) && PreparedAs(tiers, sorted)
    ensures totalNonEmpty == TextCount(AllItems(tiers))
  {
    sorted, totalNonEmpty := [], 0;
    for i := 0 to |tiers|
      invariant sorted == PrepareAll(tiers[..i]) && totalNonEmpty == TextCount(AllItems(tiers[..i]))
    {
      assert tiers[..i + 1] == tiers[..i] + [tiers[i]];
      PrepareAllAppend(tiers[..i], tiers[i]);
      AllItemsAppend(tiers[..i], tiers[i]);
      TextCountConcat(AllItems(tiers[..i]), tiers[i].items);
      var p, count := PrepareTier(tiers[i]);
      sorted := sorted + [p];
      totalNonEmpty := totalNonEmpty + count;
    }
    assert tiers[..|tiers|] == tiers;
    PreparedAll(tiers);
  }

  /** What is selected, joined, costs at most the budget. */
  lemma SelectedFits(tiers: seq<Tier>, budget: nat)
    ensures var sorted := PrepareAll(tiers);
            var flat := Flat(Selection(sorted, budget));
            |flat| == |AllItems(sorted)| && ApproxTokens(Join(Chosen(AllItems(sorted), flat), "\n")) <= budget
  {
    var sorted := PrepareAll(tiers);
    PreparedHaveText(tiers);
    SelectionGreatest(sorted, budget);
    ChosenTokens(AllItems(sorted), Flat(Selection(sorted, budget)));
  }

  /** Assembles the tiers within the budget. The output costs at most the budget,
      and every non-empty item is either in it or counted as dropped. */
  method Assemble(tiers: seq<Tier>, budgetTokens: int) returns (out: string, dropped: nat, ghost sorted: seq<Tier>)
    ensures PreparedAs(tiers, sorted) && |AllItems(sorted)| == TextCount(AllItems(tiers))
    ensures budgetTokens <= 0 ==> out == "" && dropped == TextCount(AllItems(tiers))
    ensures budgetTokens > 0 ==> Rendered(AllItems(sorted), Flat(Selection(sorted, budgetTokens)), out, dropped)
    ensures budgetTokens > 0 ==> ApproxTokens(out) <= budgetTokens
  {
    var prepared, totalNonEmpty := PrepareTiers(tiers);
    sorted := prepared;
    PreparedCount(tiers);
    if budgetTokens <= 0 {
      return "", totalNonEmpty, prepared;
    }
    var included, remaining, hasAny := ReserveTiers(prepared, budgetTokens);
    included := FillTiers(prepared, included, remaining, hasAny, UsedAll(prepared, included), budgetTokens + 1);
    assert included == Selection(prepared, budgetTokens);
    out, dropped := Render(prepared, included);
    SelectedFits(tiers, budgetTokens);
  }
}
