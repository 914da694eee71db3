/** A run of the context gate (cmd/anchored/context_gate.go) that is denied as often as the
    bound allows: stale writes set the counter back, and each time the invocations that
    may be in flight besides are let in and denied anew. */
module ContextGateWorst {
  import opened ContextGate

  /** The gate still denies: nothing has satisfied it. */
  ghost predicate Open(s: State)
  {
    HoldersOk(s) && !s.sentinel && !s.counter.LegacyOk? && ParseCount(s.counter) >= 0
  }

  ghost predicate Within(tr: seq<State>, k: nat)
  {
    forall i :: 0 <= i < |tr| ==> InFlight(tr[i]) <= k
  }

  lemma WithinLonger(before: seq<State>, tr: seq<State>, k: nat)
    requires Within(before, k) && |tr| == |before| + 1 && tr[..|before|] == before && InFlight(Last(tr)) <= k
    ensures Within(tr, k)
  {
    assert forall i :: 0 <= i < |before| ==> tr[i] == before[i];
  }

  /** A run from `first` to an open gate with never more than k invocations in flight. */
  ghost predicate Legal(tr: seq<State>, k: nat, first: State)
  {
    Run(tr) && tr[0] == first && Within(tr, k) && Open(Last(tr))
  }

  /** Where the counter stands, how many hold 0, 1 and 2, how many were denied and how
      many of these without a counter write. */
  datatype Numbers = Numbers(c: int, h0: nat, h1: nat, h2: nat, denied: nat, failed: nat)

  function At(s: State): Numbers
  {
    Numbers(ParseCount(s.counter), Holders(s, 0), Holders(s, 1), Holders(s, 2), Denials(s), Unrecorded(s))
  }

  lemma Extend(before: seq<State>, k: nat, first: State, step: Step) returns (tr: seq<State>)
    requires Legal(before, k, first) && Can(Last(before), step)
    requires Open(Do(Last(before), step)) && InFlight(Do(Last(before), step)) <= k
    ensures Legal(tr, k, first) && Last(tr) == Do(Last(before), step)
  {
    tr := Continue(before, step);
    WithinLonger(before, tr, k);
    assert tr[0] == tr[..|before|][0];
  }

  // ----- One invocation reads, or writes -----

  lemma StartStaysOpen(s: State)
    requires Open(s)
    ensures var t := Do(s, Start(Work));
            Open(t) && At(t) == At(s) && InFlight(t) == InFlight(s) && t.counter == s.counter
            && |t.procs| == |s.procs| + 1 && t.procs[|s.procs|].pc.CheckSentinel? && t.procs[|s.procs|].kind.Work?
  {
    StartTallies(s, Work);
  }

  function Read(x: Numbers): Numbers
  {
    if x.c == 0 then x.(h0 := x.h0 + 1) else if x.c == 1 then x.(h1 := x.h1 + 1)
    else if x.c == 2 then x.(h2 := x.h2 + 1) else x
  }

  /** A check or read that leaves the process undecided or holding the counter's value. */
  lemma AdvanceStaysOpen(s: State, p: nat)
    requires Open(s) && Can(s, Advance(p)) && s.procs[p].kind.Work? && ParseCount(s.counter) < MAX_DENIES
    requires !s.procs[p].pc.StatRich?
    ensures var t, pc := Do(s, Advance(p)), NextPc(s, Advance(p));
            && Open(t) && t.counter == s.counter && |t.procs| == |s.procs| && t.procs[p] == s.procs[p].(pc := pc)
            && At(t) == (if s.procs[p].pc.ReadCounter? then Read(At(s)) else At(s))
            && InFlight(t) == InFlight(s) + (if s.procs[p].pc.ReadCounter? then 1 else 0)
  {
    StepKeepsHolders(s, Advance(p));
    DoTallies(s, Advance(p));
    FlightSum(s);
    FlightSum(Do(s, Advance(p)));
    assert forall v :: Holders(Do(s, Advance(p)), v) == Holders(s, v) + Holds(NextPc(s, Advance(p)), v);
  }

  /** One more invocation comes to hold the counter's value. */
  lemma HoldOne(before: seq<State>, k: nat, first: State) returns (tr: seq<State>)
    requires Legal(before, k, first) && InFlight(Last(before)) < k && ParseCount(Last(before).counter) < MAX_DENIES
    ensures Legal(tr, k, first) && At(Last(tr)) == Read(At(Last(before)))
    ensures var p := |Last(before).procs|;
            && Last(tr).counter == Last(before).counter && p < |Last(tr).procs|
            && Last(tr).procs[p].pc == Holding(ParseCount(Last(before).counter))
  {
    var s := Last(before);
    var p := |s.procs|;
    StartStaysOpen(s);
    tr := Extend(before, k, first, Start(Work));
    AdvanceStaysOpen(Last(tr), p);
    tr := Extend(tr, k, first, Advance(p));
    AdvanceStaysOpen(Last(tr), p);
    tr := Extend(tr, k, first, Advance(p));
    AdvanceStaysOpen(Last(tr), p);
    tr := Extend(tr, k, first, Advance(p));
  }

  function Write(x: Numbers, v: int): Numbers
    requires (v == 0 && x.h0 > 0) || (v == 1 && x.h1 > 0) || (v == 2 && x.h2 > 0)
  {
    var y := if v == 0 then x.(h0 := x.h0 - 1) else if v == 1 then x.(h1 := x.h1 - 1) else x.(h2 := x.h2 - 1);
    y.(c := v + 1, denied := x.denied + 1)
  }

  lemma {:induction false} FindHolder(procs: seq<Proc>, v: int) returns (p: nat)
    requires Tally(procs, HoldsValue(v)) > 0
    ensures p < |procs| && procs[p].pc == Holding(v)
  {
    var last := |procs| - 1;
    if procs[last].pc == Holding(v) { p := last; } else { p := FindHolder(procs[..last], v); }
  }

  lemma WriteTallies(s: State, p: nat, v: int)
    requires HoldersOk(s) && ParseCount(s.counter) >= 0
    requires 0 <= v < MAX_DENIES && p < |s.procs| && s.procs[p].pc == Holding(v)
    ensures var t := Do(s, Attempt(p, true));
            && HoldersOk(t) && InFlight(t) == InFlight(s) - 1 && Denials(t) == Denials(s) + 1
            && Holders(t, 0) == Holders(s, 0) - Holds(Holding(v), 0)
            && Holders(t, 1) == Holders(s, 1) - Holds(Holding(v), 1)
            && Holders(t, 2) == Holders(s, 2) - Holds(Holding(v), 2)
            && t.counter == Count(v + 1) && t.sentinel == s.sentinel && Unrecorded(t) == Unrecorded(s)
  {
    StepKeepsHolders(s, Attempt(p, true));
    DoTallies(s, Attempt(p, true));
    FlightSum(s);
    FlightSum(Do(s, Attempt(p, true)));
  }

  /** One of those that hold v writes v + 1 and is denied. */
  lemma WriteOne(before: seq<State>, k: nat, first: State, v: int) returns (tr: seq<State>)
    requires Legal(before, k, first) && 0 <= v < MAX_DENIES && Holders(Last(before), v) > 0
    ensures Legal(tr, k, first) && At(Last(tr)) == Write(At(Last(before)), v)
  {
    var p := FindHolder(Last(before).procs, v);
    WriteTallies(Last(before), p, v);
    tr := Extend(before, k, first, Attempt(p, true));
  }

  // ----- Filling up and running empty -----

  function Reads(x: Numbers, i: nat): Numbers
    decreases i
  {
    if i == 0 then x else Reads(Read(x), i - 1)
  }

  lemma {:induction false} Fill(before: seq<State>, k: nat, first: State, i: nat) returns (tr: seq<State>)
    requires Legal(before, k, first) && InFlight(Last(before)) + i <= k && ParseCount(Last(before).counter) < MAX_DENIES
    ensures Legal(tr, k, first) && At(Last(tr)) == Reads(At(Last(before)), i)
    decreases i
  {
    tr := before;
    if i > 0 {
      tr := HoldOne(before, k, first);
      FlightSum(Last(before));
      FlightSum(Last(tr));
      tr := Fill(tr, k, first, i - 1);
    }
  }

  lemma {:induction false} ReadsAdd(x: Numbers, i: nat)
    ensures x.c == 0 ==> Reads(x, i) == x.(h0 := x.h0 + i)
    ensures x.c == 1 ==> Reads(x, i) == x.(h1 := x.h1 + i)
    ensures x.c == 2 ==> Reads(x, i) == x.(h2 := x.h2 + i)
    decreases i
  {
    if i > 0 { ReadsAdd(Read(x), i - 1); }
  }

  /** All that hold 2 write, whatever the counter says. */
  lemma {:induction false} EmptyTwo(before: seq<State>, k: nat, first: State) returns (tr: seq<State>)
    requires Legal(before, k, first)
    ensures Legal(tr, k, first)
    ensures var x, y := At(Last(before)), At(Last(tr));
            y.h0 == x.h0 && y.h1 == x.h1 && y.h2 == 0 && y.failed == x.failed && y.denied == x.denied + x.h2
    decreases Holders(Last(before), 2)
  {
    tr := before;
    if Holders(Last(before), 2) > 0 {
      tr := WriteOne(before, k, first, 2);
      tr := EmptyTwo(tr, k, first);
    }
  }

  /** With the counter at 2, all the free places are filled and denied. */
  lemma RoundTwo(before: seq<State>, k: nat, first: State) returns (tr: seq<State>)
    requires Legal(before, k, first) && At(Last(before)).c == 2 && At(Last(before)).h2 == 0
    ensures Legal(tr, k, first)
    ensures var x, y := At(Last(before)), At(Last(tr));
            && y.h0 == x.h0 && y.h1 == x.h1 && y.h2 == 0 && y.failed == x.failed
            && y.denied == x.denied + (k - x.h0 - x.h1)
  {
    var x := At(Last(before));
    FlightSum(Last(before));
    tr := Fill(before, k, first, k - x.h0 - x.h1);
    ReadsAdd(x, k - x.h0 - x.h1);
    tr := EmptyTwo(tr, k, first);
  }

  /** All that hold 1 write, and after each write there is a round with the counter at 2. */
  lemma {:induction false} EmptyOne(before: seq<State>, k: nat, first: State) returns (tr: seq<State>)
    requires Legal(before, k, first) && At(Last(before)).h2 == 0
    ensures Legal(tr, k, first) && InFlight(Last(before)) <= k
    ensures var x, y := At(Last(before)), At(Last(tr));
            && InFlight(Last(before)) == x.h0 + x.h1
            && y.h0 == x.h0 && y.h1 == 0 && y.h2 == 0 && y.failed == x.failed
            && y.denied == x.denied + Pairs(k - x.h0) - Pairs(k - x.h0 - x.h1)
    decreases Holders(Last(before), 1)
  {
    tr := before;
    FlightSum(Last(before));
    if Holders(Last(before), 1) > 0 {
      tr := WriteOne(before, k, first, 1);
      tr := RoundTwo(tr, k, first);
      tr := EmptyOne(tr, k, first);
    }
  }

  lemma RoundOne(before: seq<State>, k: nat, first: State) returns (tr: seq<State>)
    requires Legal(before, k, first)
    requires var x := At(Last(before)); x.c == 1 && x.h1 == 0 && x.h2 == 0
    ensures Legal(tr, k, first)
    ensures var x, y := At(Last(before)), At(Last(tr));
            && x.h0 <= k && y.h0 == x.h0 && y.h1 == 0 && y.h2 == 0 && y.failed == x.failed
            && y.denied == x.denied + Pairs(k - x.h0) - 1
  {
    var x := At(Last(before));
    FlightSum(Last(before));
    tr := Fill(before, k, first, k - x.h0);
    ReadsAdd(x, k - x.h0);
    tr := EmptyOne(tr, k, first);
  }

  lemma {:induction false} EmptyZero(before: seq<State>, k: nat, first: State) returns (tr: seq<State>)
    requires Legal(before, k, first) && At(Last(before)).h1 == 0 && At(Last(before)).h2 == 0
    ensures Legal(tr, k, first)
    ensures var x, y := At(Last(before)), At(Last(tr));
            x.h0 <= k && y.failed == x.failed && y.denied == x.denied + Triples(k) - Triples(k - x.h0)
    decreases Holders(Last(before), 0)
  {
    tr := before;
    FlightSum(Last(before));
    if Holders(Last(before), 0) > 0 {
      tr := WriteOne(before, k, first, 0);
      tr := RoundOne(tr, k, first);
      tr := EmptyZero(tr, k, first);
    }
  }

  // ----- Failed counter writes -----

  lemma FailureTallies(s: State, p: nat)
    requires Open(s) && p < |s.procs| && s.procs[p].pc == Holding(0) && Holders(s, 0) > 0
    ensures var t := Do(s, Attempt(p, false));
            && Open(t) && t.counter == s.counter && InFlight(t) == InFlight(s) - 1
            && (var x := At(s); At(t) == Numbers(x.c, x.h0 - 1, x.h1, x.h2, x.denied + 1, x.failed + 1))
  {
    StepKeepsHolders(s, Attempt(p, false));
    DoTallies(s, Attempt(p, false));
    var t := Do(s, Attempt(p, false));
    FlightSum(s);
    FlightSum(t);
    assert Holders(t, 0) == Holders(s, 0) - 1 && Holders(t, 1) == Holders(s, 1) && Holders(t, 2) == Holders(s, 2);
  }

  /** n invocations, one after the other, read 0 and are denied without a counter write. */
  lemma {:induction false} FailedWrites(before: seq<State>, k: nat, first: State, n: nat) returns (tr: seq<State>)
    requires Legal(before, k, first) && ParseCount(Last(before).counter) == 0
    requires InFlight(Last(before)) == 0 && (k > 0 || n == 0)
    ensures Legal(tr, k, first) && Last(tr).counter == Last(before).counter && InFlight(Last(tr)) == 0
    ensures var x := At(Last(before)); At(Last(tr)) == x.(denied := x.denied + n, failed := x.failed + n)
    decreases n
  {
    tr := before;
    if n > 0 {
      var p := |Last(before).procs|;
      tr := HoldOne(before, k, first);
      FlightSum(Last(before));
      FlightSum(Last(tr));
      FailureTallies(Last(tr), p);
      tr := Extend(tr, k, first, Attempt(p, false));
      tr := FailedWrites(tr, k, first, n - 1);
    }
  }

  /** The bound of DenialsBounded needs its last term: when counter writes fail, invocations
      that come one at a time can be denied any number of times. */
  lemma FailedWritesDenyForever(s: State, n: nat) returns (tr: seq<State>)
    requires Initially(s) && s.counter.Absent? && !s.sentinel
    ensures Run(tr) && tr[0] == s && (forall i :: 0 <= i < |tr| ==> InFlight(tr[i]) <= 1)
    ensures Denials(Last(tr)) == n && Last(tr).counter.Absent? && !Last(tr).sentinel
    ensures InFlight(Last(tr)) == 0
  {
    assert Within([s], 1);
    tr := FailedWrites([s], 1, s, n);
  }

  /** For every k, and every number of failed writes, the bound of DenialsBounded is attained. */
  lemma BoundAttained(first: State, k: nat, failed: nat) returns (tr: seq<State>)
    requires Initially(first) && first.counter.Absent? && !first.sentinel && (k > 0 || failed == 0)
    ensures Run(tr) && tr[0] == first && (forall i :: 0 <= i < |tr| ==> InFlight(tr[i]) <= k)
    ensures Unrecorded(Last(tr)) == failed
    ensures Denials(Last(tr)) == (k + 1) * (k + 2) * (k + 3) / 6 - 1 + failed
  {
    assert Within([first], k);
    tr := FailedWrites([first], k, first, failed);
    var x := At(Last(tr));
    tr := Fill(tr, k, first, k);
    ReadsAdd(x, k);
    tr := EmptyZero(tr, k, first);
    TriplesIs(k);
  }
}
