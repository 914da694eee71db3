/** The context gate (cmd/anchored/context_gate.go): hook processes of one session
    share a deny counter, a satisfaction sentinel and a rich-block marker. Every
    file access is one atomic step; the counter's read and its write are two. */
module ContextGate {

  const MAX_DENIES := 3

  // ----- Tool names -----

  const SATISFYING_TOOLS := {"anchored_context", "anchored_search", "anchored_ctx_search", "anchored_kg_query"}

  predicate IsAnchoredTool(leaf: string)
  {
    "anchored_" <= leaf
  }

  // ----- Shared files, processes, steps -----

  /** What the counter file holds. Older builds wrote "ok" into it. */
  datatype Content = Absent | Count(n: int) | LegacyOk | Unparseable

  function ParseCount(c: Content): int
  {
    if c.Count? then c.n else 0
  }

  datatype Kind =
    | Work            // PreToolUse of a tool that is neither exempt nor satisfying
    | ToolCall        // PreToolUse or PostToolUse of a satisfying tool
    | Recall          // UserPromptSubmit whose preview reached the model
    | SessionStart    // SessionStart that emitted a non-empty rich block

  datatype Cause = ByTool | ByRelent | ByRecall

  /** Where a process stands. Holding(n) has read n from the counter and has yet to write n + 1. */
  datatype Pc =
    | CheckSentinel | CheckLegacy | ReadCounter | Holding(n: int)
    | StatRich | Crediting(cause: Cause) | WritingRich | Passed | Denied

  /** late: the sentinel already existed when the process started. */
  datatype Proc = Proc(kind: Kind, pc: Pc, late: bool)

  datatype Event = DenyRecorded(n: int) | DenyUnrecorded | Credited(cause: Cause) | RichWritten

  /** log lists what happened; the processes do not see it. */
  datatype State = State(counter: Content, sentinel: bool, rich: bool, procs: seq<Proc>, log: seq<Event>)

  /** p is the process that moves; ok says whether its directory or file write succeeds. */
  datatype Step = Start(kind: Kind) | Advance(p: nat) | Attempt(p: nat, ok: bool) | NoDirectory(p: nat)

  function FirstPc(kind: Kind): Pc
  {
    match kind
    case Work => CheckSentinel
    case ToolCall => Crediting(ByTool)
    case Recall => CheckSentinel
    case SessionStart => WritingRich
  }

  function Move(s: State, p: nat, pc: Pc): State
    requires p < |s.procs|
  {
    s.(procs := s.procs[p := s.procs[p].(pc := pc)])
  }

  predicate Can(s: State, step: Step)
  {
    match step
    case Start(_) => true
    case Advance(p) =>
      p < |s.procs| && var pc := s.procs[p].pc; pc.CheckSentinel? || pc.CheckLegacy? || pc.ReadCounter? || pc.StatRich?
    case Attempt(p, _) => p < |s.procs| && var pc := s.procs[p].pc; pc.Holding? || pc.Crediting? || pc.WritingRich?
    case NoDirectory(p) => p < |s.procs| && s.procs[p].pc.Holding?
  }

  /** Where the moving process goes: a file read and the decision that follows it,
      or past a marker write, whose failure is swallowed. */
  function NextPc(s: State, step: Step): Pc
    requires Can(s, step) && !step.Start?
  {
    var proc := s.procs[step.p];
    match proc.pc
    case CheckSentinel => if s.sentinel then Passed else CheckLegacy
    case CheckLegacy =>
      if s.counter.LegacyOk? then Passed else if proc.kind.Recall? then StatRich else ReadCounter
    case ReadCounter =>
      var n := ParseCount(s.counter);
      if n >= MAX_DENIES then Crediting(ByRelent) else Holding(n)
    case StatRich => if s.rich then Crediting(ByRecall) else Passed
    case Holding(_) => if step.NoDirectory? then Passed else Denied
    case _ => Passed
  }

  /** The event of a step, if it has one. */
  function Emits(s: State, step: Step): seq<Event>
    requires Can(s, step)
  {
    if !step.Attempt? then []
    else
      match s.procs[step.p].pc
      case Holding(n) => [if step.ok then DenyRecorded(n + 1) else DenyUnrecorded]
      case Crediting(cause) => if step.ok then [Credited(cause)] else []
      case _ => if step.ok then [RichWritten] else []
  }

  /** The files change only with an event: a rename puts the new content in place. */
  function Record(s: State, es: seq<Event>): State
  {
    if es == [] then s
    else if es[0].DenyRecorded? then s.(counter := Count(es[0].n), log := s.log + es)
    else s.(sentinel := s.sentinel || es[0].Credited?, rich := s.rich || es[0].RichWritten?, log := s.log + es)
  }

  function Do(s: State, step: Step): State
    requires Can(s, step)
  {
    if step.Start? then s.(procs := s.procs + [Proc(step.kind, FirstPc(step.kind), s.sentinel)])
    else Record(Move(s, step.p, NextPc(s, step)), Emits(s, step))
  }

  ghost predicate Next(s: State, t: State)
  {
    exists step :: Can(s, step) && t == Do(s, step)
  }

  /** A run: some processes' steps, interleaved in any way. */
  ghost predicate Run(tr: seq<State>)
  {
    |tr| > 0 && forall i :: 0 <= i < |tr| - 1 ==> Next(tr[i], tr[i + 1])
  }

  /** No process has started and nothing has been recorded. */
  predicate Initially(s: State)
  {
    s.procs == [] && s.log == []
  }

  // ----- Counting -----

  function Tally(procs: seq<Proc>, f: Proc -> bool): nat
  {
    if procs == [] then 0
    else Tally(procs[..|procs| - 1], f) + (if f(procs[|procs| - 1]) then 1 else 0)
  }

  lemma {:induction false} TallyUpdate(procs: seq<Proc>, f: Proc -> bool, p: nat, x: Proc)
    requires p < |procs|
    ensures Tally(procs[p := x], f) + (if f(procs[p]) then 1 else 0) == Tally(procs, f) + (if f(x) then 1 else 0)
  {
    var last := |procs| - 1;
    if p < last {
      TallyUpdate(procs[..last], f, p, x);
      assert procs[p := x][..last] == procs[..last][p := x];
    } else {
      assert procs[p := x][..last] == procs[..last];
    }
  }

  lemma TallyAppend(procs: seq<Proc>, f: Proc -> bool, x: Proc)
    ensures Tally(procs + [x], f) == Tally(procs, f) + (if f(x) then 1 else 0)
  {
    assert (procs + [x])[..|procs + [x]| - 1] == procs;
  }

  const IsHolding := (p: Proc) => p.pc.Holding?
  const IsDenied := (p: Proc) => p.pc.Denied?
  function HoldsValue(v: int): Proc -> bool { (p: Proc) => p.pc.Holding? && p.pc.n == v }

  /** Invocations between their counter read and their counter write. */
  function InFlight(s: State): nat { Tally(s.procs, IsHolding) }

  /** Those of them that have read v. */
  function Holders(s: State, v: int): nat { Tally(s.procs, HoldsValue(v)) }

  /** Invocations denied so far. */
  function Denials(s: State): nat { Tally(s.procs, IsDenied) }

  /** Denials whose counter write failed. */
  function Unrecorded(s: State): nat { Times(s.log, DenyUnrecorded) }

  function Times(log: seq<Event>, e: Event): nat
  {
    if log == [] then 0 else Times(log[..|log| - 1], e) + (if log[|log| - 1] == e then 1 else 0)
  }

  lemma TimesAppend(log: seq<Event>, x: Event, e: Event)
    ensures Times(log + [x], e) == Times(log, e) + (if x == e then 1 else 0)
  {
    assert (log + [x])[..|log + [x]| - 1] == log;
  }

  // ----- How often the gate can deny -----

  /** The binomial coefficient of n + 2 over 2. */
  function Pairs(n: nat): nat
  {
    if n == 0 then 1 else Pairs(n - 1) + n + 1
  }

  /** The binomial coefficient of n + 3 over 3. */
  function Triples(n: nat): nat
  {
    if n == 0 then 1 else Triples(n - 1) + Pairs(n)
  }

  lemma {:induction false} PairsIs(n: nat)
    ensures 2 * Pairs(n) == (n + 1) * (n + 2)
  {
    if n > 0 { PairsIs(n - 1); }
  }

  lemma {:induction false} TriplesIs(n: nat)
    ensures 6 * Triples(n) == (n + 1) * (n + 2) * (n + 3)
  {
    if n > 0 {
      TriplesIs(n - 1);
      PairsIs(n);
      var p := (n + 1) * (n + 2);
      assert n * (n + 1) * (n + 2) == n * p && p * (n + 3) == n * p + 3 * p;
    }
  }

  lemma {:induction false} PairsMonotone(m: nat, n: nat)
    requires m <= n
    ensures m + 1 <= Pairs(m) <= Pairs(n) <= Triples(n)
    decreases n
  {
    if m < n {
      PairsMonotone(m, n - 1);
    } else if n > 0 {
      PairsMonotone(n - 1, n - 1);
    }
  }

  /** The denials still to come in the worst case, when the counter stands at c and hv
      invocations hold the value v: of the k at once, the holders of 0 are best written
      last, each with the holders of 1 filled up anew behind it, and so on. */
  function Potential(k: nat, c: int, h0: nat, h1: nat, h2: nat): int
    requires h0 + h1 + h2 <= k
  {
    var n, m := k - h0, k - h0 - h1;
    if c <= 0 then Triples(k) - 1
    else if c == 1 then Triples(k) - Triples(n) + Pairs(n) - 1
    else Triples(k) - Triples(n) + Pairs(n) - Pairs(m) + if c == 2 then m else h2
  }

  lemma PotentialRange(k: nat, c: int, h0: nat, h1: nat, h2: nat)
    requires h0 + h1 + h2 <= k
    ensures 0 <= Potential(k, c, h0, h1, h2) <= Triples(k) - 1
  {
    var n, m := k - h0, k - h0 - h1;
    PairsMonotone(m, n);
    TriplesMonotone(n, k);
  }

  /** Taking away a holder does not add to the potential, and if it was by a write that
      moved the counter, takes one from it at least. */
  lemma LessOneZero(k: nat, c: int, h0: nat, h1: nat, h2: nat)
    requires 0 < h0 && h0 + h1 + h2 <= k
    ensures Potential(k, c, h0 - 1, h1, h2) <= Potential(k, c, h0, h1, h2)
    ensures Potential(k, 1, h0 - 1, h1, h2) < Potential(k, c, h0, h1, h2)
  {
    var n, m := k - h0, k - h0 - h1;
    PairsMonotone(m, n);
    assert Triples(n + 1) == Triples(n) + Pairs(n + 1) && Pairs(n + 1) == Pairs(n) + n + 2;
    assert Pairs(m + 1) == Pairs(m) + m + 2;
  }

  lemma LessOneOne(k: nat, c: int, h0: nat, h1: nat, h2: nat)
    requires 0 < h1 && h0 + h1 + h2 <= k
    ensures Potential(k, c, h0, h1 - 1, h2) <= Potential(k, c, h0, h1, h2)
    ensures Potential(k, 2, h0, h1 - 1, h2) < Potential(k, c, h0, h1, h2)
  {
    var n, m := k - h0, k - h0 - h1;
    PairsMonotone(m, n);
    assert Pairs(m + 1) == Pairs(m) + m + 2;
  }

  lemma LessOneTwo(k: nat, c: int, h0: nat, h1: nat, h2: nat)
    requires 0 < h2 && h0 + h1 + h2 <= k
    ensures Potential(k, c, h0, h1, h2 - 1) <= Potential(k, c, h0, h1, h2)
    ensures Potential(k, 3, h0, h1, h2 - 1) < Potential(k, c, h0, h1, h2)
  {
    var n, m := k - h0, k - h0 - h1;
    PairsMonotone(m, n);
  }

  lemma {:induction false} TriplesMonotone(n: nat, k: nat)
    requires n <= k
    ensures Triples(n) - Pairs(n) <= Triples(k) - Pairs(k) && Triples(n) <= Triples(k)
    decreases k
  {
    if n < k {
      TriplesMonotone(n, k - 1);
      PairsMonotone(k - 1, k - 1);
    }
  }

  // ----- The invariant -----

  ghost predicate HoldersOk(s: State)
  {
    forall p :: p in s.procs && p.pc.Holding? ==> 0 <= p.pc.n < MAX_DENIES
  }

  lemma {:induction false} TallySum(procs: seq<Proc>)
    requires forall p :: p in procs && p.pc.Holding? ==> 0 <= p.pc.n < MAX_DENIES
    ensures Tally(procs, IsHolding) ==
              Tally(procs, HoldsValue(0)) + Tally(procs, HoldsValue(1)) + Tally(procs, HoldsValue(2))
  {
    if procs != [] {
      assert procs[|procs| - 1] in procs;
      TallySum(procs[..|procs| - 1]);
    }
  }

  lemma FlightSum(s: State)
    requires HoldersOk(s)
    ensures InFlight(s) == Holders(s, 0) + Holders(s, 1) + Holders(s, 2)
  {
    TallySum(s.procs);
  }

  /** Denials so far and those to come make no more than there are at the start. */
  ghost predicate Bounded(s: State, k: nat)
  {
    && HoldersOk(s) && ParseCount(s.counter) >= 0
    && Holders(s, 0) + Holders(s, 1) + Holders(s, 2) == InFlight(s) <= k
    && Denials(s) + Potential(k, ParseCount(s.counter), Holders(s, 0), Holders(s, 1), Holders(s, 2))
         <= Triples(k) - 1 + Unrecorded(s)
  }

  lemma MoveTally(s: State, p: nat, pc: Pc, f: Proc -> bool)
    requires p < |s.procs|
    ensures var x := s.procs[p].(pc := pc);
            Tally(Move(s, p, pc).procs, f) + (if f(s.procs[p]) then 1 else 0) ==
              Tally(s.procs, f) + (if f(x) then 1 else 0)
  {
    TallyUpdate(s.procs, f, p, s.procs[p].(pc := pc));
  }

  function Holds(pc: Pc, v: int): nat { if pc.Holding? && pc.n == v then 1 else 0 }

  /** What a move does to the numbers that the potential is made of. */
  lemma MoveTallies(s: State, p: nat, pc: Pc)
    requires p < |s.procs|
    ensures var t, was := Move(s, p, pc), s.procs[p].pc;
            && (forall v {:trigger Holders(t, v)} :: Holders(t, v) + Holds(was, v) == Holders(s, v) + Holds(pc, v))
            && InFlight(t) + (if was.Holding? then 1 else 0) == InFlight(s) + (if pc.Holding? then 1 else 0)
            && Denials(t) + (if was.Denied? then 1 else 0) == Denials(s) + (if pc.Denied? then 1 else 0)
  {
    forall v { MoveTally(s, p, pc, HoldsValue(v)); }
    MoveTally(s, p, pc, IsHolding);
    MoveTally(s, p, pc, IsDenied);
  }

  lemma RecordTallies(s: State, es: seq<Event>)
    requires |es| <= 1
    ensures var t := Record(s, es);
            && t.procs == s.procs
            && Unrecorded(t) == Unrecorded(s) + (if es == [DenyUnrecorded] then 1 else 0)
            && t.counter == (if |es| == 1 && es[0].DenyRecorded? then Count(es[0].n) else s.counter)
  {
    if es != [] {
      assert es == [es[0]];
      TimesAppend(s.log, es[0], DenyUnrecorded);
    }
  }

  lemma StartTallies(s: State, kind: Kind)
    ensures var t := Do(s, Start(kind));
            && (forall v {:trigger Holders(t, v)} :: Holders(t, v) == Holders(s, v))
            && InFlight(t) == InFlight(s) && Denials(t) == Denials(s)
  {
    var x := Proc(kind, FirstPc(kind), s.sentinel);
    forall v { TallyAppend(s.procs, HoldsValue(v), x); }
    TallyAppend(s.procs, IsHolding, x);
    TallyAppend(s.procs, IsDenied, x);
  }

  /** A process holds a value only from its read to its next step. */
  lemma StepShape(s: State, step: Step)
    requires Can(s, step) && !step.Start?
    ensures var was, pc, es := s.procs[step.p].pc, NextPc(s, step), Emits(s, step);
            && !was.Denied? && (was.Holding? ==> !pc.Holding?) && |es| <= 1
            && (pc.Holding? ==> pc.n == ParseCount(s.counter) < MAX_DENIES)
            && (es != [] && es[0].DenyRecorded? ==> was.Holding? && pc.Denied? && es[0].n == was.n + 1)
            && (es == [DenyUnrecorded] <==> pc.Denied? && (es == [] || !es[0].DenyRecorded?))
  {
  }

  predicate Recording(s: State, step: Step)
    requires Can(s, step)
  {
    Emits(s, step) != [] && Emits(s, step)[0].DenyRecorded?
  }

  /** What a step of a process does to the numbers. */
  lemma DoTallies(s: State, step: Step)
    requires Can(s, step) && !step.Start?
    ensures var t, was, pc := Do(s, step), s.procs[step.p].pc, NextPc(s, step);
            && (forall v {:trigger Holders(t, v)} :: Holders(t, v) + Holds(was, v) == Holders(s, v) + Holds(pc, v))
            && Denials(t) == Denials(s) + (if pc.Denied? then 1 else 0)
            && Unrecorded(t) == Unrecorded(s) + (if pc.Denied? && !Recording(s, step) then 1 else 0)
            && ParseCount(t.counter) == (if Recording(s, step) then was.n + 1 else ParseCount(s.counter))
            && t.procs == s.procs[step.p := s.procs[step.p].(pc := pc)]
  {
    var moved, es := Move(s, step.p, NextPc(s, step)), Emits(s, step);
    StepShape(s, step);
    MoveTallies(s, step.p, NextPc(s, step));
    RecordTallies(moved, es);
    forall v ensures Holders(Do(s, step), v) == Holders(moved, v) {
    }
  }

  lemma StepKeepsHolders(s: State, step: Step)
    requires Can(s, step) && !step.Start? && HoldersOk(s) && ParseCount(s.counter) >= 0
    ensures HoldersOk(Do(s, step)) && ParseCount(Do(s, step).counter) >= 0
  {
    StepShape(s, step);
    DoTallies(s, step);
    assert s.procs[step.p] in s.procs;
  }

  /** In the numbers alone: the moving process was at `was` and goes to `pc`. */
  lemma StepWithinPotential(k: nat, c: int, h0: nat, h1: nat, h2: nat, g0: nat, g1: nat, g2: nat,
                            was: Pc, pc: Pc, recorded: bool)
    requires h0 + h1 + h2 <= k && g0 + g1 + g2 <= k && c >= 0
    requires g0 + Holds(was, 0) == h0 + Holds(pc, 0)
    requires g1 + Holds(was, 1) == h1 + Holds(pc, 1)
    requires g2 + Holds(was, 2) == h2 + Holds(pc, 2)
    requires was.Holding? ==> 0 <= was.n < MAX_DENIES && !pc.Holding?
    requires pc.Holding? ==> 0 <= pc.n < MAX_DENIES && c == pc.n
    requires recorded ==> was.Holding?
    ensures Potential(k, if recorded then was.n + 1 else c, g0, g1, g2) + (if recorded then 1 else 0)
              <= Potential(k, c, h0, h1, h2)
  {
    if was.Holding? {
      if was.n == 0 {
        LessOneZero(k, c, h0, h1, h2);
      } else if was.n == 1 {
        LessOneOne(k, c, h0, h1, h2);
      } else {
        LessOneTwo(k, c, h0, h1, h2);
      }
    }
  }

  lemma StepKeepsBounded(s: State, k: nat, step: Step)
    requires Bounded(s, k) && Can(s, step) && !step.Start? && InFlight(Do(s, step)) <= k
    ensures Bounded(Do(s, step), k)
  {
    var t, was, pc := Do(s, step), s.procs[step.p].pc, NextPc(s, step);
    StepKeepsHolders(s, step);
    FlightSum(t);
    StepShape(s, step);
    DoTallies(s, step);
    assert s.procs[step.p] in s.procs;
    StepWithinPotential(k, ParseCount(s.counter), Holders(s, 0), Holders(s, 1), Holders(s, 2),
                        Holders(t, 0), Holders(t, 1), Holders(t, 2), was, pc, Recording(s, step));
  }

  lemma NextKeepsBounded(s: State, t: State, k: nat)
    requires Bounded(s, k) && InFlight(t) <= k && Next(s, t)
    ensures Bounded(t, k)
  {
    var step :| Can(s, step) && t == Do(s, step);
    if step.Start? {
      StartTallies(s, step.kind);
    } else {
      StepKeepsBounded(s, k, step);
    }
  }

  lemma InitiallyBounded(s: State, k: nat)
    requires Initially(s) && ParseCount(s.counter) >= 0
    ensures Bounded(s, k)
  {
    PotentialRange(k, ParseCount(s.counter), 0, 0, 0);
  }

  lemma {:induction false} RunKeepsBounded(tr: seq<State>, k: nat, i: nat)
    requires Run(tr) && Initially(tr[0]) && ParseCount(tr[0].counter) >= 0 && i < |tr|
    requires forall j :: 0 <= j <= i ==> InFlight(tr[j]) <= k
    ensures Bounded(tr[i], k)
    decreases i
  {
    if i > 0 {
      RunKeepsBounded(tr, k, i - 1);
      assert Next(tr[i - 1], tr[i - 1 + 1]);
      NextKeepsBounded(tr[i - 1], tr[i], k);
    } else {
      InitiallyBounded(tr[0], k);
    }
  }

  /** Whatever the interleaving, if never more than k invocations are between their
      counter read and their counter write, at most (k + 1)(k + 2)(k + 3)/6 - 1 are denied,
      plus one for every counter write that failed. Stale writers may move the counter
      backwards meanwhile. */
  lemma DenialsBounded(tr: seq<State>, k: nat)
    requires Run(tr) && Initially(tr[0]) && ParseCount(tr[0].counter) >= 0
    requires forall i :: 0 <= i < |tr| ==> InFlight(tr[i]) <= k
    ensures Denials(tr[|tr| - 1]) <= (k + 1) * (k + 2) * (k + 3) / 6 - 1 + Unrecorded(tr[|tr| - 1])
  {
    var s := tr[|tr| - 1];
    RunKeepsBounded(tr, k, |tr| - 1);
    PotentialRange(k, ParseCount(s.counter), Holders(s, 0), Holders(s, 1), Holders(s, 2));
    TriplesIs(k);
  }

  /** One invocation at a time is denied at most MAX_DENIES times. */
  lemma SequentialDenials(tr: seq<State>)
    requires Run(tr) && Initially(tr[0]) && ParseCount(tr[0].counter) >= 0
    requires forall i :: 0 <= i < |tr| ==> InFlight(tr[i]) <= 1
    ensures Denials(tr[|tr| - 1]) <= MAX_DENIES + Unrecorded(tr[|tr| - 1])
  {
    DenialsBounded(tr, 1);
  }

  // ----- The sentinel is permanent, and has a cause -----

  /** A process that started after the sentinel existed never gets past the first check. */
  ghost predicate LateOnesPass(s: State)
  {
    forall p :: p in s.procs && p.late ==>
      s.sentinel && (p.pc.CheckSentinel? || p.pc.Passed? || p.pc == Crediting(ByTool) || p.pc.WritingRich?)
  }

  lemma NextKeepsLate(s: State, t: State)
    requires LateOnesPass(s) && Next(s, t)
    ensures LateOnesPass(t) && (s.sentinel ==> t.sentinel)
  {
    var step :| Can(s, step) && t == Do(s, step);
    if step.Start? {
      assert t.procs == s.procs + [Proc(step.kind, FirstPc(step.kind), s.sentinel)] && t.sentinel == s.sentinel;
    } else {
      MoverKeepsLate(s, step);
      assert forall p :: p in t.procs ==> p == t.procs[step.p] || p in s.procs;
    }
  }

  /** A late process that moves passes, and no sentinel goes away. */
  lemma MoverKeepsLate(s: State, step: Step)
    requires LateOnesPass(s) && Can(s, step) && !step.Start?
    ensures var t := Do(s, step);
            && (s.sentinel ==> t.sentinel) && t.procs == s.procs[step.p := s.procs[step.p].(pc := NextPc(s, step))]
            && (s.procs[step.p].late ==> s.sentinel && NextPc(s, step).Passed?)
  {
    assert s.procs[step.p] in s.procs;
  }

  lemma {:induction false} RunKeepsLate(tr: seq<State>, i: nat, j: nat)
    requires Run(tr) && Initially(tr[0]) && i <= j < |tr|
    ensures LateOnesPass(tr[j]) && (tr[i].sentinel ==> tr[j].sentinel)
    decreases j
  {
    if j > 0 {
      RunKeepsLate(tr, if i < j then i else j - 1, j - 1);
      assert Next(tr[j - 1], tr[j - 1 + 1]);
      NextKeepsLate(tr[j - 1], tr[j]);
    }
  }

  /** Once the sentinel exists it stays, and no invocation started afterwards is
      denied. The counter's content plays no part in this. */
  lemma SentinelPermanent(tr: seq<State>, i: nat, j: nat)
    requires Run(tr) && Initially(tr[0]) && i <= j < |tr|
    ensures tr[i].sentinel ==> tr[j].sentinel
    ensures forall p :: p in tr[j].procs && p.late ==> !p.pc.Denied?
  {
    RunKeepsLate(tr, i, j);
  }

  /** The counter was once written with each of the values 1 to n. */
  ghost predicate CountedTo(log: seq<Event>, n: int)
  {
    forall v :: 0 < v <= n ==> DenyRecorded(v) in log
  }

  /** What entitles a process to write the sentinel. */
  ghost predicate Entitled(log: seq<Event>, procs: seq<Proc>, cause: Cause)
  {
    match cause
    case ByTool => exists p :: p in procs && p.kind.ToolCall?
    case ByRelent => CountedTo(log, MAX_DENIES)
    case ByRecall => RichWritten in log
  }

  ghost predicate Accounted(s: State)
  {
    && CountedTo(s.log, ParseCount(s.counter))
    && (s.rich ==> RichWritten in s.log)
    && (forall p :: p in s.procs && p.pc.Holding? ==> CountedTo(s.log, p.pc.n))
    && (forall p :: p in s.procs && p.pc.Crediting? ==> Entitled(s.log, s.procs, p.pc.cause))
    && (s.sentinel ==> exists i :: 0 <= i < |s.log| && s.log[i].Credited?)
    && (forall i :: 0 <= i < |s.log| && s.log[i].Credited? ==> Entitled(s.log[..i], s.procs, s.log[i].cause))
    && (forall p :: p in s.procs && p.pc == Crediting(ByTool) ==> p.kind.ToolCall?)
  }

  ghost predicate KindsKept(procs: seq<Proc>, procs': seq<Proc>)
  {
    |procs| <= |procs'| && forall i :: 0 <= i < |procs| ==> procs'[i].kind == procs[i].kind
  }

  lemma EntitledGrows(log: seq<Event>, more: seq<Event>, procs: seq<Proc>, procs': seq<Proc>, cause: Cause)
    requires Entitled(log, procs, cause) && log <= more
    requires KindsKept(procs, procs')
    ensures Entitled(more, procs', cause)
  {
    assert forall e :: e in log ==> e in more;
    if cause.ByTool? {
      var i :| 0 <= i < |procs| && procs[i].kind.ToolCall?;
      assert procs'[i] in procs';
    }
  }

  lemma LogEntriesStayEntitled(s: State, t: State)
    requires Accounted(s) && s.log <= t.log && |t.log| <= |s.log| + 1
    requires KindsKept(s.procs, t.procs)
    requires |t.log| > |s.log| && t.log[|s.log|].Credited? ==> Entitled(s.log, s.procs, t.log[|s.log|].cause)
    ensures forall i :: 0 <= i < |t.log| && t.log[i].Credited? ==> Entitled(t.log[..i], t.procs, t.log[i].cause)
  {
    forall i | 0 <= i < |t.log| && t.log[i].Credited? ensures Entitled(t.log[..i], t.procs, t.log[i].cause) {
      if i < |s.log| {
        assert t.log[..i] == s.log[..i];
        EntitledGrows(s.log[..i], t.log[..i], s.procs, t.procs, t.log[i].cause);
      } else {
        assert t.log[..i] == s.log;
        EntitledGrows(s.log, s.log, s.procs, t.procs, t.log[i].cause);
      }
    }
  }

  lemma ProcsStayEntitled(s: State, t: State)
    requires Accounted(s) && s.log <= t.log
    requires KindsKept(s.procs, t.procs)
    requires forall p :: p in t.procs && p.pc.Crediting? ==>
               p in s.procs || Entitled(s.log, s.procs, p.pc.cause) || (p.pc.cause.ByTool? && p.kind.ToolCall?)
    ensures forall p :: p in t.procs && p.pc.Crediting? ==> Entitled(t.log, t.procs, p.pc.cause)
  {
    forall p | p in t.procs && p.pc.Crediting? ensures Entitled(t.log, t.procs, p.pc.cause) {
      if p in s.procs || Entitled(s.log, s.procs, p.pc.cause) {
        EntitledGrows(s.log, t.log, s.procs, t.procs, p.pc.cause);
      }
    }
  }

  lemma NextKeepsKinds(s: State, t: State, step: Step)
    requires Can(s, step) && t == Do(s, step)
    ensures KindsKept(s.procs, t.procs) && t.log == s.log + Emits(s, step) && |Emits(s, step)| <= 1
    ensures forall p :: p in t.procs ==>
              || p in s.procs
              || (step.Start? && p == Proc(step.kind, FirstPc(step.kind), s.sentinel))
              || (!step.Start? && p == s.procs[step.p].(pc := NextPc(s, step)))
    ensures forall e :: e in s.log ==> e in t.log
  {
  }

  /** Every counter value in sight was reached by counting up from one. */
  lemma NextKeepsCounts(s: State, t: State, step: Step)
    requires Accounted(s) && Can(s, step) && t == Do(s, step)
    ensures CountedTo(t.log, ParseCount(t.counter)) && (t.rich ==> RichWritten in t.log)
    ensures forall p :: p in t.procs && p.pc.Holding? ==> CountedTo(t.log, p.pc.n)
  {
    NextKeepsKinds(s, t, step);
    if !step.Start? {
      assert s.procs[step.p] in s.procs;
      assert forall e :: e in Emits(s, step) ==> e in t.log;
    }
  }

  lemma NextEntitles(s: State, t: State, step: Step)
    requires Accounted(s) && Can(s, step) && t == Do(s, step)
    ensures forall p :: p in t.procs && p.pc.Crediting? ==>
              p in s.procs || Entitled(s.log, s.procs, p.pc.cause) || (p.pc.cause.ByTool? && p.kind.ToolCall?)
    ensures |t.log| > |s.log| && t.log[|s.log|].Credited? ==> Entitled(s.log, s.procs, t.log[|s.log|].cause)
    ensures t.sentinel && !s.sentinel ==> |t.log| > |s.log| && t.log[|s.log|].Credited?
    ensures forall p :: p in t.procs && p.pc == Crediting(ByTool) ==> p.kind.ToolCall?
  {
    NextKeepsKinds(s, t, step);
    if !step.Start? { assert s.procs[step.p] in s.procs; }
  }

  lemma NextKeepsAccounted(s: State, t: State)
    requires Accounted(s) && Next(s, t)
    ensures Accounted(t)
  {
    var step :| Can(s, step) && t == Do(s, step);
    NextKeepsKinds(s, t, step);
    NextKeepsCounts(s, t, step);
    NextEntitles(s, t, step);
    LogEntriesStayEntitled(s, t);
    ProcsStayEntitled(s, t);
    if s.sentinel {
      var i :| 0 <= i < |s.log| && s.log[i].Credited?;
      assert t.log[i].Credited?;
    }
  }

  lemma {:induction false} RunKeepsAccounted(tr: seq<State>, i: nat)
    requires Run(tr) && Initially(tr[0]) && i < |tr|
    requires tr[0].counter.Absent? && !tr[0].sentinel && !tr[0].rich
    ensures Accounted(tr[i])
    decreases i
  {
    if i > 0 {
      RunKeepsAccounted(tr, i - 1);
      assert Next(tr[i - 1], tr[i - 1 + 1]);
      NextKeepsAccounted(tr[i - 1], tr[i]);
    }
  }

  /** From a session with no files, the sentinel exists only after a credit, and
      every credit comes from a satisfying tool call, from a relent after the
      counter was written with 1, 2 and 3, or from a recall after the rich marker. */
  lemma SentinelHasCause(tr: seq<State>, i: nat)
    requires Run(tr) && Initially(tr[0]) && i < |tr|
    requires tr[0].counter.Absent? && !tr[0].sentinel && !tr[0].rich
    ensures var s := tr[i];
            && (s.sentinel ==> exists e :: 0 <= e < |s.log| && s.log[e].Credited?)
            && (forall e :: 0 <= e < |s.log| && s.log[e].Credited? ==> Entitled(s.log[..e], s.procs, s.log[e].cause))
  {
    RunKeepsAccounted(tr, i);
  }

  // ----- Building runs -----

  function Last(tr: seq<State>): State
    requires |tr| > 0
  {
    tr[|tr| - 1]
  }

  /** The run continued by a step. */
  lemma Continue(tr: seq<State>, step: Step) returns (longer: seq<State>)
    requires Run(tr) && Can(Last(tr), step)
    ensures Run(longer) && |longer| == |tr| + 1 && longer[..|tr|] == tr && Last(longer) == Do(Last(tr), step)
  {
    longer := tr + [Do(Last(tr), step)];
    forall i | 0 <= i < |longer| - 1 ensures Next(longer[i], longer[i + 1]) {
      if i < |tr| - 1 { assert Next(tr[i], tr[i + 1]); }
    }
  }
}
