/** A gate hook running with no other hook beside it (cmd/anchored/context_gate.go):
    its straight-line code does to the files what the protocol's process does. */
module ContextGateHooks {
  import opened ContextGate

  // ----- One hook process on its own -----

  /** A session's files, with no process running. */
  function Files(counter: Content, sentinel: bool, rich: bool): State
  {
    State(counter, sentinel, rich, [], [])
  }

  /** A process of this kind, running alone from files a, may leave files b. */
  ghost predicate Alone(a: State, b: State, kind: Kind, denied: bool)
  {
    exists tr :: Run(tr) && tr[0] == a && SameFiles(Last(tr), b)
                 && |Last(tr).procs| == 1 && Last(tr).procs[0].kind == kind
                 && Last(tr).procs[0].pc == if denied then Denied else Passed
  }

  predicate SameFiles(s: State, t: State)
  {
    s.counter == t.counter && s.sentinel == t.sentinel && s.rich == t.rich
  }

  /** The steps a process takes on its own; dirOk and writeOk are what the file system grants. */
  lemma {:induction false} RunsAlone(tr: seq<State>, dirOk: bool, writeOk: bool, fuel: nat)
    returns (longer: seq<State>)
    requires Run(tr) && |Last(tr).procs| == 1 && StepsLeft(Last(tr).procs[0].pc) <= fuel
    ensures Run(longer) && longer[0] == tr[0]
    ensures |Last(longer).procs| == 1 && Last(longer).procs[0].kind == Last(tr).procs[0].kind
    ensures Last(longer) == Finish(Last(tr), dirOk, writeOk)
    ensures Last(longer).procs[0].pc.Passed? || Last(longer).procs[0].pc.Denied?
    decreases fuel
  {
    var s := Last(tr);
    if s.procs[0].pc.Passed? || s.procs[0].pc.Denied? {
      longer := tr;
    } else {
      var more := Continue(tr, OwnStep(s, dirOk, writeOk));
      longer := RunsAlone(more, dirOk, writeOk, fuel - 1);
      assert more[0] == more[..|tr|][0];
    }
  }

  function StepsLeft(pc: Pc): nat
  {
    match pc
    case CheckSentinel => 5
    case CheckLegacy => 4
    case ReadCounter => 3
    case StatRich => 3
    case Holding(_) => 1
    case Crediting(_) => 1
    case WritingRich => 1
    case _ => 0
  }

  function OwnStep(s: State, dirOk: bool, writeOk: bool): (step: Step)
    requires |s.procs| == 1 && !s.procs[0].pc.Passed? && !s.procs[0].pc.Denied?
    ensures Can(s, step)
  {
    var pc := s.procs[0].pc;
    if pc.Holding? && !dirOk then NoDirectory(0)
    else if pc.Holding? || pc.Crediting? || pc.WritingRich? then Attempt(0, dirOk && writeOk)
    else Advance(0)
  }

  /** The state in which the only process has finished. */
  function Finish(s: State, dirOk: bool, writeOk: bool): State
    requires |s.procs| == 1
    decreases StepsLeft(s.procs[0].pc)
  {
    if s.procs[0].pc.Passed? || s.procs[0].pc.Denied? then s
    else Finish(Do(s, OwnStep(s, dirOk, writeOk)), dirOk, writeOk)
  }

  lemma FinishIsAlone(a: State, kind: Kind, dirOk: bool, writeOk: bool)
    requires Initially(a)
    ensures var b := Finish(Do(a, Start(kind)), dirOk, writeOk);
            |b.procs| == 1 && Alone(a, b, kind, b.procs[0].pc.Denied?)
  {
    var tr := Continue([a], Start(kind));
    assert tr[0] == tr[..1][0];
    var all := RunsAlone(tr, dirOk, writeOk, 5);
  }

  lemma FinishStep(s: State, dirOk: bool, writeOk: bool) returns (t: State)
    requires |s.procs| == 1 && !s.procs[0].pc.Passed? && !s.procs[0].pc.Denied?
    ensures t == Do(s, OwnStep(s, dirOk, writeOk)) && |t.procs| == 1
    ensures Finish(s, dirOk, writeOk) == Finish(t, dirOk, writeOk)
    ensures t.procs[0].pc.Passed? || t.procs[0].pc.Denied? ==> Finish(t, dirOk, writeOk) == t
  {
    t := Do(s, OwnStep(s, dirOk, writeOk));
  }

  /** What a work tool's process makes of the files and whether it is denied. */
  function WorkResult(a: State, dirOk: bool, writeOk: bool): (r: (State, bool))
  {
    var n := ParseCount(a.counter);
    if a.sentinel || a.counter.LegacyOk? then (a, false)
    else if n >= MAX_DENIES then (a.(sentinel := dirOk && writeOk), false)
    else (a.(counter := if dirOk && writeOk then Count(n + 1) else a.counter), dirOk)
  }

  /** The last step of a process that has read the counter and decided. */
  lemma DecidedFinishes(s: State, dirOk: bool, writeOk: bool)
    requires |s.procs| == 1 && (s.procs[0].pc.Holding? || s.procs[0].pc.Crediting?)
    ensures var b, pc, ok := Finish(s, dirOk, writeOk), s.procs[0].pc, dirOk && writeOk;
            && |b.procs| == 1 && b.rich == s.rich
            && (pc.Crediting? ==>
                  b.counter == s.counter && (b.sentinel <==> s.sentinel || ok) && b.procs[0].pc == Passed)
            && (pc.Holding? ==>
                  && b.counter == (if ok then Count(pc.n + 1) else s.counter) && b.sentinel == s.sentinel
                  && b.procs[0].pc == if dirOk then Denied else Passed)
  {
    var t := FinishStep(s, dirOk, writeOk);
  }

  lemma ReaderFinishes(s: State, dirOk: bool, writeOk: bool)
    requires |s.procs| == 1 && s.procs[0].pc.ReadCounter? && !s.sentinel && !s.counter.LegacyOk?
    ensures var b := Finish(s, dirOk, writeOk);
            var (c, denied) := WorkResult(s, dirOk, writeOk);
            |b.procs| == 1 && SameFiles(b, c) && b.procs[0].pc == if denied then Denied else Passed
  {
    var t := FinishStep(s, dirOk, writeOk);
    assert t == Move(s, 0, NextPc(s, Advance(0)));
    DecidedFinishes(t, dirOk, writeOk);
  }

  lemma WorkAlone(a: State, dirOk: bool, writeOk: bool)
    requires Initially(a)
    ensures Alone(a, WorkResult(a, dirOk, writeOk).0, Work, WorkResult(a, dirOk, writeOk).1)
  {
    FinishIsAlone(a, Work, dirOk, writeOk);
    var s := Do(a, Start(Work));
    var s1 := FinishStep(s, dirOk, writeOk);
    if !a.sentinel {
      var s2 := FinishStep(s1, dirOk, writeOk);
      if !a.counter.LegacyOk? { ReaderFinishes(s2, dirOk, writeOk); }
    }
    AloneSees(a, Finish(s, dirOk, writeOk), WorkResult(a, dirOk, writeOk).0, Work, WorkResult(a, dirOk, writeOk).1);
  }

  function RecallResult(a: State, dirOk: bool, writeOk: bool): State
  {
    if a.rich && !a.counter.LegacyOk? then a.(sentinel := a.sentinel || (dirOk && writeOk)) else a
  }

  lemma RecallFinishes(s: State, dirOk: bool, writeOk: bool)
    requires |s.procs| == 1 && s.procs[0].pc.StatRich? && !s.counter.LegacyOk?
    ensures var b := Finish(s, dirOk, writeOk);
            |b.procs| == 1 && SameFiles(b, RecallResult(s, dirOk, writeOk)) && b.procs[0].pc.Passed?
  {
    var t := FinishStep(s, dirOk, writeOk);
    if s.rich { var u := FinishStep(t, dirOk, writeOk); }
  }

  lemma RecallAlone(a: State, dirOk: bool, writeOk: bool)
    requires Initially(a)
    ensures Alone(a, RecallResult(a, dirOk, writeOk), Recall, false)
  {
    FinishIsAlone(a, Recall, dirOk, writeOk);
    var s := Do(a, Start(Recall));
    var s1 := FinishStep(s, dirOk, writeOk);
    if !a.sentinel {
      var s2 := FinishStep(s1, dirOk, writeOk);
      if !a.counter.LegacyOk? { RecallFinishes(s2, dirOk, writeOk); }
    }
    AloneSees(a, Finish(s, dirOk, writeOk), RecallResult(a, dirOk, writeOk), Recall, false);
  }

  lemma ToolCallAlone(a: State, dirOk: bool, writeOk: bool)
    requires Initially(a)
    ensures Alone(a, a.(sentinel := a.sentinel || (dirOk && writeOk)), ToolCall, false)
  {
    FinishIsAlone(a, ToolCall, dirOk, writeOk);
    var s := FinishStep(Do(a, Start(ToolCall)), dirOk, writeOk);
    AloneSees(a, s, a.(sentinel := a.sentinel || (dirOk && writeOk)), ToolCall, false);
  }

  lemma SessionStartAlone(a: State, dirOk: bool, writeOk: bool)
    requires Initially(a)
    ensures Alone(a, a.(rich := a.rich || (dirOk && writeOk)), SessionStart, false)
  {
    FinishIsAlone(a, SessionStart, dirOk, writeOk);
    var s := FinishStep(Do(a, Start(SessionStart)), dirOk, writeOk);
    AloneSees(a, s, a.(rich := a.rich || (dirOk && writeOk)), SessionStart, false);
  }

  lemma AloneSees(a: State, b: State, c: State, kind: Kind, denied: bool)
    requires Alone(a, b, kind, denied) && SameFiles(b, c)
    ensures Alone(a, c, kind, denied)
  {
    var tr :| Run(tr) && tr[0] == a && SameFiles(Last(tr), b)
              && |Last(tr).procs| == 1 && Last(tr).procs[0].kind == kind
              && Last(tr).procs[0].pc == if denied then Denied else Passed;
    assert SameFiles(Last(tr), c);
  }

  datatype Stage =
    | SkipNoSession | Satisfied | ExemptAnchored | AlreadySatisfied | Relented | SkipMkdirFailed | DeniedOnce

  /** Using the tool shows that the agent consulted its memory. */
  predicate Consults(tool: string)
  {
    || tool == "anchored_context" || tool == "anchored_search"
    || tool == "anchored_ctx_search" || tool == "anchored_kg_query"
  }

  /** Every such tool is one of the server's own, so none of them could ever be gated. */
  lemma ConsultingIsExempt(tool: string)
    requires tool in SATISFYING_TOOLS
    ensures IsAnchoredTool(tool) && Consults(tool)
  {
  }

  /** Nothing has been written into the counter, or a number below three. */
  predicate FewDenies(counter: Content)
  {
    counter.Count? ==> counter.n < 3
  }

  /** What becomes of a gated tool: the stage, and the files b that it makes of a. */
  ghost predicate GatedOutcome(stage: Stage, a: State, b: State, dirOk: bool, writeOk: bool)
  {
    if a.sentinel || a.counter.LegacyOk? then stage.AlreadySatisfied? && b == a
    else if !FewDenies(a.counter) then
      stage.Relented? && b.counter == a.counter && (b.sentinel <==> dirOk && writeOk)
    else if !dirOk then stage.SkipMkdirFailed? && b == a
    else
      && stage.DeniedOnce? && !b.sentinel
      && b.counter == if writeOk then Count(if a.counter.Count? then a.counter.n + 1 else 1) else a.counter
  }

  /** The ctxgate directory of one session. */
  class Markers {
    var counter: Content
    var sentinel: bool
    var rich: bool

    function View(): State
      reads this
    {
      Files(counter, sentinel, rich)
    }

    method MarkGateSatisfied(dirOk: bool, writeOk: bool)
      modifies this`sentinel
      ensures sentinel == (old(sentinel) || (dirOk && writeOk))
    {
      if dirOk && writeOk { sentinel := true; }
    }

    /** The PreToolUse decision. A satisfying tool credits the session, any other tool of
        the server is let through, and for the rest the gate decides; every stage is
        returned in exactly one case. Without a session nothing happens. Each tool does
        what the protocol's process does alone. */
    method ContextGateDecision(storageDir: string, sessionID: string, bareTool: string, dirOk: bool, writeOk: bool)
      returns (denied: bool, stage: Stage)
      modifies this
      ensures rich == old(rich) && (denied <==> stage.DeniedOnce?)
      ensures stage.SkipNoSession? <==> sessionID == "" || storageDir == ""
      ensures stage.SkipNoSession? ==> View() == old(View())
      ensures sessionID != "" && storageDir != "" && Consults(bareTool) ==>
                && stage.Satisfied? && counter == old(counter)
                && (sentinel <==> old(sentinel) || (dirOk && writeOk))
                && Alone(old(View()), View(), ToolCall, false)
      ensures sessionID != "" && storageDir != "" && !Consults(bareTool) && "anchored_" <= bareTool ==>
                stage.ExemptAnchored? && View() == old(View())
      ensures sessionID != "" && storageDir != "" && !Consults(bareTool) && !("anchored_" <= bareTool) ==>
                && Alone(old(View()), View(), Work, denied)
                && GatedOutcome(stage, old(View()), View(), dirOk, writeOk)
    {
      ToolCallAlone(View(), dirOk, writeOk);
      WorkAlone(View(), dirOk, writeOk);
      if sessionID == "" || storageDir == "" {
        return false, SkipNoSession;
      }
      if bareTool in SATISFYING_TOOLS {
        MarkGateSatisfied(dirOk, writeOk);
        return false, Satisfied;
      }
      if IsAnchoredTool(bareTool) {
        return false, ExemptAnchored;
      }
      if sentinel || counter.LegacyOk? {
        return false, AlreadySatisfied;
      }
      var denies := ParseCount(counter);
      if denies >= MAX_DENIES {
        MarkGateSatisfied(dirOk, writeOk);
        return false, Relented;
      }
      if !dirOk {
        return false, SkipMkdirFailed;
      }
      if writeOk { counter := Count(denies + 1); }
      return true, DeniedOnce;
    }

    /** The PostToolUse path: a satisfying tool that ran satisfies the gate, as its process
        does alone. The result is true also when the marker could not be written. */
    method SatisfyGateFromPostToolUse(storageDir: string, sessionID: string, bareTool: string, dirOk: bool,
                                      writeOk: bool)
      returns (satisfied: bool)
      modifies this`sentinel
      ensures satisfied <==> storageDir != "" && sessionID != "" && Consults(bareTool)
      ensures satisfied ==> Alone(old(View()), View(), ToolCall, false)
      ensures satisfied ==> (sentinel <==> old(sentinel) || (dirOk && writeOk))
      ensures !satisfied ==> sentinel == old(sentinel)
    {
      ToolCallAlone(View(), dirOk, writeOk);
      if storageDir == "" || sessionID == "" || bareTool !in SATISFYING_TOOLS {
        return false;
      }
      MarkGateSatisfied(dirOk, writeOk);
      return true;
    }

    /** SessionStart leaves the rich marker for a session it gave a rich block. */
    method MarkSessionStartRichBlock(storageDir: string, sessionID: string, dirOk: bool, writeOk: bool)
      modifies this`rich
      ensures rich <==> old(rich) || (storageDir != "" && sessionID != "" && dirOk && writeOk)
      ensures storageDir != "" && sessionID != "" ==> Alone(old(View()), View(), SessionStart, false)
    {
      SessionStartAlone(View(), dirOk, writeOk);
      if storageDir == "" || sessionID == "" {
        return;
      }
      if dirOk && writeOk { rich := true; }
    }

    /** The UserPromptSubmit credit: only with the rich marker, and only once. */
    method SatisfyGateFromRecall(storageDir: string, sessionID: string, dirOk: bool, writeOk: bool)
      returns (credited: bool)
      modifies this`sentinel
      ensures credited <==> storageDir != "" && sessionID != "" && !old(sentinel) && !counter.LegacyOk? && rich
      ensures sentinel == (old(sentinel) || (credited && dirOk && writeOk))
      ensures storageDir != "" && sessionID != "" ==> Alone(old(View()), View(), Recall, false)
    {
      RecallAlone(View(), dirOk, writeOk);
      if storageDir == "" || sessionID == "" || sentinel || counter.LegacyOk? || !rich {
        return false;
      }
      MarkGateSatisfied(dirOk, writeOk);
      return true;
    }
  }
}
