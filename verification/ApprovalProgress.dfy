/**
 How the calls of the approval protocol end, in any interleaving: ledger write, marker and completion
 come in this order, and a call past learn-path validation can only end in an outcome or a crash.
 */
module ApprovalProgress {
  import opened Wrappers
  import opened Approvals

  // ---------------------------------------------------------------------------------------------
  // The two-phase order
  // ---------------------------------------------------------------------------------------------

  predicate IsFinal(step: Step) {
    step.Write? || step.Mark? || step.Complete?
  }

  /** The ledger write, marker and completion steps of one call, in order. */
  function Story(trace: seq<Step>, id: nat): seq<Step> {
    if trace == [] then []
    else
      var last := trace[|trace| - 1];
      Story(trace[..|trace| - 1], id) + if IsFinal(last) && last.id == id then [last] else []
  }

  /** The two-phase sequence for one kind: ledger, marker, completion. */
  ghost predicate TwoPhase(story: seq<Step>, kind: Kind) {
    && |story| <= 3
    && (|story| > 0 ==> story[0].Write? && story[0].kind == kind)
    && (|story| > 1 ==> story[1].Mark? && story[1].kind == kind)
    && (|story| > 2 ==> story[2].Complete? && story[2].kind == kind)
  }

  /** How much of that sequence a call in this position has behind it. */
  ghost predicate StoryFits(story: seq<Step>, pc: Pc) {
    match pc
    case AtMark(kind) => |story| == 1 && TwoPhase(story, kind)
    case AtComplete(kind) => |story| == 2 && TwoPhase(story, kind)
    case Finished(Done(kind)) => |story| == 3 && TwoPhase(story, kind)
    case Crashed => |story| <= 2 && exists kind :: TwoPhase(story, kind)
    case _ => story == []
  }

  predicate IsEarly(pc: Pc) {
    !pc.AtMark? && !pc.AtComplete? && !pc.Crashed? && !(pc.Finished? && pc.reply.Done?)
  }

  lemma EarlyStays(cfg: Config, s: State, step: Step)
    requires Enabled(cfg, s, step) && !step.Begin? && !step.Purge? && !step.Rewind? && !IsFinal(step) && !step.Crash?
    ensures var t := Apply(cfg, s, step);
            step.id in s.calls && step.id in t.calls && IsEarly(s.calls[step.id].pc) && IsEarly(t.calls[step.id].pc)
  {
  }

  lemma OwnStory(cfg: Config, s: State, step: Step, story: seq<Step>)
    requires Enabled(cfg, s, step) && !step.Begin? && !step.Purge? && !step.Rewind? && step.id in s.calls
    requires StoryFits(story, s.calls[step.id].pc)
    ensures var t := Apply(cfg, s, step);
            step.id in t.calls && StoryFits(story + if IsFinal(step) then [step] else [], t.calls[step.id].pc)
  {
    assert story + [] == story;
    if IsFinal(step) {
      assert Apply(cfg, s, step).calls[step.id].pc ==
             if step.Write? then AtMark(step.kind)
             else if step.Mark? then AtComplete(step.kind)
             else Finished(Done(step.kind));
    } else if step.Crash? {
      CrashStory(story, s.calls[step.id].pc);
    } else {
      EarlyStays(cfg, s, step);
    }
  }

  lemma CrashStory(story: seq<Step>, pc: Pc)
    requires StoryFits(story, pc) && !pc.Finished?
    ensures StoryFits(story, Crashed)
  {
    if story == [] {
      assert TwoPhase(story, Failed);
    }
  }

  lemma {:induction false} NoStoryBeforeBegin(cfg: Config, trace: seq<Step>, s: State, id: nat)
    requires Leads(cfg, trace, s) && id !in s.calls
    ensures Story(trace, id) == []
    decreases |trace|
  {
    if trace != [] {
      var last := |trace| - 1;
      var p :| Leads(cfg, trace[..last], p) && Enabled(cfg, p, trace[last]) && s == Apply(cfg, p, trace[last]);
      CallsStay(cfg, p, trace[last]);
      NoStoryBeforeBegin(cfg, trace[..last], p, id);
    }
  }

  lemma CallsStay(cfg: Config, s: State, step: Step)
    requires Enabled(cfg, s, step)
    ensures s.calls.Keys <= Apply(cfg, s, step).calls.Keys
  {
  }

  /**
   In every run a call makes at most one ledger write, then at most one marker, then at most one
   completion, in this order; a call that reports an outcome has made exactly one of each.
   */
  lemma {:induction false} WriteThenFinalize(cfg: Config, trace: seq<Step>, s: State, id: nat)
    requires Leads(cfg, trace, s) && id in s.calls
    ensures StoryFits(Story(trace, id), s.calls[id].pc)
    decreases |trace|
  {
    var last := |trace| - 1;
    var step, before := trace[last], trace[..last];
    var p :| Leads(cfg, before, p) && Enabled(cfg, p, step) && s == Apply(cfg, p, step);
    if id in p.calls {
      WriteThenFinalize(cfg, before, p, id);
      StoryStep(cfg, p, step, Story(before, id), id);
    } else {
      NoStoryBeforeBegin(cfg, before, p, id);
      BornByBegin(cfg, p, step, id);
    }
  }

  lemma BornByBegin(cfg: Config, s: State, step: Step, id: nat)
    requires Enabled(cfg, s, step) && id !in s.calls && id in Apply(cfg, s, step).calls
    ensures step.Begin? && Apply(cfg, s, step).calls[id].pc == AtClaim
  {
  }

  lemma StoryStep(cfg: Config, s: State, step: Step, story: seq<Step>, id: nat)
    requires Enabled(cfg, s, step) && id in s.calls && StoryFits(story, s.calls[id].pc)
    ensures var t := Apply(cfg, s, step);
            id in t.calls && StoryFits(story + if IsFinal(step) && step.id == id then [step] else [], t.calls[id].pc)
  {
    assert story + [] == story;
    if step.Begin? || step.Purge? || step.Rewind? {
      assert Apply(cfg, s, step).calls[id] == s.calls[id];
    } else {
      OnlyOwnCall(cfg, s, step);
      if step.id == id {
        OwnStory(cfg, s, step, story);
      }
    }
  }

  // ---------------------------------------------------------------------------------------------
  // Calls that must end in an outcome
  // ---------------------------------------------------------------------------------------------

  /** The call is bound to end in an outcome: a denial that was let through, an approval that learned. */
  predicate IsBound(s: State, id: nat) {
    id in s.calls && (id in s.learned || (s.calls[id].op.Deny? && id in s.passed))
  }

  /** The positions from there to the outcome, by the number of steps that are left. */
  function StepsLeft(pc: Pc): Option<nat> {
    match pc
    case AtLearn => Some(4)
    case AtPrepare => Some(4)
    case AtWrite(_) => Some(3)
    case AtMark(_) => Some(2)
    case AtComplete(_) => Some(1)
    case Finished(Done(_)) => Some(0)
    case _ => None
  }

  predicate OnTheWay(c: Call) {
    c.pc.Crashed? || (StepsLeft(c.pc).Some? && (c.op.Approve? ==> !c.pc.AtLearn?))
  }

  ghost predicate BoundForOutcome(s: State) {
    forall id :: IsBound(s, id) ==> OnTheWay(s.calls[id])
  }

  lemma OwnLogs(cfg: Config, s: State, step: Step)
    requires Enabled(cfg, s, step) && !step.Begin? && !step.Purge? && !step.Rewind?
    ensures var t := Apply(cfg, s, step);
            && t.learned == (if step.Learn? then s.learned + {step.id} else s.learned)
            && (if step.Guard? then t.passed <= s.passed + {step.id} else t.passed == s.passed)
  {
  }

  /** A call on its way stays on it; the guard and the learning step put it there. */
  lemma OwnWay(cfg: Config, s: State, step: Step)
    requires Enabled(cfg, s, step) && !step.Begin? && !step.Purge? && !step.Rewind? && step.id in s.calls
    requires OnTheWay(s.calls[step.id]) || step.Learn? || (step.Guard? && s.calls[step.id].op.Deny?)
    ensures var t := Apply(cfg, s, step);
            step.id in t.calls && (OnTheWay(t.calls[step.id]) || (step.Guard? && step.id !in t.passed - s.passed))
  {
  }

  lemma BoundStep(cfg: Config, s: State, step: Step)
    requires Tidy(s) && BoundForOutcome(s) && Enabled(cfg, s, step)
    ensures BoundForOutcome(Apply(cfg, s, step))
  {
    if step.Begin? {
      assert step.id !in s.turn;
    } else if !step.Purge? && !step.Rewind? {
      OnlyOwnCall(cfg, s, step);
      OwnLogs(cfg, s, step);
      if IsBound(Apply(cfg, s, step), step.id) {
        OwnWay(cfg, s, step);
      }
    }
  }

  lemma {:induction false} BoundAlong(cfg: Config, trace: seq<Step>, s: State)
    requires Leads(cfg, trace, s)
    ensures BoundForOutcome(s)
    decreases |trace|
  {
    if trace != [] {
      var last := |trace| - 1;
      var p :| Leads(cfg, trace[..last], p) && Enabled(cfg, p, trace[last]) && s == Apply(cfg, p, trace[last]);
      BoundAlong(cfg, trace[..last], p);
      TidyAlong(cfg, trace[..last], p);
      BoundStep(cfg, p, trace[last]);
    }
  }

  /** The next step of a call on its way. */
  function NextStep(id: nat, c: Call): Step
    requires StepsLeft(c.pc).Some? && StepsLeft(c.pc).value > 0 && (c.op.Approve? ==> !c.pc.AtLearn?)
  {
    match c.pc
    case AtLearn => AuditDenial(id)
    case AtPrepare => Execute(id, true)
    case AtWrite(kind) => Write(id, kind, true)
    case AtMark(kind) => Mark(id, kind, true)
    case AtComplete(kind) => Complete(id, kind, true)
  }

  /** Every step of its own but a crash brings a call on its way exactly one step closer. */
  lemma OwnStepsCount(cfg: Config, s: State, step: Step)
    requires Enabled(cfg, s, step) && !step.Begin? && !step.Purge? && !step.Rewind? && !step.Crash?
    requires step.id in s.calls && OnTheWay(s.calls[step.id])
    ensures var t := Apply(cfg, s, step);
            && StepsLeft(s.calls[step.id].pc).Some? && step.id in t.calls && StepsLeft(t.calls[step.id].pc).Some?
            && StepsLeft(t.calls[step.id].pc).value + 1 == StepsLeft(s.calls[step.id].pc).value
  {
    assert !IsOutside(step) && !step.Guard? && !step.ClaimWins? && !step.Reconcile?;
  }

  /**
   In every reachable state, whatever other calls and the stores have done, a denial that was let
   through and an approval that learned have crashed, have reported an outcome, or are at most four
   own steps away from it, with one enabled that brings them closer.
   */
  lemma BoundCallsEnd(cfg: Config, s: State, id: nat)
    requires Reachable(cfg, s) && IsBound(s, id)
    ensures var c := s.calls[id];
            || c.pc.Crashed?
            || (c.pc.Finished? && c.pc.reply.Done?)
            || (&& OnTheWay(c) && 0 < StepsLeft(c.pc).value <= 4
                && NextStep(id, c).id == id && Enabled(cfg, s, NextStep(id, c)))
  {
    var trace :| Leads(cfg, trace, s);
    BoundAlong(cfg, trace, s);
  }

  /** So the call alone can always bring itself to its outcome. */
  lemma {:induction false} BoundCallCanFinish(cfg: Config, s: State, id: nat) returns (t: State, kind: Kind)
    requires Reachable(cfg, s) && IsBound(s, id) && !s.calls[id].pc.Crashed?
    ensures Reachable(cfg, t) && IsAt(t, id, Finished(Done(kind)))
    decreases if StepsLeft(s.calls[id].pc).Some? then StepsLeft(s.calls[id].pc).value else 0
  {
    BoundCallsEnd(cfg, s, id);
    var c := s.calls[id];
    if c.pc.Finished? {
      t, kind := s, c.pc.reply.kind;
    } else {
      var step := NextStep(id, c);
      var next := Apply(cfg, s, step);
      Extend(cfg, s, step);
      OwnStepsCount(cfg, s, step);
      OnlyOwnCall(cfg, s, step);
      StaysBound(cfg, s, step, id);
      t, kind := BoundCallCanFinish(cfg, next, id);
    }
  }

  lemma StaysBound(cfg: Config, s: State, step: Step, id: nat)
    requires Enabled(cfg, s, step) && IsBound(s, id)
    ensures IsBound(Apply(cfg, s, step), id)
  {
  }
}
