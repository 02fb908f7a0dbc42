/**
 What the approval protocol guarantees over whole runs, and exactly when.

 Undisturbed runs produce one outcome and every store and reply agrees on it. For the guarantees that
 fail in some configuration a run is given, and the guarantee is proved in all others.
 */
module ApprovalRuns {
  import opened Wrappers
  import opened Approvals

  // ---------------------------------------------------------------------------------------------
  // Runs in which no claim is lost
  // ---------------------------------------------------------------------------------------------

  /** The volatile record never came back in an older version, and no expired claim was taken over. */
  predicate Undisturbed(s: State) {
    !s.rewound && !s.reclaimed
  }

  /** The kind a record or a reply reports is the kind of the durable outcome. */
  predicate IsOutcome(s: State, kind: Option<Kind>) {
    kind.Some? ==> s.durable.Some? && s.durable.value.kind == kind.value
  }

  /** What the position of a call says about the durable outcome. */
  predicate PcAgrees(s: State, id: nat, pc: Pc) {
    match pc
    case AtGuard => s.durable.None?
    case AtLearn => s.durable.None?
    case AtPrepare => s.durable.None?
    case AtWrite(_) => s.durable.None?
    case AtReconcile => false
    case AtMark(kind) => s.durable == Some(Outcome(kind, id))
    case AtComplete(kind) => s.durable == Some(Outcome(kind, id))
    case Finished(Done(kind)) => s.durable == Some(Outcome(kind, id))
    case Finished(AlreadyDone(known)) => IsOutcome(s, known)
    case _ => true
  }

  predicate RecordAgrees(s: State) {
    s.redis.Some? ==>
      && (s.turn.Keys != {} ==> !s.redis.value.phase.Pending?)
      && IsOutcome(s, s.redis.value.marker)
      && (s.redis.value.phase.Completed? ==> IsOutcome(s, Some(s.redis.value.phase.kind)))
  }

  ghost predicate Solo(s: State) {
    && |s.turn| <= 1 && s.superseded == {}
    && (s.durable.Some? ==> s.turn.Keys != {})
    && RecordAgrees(s)
    && forall id :: id in s.calls ==> PcAgrees(s, id, s.calls[id].pc)
  }

  lemma SingleClaimant(s: State, a: nat, b: nat)
    requires |s.turn| <= 1 && a in s.turn && b in s.turn
    ensures a == b
  {
    assert |s.turn.Keys - {a}| == |s.turn.Keys| - 1;
    assert s.turn.Keys - {a} == {};
  }

  lemma SoloClaim(cfg: Config, s: State, id: nat, clock: nat, heard: bool)
    requires Solo(s) && Enabled(cfg, s, ClaimWins(id, clock, heard)) && !Apply(cfg, s, ClaimWins(id, clock, heard)).reclaimed
    ensures Solo(Apply(cfg, s, ClaimWins(id, clock, heard)))
  {
    var t := Apply(cfg, s, ClaimWins(id, clock, heard));
    assert s.redis.value.phase.Pending?;
    assert s.turn.Keys == {};
    assert t.turn.Keys == {id};
    assert s.durable.None?;
  }

  lemma SoloWrite(cfg: Config, s: State, id: nat, kind: Kind)
    requires Solo(s) && Tidy(s) && Enabled(cfg, s, Write(id, kind, true))
    ensures Solo(Apply(cfg, s, Write(id, kind, true)))
  {
    var t := Apply(cfg, s, Write(id, kind, true));
    assert Working(s.calls[id].pc) && id in s.turn;
    forall other | other in t.calls ensures PcAgrees(t, other, t.calls[other].pc) {
      if other != id && (Working(s.calls[other].pc) || s.calls[other].pc.AtGuard?) {
        assert other in s.turn;
        SingleClaimant(s, other, id);
      }
    }
  }

  lemma SoloFinalize(cfg: Config, s: State, step: Step)
    requires Solo(s) && Enabled(cfg, s, step) && (step.Mark? || step.Complete?)
    ensures Solo(Apply(cfg, s, step))
  {
    var t := Apply(cfg, s, step);
    assert PcAgrees(s, step.id, s.calls[step.id].pc);
    assert t.durable == s.durable && t.turn == s.turn;
    assert RecordAgrees(t);
  }

  predicate IsLocal(step: Step) {
    !step.ClaimWins? && !step.Write? && !step.Mark? && !step.Complete? && !step.Reconcile? && !step.Begin? &&
    !step.Purge? && !step.Rewind?
  }

  lemma LocalFrame(cfg: Config, s: State, step: Step)
    requires Enabled(cfg, s, step) && IsLocal(step)
    ensures var t := Apply(cfg, s, step);
            t.redis == s.redis && t.durable == s.durable && t.turn == s.turn && t.superseded == s.superseded
  {
  }

  lemma LocalPcAgrees(cfg: Config, s: State, step: Step)
    requires Enabled(cfg, s, step) && IsLocal(step) && step.id in s.calls && RecordAgrees(s)
    requires PcAgrees(s, step.id, s.calls[step.id].pc)
    ensures var t := Apply(cfg, s, step); step.id in t.calls && PcAgrees(t, step.id, t.calls[step.id].pc)
  {
    if step.Status? {
      StatusAgrees(cfg, s, step.id, step.ok);
    } else if IsOutside(step) {
      OutsidePcAgrees(cfg, s, step);
    }
  }

  lemma StatusAgrees(cfg: Config, s: State, id: nat, ok: bool)
    requires Enabled(cfg, s, Status(id, ok)) && RecordAgrees(s)
    ensures var t := Apply(cfg, s, Status(id, ok)); id in t.calls && PcAgrees(t, id, t.calls[id].pc)
  {
  }

  lemma OutsidePcAgrees(cfg: Config, s: State, step: Step)
    requires Enabled(cfg, s, step) && IsOutside(step) && !step.Status?
    ensures var t := Apply(cfg, s, step); step.id in t.calls && PcAgrees(t, step.id, t.calls[step.id].pc)
  {
  }

  lemma SoloKept(s: State, t: State, id: nat)
    requires Solo(s) && id in s.calls && id in t.calls && t.calls == s.calls[id := t.calls[id]]
    requires t.redis == s.redis && t.durable == s.durable && t.turn == s.turn && t.superseded == s.superseded
    requires PcAgrees(t, id, t.calls[id].pc)
    ensures Solo(t)
  {
  }

  lemma SoloLocal(cfg: Config, s: State, step: Step)
    requires Solo(s) && Enabled(cfg, s, step) && IsLocal(step)
    ensures Solo(Apply(cfg, s, step))
  {
    OnlyOwnCall(cfg, s, step);
    LocalFrame(cfg, s, step);
    LocalPcAgrees(cfg, s, step);
    SoloKept(s, Apply(cfg, s, step), step.id);
  }

  lemma SoloOutside(cfg: Config, s: State, step: Step)
    requires Solo(s) && Enabled(cfg, s, step) && (step.Begin? || step.Purge?)
    ensures Solo(Apply(cfg, s, step))
  {
  }

  lemma SoloStep(cfg: Config, s: State, step: Step)
    requires !cfg.writeFaults && Tidy(s) && Solo(s) && Enabled(cfg, s, step) && Undisturbed(Apply(cfg, s, step))
    ensures Solo(Apply(cfg, s, step))
  {
    match step
    case ClaimWins(id, clock, heard) => SoloClaim(cfg, s, id, clock, heard);
    case Write(id, kind, ok) => SoloWrite(cfg, s, id, kind);
    case Mark(_, _, _) => SoloFinalize(cfg, s, step);
    case Complete(_, _, _) => SoloFinalize(cfg, s, step);
    case Begin(_, _) => SoloOutside(cfg, s, step);
    case Purge => SoloOutside(cfg, s, step);
    case Reconcile(_, _) => assert false;
    case Rewind(_) =>
    case _ => SoloLocal(cfg, s, step);
  }

  lemma UndisturbedBefore(cfg: Config, s: State, step: Step)
    requires Enabled(cfg, s, step) && Undisturbed(Apply(cfg, s, step))
    ensures Undisturbed(s)
  {
  }

  lemma {:induction false} SoloAlong(cfg: Config, trace: seq<Step>, s: State)
    requires !cfg.writeFaults && Leads(cfg, trace, s) && Undisturbed(s)
    ensures Solo(s)
    decreases |trace|
  {
    if trace != [] {
      var last := |trace| - 1;
      var p :| Leads(cfg, trace[..last], p) && Enabled(cfg, p, trace[last]) && s == Apply(cfg, p, trace[last]);
      UndisturbedBefore(cfg, p, trace[last]);
      SoloAlong(cfg, trace[..last], p);
      TidyAlong(cfg, trace[..last], p);
      SoloStep(cfg, p, trace[last]);
    }
  }

  lemma RepliesAgree(s: State)
    requires Solo(s)
    ensures forall id, kind :: IsAt(s, id, Finished(Done(kind))) ==> s.durable == Some(Outcome(kind, id))
    ensures forall id, known :: IsAt(s, id, Finished(AlreadyDone(known))) ==> IsOutcome(s, known)
  {
    forall id, known | IsAt(s, id, Finished(AlreadyDone(known))) ensures IsOutcome(s, known) {
      assert PcAgrees(s, id, s.calls[id].pc);
    }
    forall id, kind | IsAt(s, id, Finished(Done(kind))) ensures s.durable == Some(Outcome(kind, id)) {
      assert PcAgrees(s, id, s.calls[id].pc);
    }
  }

  /** A call that reports an outcome wrote the durable one. */
  ghost predicate DoneAgrees(s: State) {
    forall id, kind :: IsAt(s, id, Finished(Done(kind))) ==> s.durable == Some(Outcome(kind, id))
  }

  /** Volatile record, replies and ledger tell the same story. */
  ghost predicate Agrees(s: State) {
    && DoneAgrees(s)
    && (s.redis.Some? ==> IsOutcome(s, EffectiveKind(s.redis.value)))
    && (forall id, known :: IsAt(s, id, Finished(AlreadyDone(known))) ==> IsOutcome(s, known))
  }

  lemma UndisturbedAgrees(cfg: Config, s: State)
    requires !cfg.writeFaults && Reachable(cfg, s) && Undisturbed(s)
    ensures Agrees(s)
  {
    var trace :| Leads(cfg, trace, s);
    SoloAlong(cfg, trace, s);
    RepliesAgree(s);
  }

  // ---------------------------------------------------------------------------------------------
  // One claimant
  // ---------------------------------------------------------------------------------------------

  /** One call has claimed, the record shows it, and no call that came after the outcome is that one. */
  ghost predicate ClaimedOnce(s: State) {
    && |s.turn| <= 1
    && (s.redis.Some? && s.turn.Keys != {} ==> !s.redis.value.phase.Pending?)
    && (s.durable.Some? ==> s.turn.Keys != {})
    && (forall id :: id in s.calls && s.calls[id].late ==> s.durable.Some? && id !in s.turn)
  }

  lemma ClaimedOnceClaim(cfg: Config, s: State, id: nat, clock: nat, heard: bool)
    requires ClaimedOnce(s) && Enabled(cfg, s, ClaimWins(id, clock, heard)) && !IsHeld(s.redis)
    ensures ClaimedOnce(Apply(cfg, s, ClaimWins(id, clock, heard)))
  {
    assert s.turn.Keys == {};
    assert Apply(cfg, s, ClaimWins(id, clock, heard)).turn.Keys == {id};
  }

  lemma OtherStores(cfg: Config, s: State, step: Step)
    requires Enabled(cfg, s, step) && !step.ClaimWins? && !step.Rewind?
    ensures var t := Apply(cfg, s, step);
            && t.turn == s.turn && (s.durable.Some? ==> t.durable.Some?)
            && (t.redis.Some? ==>
                  s.redis.Some? && (t.redis.value.phase == s.redis.value.phase || t.redis.value.phase.Completed?))
            && (t.durable.Some? && s.durable.None? ==> step.Write?)
  {
    if IsOutside(step) {
      OutsideIsLocal(cfg, s, step);
    }
  }

  lemma ClaimedOnceKept(s: State, t: State)
    requires ClaimedOnce(s) && t.turn == s.turn && (s.durable.Some? ==> t.durable.Some?)
    requires t.redis.Some? && t.turn.Keys != {} ==> !t.redis.value.phase.Pending?
    requires t.durable.Some? && s.durable.None? ==> t.turn.Keys != {}
    requires forall id :: id in t.calls && t.calls[id].late ==>
               if id in s.calls then s.calls[id].late else t.durable.Some? && id !in t.turn
    ensures ClaimedOnce(t)
  {
  }

  lemma ClaimedOnceStep(cfg: Config, s: State, step: Step)
    requires Tidy(s) && ClaimedOnce(s) && Enabled(cfg, s, step) && Undisturbed(Apply(cfg, s, step))
    ensures ClaimedOnce(Apply(cfg, s, step))
  {
    if step.ClaimWins? {
      ClaimedOnceClaim(cfg, s, step.id, step.clock, step.heard);
    } else {
      OtherStores(cfg, s, step);
      if step.Write? {
        assert Working(s.calls[step.id].pc) && step.id in s.turn;
      }
      if !step.Begin? && !step.Purge? {
        OnlyOwnCall(cfg, s, step);
      }
      ClaimedOnceKept(s, Apply(cfg, s, step));
    }
  }

  lemma {:induction false} ClaimedOnceAlong(cfg: Config, trace: seq<Step>, s: State)
    requires Leads(cfg, trace, s) && Undisturbed(s)
    ensures ClaimedOnce(s)
    decreases |trace|
  {
    if trace != [] {
      var last := |trace| - 1;
      var p :| Leads(cfg, trace[..last], p) && Enabled(cfg, p, trace[last]) && s == Apply(cfg, p, trace[last]);
      UndisturbedBefore(cfg, p, trace[last]);
      ClaimedOnceAlong(cfg, trace[..last], p);
      TidyAlong(cfg, trace[..last], p);
      ClaimedOnceStep(cfg, p, trace[last]);
    }
  }

  /**
   Without takeover and rollback at most one call ever claims, whatever reads, writes or replies fail;
   so at most one acts, and calls that start after the outcome do nothing. If ledger writes work,
   record, replies and ledger agree on the outcome.
   */
  lemma OneOutcome(cfg: Config, s: State)
    requires Reachable(cfg, s) && Undisturbed(s)
    ensures |s.turn| <= 1 && |s.acted| <= 1
    ensures ActsAreClaimed(s) && LateIsInert(s)
    ensures !cfg.writeFaults ==> Agrees(s)
  {
    if !cfg.writeFaults {
      UndisturbedAgrees(cfg, s);
    }
    var trace :| Leads(cfg, trace, s);
    ClaimedOnceAlong(cfg, trace, s);
    TidyAlong(cfg, trace, s);
    forall a, b | a in s.acted && b in s.acted ensures a == b {
      assert a in s.passed && b in s.passed;
      SingleClaimant(s, a, b);
    }
    AtMostOne(s.acted);
  }

  predicate ClaimsLast(cfg: Config) {
    !cfg.takeovers && !cfg.rewinds
  }

  lemma {:induction false} StaysUndisturbed(cfg: Config, trace: seq<Step>, s: State)
    requires ClaimsLast(cfg) && Leads(cfg, trace, s)
    ensures Undisturbed(s)
    decreases |trace|
  {
    if trace != [] {
      var last := |trace| - 1;
      var p :| Leads(cfg, trace[..last], p) && Enabled(cfg, p, trace[last]) && s == Apply(cfg, p, trace[last]);
      StaysUndisturbed(cfg, trace[..last], p);
      UndisturbedStep(cfg, p, trace[last]);
    }
  }

  lemma UndisturbedStep(cfg: Config, s: State, step: Step)
    requires ClaimsLast(cfg) && Undisturbed(s) && Enabled(cfg, s, step)
    ensures Undisturbed(Apply(cfg, s, step))
  {
  }

  // ---------------------------------------------------------------------------------------------
  // Runs in which claims are lost, but not by calls that were let through
  // ---------------------------------------------------------------------------------------------

  function ReportedKind(pc: Pc): Option<Kind> {
    match pc
    case AtMark(kind) => Some(kind)
    case AtComplete(kind) => Some(kind)
    case Finished(Done(kind)) => Some(kind)
    case _ => None
  }

  /** The durable outcome is what its writer wrote, and its writer is past its write. */
  ghost predicate Authored(s: State) {
    s.durable.Some? ==>
      var o := s.durable.value;
      && o.writer in s.written && o.writer in s.calls
      && var pc := s.calls[o.writer].pc;
         pc.Crashed? || ReportedKind(pc) == Some(o.kind)
  }

  /** Whoever is past its write has written. */
  ghost predicate Signed(s: State) {
    forall id :: id in s.calls && ReportedKind(s.calls[id].pc).Some? ==> id in s.written
  }

  /** The moves of a call that is past its write. */
  lemma MovesPastWrite(cfg: Config, s: State, step: Step)
    requires Enabled(cfg, s, step) && !step.Begin? && !step.Purge? && !step.Rewind? && !step.Write?
    ensures var t := Apply(cfg, s, step);
            && step.id in s.calls && step.id in t.calls && t.written == s.written && t.durable == s.durable
            && var was, now := s.calls[step.id].pc, t.calls[step.id].pc;
               && (now.Crashed? || ReportedKind(now) == ReportedKind(was))
               && (was.Crashed? ==> now.Crashed?)
  {
    if IsOutside(step) {
      OutsideReports(cfg, s, step);
    }
  }

  lemma OutsideReports(cfg: Config, s: State, step: Step)
    requires Enabled(cfg, s, step) && IsOutside(step)
    ensures var t := Apply(cfg, s, step);
            && step.id in s.calls && step.id in t.calls && t.written == s.written && t.durable == s.durable
            && ReportedKind(t.calls[step.id].pc) == None
            && (step.Crash? || ReportedKind(s.calls[step.id].pc) == None)
            && (step.Crash? ==> t.calls[step.id].pc == Crashed)
            && (s.calls[step.id].pc.Crashed? ==> step.Crash?)
  {
  }

  lemma AuthoredWrite(cfg: Config, s: State, id: nat, kind: Kind, ok: bool)
    requires Authored(s) && Enabled(cfg, s, Write(id, kind, ok))
    ensures Authored(Apply(cfg, s, Write(id, kind, ok)))
  {
  }

  lemma AuthoredStep(cfg: Config, s: State, step: Step)
    requires Authored(s) && Enabled(cfg, s, step)
    ensures Authored(Apply(cfg, s, step))
  {
    if step.Write? {
      AuthoredWrite(cfg, s, step.id, step.kind, step.ok);
    } else if !step.Begin? && !step.Purge? && !step.Rewind? {
      OnlyOwnCall(cfg, s, step);
      MovesPastWrite(cfg, s, step);
    }
  }

  lemma SignedStep(cfg: Config, s: State, step: Step)
    requires !cfg.writeFaults && Signed(s) && Enabled(cfg, s, step)
    ensures Signed(Apply(cfg, s, step))
  {
    if !step.Begin? && !step.Purge? && !step.Rewind? {
      OnlyOwnCall(cfg, s, step);
      if !step.Write? {
        MovesPastWrite(cfg, s, step);
      }
    }
  }

  lemma {:induction false} AuthorsAlong(cfg: Config, trace: seq<Step>, s: State)
    requires !cfg.writeFaults && Leads(cfg, trace, s)
    ensures Authored(s) && Signed(s)
    decreases |trace|
  {
    if trace != [] {
      var last := |trace| - 1;
      var p :| Leads(cfg, trace[..last], p) && Enabled(cfg, p, trace[last]) && s == Apply(cfg, p, trace[last]);
      AuthorsAlong(cfg, trace[..last], p);
      AuthoredStep(cfg, p, trace[last]);
      SignedStep(cfg, p, trace[last]);
    }
  }

  lemma WritersAgree(s: State)
    requires Authored(s) && Signed(s) && s.written <= s.passed && (s.written != {} ==> s.durable.Some?)
    requires forall a, b :: a in s.passed && b in s.passed ==> a == b
    ensures DoneAgrees(s)
  {
    forall id, kind | IsAt(s, id, Finished(Done(kind))) ensures s.durable == Some(Outcome(kind, id)) {
      assert ReportedKind(s.calls[id].pc) == Some(kind);
      assert id in s.written;
    }
  }

  lemma OneLetThrough(s: State)
    requires Tidy(s) && Ranked(s) && s.passed * s.superseded == {}
    ensures forall a, b :: a in s.passed && b in s.passed ==> a == b
  {
    forall a, b | a in s.passed && b in s.passed ensures a == b {
      assert a !in s.passed * s.superseded && b !in s.passed * s.superseded;
      assert s.turn[a] < s.turn[b] || s.turn[b] < s.turn[a] || a == b;
    }
  }

  /**
   Takeovers, rollbacks, purges and crashes may all happen: if the ledger works and no call that the
   guard let through was superseded before its write, every reported outcome is the durable one.
   */
  lemma ReportsAreDurable(cfg: Config, s: State)
    requires !cfg.readFaults && !cfg.writeFaults && Reachable(cfg, s) && s.passed * s.superseded == {}
    ensures DoneAgrees(s) && |s.acted| <= 1
  {
    var trace :| Leads(cfg, trace, s);
    RankedAlong(cfg, trace, s);
    AuthorsAlong(cfg, trace, s);
    OneLetThrough(s);
    AtMostOne(s.acted);
    WritersAgree(s);
  }

  // ---------------------------------------------------------------------------------------------
  // Exactness: runs that break a guarantee, and the guarantee everywhere else
  // ---------------------------------------------------------------------------------------------

  lemma Advance(cfg: Config, s: State, step: Step) returns (t: State)
    requires Reachable(cfg, s) && Enabled(cfg, s, step)
    ensures Reachable(cfg, t) && t == Apply(cfg, s, step)
  {
    t := Apply(cfg, s, step);
    Extend(cfg, s, step);
  }

  lemma BeginRun(cfg: Config, s: State, id: nat, op: Op) returns (t: State)
    requires Reachable(cfg, s) && id !in s.calls
    ensures Reachable(cfg, t) && t == s.(calls := s.calls[id := Call(op, AtClaim, s.durable.Some?)])
  {
    t := Advance(cfg, s, Begin(id, op));
  }

  lemma ClaimRun(cfg: Config, s: State, id: nat, op: Op, clock: nat) returns (t: State)
    requires Reachable(cfg, s) && id !in s.calls && ScriptClaim(s.redis, id, clock, cfg.claimTtl).Ok?
    requires cfg.takeovers || !IsHeld(s.redis)
    ensures Reachable(cfg, t)
    ensures t.calls == s.calls[id := Call(op, AtGuard, s.durable.Some?)]
    ensures t.redis == Some(ScriptClaim(s.redis, id, clock, cfg.claimTtl).value) && t.durable == s.durable
    ensures t.superseded == s.superseded + (s.turn.Keys - s.written) && s.seen <= t.seen
    ensures t.turn.Keys == s.turn.Keys + {id} && t.acted == s.acted && t.written == s.written
  {
    var a := BeginRun(cfg, s, id, op);
    t := WinRun(cfg, a, id, clock);
    assert t.calls == s.calls[id := Call(op, AtGuard, s.durable.Some?)];
  }

  lemma WinRun(cfg: Config, s: State, id: nat, clock: nat) returns (t: State)
    requires Reachable(cfg, s) && Enabled(cfg, s, ClaimWins(id, clock, true))
    ensures Reachable(cfg, t) && t.calls == s.calls[id := s.calls[id].(pc := AtGuard)]
    ensures t.redis == Some(ScriptClaim(s.redis, id, clock, cfg.claimTtl).value) && t.durable == s.durable
    ensures t.superseded == s.superseded + (s.turn.Keys - s.written) && s.seen <= t.seen
    ensures t.turn.Keys == s.turn.Keys + {id} && t.acted == s.acted && t.written == s.written
  {
    t := Advance(cfg, s, ClaimWins(id, clock, true));
  }

  /** A fresh call claims and meets the guard. */
  lemma EnterRun(cfg: Config, s: State, id: nat, op: Op, clock: nat, readOk: bool) returns (t: State)
    requires Reachable(cfg, s) && id !in s.calls && ScriptClaim(s.redis, id, clock, cfg.claimTtl).Ok?
    requires (cfg.takeovers || !IsHeld(s.redis)) && (readOk || cfg.readFaults)
    ensures Reachable(cfg, t)
    ensures t.calls == s.calls[id := Call(op, if readOk && s.durable.Some? then AtReconcile else AtLearn, s.durable.Some?)]
    ensures t.redis == Some(ScriptClaim(s.redis, id, clock, cfg.claimTtl).value) && t.durable == s.durable
    ensures t.superseded == s.superseded + (s.turn.Keys - s.written) && s.seen <= t.seen
    ensures t.turn.Keys == s.turn.Keys + {id} && t.acted == s.acted && t.written == s.written
  {
    var b := ClaimRun(cfg, s, id, op, clock);
    t := Advance(cfg, b, Guard(id, readOk));
    assert t.calls == s.calls[id := t.calls[id]];
  }

  /** The first call decides, and stands before its ledger write. */
  lemma DecideRun(cfg: Config, op: Op) returns (s: State)
    ensures Reachable(cfg, s)
    ensures var kind := if op.Approve? then Approved else Denied;
            && s.calls == map[0 := Call(op, AtWrite(kind), false)]
            && s.redis == Some(Record(Claimed(0, cfg.claimTtl), None)) && s.durable == None
            && s.turn.Keys == {0} && s.acted == {0} && s.written == {} && s.superseded == {}
            && Record(Pending, None) in s.seen
  {
    InitReachable(cfg);
    var a := EnterRun(cfg, Init(), 0, op, 0, true);
    if op.Approve? {
      var b := Advance(cfg, a, Learn(0));
      s := Advance(cfg, b, Execute(0, true));
    } else {
      s := Advance(cfg, a, AuditDenial(0));
    }
  }

  /** The first call writes its outcome and crashes before the volatile store learns of it. */
  lemma CrashRun(cfg: Config, op: Op) returns (s: State)
    ensures Reachable(cfg, s)
    ensures var kind := if op.Approve? then Approved else Denied;
            && s.calls == map[0 := Call(op, Crashed, false)] && s.durable == Some(Outcome(kind, 0))
            && s.redis == Some(Record(Claimed(0, cfg.claimTtl), None))
            && s.turn.Keys == {0} && s.acted == {0} && s.written == {0} && s.superseded == {}
            && Record(Pending, None) in s.seen
  {
    var a := DecideRun(cfg, op);
    var b := Advance(cfg, a, Write(0, if op.Approve? then Approved else Denied, true));
    s := Advance(cfg, b, Crash(0));
  }

  /** A second call claims over the first: its claim has expired, or the record came back as it was created. */
  lemma EnterAgainRun(cfg: Config, s: State, op: Op, readOk: bool) returns (t: State)
    requires Reachable(cfg, s) && !ClaimsLast(cfg) && 1 !in s.calls && (readOk || cfg.readFaults)
    requires s.redis == Some(Record(Claimed(0, cfg.claimTtl), None)) && Record(Pending, None) in s.seen
    ensures Reachable(cfg, t) && Owns(t.redis, 1) && t.redis.value.marker == None && t.durable == s.durable
    ensures t.calls == s.calls[1 := Call(op, if readOk && s.durable.Some? then AtReconcile else AtLearn, s.durable.Some?)]
    ensures t.superseded == s.superseded + (s.turn.Keys - s.written)
    ensures t.turn.Keys == s.turn.Keys + {1} && t.acted == s.acted && t.written == s.written
  {
    var r := s;
    if !cfg.takeovers {
      r := Advance(cfg, s, Rewind(Record(Pending, None)));
    }
    t := EnterRun(cfg, r, 1, op, cfg.claimTtl, readOk);
  }

  lemma LostWriteRun(cfg: Config) returns (s: State)
    requires cfg.writeFaults
    ensures Reachable(cfg, s) && !TerminalIsDurable(s) && !DoneAgrees(s)
  {
    var a := DecideRun(cfg, Deny);
    var b := Advance(cfg, a, Write(0, Denied, false));
    var c := Advance(cfg, b, Mark(0, Denied, true));
    s := Advance(cfg, c, Complete(0, Denied, true));
    assert IsAt(s, 0, Finished(Done(Denied)));
    assert 0 in s.calls && AnswersTerminal(s.calls[0].pc);
  }

  /** A second call starts after the outcome, claims, and its guard cannot read. */
  lemma BlindGuardRun(cfg: Config) returns (s: State)
    requires cfg.readFaults && !ClaimsLast(cfg)
    ensures Reachable(cfg, s) && !LateIsInert(s) && !ActsAreClaimed(s)
  {
    var a := CrashRun(cfg, Deny);
    var b := EnterAgainRun(cfg, a, Deny, false);
    s := Advance(cfg, b, AuditDenial(1));
    assert 1 in s.calls && s.calls[1].late && 1 in s.acted;
    assert 0 in s.acted - s.superseded && 1 in s.acted - s.superseded;
  }

  /**
   The first call has denied but not yet written when the second claims, passes the guard and executes.
   Both write; the ledger keeps the denial, while the second call and the record report an approval.
   */
  lemma LostClaimRun(cfg: Config) returns (s: State)
    requires !ClaimsLast(cfg)
    ensures Reachable(cfg, s) && s.durable == Some(Outcome(Denied, 0)) && s.acted == {0, 1}
    ensures IsAt(s, 1, Finished(Done(Approved)))
    ensures s.redis.Some? && s.redis.value.phase == Completed(Approved)
  {
    var a := DecideRun(cfg, Deny);
    var b := EnterAgainRun(cfg, a, Approve, true);
    var c := ExecuteRun(cfg, b);
    var d := Advance(cfg, c, Write(0, Denied, true));
    assert d.calls[1] == c.calls[1];
    s := FinalizeRun(cfg, d);
  }

  lemma ExecuteRun(cfg: Config, s: State) returns (t: State)
    requires Reachable(cfg, s) && IsAt(s, 1, AtLearn) && s.calls[1].op.Approve?
    ensures Reachable(cfg, t) && t.redis == s.redis && t.durable == s.durable && t.acted == s.acted + {1}
    ensures t.calls == s.calls[1 := s.calls[1].(pc := AtWrite(Approved))]
  {
    var a := Advance(cfg, s, Learn(1));
    t := Advance(cfg, a, Execute(1, true));
  }

  lemma FinalizeRun(cfg: Config, s: State) returns (t: State)
    requires Reachable(cfg, s) && IsAt(s, 1, AtWrite(Approved)) && s.durable.Some? && Owns(s.redis, 1)
    ensures Reachable(cfg, t) && t.durable == s.durable && t.acted == s.acted && IsAt(t, 1, Finished(Done(Approved)))
    ensures t.redis.Some? && t.redis.value.phase == Completed(Approved)
  {
    var a := Advance(cfg, s, Write(1, Approved, true));
    var b := Advance(cfg, a, Mark(1, Approved, true));
    t := Advance(cfg, b, Complete(1, Approved, true));
  }

  /**
   A failed ledger write is logged and ignored, so the volatile record can turn terminal without a
   durable outcome. A terminal record or reply has a durable outcome behind it in every reachable
   state, through crashes and store loss, if and only if ledger writes do not fail.
   */
  lemma TerminalIsDurableExactly(cfg: Config)
    ensures (forall s :: Reachable(cfg, s) ==> TerminalIsDurable(s)) <==> !cfg.writeFaults
  {
    if cfg.writeFaults {
      var s := LostWriteRun(cfg);
    } else {
      forall s | Reachable(cfg, s) ensures TerminalIsDurable(s) {
        var trace :| Leads(cfg, trace, s);
        BackedAlong(cfg, trace, s);
      }
    }
  }

  /**
   A guard that cannot read the ledger lets the call through. Calls started after a durable outcome
   learn nothing, act on nothing and write nothing, whatever the volatile store holds, if and only if
   ledger reads do not fail or no claim can be lost.
   */
  lemma LateIsInertExactly(cfg: Config)
    ensures (forall s :: Reachable(cfg, s) ==> LateIsInert(s)) <==> !cfg.readFaults || ClaimsLast(cfg)
  {
    if !cfg.readFaults {
      forall s | Reachable(cfg, s) ensures LateIsInert(s) {
        var trace :| Leads(cfg, trace, s);
        LateAlong(cfg, trace, s);
      }
    } else if ClaimsLast(cfg) {
      forall s | Reachable(cfg, s) ensures LateIsInert(s) {
        var trace :| Leads(cfg, trace, s);
        StaysUndisturbed(cfg, trace, s);
        OneOutcome(cfg, s);
      }
    } else {
      var s := BlindGuardRun(cfg);
    }
  }

  /**
   Among the calls that act, all but one were superseded before their ledger write; so there are at
   most one more of them than superseded ones. This holds through claim expiry, crashes and store
   loss if and only if ledger reads do not fail or no claim can be lost.
   */
  lemma ActsAreClaimedExactly(cfg: Config)
    ensures (forall s :: Reachable(cfg, s) ==> ActsAreClaimed(s)) <==> !cfg.readFaults || ClaimsLast(cfg)
  {
    if !cfg.readFaults {
      forall s | Reachable(cfg, s) ensures ActsAreClaimed(s) {
        ActsBound(cfg, s);
      }
    } else if ClaimsLast(cfg) {
      forall s | Reachable(cfg, s) ensures ActsAreClaimed(s) {
        var trace :| Leads(cfg, trace, s);
        StaysUndisturbed(cfg, trace, s);
        OneOutcome(cfg, s);
      }
    } else {
      var s := BlindGuardRun(cfg);
    }
  }

  /** At most one call acts in every run, if and only if no claim can be lost. */
  lemma OneActExactly(cfg: Config)
    ensures (forall s :: Reachable(cfg, s) ==> |s.acted| <= 1) <==> ClaimsLast(cfg)
  {
    if ClaimsLast(cfg) {
      forall s | Reachable(cfg, s) ensures |s.acted| <= 1 {
        var trace :| Leads(cfg, trace, s);
        StaysUndisturbed(cfg, trace, s);
        OneOutcome(cfg, s);
      }
    } else {
      var s := LostClaimRun(cfg);
      assert |s.acted| == 2;
    }
  }

  /**
   Record, replies and ledger agree in every reachable state if and only if ledger writes do not fail
   and no claim can be lost. The same condition is exact for the calls that report an outcome alone.
   */
  lemma AgreementExactly(cfg: Config)
    ensures (forall s :: Reachable(cfg, s) ==> Agrees(s)) <==> !cfg.writeFaults && ClaimsLast(cfg)
    ensures (forall s :: Reachable(cfg, s) ==> DoneAgrees(s)) <==> !cfg.writeFaults && ClaimsLast(cfg)
  {
    if cfg.writeFaults {
      var s := LostWriteRun(cfg);
      assert !Agrees(s);
    } else if !ClaimsLast(cfg) {
      var s := LostClaimRun(cfg);
      assert !DoneAgrees(s) && !Agrees(s);
    } else {
      forall s | Reachable(cfg, s) ensures Agrees(s) {
        var trace :| Leads(cfg, trace, s);
        StaysUndisturbed(cfg, trace, s);
        OneOutcome(cfg, s);
      }
    }
  }

  /**
   A later claim that finds an outcome marks the record failed, whatever the outcome was: the ledger
   says approved while the volatile record says failed.
   */
  lemma TakeoverContradictsLedger(cfg: Config)
    requires !ClaimsLast(cfg)
    ensures exists s :: Reachable(cfg, s) && s.durable.Some? && s.durable.value.kind == Approved &&
                        s.redis == Some(Record(Completed(Failed), None))
  {
    var a := CrashRun(cfg, Approve);
    var b := EnterAgainRun(cfg, a, Approve, true);
    var s := Advance(cfg, b, Reconcile(1, true));
  }
}
