/**
 The approval protocol of `crates/latchgate-api/src/approvals.rs` for one approval.

 Any number of operator calls approve or deny the request. They share a volatile record (Redis) and a
 durable outcome table (SQLite). The volatile record changes only through three atomic scripts; it can
 be purged or come back in an older version at any moment. A call can crash between any two steps, a
 store can be unavailable, and the claim of a slow or crashed call expires. Each access is one step.
 */
module Approvals {
  import opened Wrappers

  datatype Kind = Approved | Denied | Failed

  datatype Phase = Pending | Claimed(token: nat, expires: nat) | Completed(kind: Kind)

  datatype Record = Record(phase: Phase, marker: Option<Kind>)

  datatype ClaimError = NotFound | AlreadyClaimed | AlreadyCompleted

  // ---------------------------------------------------------------------------------------------
  // The scripts of the volatile store and the ledger insert
  // ---------------------------------------------------------------------------------------------

  function ScriptClaim(r: Option<Record>, token: nat, now: nat, ttl: nat): Result<Record, ClaimError> {
    match r
    case None => Err(NotFound)
    case Some(record) =>
      if record.marker.Some? || record.phase.Completed? then Err(AlreadyCompleted)
      else if record.phase.Claimed? && now < record.phase.expires then Err(AlreadyClaimed)
      else Ok(record.(phase := Claimed(token, now + ttl)))
  }

  /**
   A claim lasts for exactly its TTL: until then every other claim is refused as taken, and from then on
   it is granted, whatever TTL the later claim asks for.
   */
  lemma ClaimLastsItsTtl(r: Option<Record>, a: nat, now: nat, ttl: nat, b: nat, later: nat, ttl2: nat)
    requires ScriptClaim(r, a, now, ttl).Ok?
    ensures var again := ScriptClaim(Some(ScriptClaim(r, a, now, ttl).value), b, later, ttl2);
            && (again == Err(AlreadyClaimed) <==> later < now + ttl)
            && (again.Ok? <==> now + ttl <= later)
            && (again.Ok? ==> Owns(Some(again.value), b) && (a != b ==> !Owns(Some(again.value), a)))
  {
  }

  /** Someone's claim is on the record. */
  predicate IsHeld(r: Option<Record>) {
    r.Some? && r.value.phase.Claimed?
  }

  predicate Owns(r: Option<Record>, token: nat) {
    r.Some? && r.value.phase.Claimed? && r.value.phase.token == token
  }

  function ScriptMark(r: Option<Record>, token: nat, kind: Kind): Option<Record> {
    if Owns(r, token) && r.value.marker.None? then Some(r.value.(marker := Some(kind))) else r
  }

  function ScriptComplete(r: Option<Record>, token: nat, kind: Kind): Option<Record> {
    if Owns(r, token) then Some(r.value.(phase := Completed(kind))) else r
  }

  /**
   A record that its claimant has marked or completed can never be claimed again; the first marker stays;
   and nobody else changes the record.
   */
  lemma FinishedIsFinal(r: Option<Record>, token: nat, kind: Kind, other: Kind, id: nat, later: nat, ttl: nat)
    ensures Owns(r, token) ==>
              && ScriptClaim(ScriptMark(r, token, kind), id, later, ttl) == Err(AlreadyCompleted)
              && ScriptClaim(ScriptComplete(r, token, kind), id, later, ttl) == Err(AlreadyCompleted)
              && ScriptComplete(ScriptComplete(r, token, kind), token, other) == ScriptComplete(r, token, kind)
    ensures ScriptMark(ScriptMark(r, token, kind), token, other) == ScriptMark(r, token, kind)
    ensures !Owns(r, token) ==> ScriptMark(r, token, kind) == r == ScriptComplete(r, token, kind)
  {
  }

  datatype Outcome = Outcome(kind: Kind, writer: nat)

  /** `INSERT OR IGNORE`: the first outcome stays. */
  function LedgerInsert(d: Option<Outcome>, kind: Kind, writer: nat): Option<Outcome> {
    if d.Some? then d else Some(Outcome(kind, writer))
  }

  /** A record that reports a terminal state: completed, or claimed with an outcome marker. */
  function EffectiveKind(r: Record): Option<Kind> {
    match r.phase
    case Completed(kind) => Some(kind)
    case Claimed(_, _) => r.marker
    case Pending => None
  }

  // ---------------------------------------------------------------------------------------------
  // Calls and steps
  // ---------------------------------------------------------------------------------------------

  datatype Op = Approve | Deny

  datatype Reply =
    | Refused                            // authentication, rate limit, draining, bad domain
    | AlreadyDone(known: Option<Kind>)   // idempotent terminal response
    | Conflict | Missing | Unavailable
    | BadPath                            // learn-path rejection after the claim
    | Done(kind: Kind)

  datatype Pc =
    | AtClaim
    | AtStatus | AtFallback(missing: bool)
    | AtGuard | AtReconcile
    | AtLearn | AtPrepare
    | AtWrite(kind: Kind) | AtMark(kind: Kind) | AtComplete(kind: Kind)
    | Finished(reply: Reply)
    | Crashed

  /** `late`: a durable outcome existed when the call started. */
  datatype Call = Call(op: Op, pc: Pc, late: bool)

  /**
   What a run may contain: failing ledger reads and writes, claims taken over after their expiry, and a
   volatile record that comes back in an older version. Purges, crashes and unreachable stores always may.
   */
  datatype Config = Config(claimTtl: nat, readFaults: bool, writeFaults: bool, takeovers: bool, rewinds: bool)

  /**
   `turn` numbers the calls in the order in which they claimed; `passed` holds those the durable-outcome
   guard let through, and `written` those whose ledger write succeeded. A call is in `superseded` when
   another call claimed after it and before its ledger write.
   */
  datatype State = State(
    redis: Option<Record>, seen: set<Record>, durable: Option<Outcome>, calls: map<nat, Call>,
    turn: map<nat, nat>, passed: set<nat>, learned: set<nat>, acted: set<nat>, written: set<nat>,
    superseded: set<nat>, rewound: bool, reclaimed: bool)

  datatype Step =
    | Begin(id: nat, op: Op)
    | Refuse(id: nat)
    | ClaimWins(id: nat, clock: nat, heard: bool)  // not heard: the reply of the store is lost
    | ClaimLoses(id: nat, clock: nat)
    | ClaimUnreachable(id: nat)
    | Status(id: nat, ok: bool)
    | Fallback(id: nat, readOk: bool)
    | Guard(id: nat, readOk: bool)
    | Reconcile(id: nat, ok: bool)
    | RejectPath(id: nat)
    | Learn(id: nat)
    | PrepareFails(id: nat)
    | Execute(id: nat, succeeds: bool)
    | AuditDenial(id: nat)
    | Write(id: nat, kind: Kind, ok: bool)
    | Mark(id: nat, kind: Kind, ok: bool)
    | Complete(id: nat, kind: Kind, ok: bool)
    | Crash(id: nat)
    | Purge
    | Rewind(version: Record)

  function Init(): State {
    var created := Record(Pending, None);
    State(Some(created), {created}, None, map[], map[], {}, {}, {}, {}, {}, false, false)
  }

  predicate IsAt(s: State, id: nat, pc: Pc) {
    id in s.calls && s.calls[id].pc == pc
  }

  predicate Enabled(cfg: Config, s: State, step: Step) {
    match step
    case Begin(id, op) => id !in s.calls
    case Refuse(id) => IsAt(s, id, AtClaim)
    case ClaimWins(id, clock, heard) =>
      && IsAt(s, id, AtClaim) && ScriptClaim(s.redis, id, clock, cfg.claimTtl).Ok?
      && (cfg.takeovers || !IsHeld(s.redis))
    case ClaimLoses(id, clock) => IsAt(s, id, AtClaim) && ScriptClaim(s.redis, id, clock, cfg.claimTtl).Err?
    case ClaimUnreachable(id) => IsAt(s, id, AtClaim)
    case Status(id, ok) => IsAt(s, id, AtStatus)
    case Fallback(id, readOk) => id in s.calls && s.calls[id].pc.AtFallback? && (readOk || cfg.readFaults)
    case Guard(id, readOk) => IsAt(s, id, AtGuard) && (readOk || cfg.readFaults)
    case Reconcile(id, ok) => IsAt(s, id, AtReconcile)
    case RejectPath(id) => IsAt(s, id, AtLearn) && s.calls[id].op.Approve?
    case Learn(id) => IsAt(s, id, AtLearn) && s.calls[id].op.Approve?
    case PrepareFails(id) => IsAt(s, id, AtPrepare)
    case Execute(id, succeeds) => IsAt(s, id, AtPrepare)
    case AuditDenial(id) => IsAt(s, id, AtLearn) && s.calls[id].op.Deny?
    case Write(id, kind, ok) => IsAt(s, id, AtWrite(kind)) && (ok || cfg.writeFaults)
    case Mark(id, kind, ok) => IsAt(s, id, AtMark(kind))
    case Complete(id, kind, ok) => IsAt(s, id, AtComplete(kind))
    case Crash(id) => id in s.calls && !s.calls[id].pc.Finished?
    case Purge => true
    case Rewind(record) => cfg.rewinds && record in s.seen
  }

  function Goto(s: State, id: nat, pc: Pc): State
    requires id in s.calls
  {
    s.(calls := s.calls[id := s.calls[id].(pc := pc)])
  }

  function Store(s: State, r: Option<Record>): State {
    s.(redis := r, seen := if r.Some? then s.seen + {r.value} else s.seen)
  }

  function Apply(cfg: Config, s: State, step: Step): State
    requires Enabled(cfg, s, step)
  {
    match step
    case Begin(id, op) => s.(calls := s.calls[id := Call(op, AtClaim, s.durable.Some?)])
    case Refuse(id) => Goto(s, id, Finished(Refused))
    case ClaimWins(id, clock, heard) =>
      var claimed := ScriptClaim(s.redis, id, clock, cfg.claimTtl).value;
      var t := Store(Goto(s, id, if heard then AtGuard else AtFallback(false)), Some(claimed));
      t.(turn := s.turn[id := |s.turn|],
         superseded := s.superseded + (s.turn.Keys - s.written),
         reclaimed := s.reclaimed || IsHeld(s.redis))
    case ClaimLoses(id, clock) =>
      (match ScriptClaim(s.redis, id, clock, cfg.claimTtl).error
       case AlreadyCompleted => Goto(s, id, AtStatus)
       case AlreadyClaimed => Goto(s, id, Finished(Conflict))
       case NotFound => Goto(s, id, AtFallback(true)))
    case ClaimUnreachable(id) => Goto(s, id, AtFallback(false))
    case Status(id, ok) =>
      if ok && s.redis.Some? then Goto(s, id, Finished(AlreadyDone(EffectiveKind(s.redis.value))))
      else Goto(s, id, Finished(Missing))
    case Fallback(id, readOk) =>
      if readOk && s.durable.Some? then Goto(s, id, Finished(AlreadyDone(Some(s.durable.value.kind))))
      else Goto(s, id, Finished(if s.calls[id].pc.missing then Missing else Unavailable))
    case Guard(id, readOk) =>
      if readOk && s.durable.Some? then Goto(s, id, AtReconcile)
      else Goto(s, id, AtLearn).(passed := s.passed + {id})
    case Reconcile(id, ok) =>
      Store(Goto(s, id, Finished(Conflict)), if ok then ScriptComplete(s.redis, id, Failed) else s.redis)
    case RejectPath(id) => Goto(s, id, Finished(BadPath))
    case Learn(id) => Goto(s, id, AtPrepare).(learned := s.learned + {id})
    case PrepareFails(id) => Goto(s, id, AtWrite(Failed))
    case Execute(id, succeeds) =>
      Goto(s, id, AtWrite(if succeeds then Approved else Failed)).(acted := s.acted + {id})
    case AuditDenial(id) => Goto(s, id, AtWrite(Denied)).(acted := s.acted + {id})
    case Write(id, kind, ok) =>
      if ok
      then Goto(s, id, AtMark(kind)).(durable := LedgerInsert(s.durable, kind, id), written := s.written + {id})
      else Goto(s, id, AtMark(kind))
    case Mark(id, kind, ok) =>
      Store(Goto(s, id, AtComplete(kind)), if ok then ScriptMark(s.redis, id, kind) else s.redis)
    case Complete(id, kind, ok) =>
      Store(Goto(s, id, Finished(Done(kind))), if ok then ScriptComplete(s.redis, id, kind) else s.redis)
    case Crash(id) => Goto(s, id, Crashed)
    case Purge => s.(redis := None)
    case Rewind(record) => s.(redis := Some(record), rewound := true)
  }

  /** `trace` leads from a freshly created approval to `s`. */
  ghost predicate Leads(cfg: Config, trace: seq<Step>, s: State)
    decreases |trace|
  {
    if trace == [] then s == Init()
    else
      var last := |trace| - 1;
      exists p :: Leads(cfg, trace[..last], p) && Enabled(cfg, p, trace[last]) && s == Apply(cfg, p, trace[last])
  }

  ghost predicate Reachable(cfg: Config, s: State) {
    exists trace :: Leads(cfg, trace, s)
  }

  lemma InitReachable(cfg: Config)
    ensures Reachable(cfg, Init())
  {
    assert Leads(cfg, [], Init());
  }

  lemma Extend(cfg: Config, s: State, step: Step)
    requires Reachable(cfg, s) && Enabled(cfg, s, step)
    ensures Reachable(cfg, Apply(cfg, s, step))
  {
    var trace :| Leads(cfg, trace, s);
    assert (trace + [step])[..|trace|] == trace;
    assert Leads(cfg, trace + [step], Apply(cfg, s, step));
  }

  // ---------------------------------------------------------------------------------------------
  // Bookkeeping: where a call stands
  // ---------------------------------------------------------------------------------------------

  /** The call has been let through by the guard and is still at work. */
  predicate Working(pc: Pc) {
    pc.AtLearn? || pc.AtPrepare? || pc.AtWrite? || pc.AtMark? || pc.AtComplete?
  }

  /** A call claims at most once, and only claimants are past their claim. */
  ghost predicate ClaimsTidy(s: State) {
    && (forall id :: id in s.turn ==> id in s.calls && s.calls[id].pc != AtClaim && s.turn[id] < |s.turn|)
    && (forall a, b :: a in s.turn && b in s.turn && s.turn[a] == s.turn[b] ==> a == b)
    && (forall id :: id in s.calls && (s.calls[id].pc.AtGuard? || s.calls[id].pc.AtReconcile?) ==> id in s.turn)
  }

  ghost predicate WorkTidy(s: State) {
    && (forall id :: id in s.calls && Working(s.calls[id].pc) ==> id in s.passed)
    && s.acted <= s.passed && s.learned <= s.passed && s.written <= s.passed
  }

  ghost predicate Tidy(s: State) {
    ClaimsTidy(s) && WorkTidy(s) && s.passed <= s.turn.Keys
  }

  /** Where a step that neither claims nor decides the guard can take a call. */
  predicate Follows(before: Pc, after: Pc) {
    && (after.AtClaim? ==> before.AtClaim?)
    && (after.AtGuard? || after.AtReconcile? ==> before == after)
    && (Working(after) ==> Working(before))
  }

  ghost predicate CallsFollow(s: State, t: State) {
    && s.calls.Keys <= t.calls.Keys
    && (forall id :: id in s.calls ==> Follows(s.calls[id].pc, t.calls[id].pc))
    && (forall id :: id in t.calls && id !in s.calls ==> t.calls[id].pc == AtClaim)
  }

  /** A step that neither claims nor decides the guard. */
  predicate IsPlain(step: Step) {
    !step.ClaimWins? && !step.Guard?
  }

  ghost predicate OneMoves(s: State, t: State, id: nat) {
    && id in s.calls && id in t.calls && t.calls == s.calls[id := t.calls[id]]
    && Follows(s.calls[id].pc, t.calls[id].pc)
    && t.calls[id].op == s.calls[id].op && t.calls[id].late == s.calls[id].late
  }

  /** A step of a call that has not claimed, or a crash. */
  predicate IsOutside(step: Step) {
    || step.Refuse? || step.ClaimLoses? || step.ClaimUnreachable? || step.Status? || step.Fallback? || step.Crash?
  }

  /** Such a step changes nothing but the position of its call. */
  lemma OutsideIsLocal(cfg: Config, s: State, step: Step)
    requires Enabled(cfg, s, step) && IsOutside(step)
    ensures Apply(cfg, s, step) == s.(calls := Apply(cfg, s, step).calls)
  {
  }

  lemma OutsideMoves(cfg: Config, s: State, step: Step)
    requires Enabled(cfg, s, step) && IsOutside(step)
    ensures OneMoves(s, Apply(cfg, s, step), step.id)
  {
    var t := Apply(cfg, s, step);
    assert t == Goto(s, step.id, t.calls[step.id].pc);
  }

  lemma OneCallMoves(cfg: Config, s: State, step: Step)
    requires Enabled(cfg, s, step) && IsPlain(step) && !step.Begin? && !step.Purge? && !step.Rewind?
    ensures OneMoves(s, Apply(cfg, s, step), step.id)
  {
    if IsOutside(step) {
      OutsideMoves(cfg, s, step);
    }
  }

  lemma PlainCalls(cfg: Config, s: State, step: Step)
    requires Enabled(cfg, s, step) && IsPlain(step)
    ensures CallsFollow(s, Apply(cfg, s, step))
  {
    if step.Purge? || step.Rewind? {
      assert Apply(cfg, s, step).calls == s.calls;
    } else if !step.Begin? {
      OneCallMoves(cfg, s, step);
    }
  }

  lemma PlainLog(cfg: Config, s: State, step: Step)
    requires Enabled(cfg, s, step) && IsPlain(step)
    ensures var t := Apply(cfg, s, step);
            && t.turn == s.turn && t.passed == s.passed && t.superseded == s.superseded
            && s.written <= t.written && (t.written != s.written ==> t.durable.Some?)
            && (s.durable.Some? ==> t.durable.Some?)
  {
  }

  lemma ClaimsTidyKept(s: State, t: State)
    requires ClaimsTidy(s) && CallsFollow(s, t) && t.turn == s.turn
    ensures ClaimsTidy(t)
  {
  }

  lemma ClaimsTidyClaim(cfg: Config, s: State, id: nat, clock: nat, heard: bool)
    requires ClaimsTidy(s) && Enabled(cfg, s, ClaimWins(id, clock, heard))
    ensures ClaimsTidy(Apply(cfg, s, ClaimWins(id, clock, heard)))
  {
    var t := Apply(cfg, s, ClaimWins(id, clock, heard));
    assert t.turn.Keys == s.turn.Keys + {id};
    assert |t.turn| == |s.turn| + 1;
  }

  lemma ClaimsTidyGuard(cfg: Config, s: State, id: nat, readOk: bool)
    requires ClaimsTidy(s) && Enabled(cfg, s, Guard(id, readOk))
    ensures ClaimsTidy(Apply(cfg, s, Guard(id, readOk)))
  {
  }

  lemma ClaimsTidyStep(cfg: Config, s: State, step: Step)
    requires ClaimsTidy(s) && Enabled(cfg, s, step)
    ensures ClaimsTidy(Apply(cfg, s, step))
  {
    if step.ClaimWins? {
      ClaimsTidyClaim(cfg, s, step.id, step.clock, step.heard);
    } else if step.Guard? {
      ClaimsTidyGuard(cfg, s, step.id, step.readOk);
    } else {
      PlainCalls(cfg, s, step);
      PlainLog(cfg, s, step);
      ClaimsTidyKept(s, Apply(cfg, s, step));
    }
  }

  lemma PassedStep(cfg: Config, s: State, step: Step)
    requires ClaimsTidy(s) && s.passed <= s.turn.Keys && Enabled(cfg, s, step)
    ensures var t := Apply(cfg, s, step); t.passed <= t.turn.Keys
  {
    if IsPlain(step) {
      PlainLog(cfg, s, step);
    }
  }

  lemma WorkTidyStep(cfg: Config, s: State, step: Step)
    requires WorkTidy(s) && Enabled(cfg, s, step)
    ensures WorkTidy(Apply(cfg, s, step))
  {
    WorkLog(cfg, s, step);
    var t := Apply(cfg, s, step);
    if step.ClaimWins? || step.Guard? {
      assert t.calls == s.calls[step.id := t.calls[step.id]];
    } else {
      PlainCalls(cfg, s, step);
    }
  }

  lemma WorkLog(cfg: Config, s: State, step: Step)
    requires WorkTidy(s) && Enabled(cfg, s, step)
    ensures var t := Apply(cfg, s, step);
            s.passed <= t.passed && t.acted <= t.passed && t.learned <= t.passed && t.written <= t.passed
  {
    if !step.Begin? && !step.Purge? && !step.Rewind? && Working(s.calls[step.id].pc) {
      assert step.id in s.passed;
    }
  }

  lemma TidyStep(cfg: Config, s: State, step: Step)
    requires Tidy(s) && Enabled(cfg, s, step)
    ensures Tidy(Apply(cfg, s, step))
  {
    ClaimsTidyStep(cfg, s, step);
    WorkTidyStep(cfg, s, step);
    PassedStep(cfg, s, step);
  }

  /** Nothing ever changes or removes a durable outcome. */
  lemma DurableIsForever(cfg: Config, s: State, step: Step)
    requires Enabled(cfg, s, step) && s.durable.Some?
    ensures Apply(cfg, s, step).durable == s.durable
  {
  }

  // ---------------------------------------------------------------------------------------------
  // How often the request can be acted on
  // ---------------------------------------------------------------------------------------------

  /** Whoever claimed earlier was superseded or had written; if both were let through, superseded. */
  ghost predicate Ranked(s: State) {
    && (s.written != {} ==> s.durable.Some?)
    && (forall a, b :: a in s.turn && b in s.turn && s.turn[a] < s.turn[b] ==> a in s.superseded || a in s.written)
    && (forall a, b :: a in s.turn && b in s.turn && s.turn[a] < s.turn[b] && a in s.passed && b in s.passed ==>
          a in s.superseded)
  }

  lemma RankedClaim(cfg: Config, s: State, id: nat, clock: nat, heard: bool)
    requires Tidy(s) && Ranked(s) && Enabled(cfg, s, ClaimWins(id, clock, heard))
    ensures Ranked(Apply(cfg, s, ClaimWins(id, clock, heard)))
  {
    assert id !in s.turn && id !in s.passed;
  }

  lemma RankedGuard(cfg: Config, s: State, id: nat)
    requires Tidy(s) && Ranked(s) && Enabled(cfg, s, Guard(id, true))
    ensures Ranked(Apply(cfg, s, Guard(id, true)))
  {
    assert s.durable.None? ==> s.written == {};
  }

  lemma RankedStep(cfg: Config, s: State, step: Step)
    requires !cfg.readFaults && Tidy(s) && Ranked(s) && Enabled(cfg, s, step)
    ensures Ranked(Apply(cfg, s, step))
  {
    match step
    case ClaimWins(id, clock, heard) => RankedClaim(cfg, s, id, clock, heard);
    case Guard(id, readOk) => RankedGuard(cfg, s, id);
    case _ => PlainLog(cfg, s, step);
  }

  lemma {:induction false} TidyAlong(cfg: Config, trace: seq<Step>, s: State)
    requires Leads(cfg, trace, s)
    ensures Tidy(s)
    decreases |trace|
  {
    if trace != [] {
      var last := |trace| - 1;
      var p :| Leads(cfg, trace[..last], p) && Enabled(cfg, p, trace[last]) && s == Apply(cfg, p, trace[last]);
      TidyAlong(cfg, trace[..last], p);
      TidyStep(cfg, p, trace[last]);
    }
  }

  lemma {:induction false} RankedAlong(cfg: Config, trace: seq<Step>, s: State)
    requires !cfg.readFaults && Leads(cfg, trace, s)
    ensures Tidy(s) && Ranked(s)
    decreases |trace|
  {
    TidyAlong(cfg, trace, s);
    if trace != [] {
      var last := |trace| - 1;
      var p :| Leads(cfg, trace[..last], p) && Enabled(cfg, p, trace[last]) && s == Apply(cfg, p, trace[last]);
      RankedAlong(cfg, trace[..last], p);
      RankedStep(cfg, p, trace[last]);
    }
  }

  lemma AtMostOne(ids: set<nat>)
    requires forall a, b :: a in ids && b in ids ==> a == b
    ensures |ids| <= 1
  {
    if a :| a in ids {
      assert ids == {a};
    }
  }

  /** At most one of the calls that act keeps its claim until its ledger write. */
  ghost predicate ActsAreClaimed(s: State) {
    && (forall a, b :: a in s.acted - s.superseded && b in s.acted - s.superseded ==> a == b)
    && |s.acted| <= 1 + |s.acted * s.superseded|
  }

  lemma ActsBound(cfg: Config, s: State)
    requires !cfg.readFaults && Reachable(cfg, s)
    ensures ActsAreClaimed(s)
  {
    var trace :| Leads(cfg, trace, s);
    RankedAlong(cfg, trace, s);
    var kept := s.acted - s.superseded;
    forall a, b | a in kept && b in kept ensures a == b {
      assert a in s.turn && b in s.turn;
      assert s.turn[a] < s.turn[b] || s.turn[b] < s.turn[a] || a == b;
    }
    AtMostOne(kept);
    assert s.acted == kept + s.acted * s.superseded;
    assert |s.acted| == |kept| + |s.acted * s.superseded|;
  }

  // ---------------------------------------------------------------------------------------------
  // What a terminal record and a terminal reply promise
  // ---------------------------------------------------------------------------------------------

  /** A step of one call changes that call only. */
  lemma OnlyOwnCall(cfg: Config, s: State, step: Step)
    requires Enabled(cfg, s, step) && !step.Begin? && !step.Purge? && !step.Rewind?
    ensures var t := Apply(cfg, s, step);
            && step.id in s.calls && step.id in t.calls && t.calls == s.calls[step.id := t.calls[step.id]]
            && t.calls[step.id].op == s.calls[step.id].op && t.calls[step.id].late == s.calls[step.id].late
  {
    assert Apply(cfg, s, step).calls == Goto(s, step.id, Apply(cfg, s, step).calls[step.id].pc).calls;
  }

  predicate Reports(r: Record) {
    r.phase.Completed? || r.marker.Some?
  }

  /** A call in this position has written, or has seen that someone had. */
  predicate PastWrite(pc: Pc) {
    || pc.AtMark? || pc.AtComplete? || pc.AtReconcile? || pc.AtStatus?
    || AnswersTerminal(pc)
  }

  ghost predicate BackedRecords(s: State) {
    && (s.redis.Some? ==> s.redis.value in s.seen)
    && (s.durable.None? ==> forall r :: r in s.seen ==> !Reports(r))
  }

  ghost predicate BackedCalls(s: State) {
    s.durable.None? ==> forall id :: id in s.calls ==> !PastWrite(s.calls[id].pc)
  }

  lemma BackedRecordsStep(cfg: Config, s: State, step: Step)
    requires !cfg.writeFaults && BackedRecords(s) && BackedCalls(s) && Enabled(cfg, s, step)
    ensures BackedRecords(Apply(cfg, s, step))
  {
    var t := Apply(cfg, s, step);
    if t.durable.None? {
      assert s.durable.None?;
      assert step.Mark? || step.Complete? || step.Reconcile? ==> PastWrite(s.calls[step.id].pc);
      assert t.redis.Some? && t.redis != s.redis ==> !Reports(t.redis.value);
    }
  }

  lemma BackedCallsStep(cfg: Config, s: State, step: Step)
    requires !cfg.writeFaults && BackedRecords(s) && BackedCalls(s) && Enabled(cfg, s, step)
    ensures BackedCalls(Apply(cfg, s, step))
  {
    if !step.Begin? && !step.Purge? && !step.Rewind? {
      OnlyOwnCall(cfg, s, step);
      if s.durable.None? {
        OwnCallBacked(cfg, s, step);
      }
    }
  }

  lemma OwnCallBacked(cfg: Config, s: State, step: Step)
    requires !cfg.writeFaults && Enabled(cfg, s, step) && !step.Begin? && !step.Purge? && !step.Rewind?
    requires s.durable.None? && step.id in s.calls && !PastWrite(s.calls[step.id].pc)
    requires s.redis.Some? ==> !Reports(s.redis.value)
    ensures var t := Apply(cfg, s, step); t.durable.None? ==> step.id in t.calls && !PastWrite(t.calls[step.id].pc)
  {
  }

  lemma {:induction false} BackedAlong(cfg: Config, trace: seq<Step>, s: State)
    requires !cfg.writeFaults && Leads(cfg, trace, s)
    ensures BackedRecords(s) && BackedCalls(s)
    decreases |trace|
  {
    if trace != [] {
      var last := |trace| - 1;
      var p :| Leads(cfg, trace[..last], p) && Enabled(cfg, p, trace[last]) && s == Apply(cfg, p, trace[last]);
      BackedAlong(cfg, trace[..last], p);
      BackedRecordsStep(cfg, p, trace[last]);
      BackedCallsStep(cfg, p, trace[last]);
    }
  }

  /** A record or a reply that claims a terminal state has a durable outcome behind it. */
  ghost predicate TerminalIsDurable(s: State) {
    && (s.redis.Some? && EffectiveKind(s.redis.value).Some? ==> s.durable.Some?)
    && (forall id :: id in s.calls && AnswersTerminal(s.calls[id].pc) ==> s.durable.Some?)
  }

  predicate AnswersTerminal(pc: Pc) {
    pc.Finished? && (pc.reply.Done? || pc.reply.AlreadyDone?)
  }

  // ---------------------------------------------------------------------------------------------
  // Calls that start after the outcome
  // ---------------------------------------------------------------------------------------------

  /** A call that started after a durable outcome existed has no effect. */
  ghost predicate LateIsInert(s: State) {
    forall id :: id in s.calls && s.calls[id].late ==>
      s.durable.Some? && id !in s.passed && id !in s.learned && id !in s.acted && id !in s.written
  }

  /** The guard is the only way into `passed`, and it stops calls that find an outcome. */
  lemma PassedGrows(cfg: Config, s: State, step: Step)
    requires !cfg.readFaults && Enabled(cfg, s, step) && !step.Begin? && !step.Purge? && !step.Rewind?
    ensures var t := Apply(cfg, s, step);
            && t.passed <= s.passed + {step.id}
            && (s.durable.Some? ==> t.passed == s.passed && t.durable.Some?)
  {
  }

  lemma LateKept(s: State, t: State, id: nat)
    requires LateIsInert(s) && WorkTidy(t) && id in s.calls && id in t.calls
    requires t.calls == s.calls[id := t.calls[id]] && t.calls[id].late == s.calls[id].late
    requires t.passed <= s.passed + {id} && (s.durable.Some? ==> t.passed == s.passed && t.durable.Some?)
    ensures LateIsInert(t)
  {
  }

  lemma LateStep(cfg: Config, s: State, step: Step)
    requires !cfg.readFaults && Tidy(s) && LateIsInert(s) && Enabled(cfg, s, step)
    ensures LateIsInert(Apply(cfg, s, step))
  {
    if step.Begin? {
      LateBegin(cfg, s, step.id, step.op);
    } else if step.Purge? || step.Rewind? {
      assert Apply(cfg, s, step).calls == s.calls;
    } else {
      TidyStep(cfg, s, step);
      OnlyOwnCall(cfg, s, step);
      PassedGrows(cfg, s, step);
      LateKept(s, Apply(cfg, s, step), step.id);
    }
  }

  lemma LateBegin(cfg: Config, s: State, id: nat, op: Op)
    requires Tidy(s) && LateIsInert(s) && Enabled(cfg, s, Begin(id, op))
    ensures LateIsInert(Apply(cfg, s, Begin(id, op)))
  {
    assert id !in s.turn;
  }

  lemma {:induction false} LateAlong(cfg: Config, trace: seq<Step>, s: State)
    requires !cfg.readFaults && Leads(cfg, trace, s)
    ensures LateIsInert(s)
    decreases |trace|
  {
    if trace != [] {
      var last := |trace| - 1;
      var p :| Leads(cfg, trace[..last], p) && Enabled(cfg, p, trace[last]) && s == Apply(cfg, p, trace[last]);
      LateAlong(cfg, trace[..last], p);
      TidyAlong(cfg, trace[..last], p);
      LateStep(cfg, p, trace[last]);
    }
  }
}
