/**
 `claim_or_short_circuit`, `write_outcome_and_finalize`, `approve_call` and `deny_call` as they run
 when nothing else runs: each method changes the two stores step by step, and each change is a step
 of the machine in module `Approvals`, so that every state it passes through is a reachable one.
 */
module ApprovalGate {
  import opened Wrappers
  import opened Approvals

  /** What the stores answer during one call. */
  datatype Weather = Weather(
    reachable: bool, heard: bool, statusOk: bool,   // the claim arrives, its reply does, the status read works
    readOk: bool, writeOk: bool,                    // ledger
    markOk: bool, completeOk: bool)                 // finalize

  predicate IsTerminal(r: Option<Record>) {
    r.Some? && (r.value.marker.Some? || r.value.phase.Completed?)
  }

  predicate IsBlocked(r: Option<Record>, clock: nat) {
    IsHeld(r) && r.value.marker.None? && clock < r.value.phase.expires
  }

  /** A call whose claim was not answered falls back on the ledger. */
  predicate FallsBack(r: Option<Record>, clock: nat, w: Weather) {
    !w.reachable || r.None? || (!IsTerminal(r) && !IsBlocked(r, clock) && !w.heard)
  }

  /** The kind a terminal record names: that of its completion, or of its marker while it is claimed. */
  predicate Names(r: Record, known: Option<Kind>) {
    match known
    case Some(kind) => r.phase == Completed(kind) || (r.phase.Claimed? && r.marker == Some(kind))
    case None => r.phase.Pending? || (r.phase.Claimed? && r.marker.None?)
  }

  /** Which state of the two stores earns a call that does not get in which reply. */
  predicate Earns(r: Option<Record>, d: Option<Outcome>, clock: nat, w: Weather, reply: Reply) {
    match reply
    case AlreadyDone(known) =>
      || (w.reachable && IsTerminal(r) && w.statusOk && Names(r.value, known))
      || (FallsBack(r, clock, w) && w.readOk && d.Some? && known == Some(d.value.kind))
    case Missing =>
      w.reachable && ((IsTerminal(r) && !w.statusOk) || (r.None? && !(w.readOk && d.Some?)))
    case Unavailable => FallsBack(r, clock, w) && (r.None? ==> !w.reachable) && !(w.readOk && d.Some?)
    case Conflict =>
      w.reachable && !IsTerminal(r) && (IsBlocked(r, clock) || (r.Some? && w.heard && w.readOk && d.Some?))
    case _ => false
  }

  /** No two replies are earned at once. */
  lemma OneReplyIsEarned(r: Option<Record>, d: Option<Outcome>, clock: nat, w: Weather, a: Reply, b: Reply)
    requires Earns(r, d, clock, w, a) && Earns(r, d, clock, w, b)
    ensures a == b
  {
  }

  class Gate {
    const cfg: Config
    var redis: Option<Record>
    var durable: Option<Outcome>
    ghost var m: State

    ghost predicate Valid()
      reads this
    {
      Reachable(cfg, m) && m.redis == redis && m.durable == durable
    }

    /** The configuration allows what the stores and the clock show. */
    predicate Possible(clock: nat, w: Weather)
      reads this
    {
      && (w.readOk || cfg.readFaults) && (w.writeOk || cfg.writeFaults)
      && (cfg.takeovers || !IsHeld(redis) || IsBlocked(redis, clock))
    }

    predicate LedgerFits(w: Weather)
      reads this
    {
      w.writeOk || cfg.writeFaults
    }

    /** The call gets past the claim and the durable-outcome guard. */
    predicate Enters(id: nat, clock: nat, w: Weather)
      reads this
    {
      w.reachable && w.heard && ScriptClaim(redis, id, clock, cfg.claimTtl).Ok? && !(w.readOk && durable.Some?)
    }

    constructor (cfg: Config)
      ensures Valid() && this.cfg == cfg && m == Init()
    {
      this.cfg := cfg;
      redis, durable := Some(Record(Pending, None)), None;
      m := Init();
      InitReachable(cfg);
    }

    ghost method Take(step: Step)
      requires Reachable(cfg, m) && Enabled(cfg, m, step)
      modifies this`m
      ensures Reachable(cfg, m) && m == Apply(cfg, old(m), step)
    {
      Extend(cfg, m, step);
      m := Apply(cfg, m, step);
    }

    /** The ledger answers for a volatile record that is missing or out of reach. */
    method FallBack(id: nat, missing: bool, w: Weather) returns (reply: Reply)
      requires Valid() && IsAt(m, id, AtFallback(missing)) && (w.readOk || cfg.readFaults)
      modifies this`m
      ensures Valid() && IsAt(m, id, Finished(reply)) && m.acted == old(m.acted) && m.calls[id].op == old(m.calls[id].op)
      ensures reply == if w.readOk && durable.Some? then AlreadyDone(Some(durable.value.kind))
                       else if missing then Missing else Unavailable
    {
      Take(Fallback(id, w.readOk));
      if w.readOk && durable.Some? { return AlreadyDone(Some(durable.value.kind)); }
      return if missing then Missing else Unavailable;
    }

    /** A claim that the store refuses. */
    method LoseClaim(id: nat, clock: nat, w: Weather, error: ClaimError) returns (reply: Reply)
      requires Valid() && IsAt(m, id, AtClaim) && w.reachable && (w.readOk || cfg.readFaults)
      requires ScriptClaim(redis, id, clock, cfg.claimTtl) == Err(error)
      modifies this`m
      ensures Valid() && IsAt(m, id, Finished(reply)) && m.acted == old(m.acted) && m.calls[id].op == old(m.calls[id].op)
      ensures Earns(redis, durable, clock, w, reply)
    {
      Take(ClaimLoses(id, clock));
      match error
      case AlreadyCompleted =>
        Take(Status(id, w.statusOk));
        return if w.statusOk then AlreadyDone(EffectiveKind(redis.value)) else Missing;
      case AlreadyClaimed =>
        return Conflict;
      case NotFound =>
        reply := FallBack(id, true, w);
    }

    /** The single guard against acting twice. */
    method MeetGuard(id: nat, w: Weather) returns (passes: bool)
      requires Valid() && IsAt(m, id, AtGuard) && (w.readOk || cfg.readFaults) && Owns(redis, id)
      modifies this
      ensures Valid() && durable == old(durable) && m.acted == old(m.acted)
      ensures passes <==> !(w.readOk && durable.Some?)
      ensures IsAt(m, id, if passes then AtLearn else Finished(Conflict)) && m.calls[id].op == old(m.calls[id].op)
      ensures passes ==> Owns(redis, id)
    {
      Take(Guard(id, w.readOk));
      if w.readOk && durable.Some? {
        Take(Reconcile(id, w.completeOk));
        if w.completeOk { redis := ScriptComplete(redis, id, Failed); }
        return false;
      }
      return true;
    }

    /** Claims, or gives the reply that ends the call. Never touches the durable outcome. */
    method ClaimOrShortCircuit(id: nat, clock: nat, w: Weather) returns (reply: Option<Reply>)
      requires Valid() && IsAt(m, id, AtClaim) && Possible(clock, w)
      modifies this
      ensures Valid() && durable == old(durable)
      ensures reply.None? <==> old(Enters(id, clock, w))
      ensures IsAt(m, id, if reply.None? then AtLearn else Finished(reply.value))
      ensures m.calls[id].op == old(m.calls[id].op) && m.acted == old(m.acted)
      ensures reply.None? ==> Owns(redis, id)
      ensures reply.Some? ==> old(Earns(redis, durable, clock, w, reply.value))
    {
      var ended;
      if !w.reachable {
        Take(ClaimUnreachable(id));
        ended := FallBack(id, false, w);
        return Some(ended);
      }
      var claimed := ScriptClaim(redis, id, clock, cfg.claimTtl);
      if claimed.Err? {
        ended := LoseClaim(id, clock, w, claimed.error);
        return Some(ended);
      }
      Take(ClaimWins(id, clock, w.heard));
      redis := Some(claimed.value);
      if !w.heard {
        ended := FallBack(id, false, w);
        return Some(ended);
      }
      var passes := MeetGuard(id, w);
      return if passes then None else Some(Conflict);
    }

    /** A failed ledger write is logged and ignored. */
    method WriteDurable(id: nat, kind: Kind, w: Weather)
      requires Valid() && IsAt(m, id, AtWrite(kind)) && LedgerFits(w)
      modifies this
      ensures Valid() && IsAt(m, id, AtMark(kind)) && m.acted == old(m.acted) && redis == old(redis)
      ensures durable == if w.writeOk then LedgerInsert(old(durable), kind, id) else old(durable)
    {
      Take(Write(id, kind, w.writeOk));
      if w.writeOk { durable := LedgerInsert(durable, kind, id); }
    }

    /** The marker blocks further claims, the completion makes the record terminal. */
    method Finalize(id: nat, kind: Kind, w: Weather)
      requires Valid() && IsAt(m, id, AtMark(kind))
      modifies this
      ensures Valid() && IsAt(m, id, Finished(Done(kind))) && m.acted == old(m.acted) && durable == old(durable)
      ensures Owns(old(redis), id) && w.completeOk ==> redis.Some? && redis.value.phase == Completed(kind)
      ensures Owns(old(redis), id) && w.markOk ==> IsTerminal(redis)
      ensures !Owns(old(redis), id) ==> redis == old(redis)
    {
      Take(Mark(id, kind, w.markOk));
      if w.markOk { redis := ScriptMark(redis, id, kind); }
      Take(Complete(id, kind, w.completeOk));
      if w.completeOk { redis := ScriptComplete(redis, id, kind); }
    }

    /** Ledger first, then the marker, then the terminal state. */
    method WriteOutcomeAndFinalize(id: nat, kind: Kind, w: Weather)
      requires Valid() && IsAt(m, id, AtWrite(kind)) && LedgerFits(w)
      modifies this
      ensures Valid() && IsAt(m, id, Finished(Done(kind))) && m.acted == old(m.acted)
      ensures durable == if w.writeOk then LedgerInsert(old(durable), kind, id) else old(durable)
      ensures Owns(old(redis), id) && w.completeOk ==> redis.Some? && redis.value.phase == Completed(kind)
      ensures Owns(old(redis), id) && w.markOk ==> IsTerminal(redis)
      ensures !Owns(old(redis), id) ==> redis == old(redis)
    {
      WriteDurable(id, kind, w);
      Finalize(id, kind, w);
    }

    /**
     A denial that claims always ends: the ledger holds an outcome, and the record is terminal. It
     acts exactly when it is admitted, claims, and finds no durable outcome.
     */
    method DenyCall(id: nat, clock: nat, admitted: bool, w: Weather) returns (reply: Reply)
      requires Valid() && id !in m.calls && Possible(clock, w)
      modifies this
      ensures Valid() && IsAt(m, id, Finished(reply))
      ensures reply == Done(Denied) <==> admitted && old(Enters(id, clock, w))
      ensures reply == Done(Denied) && w.writeOk ==> durable == LedgerInsert(old(durable), Denied, id)
      ensures reply == Done(Denied) && w.completeOk ==> redis.Some? && redis.value.phase == Completed(Denied)
      ensures reply != Done(Denied) ==> durable == old(durable) && m.acted == old(m.acted)
      ensures !admitted ==> reply == Refused && redis == old(redis)
      ensures admitted && reply != Done(Denied) ==> old(Earns(redis, durable, clock, w, reply))
    {
      Take(Begin(id, Deny));
      if !admitted {
        Take(Refuse(id));
        return Refused;
      }
      var ended := ClaimOrShortCircuit(id, clock, w);
      if ended.Some? { return ended.value; }
      Take(AuditDenial(id));
      WriteOutcomeAndFinalize(id, Denied, w);
      return Done(Denied);
    }

    /** The part of an approval after learn-path validation: learn, prepare, execute, finalize. */
    method Execute(id: nat, prepared: bool, succeeds: bool, w: Weather) returns (kind: Kind)
      requires Valid() && IsAt(m, id, AtLearn) && m.calls[id].op.Approve? && Owns(redis, id) && LedgerFits(w)
      modifies this
      ensures Valid() && IsAt(m, id, Finished(Done(kind)))
      ensures kind == if prepared && succeeds then Approved else Failed
      ensures durable == if w.writeOk then LedgerInsert(old(durable), kind, id) else old(durable)
      ensures w.completeOk ==> redis.Some? && redis.value.phase == Completed(kind)
      ensures m.acted == old(m.acted) + if prepared then {id} else {}
    {
      kind := if prepared && succeeds then Approved else Failed;
      LearnAndAct(id, prepared, succeeds);
      WriteOutcomeAndFinalize(id, kind, w);
    }

    ghost method LearnAndAct(id: nat, prepared: bool, succeeds: bool)
      requires Valid() && IsAt(m, id, AtLearn) && m.calls[id].op.Approve?
      modifies this`m
      ensures Valid() && IsAt(m, id, AtWrite(if prepared && succeeds then Approved else Failed))
      ensures m.acted == old(m.acted) + if prepared then {id} else {}
    {
      Take(Learn(id));
      assert IsAt(m, id, AtPrepare) && m.acted == old(m.acted);
      if prepared {
        Take(Step.Execute(id, succeeds));
      } else {
        Take(PrepareFails(id));
      }
    }

    /**
     An approval that gets past learn-path validation always ends in an outcome: approved when the
     execution succeeded, failed when preparation or execution did not. A rejected learn path returns
     with the claim held, no outcome and nothing executed.
     */
    method ApproveCall(id: nat, clock: nat, admitted: bool, pathOk: bool, prepared: bool, succeeds: bool, w: Weather)
      returns (reply: Reply)
      requires Valid() && id !in m.calls && Possible(clock, w)
      modifies this
      ensures Valid() && IsAt(m, id, Finished(reply))
      ensures admitted && old(Enters(id, clock, w)) ==>
                reply == if !pathOk then BadPath else if prepared && succeeds then Done(Approved) else Done(Failed)
      ensures admitted && !old(Enters(id, clock, w)) ==> old(Earns(redis, durable, clock, w, reply))
      ensures !admitted ==> reply == Refused && redis == old(redis)
      ensures reply.Done? && w.writeOk ==> durable == LedgerInsert(old(durable), reply.kind, id)
      ensures reply.Done? && w.completeOk ==> redis.Some? && redis.value.phase == Completed(reply.kind)
      ensures !reply.Done? ==> durable == old(durable)
      ensures reply == BadPath ==> Owns(redis, id)
      ensures m.acted == old(m.acted) + if reply.Done? && prepared then {id} else {}
    {
      Take(Begin(id, Approve));
      if !admitted {
        Take(Refuse(id));
        return Refused;
      }
      var ended := ClaimOrShortCircuit(id, clock, w);
      if ended.Some? { return ended.value; }
      if !pathOk {
        Take(RejectPath(id));
        return BadPath;
      }
      var kind := Execute(id, prepared, succeeds, w);
      return Done(kind);
    }
  }
}
