/**
 What a run of the approval protocol itself says about its end: how long each claim holds, and who
 claimed, wrote, acted and was superseded.
 */
module ApprovalHistory {
  import opened Wrappers
  import opened Approvals

  // ---------------------------------------------------------------------------------------------
  // How long a claim lasts, and who is superseded, read off the run
  // ---------------------------------------------------------------------------------------------

  predicate WinsAt(trace: seq<Step>, i: nat, id: nat, clock: nat) {
    i < |trace| && trace[i].ClaimWins? && trace[i].id == id && trace[i].clock == clock
  }

  /** Every claim ever seen on the record was won in this run, and expires a TTL after the clock it was won at. */
  ghost predicate Dated(cfg: Config, trace: seq<Step>, s: State) {
    && (s.redis.Some? ==> s.redis.value in s.seen)
    && forall r :: r in s.seen && r.phase.Claimed? ==> DatedRecord(cfg, trace, r)
  }

  /** No call claims twice. */
  ghost predicate ClaimsOnce(trace: seq<Step>, s: State) {
    && (forall i :: 0 <= i < |trace| && trace[i].ClaimWins? ==> trace[i].id in s.turn)
    && (forall i, j :: 0 <= i < j < |trace| && trace[i].ClaimWins? && trace[j].ClaimWins? ==> trace[i].id != trace[j].id)
  }

  ghost predicate DatedRecord(cfg: Config, trace: seq<Step>, r: Record)
    requires r.phase.Claimed?
  {
    exists i: nat, clock: nat :: WinsAt(trace, i, r.phase.token, clock) && r.phase.expires == clock + cfg.claimTtl
  }

  lemma DatedLonger(cfg: Config, trace: seq<Step>, step: Step, r: Record)
    requires r.phase.Claimed? && DatedRecord(cfg, trace, r)
    ensures DatedRecord(cfg, trace + [step], r)
  {
    var i: nat, clock: nat :| WinsAt(trace, i, r.phase.token, clock) && r.phase.expires == clock + cfg.claimTtl;
    assert WinsAt(trace + [step], i, r.phase.token, clock);
  }

  predicate Rewrites(step: Step) {
    step.Reconcile? || step.Mark? || step.Complete?
  }

  lemma SeenStep(cfg: Config, s: State, step: Step)
    requires Enabled(cfg, s, step)
    ensures var t := Apply(cfg, s, step);
            && t.seen == (if (step.ClaimWins? || Rewrites(step)) && t.redis.Some? then s.seen + {t.redis.value} else s.seen)
            && (!step.ClaimWins? && !Rewrites(step) ==> t.redis == s.redis || t.redis == None || t.redis.value in s.seen)
            && (step.ClaimWins? ==> t.redis.Some? && t.redis.value.phase == Claimed(step.id, step.clock + cfg.claimTtl))
  {
    if IsOutside(step) {
      OutsideIsLocal(cfg, s, step);
    }
  }

  lemma RewriteStep(cfg: Config, s: State, step: Step)
    requires Enabled(cfg, s, step) && Rewrites(step)
    ensures var t := Apply(cfg, s, step);
            t.redis.Some? && t.redis.value.phase.Claimed? ==> s.redis.Some? && t.redis.value.phase == s.redis.value.phase
  {
  }

  /** A record that is new on the store is either freshly claimed, or holds the claim it held before. */
  lemma NewRecord(cfg: Config, s: State, step: Step, r: Record)
    requires Enabled(cfg, s, step) && r in Apply(cfg, s, step).seen && r !in s.seen && r.phase.Claimed?
    ensures if step.ClaimWins? then r.phase == Claimed(step.id, step.clock + cfg.claimTtl)
            else s.redis.Some? && r.phase == s.redis.value.phase
  {
    SeenStep(cfg, s, step);
    if Rewrites(step) {
      RewriteStep(cfg, s, step);
    }
  }

  lemma {:induction false} DatedStep(cfg: Config, trace: seq<Step>, s: State, step: Step)
    requires Dated(cfg, trace, s) && Enabled(cfg, s, step)
    ensures Dated(cfg, trace + [step], Apply(cfg, s, step))
  {
    var t := Apply(cfg, s, step);
    SeenStep(cfg, s, step);
    forall r | r in t.seen && r.phase.Claimed? ensures DatedRecord(cfg, trace + [step], r) {
      if r in s.seen {
        DatedLonger(cfg, trace, step, r);
      } else {
        NewRecord(cfg, s, step, r);
        NewRecordDated(cfg, trace, s, step, r);
      }
    }
  }

  lemma NewRecordDated(cfg: Config, trace: seq<Step>, s: State, step: Step, r: Record)
    requires Dated(cfg, trace, s) && r.phase.Claimed?
    requires if step.ClaimWins? then r.phase == Claimed(step.id, step.clock + cfg.claimTtl)
             else s.redis.Some? && r.phase == s.redis.value.phase
    ensures DatedRecord(cfg, trace + [step], r)
  {
    if step.ClaimWins? {
      assert WinsAt(trace + [step], |trace|, step.id, step.clock);
    } else {
      DatedLonger(cfg, trace, step, s.redis.value);
    }
  }

  lemma {:induction false} OnceStep(cfg: Config, trace: seq<Step>, s: State, step: Step)
    requires ClaimsTidy(s) && ClaimsOnce(trace, s) && Enabled(cfg, s, step)
    ensures ClaimsOnce(trace + [step], Apply(cfg, s, step))
  {
    TurnStep(cfg, s, step);
    OnceKept(trace, s, step, Apply(cfg, s, step));
  }

  lemma {:induction false} OnceKept(trace: seq<Step>, s: State, step: Step, t: State)
    requires ClaimsOnce(trace, s) && (step.ClaimWins? ==> step.id !in s.turn)
    requires t.turn.Keys == if step.ClaimWins? then s.turn.Keys + {step.id} else s.turn.Keys
    ensures ClaimsOnce(trace + [step], t)
  {
    var more := trace + [step];
    assert forall i :: 0 <= i < |trace| ==> more[i] == trace[i];
  }

  lemma {:induction false} DatedAlong(cfg: Config, trace: seq<Step>, s: State)
    requires Leads(cfg, trace, s)
    ensures Dated(cfg, trace, s) && ClaimsOnce(trace, s)
    decreases |trace|
  {
    if trace != [] {
      var last := |trace| - 1;
      var p :| Leads(cfg, trace[..last], p) && Enabled(cfg, p, trace[last]) && s == Apply(cfg, p, trace[last]);
      DatedAlong(cfg, trace[..last], p);
      TidyAlong(cfg, trace[..last], p);
      DatedStep(cfg, trace[..last], p, trace[last]);
      OnceStep(cfg, trace[..last], p, trace[last]);
      assert trace[..last] + [trace[last]] == trace;
    }
  }

  /**
   In every run, while the record holds a claim that was won at some clock and carries no marker, another
   call's claim is granted exactly from a TTL after that clock on, and refused as taken until then.
   */
  lemma {:induction false} ClaimHoldsInRuns(cfg: Config, trace: seq<Step>, s: State, i: nat, clock: nat, id: nat, later: nat)
    requires Leads(cfg, trace, s) && IsHeld(s.redis) && s.redis.value.marker.None?
    requires WinsAt(trace, i, s.redis.value.phase.token, clock)
    ensures ScriptClaim(s.redis, id, later, cfg.claimTtl).Ok? <==> clock + cfg.claimTtl <= later
    ensures ScriptClaim(s.redis, id, later, cfg.claimTtl) == Err(AlreadyClaimed) <==> later < clock + cfg.claimTtl
  {
    DatedAlong(cfg, trace, s);
    ExpiryIs(cfg, trace, s, i, clock);
  }

  lemma ExpiryIs(cfg: Config, trace: seq<Step>, s: State, i: nat, clock: nat)
    requires Dated(cfg, trace, s) && ClaimsOnce(trace, s) && IsHeld(s.redis)
    requires WinsAt(trace, i, s.redis.value.phase.token, clock)
    ensures s.redis.value.phase.expires == clock + cfg.claimTtl
  {
    var r := s.redis.value;
    assert DatedRecord(cfg, trace, r);
    var j: nat, t: nat :| WinsAt(trace, j, r.phase.token, t) && r.phase.expires == t + cfg.claimTtl;
    assert i == j;
  }

  /** So a takeover comes at least a TTL after the clock at which the claim it takes over was won. */
  lemma {:induction false} TakeoversComeLate(cfg: Config, trace: seq<Step>, s: State, step: Step) returns (i: nat, clock: nat)
    requires Leads(cfg, trace, s) && Enabled(cfg, s, step) && step.ClaimWins? && IsHeld(s.redis)
    ensures WinsAt(trace, i, s.redis.value.phase.token, clock) && clock + cfg.claimTtl <= step.clock
  {
    DatedAlong(cfg, trace, s);
    assert DatedRecord(cfg, trace, s.redis.value);
    i, clock :| WinsAt(trace, i, s.redis.value.phase.token, clock) && s.redis.value.phase.expires == clock + cfg.claimTtl;
  }

  /** Another call claims at `j`, after this one and before its ledger write. */
  predicate Supersedes(trace: seq<Step>, i: nat, j: nat, id: nat) {
    && i < j < |trace| && trace[i].ClaimWins? && trace[i].id == id && trace[j].ClaimWins?
    && forall k :: 0 <= k < j && trace[k].Write? && trace[k].id == id ==> !trace[k].ok
  }

  predicate Did(trace: seq<Step>, what: Step -> bool) {
    exists i :: 0 <= i < |trace| && what(trace[i])
  }

  lemma DidMore(trace: seq<Step>, step: Step, what: Step -> bool)
    ensures Did(trace + [step], what) <==> Did(trace, what) || what(step)
  {
    var more := trace + [step];
    assert more[|trace|] == step;
    if Did(trace, what) {
      var i :| 0 <= i < |trace| && what(trace[i]);
      assert more[i] == trace[i];
    }
    if i :| 0 <= i < |more| && what(more[i]) {
      assert i < |trace| ==> more[i] == trace[i];
    }
  }

  function Claims(id: nat): Step -> bool {
    (x: Step) => x.ClaimWins? && x.id == id
  }

  function Learns(id: nat): Step -> bool {
    (x: Step) => x.Learn? && x.id == id
  }

  function Acts(id: nat): Step -> bool {
    (x: Step) => (x.Execute? || x.AuditDenial?) && x.id == id
  }

  function Writes(id: nat): Step -> bool {
    (x: Step) => x.Write? && x.ok && x.id == id
  }

  predicate IsWrite(x: Step) {
    x.Write? && x.ok
  }

  /** The guard met at `i` could not read the ledger, or nothing had been written to it. */
  predicate LetThrough(trace: seq<Step>, i: nat, id: nat) {
    i < |trace| && trace[i].Guard? && trace[i].id == id && (!trace[i].readOk || !Did(trace[..i], IsWrite))
  }

  predicate FirstWrite(trace: seq<Step>, i: nat) {
    i < |trace| && IsWrite(trace[i]) && !Did(trace[..i], IsWrite)
  }

  ghost predicate LogsFit(trace: seq<Step>, s: State) {
    && (forall id :: id in s.turn <==> Did(trace, Claims(id)))
    && (forall id :: id in s.learned <==> Did(trace, Learns(id)))
    && (forall id :: id in s.acted <==> Did(trace, Acts(id)))
    && (forall id :: id in s.written <==> Did(trace, Writes(id)))
    && (forall id :: id in s.superseded <==> exists i: nat, j: nat :: Supersedes(trace, i, j, id))
  }

  ghost predicate LedgerFits(trace: seq<Step>, s: State) {
    && (s.durable.Some? <==> Did(trace, IsWrite))
    && (forall i: nat :: FirstWrite(trace, i) ==> s.durable == Some(Outcome(trace[i].kind, trace[i].id)))
    && (forall id :: id in s.passed <==> exists i: nat :: LetThrough(trace, i, id))
  }

  lemma LogStep(cfg: Config, s: State, step: Step)
    requires Enabled(cfg, s, step)
    ensures var t := Apply(cfg, s, step);
            && t.learned == (if step.Learn? then s.learned + {step.id} else s.learned)
            && t.written == (if IsWrite(step) then s.written + {step.id} else s.written)
            && t.acted == (if step.Execute? || step.AuditDenial? then s.acted + {step.id} else s.acted)
  {
    if IsOutside(step) {
      OutsideIsLocal(cfg, s, step);
    }
  }

  lemma TurnStep(cfg: Config, s: State, step: Step)
    requires Enabled(cfg, s, step)
    ensures var t := Apply(cfg, s, step);
            && t.turn.Keys == (if step.ClaimWins? then s.turn.Keys + {step.id} else s.turn.Keys)
            && t.superseded == (if step.ClaimWins? then s.superseded + (s.turn.Keys - s.written) else s.superseded)
  {
    if IsOutside(step) {
      OutsideIsLocal(cfg, s, step);
    }
  }

  lemma LedgerStep(cfg: Config, s: State, step: Step)
    requires Enabled(cfg, s, step)
    ensures var t := Apply(cfg, s, step);
            && t.durable == (if IsWrite(step) && s.durable.None? then Some(Outcome(step.kind, step.id)) else s.durable)
            && t.passed == (if step.Guard? && (!step.readOk || s.durable.None?) then s.passed + {step.id} else s.passed)
  {
    if IsOutside(step) {
      OutsideIsLocal(cfg, s, step);
    }
  }

  lemma {:induction false} SupersededStep(trace: seq<Step>, s: State, step: Step, id: nat)
    requires LogsFit(trace, s)
    ensures (exists i: nat, j: nat :: Supersedes(trace + [step], i, j, id)) <==>
              id in s.superseded || (step.ClaimWins? && id in s.turn && id !in s.written)
  {
    var more, n := trace + [step], |trace|;
    assert forall k :: 0 <= k < n ==> more[k] == trace[k];
    if id in s.superseded {
      var i: nat, j: nat :| Supersedes(trace, i, j, id);
      assert Supersedes(more, i, j, id);
    }
    if step.ClaimWins? && id in s.turn && id !in s.written {
      var i :| 0 <= i < n && Claims(id)(trace[i]);
      forall k | 0 <= k < n && more[k].Write? && more[k].id == id ensures !more[k].ok {
        assert !Writes(id)(trace[k]);
      }
      assert Supersedes(more, i, n, id);
    }
    if i: nat, j: nat :| Supersedes(more, i, j, id) {
      if j < n {
        assert Supersedes(trace, i, j, id);
      } else {
        assert Claims(id)(trace[i]);
        forall k | 0 <= k < n ensures !Writes(id)(trace[k]) {
          assert more[k] == trace[k];
        }
      }
    }
  }

  lemma {:induction false} LogsStep(cfg: Config, trace: seq<Step>, s: State, step: Step)
    requires LogsFit(trace, s) && Enabled(cfg, s, step)
    ensures LogsFit(trace + [step], Apply(cfg, s, step))
  {
    LogStep(cfg, s, step);
    TurnStep(cfg, s, step);
    LogsKept(trace, s, step, Apply(cfg, s, step));
  }

  lemma {:induction false} LogsKept(trace: seq<Step>, s: State, step: Step, t: State)
    requires LogsFit(trace, s)
    requires t.turn.Keys == (if step.ClaimWins? then s.turn.Keys + {step.id} else s.turn.Keys)
    requires t.learned == (if step.Learn? then s.learned + {step.id} else s.learned)
    requires t.written == (if IsWrite(step) then s.written + {step.id} else s.written)
    requires t.acted == (if step.Execute? || step.AuditDenial? then s.acted + {step.id} else s.acted)
    requires t.superseded == (if step.ClaimWins? then s.superseded + (s.turn.Keys - s.written) else s.superseded)
    ensures LogsFit(trace + [step], t)
  {
    var more := trace + [step];
    forall id ensures id in t.superseded <==> exists i: nat, j: nat :: Supersedes(more, i, j, id) {
      SupersededStep(trace, s, step, id);
    }
    forall id ensures id in t.turn <==> Did(more, Claims(id)) {
      DidMore(trace, step, Claims(id));
    }
    forall id ensures id in t.learned <==> Did(more, Learns(id)) {
      DidMore(trace, step, Learns(id));
    }
    forall id ensures id in t.acted <==> Did(more, Acts(id)) {
      DidMore(trace, step, Acts(id));
    }
    forall id ensures id in t.written <==> Did(more, Writes(id)) {
      DidMore(trace, step, Writes(id));
    }
  }

  lemma SamePrefix(trace: seq<Step>, step: Step, i: nat)
    requires i <= |trace|
    ensures (trace + [step])[..i] == trace[..i] && trace[..|trace|] == trace
  {
  }

  lemma {:induction false} LedgerFitsStep(cfg: Config, trace: seq<Step>, s: State, step: Step)
    requires LedgerFits(trace, s) && Enabled(cfg, s, step)
    ensures LedgerFits(trace + [step], Apply(cfg, s, step))
  {
    var t, more, n := Apply(cfg, s, step), trace + [step], |trace|;
    LedgerStep(cfg, s, step);
    DidMore(trace, step, IsWrite);
    assert more[n] == step;
    SamePrefix(trace, step, n);
    forall i: nat | FirstWrite(more, i) ensures t.durable == Some(Outcome(more[i].kind, more[i].id)) {
      SamePrefix(trace, step, i);
      if i < n {
        assert FirstWrite(trace, i);
      }
    }
    forall id ensures id in t.passed <==> exists i: nat :: LetThrough(more, i, id) {
      if id in s.passed {
        var i: nat :| LetThrough(trace, i, id);
        SamePrefix(trace, step, i);
        assert LetThrough(more, i, id);
      }
      if id in t.passed && id !in s.passed {
        assert LetThrough(more, n, id);
      }
      if i: nat :| LetThrough(more, i, id) {
        SamePrefix(trace, step, i);
        assert i < n ==> LetThrough(trace, i, id);
      }
    }
  }

  /**
   What the other results speak of is read off the run: who claimed, learned, acted and wrote; who was
   superseded, that is, lost its claim to a later one before its ledger write; whom the guard let
   through; and that the durable outcome is what the first successful ledger write says.
   */
  lemma {:induction false} LogsAreHistory(cfg: Config, trace: seq<Step>, s: State)
    requires Leads(cfg, trace, s)
    ensures LogsFit(trace, s) && LedgerFits(trace, s)
    decreases |trace|
  {
    if trace != [] {
      var last := |trace| - 1;
      var p :| Leads(cfg, trace[..last], p) && Enabled(cfg, p, trace[last]) && s == Apply(cfg, p, trace[last]);
      LogsAreHistory(cfg, trace[..last], p);
      LogsStep(cfg, trace[..last], p, trace[last]);
      LedgerFitsStep(cfg, trace[..last], p, trace[last]);
      assert trace[..last] + [trace[last]] == trace;
    }
  }
}
