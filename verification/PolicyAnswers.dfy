/**
 Which answer each policy request earns on each document: when it is served, refused and for what
 reason, left without effect, or ends in a panic.
 */
module PolicyAnswers {
  import opened Wrappers
  import opened Json
  import opened OrderedSet
  import opened Utf8
  import opened Policy
  import opened PolicyRuns
  import Version

  predicate IsWellFormed(op: Op)
    requires IsAcl(op)
  {
    1 <= |Bytes(op.principal)| <= 253 && 1 <= |op.actions| <= 100
  }

  /** An action a grant or revoke may name. */
  predicate IsFine(r: Request, id: string) {
    IsActionId(id) && (r.op.Grant? ==> id in r.registry)
  }

  /** The first action that may not be named stands at `i`. */
  predicate FirstBad(r: Request, i: nat)
    requires IsAcl(r.op)
  {
    i < |r.op.actions| && !IsFine(r, r.op.actions[i]) && forall k :: 0 <= k < i ==> IsFine(r, r.op.actions[k])
  }

  predicate IsValid(r: Request) {
    if IsAcl(r.op) then IsWellFormed(r.op) && forall i :: 0 <= i < |r.op.actions| ==> IsFine(r, r.op.actions[i])
    else IsAllowlistId(r.op.action) && IsAllowlistId(r.op.agent) && (r.op.Allow? ==> r.op.action in r.registry)
  }

  predicate EntryBlocks(doc: Value, principal: string) {
    Lookup(doc, EntryPath(principal)).Some? && !Lookup(doc, EntryPath(principal)).value.Obj?
  }

  /** Which refusal a request earns. */
  ghost predicate Earns(doc: Value, r: Request, why: Refusal) {
    match why
    case InvalidPrincipal => IsAcl(r.op) && !(1 <= |Bytes(r.op.principal)| <= 253)
    case EmptyActions => IsAcl(r.op) && 1 <= |Bytes(r.op.principal)| <= 253 && |r.op.actions| == 0
    case TooManyActions => IsAcl(r.op) && 1 <= |Bytes(r.op.principal)| <= 253 && |r.op.actions| > 100
    case InvalidActionId(id) =>
      IsAcl(r.op) && IsWellFormed(r.op) && !IsActionId(id) && exists i: nat :: FirstBad(r, i) && r.op.actions[i] == id
    case UnknownAction(id) =>
      IsAcl(r.op) && IsWellFormed(r.op) && IsActionId(id) && exists i: nat :: FirstBad(r, i) && r.op.actions[i] == id
    case InvalidInput(field) =>
      && !IsAcl(r.op)
      && (if IsAllowlistId(r.op.action) then !IsAllowlistId(r.op.agent) && field == "agent_id" else field == "action_id")
    case ActionNotFound(id) =>
      r.op.Allow? && IsAllowlistId(r.op.action) && IsAllowlistId(r.op.agent) && r.op.action == id && id !in r.registry
    case RootNotObject => IsAcl(r.op) && IsValid(r) && !doc.Obj?
    case EntryNotObject => IsAcl(r.op) && IsValid(r) && doc.Obj? && EntryBlocks(doc, r.op.principal)
    case AllowlistEntryNotFound =>
      r.op.Disallow? && IsValid(r) && (doc.Obj? || doc.Null?) && Lookup(doc, PairPath(r.op.action, r.op.agent)).None?
  }

  /** What the validation of a grant or revoke finds wrong with its actions. */
  lemma ActionRefusals(r: Request, i: nat)
    requires IsAcl(r.op) && IsWellFormed(r.op) && FirstBad(r, i)
    ensures Validate(r.registry, r.op) ==
              Some(if IsActionId(r.op.actions[i]) then UnknownAction(r.op.actions[i]) else InvalidActionId(r.op.actions[i]))
  {
    var registry := if r.op.Grant? then Some(r.registry) else None;
    forall k | 0 <= k < i ensures IdRefusal(registry, r.op.actions[k]).None? {
      assert IsFine(r, r.op.actions[k]);
    }
    RefusalAt(registry, r.op.actions, i);
    BytesOfNothing(r.op.principal);
  }

  lemma BytesOfNothing(s: string)
    ensures s == "" <==> |Bytes(s)| == 0
  {
  }

  lemma {:induction false} SomeBad(r: Request, n: nat) returns (i: nat)
    requires IsAcl(r.op) && n <= |r.op.actions| && exists k :: 0 <= k < n && !IsFine(r, r.op.actions[k])
    ensures FirstBad(r, i)
  {
    if exists k :: 0 <= k < n - 1 && !IsFine(r, r.op.actions[k]) {
      i := SomeBad(r, n - 1);
    } else {
      i := n - 1;
    }
  }

  lemma ValidExactly(r: Request)
    ensures Validate(r.registry, r.op).None? <==> IsValid(r)
  {
    if IsAcl(r.op) {
      BytesOfNothing(r.op.principal);
      if IsWellFormed(r.op) {
        if exists k :: 0 <= k < |r.op.actions| && !IsFine(r, r.op.actions[k]) {
          var i := SomeBad(r, |r.op.actions|);
          ActionRefusals(r, i);
        } else {
          var registry := if r.op.Grant? then Some(r.registry) else None;
          forall k | 0 <= k < |r.op.actions| ensures IdRefusal(registry, r.op.actions[k]).None? {
            assert IsFine(r, r.op.actions[k]);
          }
          NoRefusal(registry, r.op.actions);
        }
      }
    }
  }

  lemma {:induction false} InvalidEarns(doc: Value, r: Request, why: Refusal)
    requires !IsValid(r)
    ensures Validate(r.registry, r.op) == Some(why) <==> Earns(doc, r, why)
  {
    if IsAcl(r.op) {
      BytesOfNothing(r.op.principal);
      if IsWellFormed(r.op) {
        var i := SomeBad(r, |r.op.actions|);
        ActionRefusals(r, i);
        assert forall k: nat :: FirstBad(r, k) ==> k == i;
      }
    }
  }

  lemma {:induction false} ValidEarns(doc: Value, r: Request, why: Refusal)
    requires IsValid(r)
    ensures Answer(doc, r) == Refused(why) <==> Earns(doc, r, why)
  {
    ValidExactly(r);
    if IsAcl(r.op) {
      assert forall i: nat :: !FirstBad(r, i);
    }
  }

  /** A request is refused for a reason exactly if it earns it. */
  lemma {:induction false} RefusedExactly(doc: Value, r: Request, why: Refusal)
    ensures Answer(doc, r) == Refused(why) <==> Earns(doc, r, why)
  {
    if IsValid(r) {
      ValidEarns(doc, r, why);
    } else {
      ValidExactly(r);
      InvalidEarns(doc, r, why);
    }
  }

  /** Only the revoke of a principal without an entry succeeds without a write. */
  lemma {:induction false} UnchangedExactly(doc: Value, r: Request)
    ensures Answer(doc, r) == Unchanged <==>
              r.op.Revoke? && IsValid(r) && doc.Obj? && Lookup(doc, EntryPath(r.op.principal)).None?
  {
    ValidExactly(r);
  }

  /** A valid request ends in a panic exactly if the version is at its limit, or the root cannot be indexed. */
  lemma {:induction false} AbortedExactly(doc: Value, r: Request)
    ensures Answer(doc, r) == Aborted <==>
              && IsValid(r)
              && if IsAcl(r.op) then
                   && doc.Obj? && !EntryBlocks(doc, r.op.principal) && !HasRoom(VersionOf(doc))
                   && (r.op.Revoke? ==> Lookup(doc, EntryPath(r.op.principal)).Some?)
                 else !doc.Obj? && !doc.Null?
  {
    ValidExactly(r);
    if IsAcl(r.op) {
      var p := r.op.principal;
      var entry := EntryFor(Was(doc, p), r.registry, Remaining(doc, r.op));
      EntryKeepsVersion(doc, p, entry);
      BumpWorksExactly(Set(doc, EntryPath(p), entry));
      BumpWorksExactly(Delete(doc, EntryPath(p)));
    }
  }

  predicate IsPair(op: Op)
    requires !IsAcl(op)
  {
    IsAllowlistId(op.action) && IsAllowlistId(op.agent)
  }

  lemma PairsExactly(op: Op)
    requires !IsAcl(op)
    ensures IsPair(op) <==>
              && 1 <= |op.action| <= 128 && 1 <= |op.agent| <= 128
              && (forall i :: 0 <= i < |op.action| ==> op.action[i] in ID_CHARS + ":")
              && (forall i :: 0 <= i < |op.agent| ==> op.agent[i] in ID_CHARS + ":")
  {
    IdsExactly(op.action);
    IdsExactly(op.agent);
  }

  lemma {:induction false} PairServed(doc: Value, r: Request)
    requires !IsAcl(r.op)
    ensures Succeeds(doc, r) <==>
              && IsPair(r.op)
              && if r.op.Allow? then r.op.action in r.registry && (doc.Obj? || doc.Null?)
                 else Lookup(doc, PairPath(r.op.action, r.op.agent)).Some?
  {
    assert Lookup(doc, PairPath(r.op.action, r.op.agent)).Some? ==> doc.Obj?;
  }

  /** An addition is served exactly if its identifiers are valid, the action is registered, and the root can be indexed. */
  lemma {:induction false} AllowIsServedExactly(doc: Value, r: Request)
    requires r.op.Allow?
    ensures Succeeds(doc, r) <==>
              && 1 <= |r.op.action| <= 128 && 1 <= |r.op.agent| <= 128
              && (forall i :: 0 <= i < |r.op.action| ==> r.op.action[i] in ID_CHARS + ":")
              && (forall i :: 0 <= i < |r.op.agent| ==> r.op.agent[i] in ID_CHARS + ":")
              && r.op.action in r.registry && (doc.Obj? || doc.Null?)
  {
    PairServed(doc, r);
    PairsExactly(r.op);
  }

  /** A removal is served exactly if its identifiers are valid and the pair is there, registered or not. */
  lemma {:induction false} DisallowIsServedExactly(doc: Value, r: Request)
    requires r.op.Disallow?
    ensures Succeeds(doc, r) <==>
              && 1 <= |r.op.action| <= 128 && 1 <= |r.op.agent| <= 128
              && (forall i :: 0 <= i < |r.op.action| ==> r.op.action[i] in ID_CHARS + ":")
              && (forall i :: 0 <= i < |r.op.agent| ==> r.op.agent[i] in ID_CHARS + ":")
              && Lookup(doc, PairPath(r.op.action, r.op.agent)).Some?
  {
    PairServed(doc, r);
    PairsExactly(r.op);
  }
}
