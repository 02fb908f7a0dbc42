/**
 What grants and revokes do to the access the policy evaluation gives. A principal has the actions of
 its own entry; it has the actions of the wildcard entry as well if its entry inherits them, and
 instead if it has no entry (`definitions/policies/opa/latchgate.rego`).
 */
module PolicyAccess {
  import opened Wrappers
  import opened Json
  import opened OrderedSet
  import opened Policy
  import opened PolicyRuns

  /** An absent or false entry counts as none. */
  predicate HasEntry(doc: Value, principal: string) {
    var entry := Lookup(doc, EntryPath(principal));
    entry.Some? && entry.value != Bool(false)
  }

  predicate Inherits(doc: Value, principal: string) {
    MemberOf(Lookup(doc, EntryPath(principal)), "inherits_wildcard") == Some(Bool(true))
  }

  function Wildcard(doc: Value): set<string> {
    OwnActions(doc, "*")
  }

  function Access(doc: Value, principal: string): set<string> {
    OwnActions(doc, principal) +
    if Inherits(doc, principal) || !HasEntry(doc, principal) then Wildcard(doc) else {}
  }

  lemma {:induction false} AccessAfter(doc: Value, r: Request)
    requires IsAcl(r.op) && Answer(doc, r).Written?
    ensures var p, rest, next := r.op.principal, Remaining(doc, r.op), Next(doc, r);
            && OwnActions(next, p) == rest
            && HasEntry(next, p) == (rest != {})
            && (rest != {} ==> Inherits(next, p) == Inherits(doc, p))
            && (p != "*" ==> Wildcard(next) == Wildcard(doc))
  {
    EntryAfter(doc, r);
    if r.op.principal != "*" {
      ApartFromEntry(r.op, "*");
      StepIsLocal(doc, r, EntryPath("*"));
    }
  }

  /**
   A revoke leaves the principal no action it could not use before, exactly if it does not remove the
   last action of an entry that keeps the wildcard away. The removed entry brings the wildcard back.
   */
  lemma {:induction false} RevokeNarrowsExactly(doc: Value, r: Request)
    requires r.op.Revoke? && Succeeds(doc, r)
    ensures var p := r.op.principal;
            Access(Next(doc, r), p) <= Access(doc, p) <==>
            !(HasEntry(doc, p) && !Inherits(doc, p) && OwnActions(doc, p) <= Elements(r.op.actions)
              && !(Wildcard(doc) <= OwnActions(doc, p)))
  {
    var p := r.op.principal;
    if Answer(doc, r).Written? {
      AccessAfter(doc, r);
      if p == "*" {
        assert Access(Next(doc, r), p) == Remaining(doc, r.op);
      } else if Remaining(doc, r.op) == {} {
        assert forall x :: x in OwnActions(doc, p) && x !in Elements(r.op.actions) ==> x in Remaining(doc, r.op);
        assert Access(Next(doc, r), p) == Wildcard(doc);
      } else {
        var x :| x in Remaining(doc, r.op);
        assert x in OwnActions(doc, p) && x !in Elements(r.op.actions);
      }
    }
  }

  /**
   A grant leaves the principal every action it could use before, exactly if it had an entry or the
   grant covers the wildcard. The first entry of a principal shuts the wildcard out.
   */
  lemma {:induction false} GrantWidensExactly(doc: Value, r: Request)
    requires r.op.Grant? && Succeeds(doc, r)
    ensures var p := r.op.principal;
            Access(doc, p) <= Access(Next(doc, r), p) <==> HasEntry(doc, p) || Wildcard(doc) <= Elements(r.op.actions)
    ensures Elements(r.op.actions) <= Access(Next(doc, r), r.op.principal)
  {
    var p := r.op.principal;
    assert Answer(doc, r).Written?;
    AccessAfter(doc, r);
    assert r.op.actions[0] in Remaining(doc, r.op);
  }
}
