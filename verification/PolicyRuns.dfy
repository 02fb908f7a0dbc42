/**
 Whole runs of policy requests, served one after the other: what the document says after any sequence
 of grants, revokes, allowlist additions and removals.
 */
module PolicyRuns {
  import opened Wrappers
  import opened Json
  import opened OrderedSet
  import opened Utf8
  import opened Policy
  import Version

  /** Every request sees the registry of its time. */
  datatype Request = Request(registry: Registry, op: Op)

  ghost function Answer(doc: Value, r: Request): Outcome {
    Handle(r.registry, doc, r.op)
  }

  ghost function Next(doc: Value, r: Request): Value {
    var out := Answer(doc, r);
    if out.Written? then out.doc else doc
  }

  ghost function Run(doc: Value, run: seq<Request>): Value {
    if run == [] then doc else Next(Run(doc, run[..|run| - 1]), run[|run| - 1])
  }

  lemma {:induction false} RunOn(doc: Value, run: seq<Request>, r: Request)
    ensures Run(doc, run + [r]) == Next(Run(doc, run), r) && run + [] == run
  {
    assert (run + [r])[..|run|] == run;
  }

  /** The document after the first `i` requests. */
  ghost function At(doc: Value, run: seq<Request>, i: nat): Value {
    Run(doc, if i <= |run| then run[..i] else run)
  }

  lemma {:induction false} AtStep(doc: Value, run: seq<Request>, i: nat)
    requires i < |run|
    ensures At(doc, run, i + 1) == Next(At(doc, run, i), run[i])
  {
    assert run[..i + 1][..i] == run[..i];
  }

  lemma {:induction false} AtEnds(doc: Value, run: seq<Request>)
    ensures At(doc, run, 0) == doc && At(doc, run, |run|) == Run(doc, run)
  {
    assert run[..|run|] == run && run[..0] == [];
  }

  predicate IsAcl(op: Op) {
    op.Grant? || op.Revoke?
  }

  ghost predicate Succeeds(doc: Value, r: Request) {
    Answer(doc, r).Written? || Answer(doc, r).Unchanged?
  }

  // ---------------------------------------------------------------------------------------------
  // What one request changes
  // ---------------------------------------------------------------------------------------------

  function Touched(op: Op): Path {
    if IsAcl(op) then EntryPath(op.principal) else PairPath(op.action, op.agent)
  }

  lemma {:induction false} BumpIsLocal(doc: Value, path: Path)
    requires Bump(doc).Written? && Apart(VERSION_PATH, path)
    ensures Lookup(Bump(doc).doc, path) == Lookup(doc, path)
  {
    SetIsLocal(doc, VERSION_PATH, Bump(doc).doc.fields["policy_version"], path);
  }

  lemma {:induction false} ApartSplits(p: Path, q: Path, r: Path)
    requires Apart(p + q, r)
    ensures Apart(p, r) || (|p| < |r| && r == p + r[|p|..])
  {
    if p == [] {
      assert p + q == q;
    } else {
      assert (p + q)[1..] == p[1..] + q;
      if p[0] == r[0] {
        ApartSplits(p[1..], q, r[1..]);
        if !Apart(p[1..], r[1..]) {
          assert r == [r[0]] + r[1..];
          assert r[1..] == p[1..] + r[1..][|p| - 1..];
          assert r[1..][|p| - 1..] == r[|p|..];
          assert p == [p[0]] + p[1..];
        }
      }
    }
  }

  /** Removing an emptied action map shows only at the map itself. */
  lemma {:induction false} PruneIsLocal(doc: Value, action: string, agent: string, path: Path)
    requires Apart(PairPath(action, agent), path)
    ensures Lookup(Prune(doc, action), path) == Lookup(doc, path)
  {
    var at := ActionPath(action);
    if Lookup(doc, at) == Some(Obj(map[])) {
      assert PairPath(action, agent) == at + [agent];
      ApartSplits(at, [agent], path);
      if Apart(at, path) {
        DeleteIsLocal(doc, at, path);
      } else {
        var rest := path[|at|..];
        LookupJoin(doc, at, rest);
        LookupJoin(Delete(doc, at), at, rest);
        DeleteThenLookup(doc, at);
      }
    }
  }

  /**
   A request changes nothing at a path that neither leads to nor through what it names: other
   principals, other pairs, other sections, other fields.
   */
  lemma {:induction false} StepIsLocal(doc: Value, r: Request, path: Path)
    requires Apart(Touched(r.op), path)
    requires IsAcl(r.op) ==> Apart(VERSION_PATH, path)
    ensures Lookup(Next(doc, r), path) == Lookup(doc, path)
  {
    if Answer(doc, r).Written? {
      if IsAcl(r.op) {
        var at := EntryPath(r.op.principal);
        var entry, mid := AclEdit(doc, r);
        if entry.Some? {
          SetIsLocal(doc, at, entry.value, path);
        } else {
          DeleteIsLocal(doc, at, path);
        }
        BumpIsLocal(mid, path);
      } else {
        var at := PairPath(r.op.action, r.op.agent);
        if r.op.Allow? {
          SetIsLocal(doc, at, Bool(true), path);
        } else {
          DeleteIsLocal(doc, at, path);
          PruneIsLocal(Delete(doc, at), r.op.action, r.op.agent, path);
        }
      }
    }
  }

  /** The actions an entry is left with. */
  function Remaining(doc: Value, op: Op): set<string>
    requires IsAcl(op)
  {
    if op.Grant? then OwnActions(doc, op.principal) + Elements(op.actions)
    else OwnActions(doc, op.principal) - Elements(op.actions)
  }

  /** A written grant or revoke: the new entry, none if it is removed, and the document before the new version. */
  lemma {:induction false} AclEdit(doc: Value, r: Request) returns (entry: Option<Value>, mid: Value)
    requires IsAcl(r.op) && Answer(doc, r).Written?
    ensures var at := EntryPath(r.op.principal);
            && mid == (if entry.Some? then Set(doc, at, entry.value) else Delete(doc, at))
            && Answer(doc, r) == Bump(mid)
            && (entry.None? <==> Remaining(doc, r.op) == {})
            && (entry.Some? ==> entry.value == EntryFor(Was(doc, r.op.principal), r.registry, Remaining(doc, r.op)))
  {
    var at := EntryPath(r.op.principal);
    var rest := Remaining(doc, r.op);
    if r.op.Grant? {
      assert r.op.actions[0] in rest;
    }
    entry := if rest == {} then None else Some(EntryFor(Was(doc, r.op.principal), r.registry, rest));
    mid := if entry.Some? then Set(doc, at, entry.value) else Delete(doc, at);
  }

  ghost function Was(doc: Value, principal: string): Value {
    var entry := Lookup(doc, EntryPath(principal));
    if entry.Some? then entry.value else Null
  }

  /** The entry after a written grant or revoke. */
  lemma {:induction false} EntryAfter(doc: Value, r: Request)
    requires IsAcl(r.op) && Answer(doc, r).Written?
    ensures Lookup(Next(doc, r), EntryPath(r.op.principal)) ==
              if Remaining(doc, r.op) == {} then None
              else Some(EntryFor(Was(doc, r.op.principal), r.registry, Remaining(doc, r.op)))
    ensures OwnActions(Next(doc, r), r.op.principal) == Remaining(doc, r.op)
  {
    var at := EntryPath(r.op.principal);
    var entry, mid := AclEdit(doc, r);
    BumpIsLocal(mid, at);
    if entry.Some? {
      SetThenLookup(doc, at, entry.value);
      StringsRoundTrip(Listing(Remaining(doc, r.op)));
    } else {
      DeleteThenLookup(doc, at);
    }
  }

  predicate HasRoom(version: string) {
    version == "" || Version.Base(version).1 < Version.U64_MAX
  }

  lemma {:induction false} BumpWorksExactly(doc: Value)
    ensures Bump(doc).Written? <==> HasRoom(VersionOf(doc))
  {
    if VersionOf(doc) != "" {
      Version.FirstIncrement(VersionOf(doc));
    }
  }

  lemma {:induction false} AllIdsValid(registry: Option<Registry>, ids: seq<string>)
    ensures FirstRefusal(registry, ids).None? <==>
              forall id :: id in ids ==> IsActionId(id) && (registry.Some? ==> id in registry.value)
  {
    if ids != [] {
      var front := ids[..|ids| - 1];
      AllIdsValid(registry, front);
      assert ids == front + [ids[|ids| - 1]];
    }
  }

  lemma {:induction false} EntryKeepsVersion(doc: Value, principal: string, entry: Value)
    ensures VersionOf(Set(doc, EntryPath(principal), entry)) == VersionOf(doc)
    ensures VersionOf(Delete(doc, EntryPath(principal))) == VersionOf(doc)
  {
    SetIsLocal(doc, EntryPath(principal), entry, VERSION_PATH);
    DeleteIsLocal(doc, EntryPath(principal), VERSION_PATH);
  }

  predicate NamesFineActions(registry: Option<Registry>, op: Op)
    requires IsAcl(op)
  {
    && 0 < |Bytes(op.principal)| <= MAX_PRINCIPAL_LEN
    && 0 < |op.actions| <= MAX_ACTIONS_PER_REQUEST
    && forall id :: id in op.actions ==> IsActionId(id) && (registry.Some? ==> id in registry.value)
  }

  lemma FineActionsExactly(registry: Option<Registry>, op: Op)
    requires IsAcl(op)
    ensures AclRefusal(registry, op.principal, op.actions).None? <==> NamesFineActions(registry, op)
  {
    AllIdsValid(registry, op.actions);
    assert op.principal == "" <==> |Bytes(op.principal)| == 0;
  }

  /** How the edit of a valid grant or revoke ends. */
  lemma {:induction false} EditWorksExactly(doc: Value, r: Request)
    requires IsAcl(r.op) && Validate(r.registry, r.op).None?
    ensures var entry := Lookup(doc, EntryPath(r.op.principal));
            Succeeds(doc, r) <==>
              && doc.Obj? && (entry.Some? ==> entry.value.Obj?)
              && (r.op.Grant? || entry.Some? ==> HasRoom(VersionOf(doc)))
  {
    var p := r.op.principal;
    var entry := EntryFor(Was(doc, p), r.registry, Remaining(doc, r.op));
    EntryKeepsVersion(doc, p, entry);
    BumpWorksExactly(Set(doc, EntryPath(p), entry));
    BumpWorksExactly(Delete(doc, EntryPath(p)));
  }

  /**
   A grant is served exactly if its identifiers are valid and registered, the root and any entry of the
   principal are objects, and the version number can still grow.
   */
  lemma {:induction false} GrantIsServedExactly(doc: Value, r: Request)
    requires r.op.Grant?
    ensures Succeeds(doc, r) <==>
              && 0 < |Bytes(r.op.principal)| <= MAX_PRINCIPAL_LEN
              && 0 < |r.op.actions| <= MAX_ACTIONS_PER_REQUEST
              && (forall id :: id in r.op.actions ==> IsActionId(id) && id in r.registry)
              && doc.Obj?
              && (Lookup(doc, EntryPath(r.op.principal)).Some? ==> Was(doc, r.op.principal).Obj?)
              && HasRoom(VersionOf(doc))
  {
    FineActionsExactly(Some(r.registry), r.op);
    if NamesFineActions(Some(r.registry), r.op) {
      EditWorksExactly(doc, r);
    }
  }

  /** A revoke likewise, but its actions need not be registered, and without an entry there is nothing to do. */
  lemma {:induction false} RevokeIsServedExactly(doc: Value, r: Request)
    requires r.op.Revoke?
    ensures Succeeds(doc, r) <==>
              && 0 < |Bytes(r.op.principal)| <= MAX_PRINCIPAL_LEN
              && 0 < |r.op.actions| <= MAX_ACTIONS_PER_REQUEST
              && (forall id :: id in r.op.actions ==> IsActionId(id))
              && doc.Obj?
              && (Lookup(doc, EntryPath(r.op.principal)).Some? ==> Was(doc, r.op.principal).Obj? && HasRoom(VersionOf(doc)))
  {
    FineActionsExactly(None, r.op);
    if NamesFineActions(None, r.op) {
      EditWorksExactly(doc, r);
    }
  }

  // ---------------------------------------------------------------------------------------------
  // The last operation decides
  // ---------------------------------------------------------------------------------------------

  predicate NamesAction(op: Op, principal: string, action: string) {
    IsAcl(op) && op.principal == principal && action in op.actions
  }

  /** Request `i` of the run succeeded and named this action of this principal. */
  ghost predicate Decides(doc: Value, run: seq<Request>, i: nat, principal: string, action: string) {
    i < |run| && NamesAction(run[i].op, principal, action) && Succeeds(At(doc, run, i), run[i])
  }

  predicate HasAction(doc: Value, principal: string, action: string) {
    action in OwnActions(doc, principal)
  }

  lemma {:induction false} AllowedStep(doc: Value, r: Request, principal: string, action: string)
    ensures HasAction(Next(doc, r), principal, action) ==
              if NamesAction(r.op, principal, action) && Succeeds(doc, r) then r.op.Grant? else HasAction(doc, principal, action)
  {
    var at := EntryPath(principal);
    if IsAcl(r.op) && r.op.principal == principal {
      if Answer(doc, r).Written? {
        EntryAfter(doc, r);
      }
    } else {
      ApartFromEntry(r.op, principal);
      StepIsLocal(doc, r, at);
    }
  }

  lemma {:induction false} AllowedAt(doc: Value, run: seq<Request>, i: nat, principal: string, action: string)
    requires i < |run|
    ensures HasAction(At(doc, run, i + 1), principal, action) ==
              if Decides(doc, run, i, principal, action) then run[i].op.Grant? else HasAction(At(doc, run, i), principal, action)
  {
    AtStep(doc, run, i);
    AllowedStep(At(doc, run, i), run[i], principal, action);
  }

  lemma {:induction false} AllowedStays(doc: Value, run: seq<Request>, lo: nat, hi: nat, principal: string, action: string)
    requires lo <= hi <= |run| && forall i: nat :: lo <= i ==> !Decides(doc, run, i, principal, action)
    ensures HasAction(At(doc, run, hi), principal, action) == HasAction(At(doc, run, lo), principal, action)
    decreases hi
  {
    if lo < hi {
      AllowedStays(doc, run, lo, hi - 1, principal, action);
      AllowedAt(doc, run, hi - 1, principal, action);
    }
  }

  lemma ApartFromEntry(op: Op, principal: string)
    requires IsAcl(op) ==> op.principal != principal
    ensures Apart(Touched(op), EntryPath(principal)) && Apart(VERSION_PATH, EntryPath(principal))
  {
    if IsAcl(op) {
      assert EntryPath(op.principal)[1..] == [op.principal] && EntryPath(principal)[1..] == [principal];
    }
  }

  /**
   After any run an action is listed for a principal exactly if the last successful request naming the
   two was a grant; if there was none, exactly if it was listed at the start.
   */
  lemma {:induction false} LastGrantOrRevokeWins(doc: Value, run: seq<Request>, principal: string, action: string)
    ensures forall k: nat ::
              && Decides(doc, run, k, principal, action)
              && (forall i: nat :: i > k ==> !Decides(doc, run, i, principal, action)) ==>
              HasAction(Run(doc, run), principal, action) == run[k].op.Grant?
    ensures (forall i: nat :: !Decides(doc, run, i, principal, action)) ==>
              HasAction(Run(doc, run), principal, action) == HasAction(doc, principal, action)
  {
    AtEnds(doc, run);
    forall k: nat | Decides(doc, run, k, principal, action) &&
        (forall i: nat :: i > k ==> !Decides(doc, run, i, principal, action))
      ensures HasAction(Run(doc, run), principal, action) == run[k].op.Grant?
    {
      AllowedAt(doc, run, k, principal, action);
      AllowedStays(doc, run, k + 1, |run|, principal, action);
    }
    if forall i: nat :: !Decides(doc, run, i, principal, action) {
      AllowedStays(doc, run, 0, |run|, principal, action);
    }
  }

  // ---------------------------------------------------------------------------------------------
  // Derived sinks
  // ---------------------------------------------------------------------------------------------

  /** If the principal has an entry: at least one action, and exactly the sinks of its actions, both in order. */
  ghost predicate Derived(doc: Value, principal: string, registry: Registry) {
    var entry, own := Lookup(doc, EntryPath(principal)), OwnActions(doc, principal);
    entry.Some? ==>
      && own != {}
      && MemberOf(entry, "allowed_actions") == Some(Strings(Listing(own)))
      && MemberOf(entry, "allowed_sinks") == Some(Strings(Listing(SinksOf(registry, own))))
      && OwnSinks(doc, principal) == SinksOf(registry, own)
      && IsSorted(MemberOf(entry, "allowed_actions")) && IsSorted(MemberOf(entry, "allowed_sinks"))
  }

  /** An array of strings in ascending byte order, without repetition. */
  predicate IsSorted(v: Option<Value>) {
    && v.Some? && v.value.Arr?
    && (forall i :: 0 <= i < |v.value.items| ==> v.value.items[i].Str?)
    && (forall i, j :: 0 <= i < j < |v.value.items| ==>
          BytesLess(Bytes(v.value.items[i].text), Bytes(v.value.items[j].text)))
  }

  lemma ListingIsSorted(xs: set<string>)
    ensures IsSorted(Some(Strings(Listing(xs))))
  {
    var s := Listing(xs);
    AscendingExactly(s);
    var items := Strings(s).items;
    forall i, j | 0 <= i < j < |items| ensures BytesLess(Bytes(items[i].text), Bytes(items[j].text)) {
      assert Less(s[i], s[j]);
      LessIsByteOrder(s[i], s[j]);
    }
  }

  lemma {:induction false} DerivedStep(doc: Value, r: Request)
    requires IsAcl(r.op) && Succeeds(doc, r)
    ensures Derived(Next(doc, r), r.op.principal, r.registry)
  {
    if Answer(doc, r).Written? {
      EntryAfter(doc, r);
      StringsRoundTrip(Listing(SinksOf(r.registry, Remaining(doc, r.op))));
      ListingIsSorted(Remaining(doc, r.op));
      ListingIsSorted(SinksOf(r.registry, Remaining(doc, r.op)));
    }
  }

  lemma {:induction false} EntryStays(doc: Value, r: Request, principal: string)
    requires IsAcl(r.op) && r.op.principal == principal ==> !Succeeds(doc, r)
    ensures Lookup(Next(doc, r), EntryPath(principal)) == Lookup(doc, EntryPath(principal))
  {
    if Answer(doc, r).Written? {
      ApartFromEntry(r.op, principal);
      StepIsLocal(doc, r, EntryPath(principal));
    }
  }

  ghost predicate Edits(doc: Value, run: seq<Request>, i: nat, principal: string) {
    i < |run| && IsAcl(run[i].op) && run[i].op.principal == principal && Succeeds(At(doc, run, i), run[i])
  }

  lemma {:induction false} EntryStaysLong(doc: Value, run: seq<Request>, lo: nat, hi: nat, principal: string)
    requires lo <= hi <= |run| && forall i: nat :: lo <= i ==> !Edits(doc, run, i, principal)
    ensures Lookup(At(doc, run, hi), EntryPath(principal)) == Lookup(At(doc, run, lo), EntryPath(principal))
    decreases hi
  {
    if lo < hi {
      EntryStaysLong(doc, run, lo, hi - 1, principal);
      EntryStaysAt(doc, run, hi - 1, principal);
    }
  }

  lemma {:induction false} EntryStaysAt(doc: Value, run: seq<Request>, i: nat, principal: string)
    requires i < |run| && !Edits(doc, run, i, principal)
    ensures Lookup(At(doc, run, i + 1), EntryPath(principal)) == Lookup(At(doc, run, i), EntryPath(principal))
  {
    AtStep(doc, run, i);
    EntryStays(At(doc, run, i), run[i], principal);
  }

  lemma {:induction false} DerivedFrom(doc: Value, run: seq<Request>, k: nat, principal: string)
    requires Edits(doc, run, k, principal) && forall i: nat :: i > k ==> !Edits(doc, run, i, principal)
    ensures Derived(Run(doc, run), principal, run[k].registry)
  {
    AtEnds(doc, run);
    AtStep(doc, run, k);
    DerivedStep(At(doc, run, k), run[k]);
    EntryStaysLong(doc, run, k + 1, |run|, principal);
  }

  /**
   After any run the entry of a principal is derived from the registry the last successful request for
   it saw; without such a request it is untouched, whatever else was done or failed.
   */
  lemma {:induction false} EntryIsDerivedOrUntouched(doc: Value, run: seq<Request>, principal: string)
    ensures forall k: nat :: Edits(doc, run, k, principal) && (forall i: nat :: i > k ==> !Edits(doc, run, i, principal)) ==>
              Derived(Run(doc, run), principal, run[k].registry)
    ensures (forall i: nat :: !Edits(doc, run, i, principal)) ==>
              Lookup(Run(doc, run), EntryPath(principal)) == Lookup(doc, EntryPath(principal))
  {
    AtEnds(doc, run);
    forall k: nat | Edits(doc, run, k, principal) && (forall i: nat :: i > k ==> !Edits(doc, run, i, principal))
      ensures Derived(Run(doc, run), principal, run[k].registry)
    {
      DerivedFrom(doc, run, k, principal);
    }
    if forall i: nat :: !Edits(doc, run, i, principal) {
      EntryStaysLong(doc, run, 0, |run|, principal);
    }
  }

  // ---------------------------------------------------------------------------------------------
  // The other members of an entry
  // ---------------------------------------------------------------------------------------------

  function MemberPath(principal: string, key: string, rest: Path): Path {
    EntryPath(principal) + ([key] + rest)
  }

  predicate IsList(key: string) {
    key == "allowed_actions" || key == "allowed_sinks"
  }

  /** The principal had an entry and has none any more. */
  ghost predicate Removes(doc: Value, r: Request, principal: string) {
    Lookup(doc, EntryPath(principal)).Some? && Lookup(Next(doc, r), EntryPath(principal)).None?
  }

  lemma {:induction false} EntryKeepsMembers(was: Value, registry: Registry, actions: set<string>, key: string, rest: Path)
    requires !IsList(key)
    ensures Lookup(EntryFor(was, registry, actions), [key] + rest) == Lookup(was, [key] + rest)
  {
    assert ([key] + rest)[0] == key && ([key] + rest)[1..] == rest;
  }

  /**
   A request leaves every member of an entry as it is, to any depth, except the two lists; unless it
   removes the entry. A new entry has no other members.
   */
  lemma {:induction false} MembersStay(doc: Value, r: Request, principal: string, key: string, rest: Path)
    requires !IsList(key)
    ensures Lookup(Next(doc, r), MemberPath(principal, key, rest)) ==
              if Removes(doc, r, principal) then None else Lookup(doc, MemberPath(principal, key, rest))
  {
    var at, next := EntryPath(principal), Next(doc, r);
    LookupJoin(doc, at, [key] + rest);
    LookupJoin(next, at, [key] + rest);
    if IsAcl(r.op) && r.op.principal == principal && Answer(doc, r).Written? {
      EntryAfter(doc, r);
      EntryKeepsMembers(Was(doc, principal), r.registry, Remaining(doc, r.op), key, rest);
      assert Lookup(Null, [key] + rest) == None;
    } else if Answer(doc, r).Written? {
      EntryStays(doc, r, principal);
    }
  }

  /** Some request of the run removed the entry. */
  ghost predicate EverRemoves(doc: Value, run: seq<Request>, principal: string) {
    run != [] &&
    var front := run[..|run| - 1];
    EverRemoves(doc, front, principal) || Removes(Run(doc, front), run[|run| - 1], principal)
  }

  /** Over any run such a member is what it was at the start, or gone if the entry was ever removed. */
  lemma {:induction false} MembersStayLong(doc: Value, run: seq<Request>, principal: string, key: string, rest: Path)
    requires !IsList(key)
    ensures Lookup(Run(doc, run), MemberPath(principal, key, rest)) ==
              if EverRemoves(doc, run, principal) then None else Lookup(doc, MemberPath(principal, key, rest))
  {
    if run != [] {
      MembersStayLong(doc, run[..|run| - 1], principal, key, rest);
      MembersStay(Run(doc, run[..|run| - 1]), run[|run| - 1], principal, key, rest);
    }
  }

  // ---------------------------------------------------------------------------------------------
  // One registry
  // ---------------------------------------------------------------------------------------------

  ghost predicate AllDerived(doc: Value, registry: Registry) {
    forall principal :: Derived(doc, principal, registry)
  }

  /** With one registry, a derived document stays derived. */
  lemma {:induction false} AllDerivedStays(doc: Value, r: Request)
    requires AllDerived(doc, r.registry)
    ensures AllDerived(Next(doc, r), r.registry)
  {
    forall principal ensures Derived(Next(doc, r), principal, r.registry) {
      assert Derived(doc, principal, r.registry);
      if IsAcl(r.op) && r.op.principal == principal && Succeeds(doc, r) {
        DerivedStep(doc, r);
      } else {
        EntryStays(doc, r, principal);
      }
    }
  }

  // ---------------------------------------------------------------------------------------------
  // What a run leaves alone
  // ---------------------------------------------------------------------------------------------

  /** A run changes nothing at a path apart from everything its requests name and from the version. */
  lemma {:induction false} RunIsLocal(doc: Value, run: seq<Request>, path: Path)
    requires forall r :: r in run ==> Apart(Touched(r.op), path) && (IsAcl(r.op) ==> Apart(VERSION_PATH, path))
    ensures Lookup(Run(doc, run), path) == Lookup(doc, path)
  {
    if run != [] {
      RunIsLocal(doc, run[..|run| - 1], path);
      assert run[|run| - 1] in run;
      StepIsLocal(Run(doc, run[..|run| - 1]), run[|run| - 1], path);
    }
  }

  // ---------------------------------------------------------------------------------------------
  // Versions
  // ---------------------------------------------------------------------------------------------

  ghost predicate Advances(doc: Value, r: Request) {
    IsAcl(r.op) && Answer(doc, r).Written?
  }

  /** The number of written grants and revokes. */
  ghost function Changes(doc: Value, run: seq<Request>): nat {
    if run == [] then 0
    else
      var before := run[..|run| - 1];
      Changes(doc, before) + if Advances(Run(doc, before), run[|run| - 1]) then 1 else 0
  }

  lemma {:induction false} VersionStep(doc: Value, r: Request)
    ensures if Advances(doc, r) then Version.Increment(VersionOf(doc)) == Some(VersionOf(Next(doc, r)))
            else VersionOf(Next(doc, r)) == VersionOf(doc)
  {
    if Advances(doc, r) {
      var entry, mid := AclEdit(doc, r);
      assert Apart(EntryPath(r.op.principal), VERSION_PATH);
      if entry.Some? {
        SetIsLocal(doc, EntryPath(r.op.principal), entry.value, VERSION_PATH);
      } else {
        DeleteIsLocal(doc, EntryPath(r.op.principal), VERSION_PATH);
      }
      SetThenLookup(mid, VERSION_PATH, Str(Version.Increment(VersionOf(mid)).value));
    } else if !IsAcl(r.op) {
      StepIsLocal(doc, r, VERSION_PATH);
    }
  }

  lemma IterateStep(start: string, k: nat, was: string, now: string, advances: bool)
    requires Version.Iterate(start, k) == Some(was)
    requires if advances then Version.Increment(was) == Some(now) else now == was
    ensures Version.Iterate(start, k + if advances then 1 else 0) == Some(now)
  {
  }

  ghost predicate Counted(start: string, k: nat, now: string) {
    Version.Iterate(start, k) == Some(now)
  }

  lemma {:induction false} CountStep(start: string, k: nat, doc: Value, r: Request)
    requires Counted(start, k, VersionOf(doc))
    ensures Counted(start, k + if Advances(doc, r) then 1 else 0, VersionOf(Next(doc, r)))
  {
    VersionStep(doc, r);
    IterateStep(start, k, VersionOf(doc), VersionOf(Next(doc, r)), Advances(doc, r));
  }

  ghost predicate CountsOn(good: (nat, Value) -> bool, k: nat, doc: Value, r: Request) {
    good(k, doc) ==> good(k + if Advances(doc, r) then 1 else 0, Next(doc, r))
  }

  lemma {:induction false} CountAlong(good: (nat, Value) -> bool, doc: Value, run: seq<Request>)
    requires good(0, doc)
    requires forall k: nat, d, r :: CountsOn(good, k, d, r)
    ensures good(Changes(doc, run), Run(doc, run))
  {
    if run != [] {
      var before := run[..|run| - 1];
      CountAlong(good, doc, before);
      var k, d, r := Changes(doc, before), Run(doc, before), run[|run| - 1];
      assert CountsOn(good, k, d, r) && good(k, d);
      assert good(k + if Advances(d, r) then 1 else 0, Next(d, r));
      assert Changes(doc, run) == k + if Advances(d, r) then 1 else 0;
    }
  }

  /** The version counts the written grants and revokes, and nothing else. */
  lemma {:induction false} VersionCountsChanges(doc: Value, run: seq<Request>)
    ensures Counted(VersionOf(doc), Changes(doc, run), VersionOf(Run(doc, run)))
  {
    var start := VersionOf(doc);
    var good := (k: nat, d: Value) => Counted(start, k, VersionOf(d));
    forall k: nat, d, r ensures CountsOn(good, k, d, r) {
      if good(k, d) {
        CountStep(start, k, d, r);
      }
    }
    CountAlong(good, doc, run);
  }

  lemma {:induction false} AdvancesGrow(doc: Value, run: seq<Request>, i: nat, j: nat)
    requires i <= j <= |run|
    ensures Changes(doc, run[..i]) <= Changes(doc, run[..j])
    ensures Changes(doc, run[..i]) == Changes(doc, run[..j]) ==>
              Lookup(At(doc, run, i), ["acl"]) == Lookup(At(doc, run, j), ["acl"])
    decreases j
  {
    if i < j {
      AdvancesGrow(doc, run, i, j - 1);
      assert run[..j][..j - 1] == run[..j - 1];
      AtStep(doc, run, j - 1);
      var d, r := At(doc, run, j - 1), run[j - 1];
      if !IsAcl(r.op) {
        assert Apart(Touched(r.op), ["acl"]);
        StepIsLocal(d, r, ["acl"]);
      }
    }
  }

  /** Two documents of one run that carry the same version have the same ACL. */
  lemma {:induction false} VersionIdentifiesAcl(doc: Value, run: seq<Request>, i: nat, j: nat)
    requires i <= j <= |run| && VersionOf(At(doc, run, i)) == VersionOf(At(doc, run, j))
    ensures Lookup(At(doc, run, i), ["acl"]) == Lookup(At(doc, run, j), ["acl"])
  {
    AdvancesGrow(doc, run, i, j);
    VersionCountsChanges(doc, run[..i]);
    VersionCountsChanges(doc, run[..j]);
    if Changes(doc, run[..i]) < Changes(doc, run[..j]) {
      Version.VersionsDistinct(VersionOf(doc), Changes(doc, run[..i]), Changes(doc, run[..j]));
    }
  }

  // ---------------------------------------------------------------------------------------------
  // The allowlist
  // ---------------------------------------------------------------------------------------------

  /** The pair bypasses the approval hold: its value is there and not false. */
  predicate Listed(doc: Value, action: string, agent: string) {
    var v := Lookup(doc, PairPath(action, agent));
    v.Some? && v.value != Bool(false)
  }

  ghost predicate Settles(doc: Value, run: seq<Request>, i: nat, action: string, agent: string) {
    && i < |run| && !IsAcl(run[i].op) && run[i].op.action == action && run[i].op.agent == agent
    && Succeeds(At(doc, run, i), run[i])
  }

  lemma PairsApart(action: string, agent: string, action2: string, agent2: string)
    requires action != action2 || agent != agent2
    ensures Apart(PairPath(action, agent), PairPath(action2, agent2))
  {
    var p, q := PairPath(action, agent), PairPath(action2, agent2);
    assert p[1..] == ["allowlist", action, agent] && q[1..] == ["allowlist", action2, agent2];
    assert p[1..][1..] == [action, agent] && q[1..][1..] == [action2, agent2];
    assert [action, agent][1..] == [agent] && [action2, agent2][1..] == [agent2];
    assert Apart([agent], [agent2]) || agent == agent2;
    assert Apart([action, agent], [action2, agent2]);
    assert Apart(p[1..], q[1..]);
  }

  lemma {:induction false} ListedStep(doc: Value, r: Request, action: string, agent: string)
    ensures Listed(Next(doc, r), action, agent) ==
              if !IsAcl(r.op) && r.op.action == action && r.op.agent == agent && Succeeds(doc, r) then r.op.Allow?
              else Listed(doc, action, agent)
  {
    var at := PairPath(action, agent);
    if IsAcl(r.op) {
      StepIsLocal(doc, r, at);
    } else if r.op.action == action && r.op.agent == agent {
      if Answer(doc, r).Written? {
        PairAfter(doc, r);
      }
    } else {
      PairsApart(r.op.action, r.op.agent, action, agent);
      StepIsLocal(doc, r, at);
    }
  }

  lemma {:induction false} PairAfter(doc: Value, r: Request)
    requires !IsAcl(r.op) && Answer(doc, r).Written?
    ensures Lookup(Next(doc, r), PairPath(r.op.action, r.op.agent)) == if r.op.Allow? then Some(Bool(true)) else None
  {
    var at, up := PairPath(r.op.action, r.op.agent), ActionPath(r.op.action);
    if r.op.Allow? {
      SetThenLookup(doc, at, Bool(true));
    } else {
      DeleteThenLookup(doc, at);
      assert at == up + [r.op.agent];
      LookupJoin(Next(doc, r), up, [r.op.agent]);
      DeleteThenLookup(Delete(doc, at), up);
    }
  }

  lemma {:induction false} ListedStays(doc: Value, run: seq<Request>, lo: nat, hi: nat, action: string, agent: string)
    requires lo <= hi <= |run| && forall i: nat :: lo <= i ==> !Settles(doc, run, i, action, agent)
    ensures Listed(At(doc, run, hi), action, agent) == Listed(At(doc, run, lo), action, agent)
    decreases hi
  {
    if lo < hi {
      ListedStays(doc, run, lo, hi - 1, action, agent);
      AtStep(doc, run, hi - 1);
      assert !Settles(doc, run, hi - 1, action, agent);
      ListedStep(At(doc, run, hi - 1), run[hi - 1], action, agent);
    }
  }

  /**
   After any run a pair is listed exactly if the last successful request for it was an addition, or none
   was made and it was listed at the start.
   */
  lemma {:induction false} LastAllowlistRequestWins(doc: Value, run: seq<Request>, action: string, agent: string)
    ensures forall k: nat ::
              && Settles(doc, run, k, action, agent)
              && (forall i: nat :: i > k ==> !Settles(doc, run, i, action, agent)) ==>
              Listed(Run(doc, run), action, agent) == run[k].op.Allow?
    ensures (forall i: nat :: !Settles(doc, run, i, action, agent)) ==>
              Listed(Run(doc, run), action, agent) == Listed(doc, action, agent)
  {
    AtEnds(doc, run);
    forall k: nat | Settles(doc, run, k, action, agent) && (forall i: nat :: i > k ==> !Settles(doc, run, i, action, agent))
      ensures Listed(Run(doc, run), action, agent) == run[k].op.Allow?
    {
      AtStep(doc, run, k);
      ListedStep(At(doc, run, k), run[k], action, agent);
      ListedStays(doc, run, k + 1, |run|, action, agent);
    }
    if forall i: nat :: !Settles(doc, run, i, action, agent) {
      ListedStays(doc, run, 0, |run|, action, agent);
    }
  }

  ghost predicate NoEmptyMap(doc: Value) {
    forall action :: Lookup(doc, ActionPath(action)) != Some(Obj(map[]))
  }

  lemma ActionsApart(action: string, agent: string, other: string)
    requires action != other
    ensures Apart(PairPath(action, agent), ActionPath(other)) && Apart(ActionPath(action), ActionPath(other))
  {
    var p, a, b := PairPath(action, agent), ActionPath(action), ActionPath(other);
    assert p[1..] == ["allowlist", action, agent] && p[1..][1..] == [action, agent];
    assert a[1..] == ["allowlist", action] && a[1..][1..] == [action];
    assert b[1..] == ["allowlist", other] && b[1..][1..] == [other];
    assert Apart(p[1..], b[1..]) && Apart(a[1..], b[1..]);
  }

  /** No request leaves an empty action map behind. */
  lemma {:induction false} NoEmptyMapStays(doc: Value, r: Request)
    requires NoEmptyMap(doc)
    ensures NoEmptyMap(Next(doc, r))
  {
    forall action ensures Lookup(Next(doc, r), ActionPath(action)) != Some(Obj(map[])) {
      var at := ActionPath(action);
      assert Lookup(doc, at) != Some(Obj(map[]));
      if IsAcl(r.op) {
        StepIsLocal(doc, r, at);
      } else if r.op.action != action {
        ActionsApart(r.op.action, r.op.agent, action);
        StepIsLocal(doc, r, at);
      } else if Answer(doc, r).Written? {
        OwnMapAfter(doc, r);
      }
    }
  }

  lemma {:induction false} OwnMapAfter(doc: Value, r: Request)
    requires !IsAcl(r.op) && Answer(doc, r).Written?
    ensures Lookup(Next(doc, r), ActionPath(r.op.action)) != Some(Obj(map[]))
  {
    var at, up := PairPath(r.op.action, r.op.agent), ActionPath(r.op.action);
    if r.op.Allow? {
      PairAfter(doc, r);
      assert at == up + [r.op.agent];
      LookupJoin(Next(doc, r), up, [r.op.agent]);
    } else {
      DeleteThenLookup(Delete(doc, at), up);
    }
  }

  lemma {:induction false} NoEmptyMapEver(doc: Value, run: seq<Request>)
    requires NoEmptyMap(doc)
    ensures NoEmptyMap(Run(doc, run))
  {
    if run != [] {
      NoEmptyMapEver(doc, run[..|run| - 1]);
      NoEmptyMapStays(Run(doc, run[..|run| - 1]), run[|run| - 1]);
    }
  }
}
