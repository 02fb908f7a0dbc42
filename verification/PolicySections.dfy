/**
 The ACL section and the allowlist section of the policy document are independent: each request works
 on its own root members alone, so requests for the two sections commute.
 */
module PolicySections {
  import opened Wrappers
  import opened Json
  import opened OrderedSet
  import opened Utf8
  import opened Policy
  import opened PolicyRuns
  import Version

  const ACL_KEYS: set<string> := {"acl", "policy_version"}
  const LIST_KEYS: set<string> := {"latchgate"}

  type Members = map<string, Value>

  function Only(f: Members, keys: set<string>): Members {
    map k | k in f && k in keys :: f[k]
  }

  /** The same answer, with what it writes laid over `f`. */
  function Over(f: Members, out: Outcome): Outcome {
    if out.Written? then Written(Obj(f + Fields(out.doc))) else out
  }

  lemma BumpSection(f: Members, acl: Value)
    ensures Bump(Obj(f["acl" := acl])) == Over(f, Bump(Obj(Only(f, ACL_KEYS)["acl" := acl])))
    ensures var out := Bump(Obj(Only(f, ACL_KEYS)["acl" := acl])); out.Written? ==> Fields(out.doc).Keys <= ACL_KEYS
  {
    var a, b := f["acl" := acl], Only(f, ACL_KEYS)["acl" := acl];
    VersionInPlace(Obj(a), Null);
    VersionInPlace(Obj(b), Null);
    var out := Bump(Obj(b));
    if out.Written? {
      var text := Str(Version.Increment(VersionOf(Obj(b))).value);
      VersionInPlace(Obj(a), text);
      VersionInPlace(Obj(b), text);
      assert a["policy_version" := text] == f + b["policy_version" := text];
    }
  }

  lemma GrantSection(f: Members, registry: Registry, p: string, actions: set<string>)
    ensures var out := GrantDoc(registry, Obj(Only(f, ACL_KEYS)), p, actions);
            && GrantDoc(registry, Obj(f), p, actions) == Over(f, out)
            && (out.Written? ==> Fields(out.doc).Keys <= ACL_KEYS)
  {
    var a, b := Obj(f), Obj(Only(f, ACL_KEYS));
    assert Child(a, "acl") == Child(b, "acl");
    EntryInPlace(a, p, Null);
    EntryInPlace(b, p, Null);
    var entry := EntryFor(Was(a, p), registry, OwnActions(a, p) + actions);
    EntryInPlace(a, p, entry);
    EntryInPlace(b, p, entry);
    BumpSection(f, Obj(Fields(Child(a, "acl"))[p := entry]));
  }

  lemma RevokeSection(f: Members, registry: Registry, p: string, actions: set<string>)
    ensures var out := RevokeDoc(registry, Obj(Only(f, ACL_KEYS)), p, actions);
            && RevokeDoc(registry, Obj(f), p, actions) == Over(f, out)
            && (out.Written? ==> Fields(out.doc).Keys <= ACL_KEYS)
  {
    var a, b := Obj(f), Obj(Only(f, ACL_KEYS));
    assert Child(a, "acl") == Child(b, "acl");
    EntryInPlace(a, p, Null);
    EntryInPlace(b, p, Null);
    var acl, rest := Fields(Child(a, "acl")), OwnActions(a, p) - actions;
    if p in acl {
      if rest == {} {
        BumpSection(f, Obj(acl - {p}));
      } else {
        var entry := EntryFor(acl[p], registry, rest);
        EntryInPlace(a, p, entry);
        EntryInPlace(b, p, entry);
        BumpSection(f, Obj(acl[p := entry]));
      }
    }
  }

  lemma AclSection(f: Members, r: Request)
    requires IsAcl(r.op)
    ensures Answer(Obj(f), r) == Over(f, Answer(Obj(Only(f, ACL_KEYS)), r))
    ensures Fields(Next(Obj(Only(f, ACL_KEYS)), r)).Keys <= ACL_KEYS
  {
    GrantSection(f, r.registry, r.op.principal, Elements(r.op.actions));
    RevokeSection(f, r.registry, r.op.principal, Elements(r.op.actions));
  }

  lemma ListSection(f: Members, r: Request)
    requires !IsAcl(r.op)
    ensures Answer(Obj(f), r) == Over(f, Answer(Obj(Only(f, LIST_KEYS)), r))
    ensures Fields(Next(Obj(Only(f, LIST_KEYS)), r)).Keys <= LIST_KEYS
  {
    var g, action, agent := Only(f, LIST_KEYS), r.op.action, r.op.agent;
    assert Child(Obj(f), "latchgate") == Child(Obj(g), "latchgate");
    PairInPlace(Obj(f), action, agent, Bool(true));
    PairInPlace(Obj(g), action, agent, Bool(true));
    var list := AllowlistOf(Obj(f));
    if r.op.Allow? {
      WithSection(f, list[action := Obj(Fields(Child(Obj(list), action))[agent := Bool(true)])]);
    } else if action in list && agent in Fields(list[action]) {
      PairRemoved(Obj(f), action, agent);
      PairRemoved(Obj(g), action, agent);
      var agents := Fields(list[action]) - {agent};
      WithSection(f, if agents == map[] then list - {action} else list[action := Obj(agents)]);
    }
  }

  lemma WithSection(f: Members, list: Members)
    ensures WithAllowlist(Obj(f), list) == Obj(f + Fields(WithAllowlist(Obj(Only(f, LIST_KEYS)), list)))
    ensures Fields(WithAllowlist(Obj(Only(f, LIST_KEYS)), list)).Keys <= LIST_KEYS
  {
    var g := Only(f, LIST_KEYS);
    assert Child(Obj(f), "latchgate") == Child(Obj(g), "latchgate");
    var x := Obj(Fields(Child(Obj(f), "latchgate"))["allowlist" := Obj(list)]);
    assert f["latchgate" := x] == f + g["latchgate" := x];
  }

  /** One request for each section: the same document in either order, and the same answers. */
  ghost predicate Commute(doc: Value, a: Request, b: Request) {
    && Next(Next(doc, a), b) == Next(Next(doc, b), a)
    && SameAnswer(Answer(doc, a), Answer(Next(doc, b), a))
    && SameAnswer(Answer(doc, b), Answer(Next(doc, a), b))
  }

  predicate SameAnswer(x: Outcome, y: Outcome) {
    x == y || (x.Written? && y.Written?)
  }

  /** What a request writes into its own section. */
  ghost function Part(f: Members, r: Request): Members {
    Fields(Next(Obj(Only(f, if IsAcl(r.op) then ACL_KEYS else LIST_KEYS)), r))
  }

  lemma NextIsOverlay(f: Members, r: Request)
    ensures Next(Obj(f), r) == Obj(f + Part(f, r))
    ensures Part(f, r).Keys <= if IsAcl(r.op) then ACL_KEYS else LIST_KEYS
  {
    var keys := if IsAcl(r.op) then ACL_KEYS else LIST_KEYS;
    assert f + Only(f, keys) == f;
    if IsAcl(r.op) {
      AclSection(f, r);
    } else {
      ListSection(f, r);
    }
  }

  lemma Overlays(f: Members, acl: Members, list: Members)
    requires acl.Keys <= ACL_KEYS && list.Keys <= LIST_KEYS
    ensures Only(f + acl, LIST_KEYS) == Only(f, LIST_KEYS) && Only(f + list, ACL_KEYS) == Only(f, ACL_KEYS)
    ensures f + acl + list == f + list + acl
  {
  }

  lemma ObjectsCommute(f: Members, a: Request, b: Request)
    requires IsAcl(a.op) && !IsAcl(b.op)
    ensures Commute(Obj(f), a, b)
  {
    var fa, fb := Part(f, a), Part(f, b);
    NextIsOverlay(f, a);
    NextIsOverlay(f, b);
    Overlays(f, fa, fb);
    NextIsOverlay(f + fa, b);
    NextIsOverlay(f + fb, a);
    assert Next(Next(Obj(f), a), b) == Next(Next(Obj(f), b), a);
    SameAnswers(f, f + fb, a);
    SameAnswers(f, f + fa, b);
  }

  lemma SameAnswers(f: Members, g: Members, r: Request)
    requires var keys := if IsAcl(r.op) then ACL_KEYS else LIST_KEYS; Only(f, keys) == Only(g, keys)
    ensures SameAnswer(Answer(Obj(f), r), Answer(Obj(g), r))
  {
    if IsAcl(r.op) {
      AclSection(f, r);
      AclSection(g, r);
    } else {
      ListSection(f, r);
      ListSection(g, r);
    }
  }

  lemma {:induction false} OthersCommute(doc: Value, a: Request, b: Request)
    requires IsAcl(a.op) && !IsAcl(b.op) && !doc.Obj? && !doc.Null?
    ensures Commute(doc, a, b)
  {
  }

  /** A null root is refused by a grant, and becomes an object with the first allowlist entry. */
  lemma NullDoesNotCommute(a: Request, b: Request)
    requires a == Request(map["a" := []], Grant("p", ["a"])) && b == Request(map["a" := []], Allow("a", "b"))
    ensures !Commute(Null, a, b)
  {
    ShortIds();
    assert ["a"][..0] == [];
    assert FirstRefusal(Some(a.registry), []) == None;
    assert FirstRefusal(Some(a.registry), ["a"]) == None;
    assert Validate(a.registry, a.op) == None;
    assert Next(Null, a) == Null;
    assert Validate(b.registry, b.op) == None;
    var d := Next(Null, b);
    assert d.Obj?;
    assert Answer(Null, a) == Refused(RootNotObject);
    assert Answer(d, a) != Refused(RootNotObject);
    assert !Answer(Null, a).Written?;
  }

  lemma ShortIds()
    ensures IsActionId("a") && IsAllowlistId("a") && IsAllowlistId("b") && IsPrincipal("p")
  {
    IdsExactly("a");
    IdsExactly("b");
    assert "p"[1..] == "" && Bytes("p") == CharBytes('p') + [];
  }

  /** ACL requests and allowlist requests commute on a document exactly if its root is not null. */
  lemma {:induction false} SectionsCommuteExactly(doc: Value)
    ensures (forall a: Request, b: Request :: IsAcl(a.op) && !IsAcl(b.op) ==> Commute(doc, a, b)) <==> !doc.Null?
  {
    if doc.Null? {
      NullDoesNotCommute(Request(map["a" := []], Grant("p", ["a"])), Request(map["a" := []], Allow("a", "b")));
    } else {
      forall a: Request, b: Request | IsAcl(a.op) && !IsAcl(b.op) ensures Commute(doc, a, b) {
        if doc.Obj? {
          ObjectsCommute(doc.fields, a, b);
        } else {
          OthersCommute(doc, a, b);
        }
      }
    }
  }

  function AclPart(run: seq<Request>): seq<Request> {
    if run == [] then []
    else AclPart(run[..|run| - 1]) + if IsAcl(run[|run| - 1].op) then [run[|run| - 1]] else []
  }

  function ListPart(run: seq<Request>): (part: seq<Request>)
    ensures forall r :: r in part ==> !IsAcl(r.op)
  {
    if run == [] then []
    else ListPart(run[..|run| - 1]) + if IsAcl(run[|run| - 1].op) then [] else [run[|run| - 1]]
  }

  lemma {:induction false} RunKeepsObject(f: Members, run: seq<Request>)
    ensures Run(Obj(f), run).Obj?
  {
    if run != [] {
      RunKeepsObject(f, run[..|run| - 1]);
      NextIsOverlay(Run(Obj(f), run[..|run| - 1]).fields, run[|run| - 1]);
    }
  }

  /** An ACL request after allowlist requests might as well have come before them. */
  lemma {:induction false} AclMovesForward(f: Members, list: seq<Request>, a: Request)
    requires IsAcl(a.op) && forall r :: r in list ==> !IsAcl(r.op)
    ensures Next(Run(Obj(f), list), a) == Run(Next(Obj(f), a), list)
  {
    if list != [] {
      var front, b := list[..|list| - 1], list[|list| - 1];
      AclMovesForward(f, front, a);
      RunKeepsObject(f, front);
      assert b in list;
      ObjectsCommute(Run(Obj(f), front).fields, a, b);
    }
  }

  /** On an object root any run equals its ACL requests followed by its allowlist requests. */
  lemma {:induction false} RunSplits(f: Members, run: seq<Request>)
    ensures Run(Obj(f), run) == Run(Run(Obj(f), AclPart(run)), ListPart(run))
  {
    if run != [] {
      var front, r := run[..|run| - 1], run[|run| - 1];
      RunSplits(f, front);
      RunKeepsObject(f, AclPart(front));
      var mid := Run(Obj(f), AclPart(front));
      if IsAcl(r.op) {
        AclMovesForward(mid.fields, ListPart(front), r);
        RunOn(Obj(f), AclPart(front), r);
        assert ListPart(front) + [] == ListPart(front);
      } else {
        RunOn(mid, ListPart(front), r);
        assert AclPart(front) + [] == AclPart(front);
      }
    }
  }
}
