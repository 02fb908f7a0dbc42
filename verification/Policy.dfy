/**
 The policy endpoints of `crates/latchgate-api/src/policy.rs` and `policy_allowlist.rs` on the document
 helpers of `crates/latchgate-core/src/policy_data.rs`: granting and revoking actions in the ACL
 section, and adding and removing pairs of the approval allowlist. Each request reads the document,
 edits a copy and writes it back; the copy is dropped if anything fails on the way.
 */
module Policy {
  import opened Wrappers
  import opened Json
  import opened OrderedSet
  import opened Utf8
  import Version

  const MAX_PRINCIPAL_LEN: nat := 253
  const MAX_ACTION_ID_LEN: nat := 253
  const MAX_ACTIONS_PER_REQUEST: nat := 100
  const MAX_ID_LEN: nat := 128

  /** The declared side effects of each registered action, in manifest order. */
  type Registry = map<string, seq<string>>

  datatype Op =
    | Grant(principal: string, actions: seq<string>)
    | Revoke(principal: string, actions: seq<string>)
    | Allow(action: string, agent: string)
    | Disallow(action: string, agent: string)

  datatype Refusal =
    | InvalidPrincipal
    | EmptyActions
    | TooManyActions
    | InvalidActionId(id: string)
    | UnknownAction(id: string)
    | InvalidInput(field: string)
    | ActionNotFound(id: string)
    | RootNotObject
    | EntryNotObject
    | AllowlistEntryNotFound

  /** `Unchanged` succeeds without writing. `Aborted` is a panic, which ends the process. */
  datatype Outcome = Written(doc: Value) | Unchanged | Refused(why: Refusal) | Aborted

  // ---------------------------------------------------------------------------------------------
  // Validation
  // ---------------------------------------------------------------------------------------------

  /** `[A-Za-z0-9_-]`, byte by byte. */
  predicate IsIdByte(b: nat) {
    || 'a' as int <= b <= 'z' as int || 'A' as int <= b <= 'Z' as int || '0' as int <= b <= '9' as int
    || b == '_' as int || b == '-' as int
  }

  predicate IsListByte(b: nat) {
    IsIdByte(b) || b == ':' as int
  }

  predicate IsPrincipal(principal: string) {
    principal != "" && |Bytes(principal)| <= MAX_PRINCIPAL_LEN
  }

  predicate IsActionId(id: string) {
    id != "" && |Bytes(id)| <= MAX_ACTION_ID_LEN && AllBytes(Bytes(id), IsIdByte)
  }

  predicate IsAllowlistId(id: string) {
    id != "" && |Bytes(id)| <= MAX_ID_LEN && AllBytes(Bytes(id), IsListByte)
  }

  /** The characters from one to another. */
  function Range(lo: char, hi: char): string
    requires lo <= hi && hi as int < 0x80
  {
    seq(hi as int - lo as int + 1, i requires 0 <= i <= hi as int - lo as int => (lo as int + i) as char)
  }

  const ID_CHARS: string := Range('A', 'Z') + Range('a', 'z') + Range('0', '9') + "_-"

  /** Identifiers are the strings of 1 to 253 characters of the alphabet, or of 1 to 128 with the colon for the allowlist. */
  lemma IdsExactly(id: string)
    ensures IsActionId(id) <==> 1 <= |id| <= 253 && forall i :: 0 <= i < |id| ==> id[i] in ID_CHARS
    ensures IsAllowlistId(id) <==> 1 <= |id| <= 128 && forall i :: 0 <= i < |id| ==> id[i] in ID_CHARS + ":"
  {
    AsciiCheck(id, IsIdByte);
    AsciiCheck(id, IsListByte);
    forall c: char ensures IsIdByte(c as int) <==> c in ID_CHARS {
      IdAlphabet(c);
    }
  }

  lemma InRange(lo: char, hi: char, c: char)
    requires lo <= hi && hi as int < 0x80
    ensures c in Range(lo, hi) <==> lo <= c <= hi
  {
    if lo <= c <= hi {
      assert Range(lo, hi)[c as int - lo as int] == c;
    }
  }

  lemma IdAlphabet(c: char)
    ensures IsIdByte(c as int) <==> c in ID_CHARS
  {
    InRange('A', 'Z', c);
    InRange('a', 'z', c);
    InRange('0', '9', c);
  }

  /** Grants also look the action up in the registry, revokes do not. */
  function IdRefusal(registry: Option<Registry>, id: string): Option<Refusal> {
    if !IsActionId(id) then Some(InvalidActionId(id))
    else if registry.Some? && id !in registry.value then Some(UnknownAction(id))
    else None
  }

  function FirstRefusal(registry: Option<Registry>, ids: seq<string>): Option<Refusal> {
    if ids == [] then None
    else
      var before := FirstRefusal(registry, ids[..|ids| - 1]);
      if before.Some? then before else IdRefusal(registry, ids[|ids| - 1])
  }

  function AclRefusal(registry: Option<Registry>, principal: string, ids: seq<string>): Option<Refusal> {
    if !IsPrincipal(principal) then Some(InvalidPrincipal)
    else if ids == [] then Some(EmptyActions)
    else if |ids| > MAX_ACTIONS_PER_REQUEST then Some(TooManyActions)
    else FirstRefusal(registry, ids)
  }

  function Validate(registry: Registry, op: Op): Option<Refusal> {
    match op
    case Grant(principal, ids) => AclRefusal(Some(registry), principal, ids)
    case Revoke(principal, ids) => AclRefusal(None, principal, ids)
    case Allow(action, agent) =>
      if !IsAllowlistId(action) then Some(InvalidInput("action_id"))
      else if !IsAllowlistId(agent) then Some(InvalidInput("agent_id"))
      else if action !in registry then Some(ActionNotFound(action))
      else None
    case Disallow(action, agent) =>
      if !IsAllowlistId(action) then Some(InvalidInput("action_id"))
      else if !IsAllowlistId(agent) then Some(InvalidInput("agent_id"))
      else None
  }

  /** The checks of one action list: the first offending identifier decides. */
  method CheckIds(registry: Option<Registry>, ids: seq<string>) returns (bad: Option<Refusal>)
    ensures bad == FirstRefusal(registry, ids)
    ensures bad.None? <==> forall i :: 0 <= i < |ids| ==> IdRefusal(registry, ids[i]).None?
  {
    for n := 0 to |ids|
      invariant forall i :: 0 <= i < n ==> IdRefusal(registry, ids[i]).None?
    {
      bad := IdRefusal(registry, ids[n]);
      if bad.Some? {
        RefusalAt(registry, ids, n);
        return;
      }
    }
    NoRefusal(registry, ids);
    return None;
  }

  lemma {:induction false} NoRefusal(registry: Option<Registry>, ids: seq<string>)
    requires forall i :: 0 <= i < |ids| ==> IdRefusal(registry, ids[i]).None?
    ensures FirstRefusal(registry, ids) == None
  {
    if ids != [] {
      NoRefusal(registry, ids[..|ids| - 1]);
    }
  }

  lemma {:induction false} RefusalAt(registry: Option<Registry>, ids: seq<string>, i: nat)
    requires i < |ids| && IdRefusal(registry, ids[i]).Some?
    requires forall k :: 0 <= k < i ==> IdRefusal(registry, ids[k]).None?
    ensures FirstRefusal(registry, ids) == IdRefusal(registry, ids[i])
  {
    NoRefusal(registry, ids[..i]);
    assert ids[..i + 1][..i] == ids[..i];
    FirstRefusalStays(registry, ids, i + 1);
  }

  lemma {:induction false} FirstRefusalStays(registry: Option<Registry>, ids: seq<string>, n: nat)
    requires n <= |ids| && FirstRefusal(registry, ids[..n]).Some?
    ensures FirstRefusal(registry, ids) == FirstRefusal(registry, ids[..n])
  {
    if n == |ids| {
      assert ids[..n] == ids;
    } else {
      assert ids[..|ids| - 1][..n] == ids[..n];
      FirstRefusalStays(registry, ids[..|ids| - 1], n);
    }
  }

  // ---------------------------------------------------------------------------------------------
  // The document
  // ---------------------------------------------------------------------------------------------

  function EntryPath(principal: string): Path {
    ["acl", principal]
  }

  function PairPath(action: string, agent: string): Path {
    ["latchgate", "allowlist", action, agent]
  }

  function ListPath(): Path {
    ["latchgate", "allowlist"]
  }

  function ActionPath(action: string): Path {
    ["latchgate", "allowlist", action]
  }

  const VERSION_PATH: Path := ["policy_version"]

  /** The strings of an array; none if the value is missing or not an array. */
  function StringsIn(v: Option<Value>): set<string> {
    if v.Some? && v.value.Arr? then set x | x in v.value.items && x.Str? :: x.text else {}
  }

  function MemberOf(entry: Option<Value>, key: string): Option<Value> {
    if entry.Some? && key in Fields(entry.value) then Some(Fields(entry.value)[key]) else None
  }

  /** The actions the entry of a principal lists. */
  function OwnActions(doc: Value, principal: string): set<string> {
    StringsIn(MemberOf(Lookup(doc, EntryPath(principal)), "allowed_actions"))
  }

  function OwnSinks(doc: Value, principal: string): set<string> {
    StringsIn(MemberOf(Lookup(doc, EntryPath(principal)), "allowed_sinks"))
  }

  function VersionOf(doc: Value): string {
    var v := Lookup(doc, VERSION_PATH);
    if v.Some? && v.value.Str? then v.value.text else ""
  }

  /** The side effects declared by any of the actions. */
  function SinksOf(registry: Registry, actions: set<string>): set<string> {
    set action, sink | action in actions && action in registry && sink in registry[action] :: sink
  }

  function Strings(s: seq<string>): Value {
    Arr(seq(|s|, i requires 0 <= i < |s| => Str(s[i])))
  }

  lemma StringsRoundTrip(s: seq<string>)
    ensures StringsIn(Some(Strings(s))) == Elements(s)
  {
    var items := Strings(s).items;
    forall x | x in s ensures Str(x) in items {
      var i :| 0 <= i < |s| && s[i] == x;
      assert items[i] == Str(x);
    }
  }

  ghost function EntryFor(was: Value, registry: Registry, actions: set<string>): Value {
    var sinks := Strings(Listing(SinksOf(registry, actions)));
    Obj(Fields(was)["allowed_actions" := Strings(Listing(actions))]["allowed_sinks" := sinks])
  }

  function Bump(doc: Value): Outcome {
    var next := Version.Increment(VersionOf(doc));
    if next.None? then Aborted else Written(Set(doc, VERSION_PATH, Str(next.value)))
  }

  ghost function GrantDoc(registry: Registry, doc: Value, principal: string, actions: set<string>): Outcome {
    var entry := Lookup(doc, EntryPath(principal));
    if !doc.Obj? then Refused(RootNotObject)
    else if entry.Some? && !entry.value.Obj? then Refused(EntryNotObject)
    else
      var was := if entry.Some? then entry.value else Null;
      Bump(Set(doc, EntryPath(principal), EntryFor(was, registry, OwnActions(doc, principal) + actions)))
  }

  ghost function RevokeDoc(registry: Registry, doc: Value, principal: string, actions: set<string>): Outcome {
    var entry := Lookup(doc, EntryPath(principal));
    if !doc.Obj? then Refused(RootNotObject)
    else if entry.None? then Unchanged
    else if !entry.value.Obj? then Refused(EntryNotObject)
    else
      var rest := OwnActions(doc, principal) - actions;
      if rest == {} then Bump(Delete(doc, EntryPath(principal)))
      else Bump(Set(doc, EntryPath(principal), EntryFor(entry.value, registry, rest)))
  }

  /** Indexing a null root makes it an object; indexing any other non-object panics. */
  function AllowDoc(doc: Value, action: string, agent: string): Outcome {
    if !doc.Obj? && !doc.Null? then Aborted
    else Written(Set(doc, PairPath(action, agent), Bool(true)))
  }

  function DisallowDoc(doc: Value, action: string, agent: string): Outcome {
    if !doc.Obj? && !doc.Null? then Aborted
    else if Lookup(doc, PairPath(action, agent)).None? then Refused(AllowlistEntryNotFound)
    else Written(Prune(Delete(doc, PairPath(action, agent)), action))
  }

  function Prune(doc: Value, action: string): Value {
    if Lookup(doc, ActionPath(action)) == Some(Obj(map[])) then Delete(doc, ActionPath(action)) else doc
  }

  ghost function Handle(registry: Registry, doc: Value, op: Op): Outcome {
    var bad := Validate(registry, op);
    if bad.Some? then Refused(bad.value)
    else
      match op
      case Grant(principal, ids) => GrantDoc(registry, doc, principal, Elements(ids))
      case Revoke(principal, ids) => RevokeDoc(registry, doc, principal, Elements(ids))
      case Allow(action, agent) => AllowDoc(doc, action, agent)
      case Disallow(action, agent) => DisallowDoc(doc, action, agent)
  }

  // ---------------------------------------------------------------------------------------------
  // The handlers
  // ---------------------------------------------------------------------------------------------

  method CollectActions(entry: map<string, Value>) returns (actions: seq<string>)
    ensures Ascending(actions) && Elements(actions) == StringsIn(MemberOf(Some(Obj(entry)), "allowed_actions"))
    ensures forall x :: x in actions <==>
              "allowed_actions" in entry && entry["allowed_actions"].Arr? && Str(x) in entry["allowed_actions"].items
  {
    actions := [];
    if "allowed_actions" in entry && entry["allowed_actions"].Arr? {
      var items := entry["allowed_actions"].items;
      for n := 0 to |items|
        invariant Ascending(actions)
        invariant Elements(actions) == set x | x in items[..n] && x.Str? :: x.text
      {
        assert items[..n + 1] == items[..n] + [items[n]];
        if items[n].Str? {
          InsertIsUnion(actions, items[n].text);
          actions := Insert(actions, items[n].text);
        }
      }
      assert items[..|items|] == items;
    }
    assert forall x :: x in actions <==> x in Elements(actions);
  }

  method DeriveSinks(actions: seq<string>, registry: Registry) returns (sinks: seq<string>)
    ensures sinks == Listing(SinksOf(registry, Elements(actions)))
    ensures forall x :: x in sinks <==>
              exists i :: 0 <= i < |actions| && actions[i] in registry && x in registry[actions[i]]
  {
    sinks := [];
    for n := 0 to |actions|
      invariant Ascending(sinks) && Elements(sinks) == SinksOf(registry, Elements(actions[..n]))
    {
      ghost var before := Elements(sinks);
      assert actions[..n + 1] == actions[..n] + [actions[n]];
      if actions[n] in registry {
        var declared := registry[actions[n]];
        for k := 0 to |declared|
          invariant Ascending(sinks) && Elements(sinks) == before + Elements(declared[..k])
        {
          assert declared[..k + 1] == declared[..k] + [declared[k]];
          InsertIsUnion(sinks, declared[k]);
          sinks := Insert(sinks, declared[k]);
        }
        assert declared[..|declared|] == declared;
      }
    }
    assert actions[..|actions|] == actions;
    ListingIsUnique(sinks, Listing(SinksOf(registry, Elements(actions))));
    assert forall x :: x in sinks <==> x in Elements(sinks);
  }

  method InsertAll(was: seq<string>, ids: seq<string>) returns (actions: seq<string>)
    requires Ascending(was)
    ensures actions == Listing(Elements(was) + Elements(ids))
  {
    actions := was;
    for n := 0 to |ids|
      invariant Ascending(actions) && Elements(actions) == Elements(was) + Elements(ids[..n])
    {
      assert ids[..n + 1] == ids[..n] + [ids[n]];
      InsertIsUnion(actions, ids[n]);
      actions := Insert(actions, ids[n]);
    }
    assert ids[..|ids|] == ids;
    ListingIsUnique(actions, Listing(Elements(was) + Elements(ids)));
  }

  method RemoveAll(was: seq<string>, ids: seq<string>) returns (actions: seq<string>)
    requires Ascending(was)
    ensures actions == Listing(Elements(was) - Elements(ids))
  {
    actions := was;
    for n := 0 to |ids|
      invariant Ascending(actions) && Elements(actions) == Elements(was) - Elements(ids[..n])
    {
      assert ids[..n + 1] == ids[..n] + [ids[n]];
      RemoveIsDifference(actions, ids[n]);
      actions := Remove(actions, ids[n]);
    }
    assert ids[..|ids|] == ids;
    ListingIsUnique(actions, Listing(Elements(was) - Elements(ids)));
  }

  /** What the nested updates of an ACL entry amount to, path by path. */
  lemma {:induction false} EntryInPlace(doc: Value, principal: string, entry: Value)
    ensures Lookup(doc, EntryPath(principal)) ==
              if principal in Fields(Child(doc, "acl")) then Some(Fields(Child(doc, "acl"))[principal]) else None
    ensures Set(doc, EntryPath(principal), entry) ==
              Obj(Fields(doc)["acl" := Obj(Fields(Child(doc, "acl"))[principal := entry])])
    ensures principal in Fields(Child(doc, "acl")) ==>
              Delete(doc, EntryPath(principal)) == Obj(Fields(doc)["acl" := Obj(Fields(Child(doc, "acl")) - {principal})])
  {
    var acl, rest := Child(doc, "acl"), [principal];
    assert EntryPath(principal)[1..] == rest && rest[1..] == [];
    assert Lookup(acl, rest) == if principal in Fields(acl) then Some(Fields(acl)[principal]) else None;
    assert Set(acl, rest, entry) == Obj(Fields(acl)[principal := entry]);
  }

  lemma {:induction false} VersionInPlace(doc: Value, text: Value)
    ensures Lookup(doc, VERSION_PATH) ==
              if "policy_version" in Fields(doc) then Some(Fields(doc)["policy_version"]) else None
    ensures Set(doc, VERSION_PATH, text) == Obj(Fields(doc)["policy_version" := text])
  {
    assert VERSION_PATH[1..] == [];
  }

  /** `increment_version` on the root object. */
  method IncrementVersion(root: map<string, Value>) returns (out: Outcome)
    ensures out == Bump(Obj(root))
    ensures "policy_version" !in root || !root["policy_version"].Str? || root["policy_version"].text == "" ==>
              out == Written(Obj(root["policy_version" := Str("v1")]))
    ensures out.Written? ==>
              && Fields(out.doc).Keys == root.Keys + {"policy_version"} && Fields(out.doc)["policy_version"].Str?
              && forall k :: k in root && k != "policy_version" ==> Fields(out.doc)[k] == root[k]
  {
    var current := if "policy_version" in root && root["policy_version"].Str? then root["policy_version"].text else "";
    VersionInPlace(Obj(root), Null);
    var next := Version.Increment(current);
    if next.None? {
      return Aborted;
    }
    VersionInPlace(Obj(root), Str(next.value));
    return Written(Obj(root["policy_version" := Str(next.value)]));
  }

  /**
   `ensure_acl_object`, after the root was found to be an object: the section is there and is an object,
   and every other path of the document leads where it led before.
   */
  method EnsureAcl(root: map<string, Value>) returns (grown: map<string, Value>, acl: map<string, Value>)
    ensures Lookup(Obj(grown), ["acl"]) == Some(Obj(acl))
    ensures forall path :: path != [] && path != ["acl"] ==> Lookup(Obj(grown), path) == Lookup(Obj(root), path)
    ensures acl == Fields(Child(Obj(root), "acl")) && grown == root["acl" := Obj(acl)]
  {
    grown := root;
    if "acl" !in root || !root["acl"].Obj? {
      grown := root["acl" := Obj(map[])];
    }
    acl := grown["acl"].fields;
    assert ["acl"][1..] == [];
    forall path: Path | path != [] && path != ["acl"] ensures Lookup(Obj(grown), path) == Lookup(Obj(root), path) {
      MemberMadeObject(root, "acl", path);
    }
  }

  /** Replacing a missing or non-object member by an empty object shows at no path but its own. */
  lemma MemberMadeObject(root: map<string, Value>, key: string, path: Path)
    requires path != [] && path != [key]
    ensures Lookup(Obj(root[key := Obj(Fields(Child(Obj(root), key)))]), path) == Lookup(Obj(root), path)
  {
    assert |path| == 1 ==> path == [path[0]];
  }

  /** The entry with its two lists replaced: the actions given, and the sinks derived from them. */
  method UpdateEntry(was: map<string, Value>, registry: Registry, actions: seq<string>, ghost held: set<string>)
    returns (entry: Value)
    requires actions == Listing(held)
    ensures entry == EntryFor(Obj(was), registry, held)
  {
    var sinks := DeriveSinks(actions, registry);
    return Obj(was["allowed_actions" := Strings(actions)]["allowed_sinks" := Strings(sinks)]);
  }

  /** The entry of a principal after a grant: a new one if there is none, nothing if it is no object. */
  method GrantEntry(acl: map<string, Value>, registry: Registry, principal: string, ids: seq<string>)
    returns (entry: Option<Value>)
    ensures entry.None? <==> principal in acl && !acl[principal].Obj?
    ensures var was := if principal in acl then Some(acl[principal]) else None;
            entry.Some? ==>
              entry.value == EntryFor(if was.Some? then was.value else Null, registry,
                                      StringsIn(MemberOf(was, "allowed_actions")) + Elements(ids))
  {
    var was: map<string, Value> := map["allowed_actions" := Arr([]), "allowed_sinks" := Arr([])];
    if principal in acl {
      if !acl[principal].Obj? { return None; }
      was := acl[principal].fields;
    }
    var actions := CollectActions(was);
    ghost var stored := if principal in acl then Some(acl[principal]) else None;
    assert Elements(actions) == StringsIn(MemberOf(stored, "allowed_actions"));
    ghost var held := Elements(actions) + Elements(ids);
    actions := InsertAll(actions, ids);
    var updated := UpdateEntry(was, registry, actions, held);
    assert principal !in acl ==> updated == EntryFor(Null, registry, held);
    return Some(updated);
  }

  /** The edit of a validated grant, on a copy of the document. */
  method GrantIn(doc: Value, registry: Registry, principal: string, ids: seq<string>) returns (out: Outcome)
    ensures out == GrantDoc(registry, doc, principal, Elements(ids))
  {
    if !doc.Obj? { return Refused(RootNotObject); }
    var root, acl := EnsureAcl(doc.fields);
    EntryInPlace(doc, principal, Null);
    var entry := GrantEntry(acl, registry, principal, ids);
    if entry.None? { return Refused(EntryNotObject); }
    EntryInPlace(doc, principal, entry.value);
    acl := acl[principal := entry.value];
    assert root["acl" := Obj(acl)] == doc.fields["acl" := Obj(acl)];
    out := IncrementVersion(root["acl" := Obj(acl)]);
  }

  /** The edit of a validated revoke, on a copy of the document. */
  method RevokeIn(doc: Value, registry: Registry, principal: string, ids: seq<string>) returns (out: Outcome)
    ensures out == RevokeDoc(registry, doc, principal, Elements(ids))
  {
    if !doc.Obj? { return Refused(RootNotObject); }
    var root, acl := EnsureAcl(doc.fields);
    EntryInPlace(doc, principal, Null);
    if principal !in acl { return Unchanged; }
    if !acl[principal].Obj? { return Refused(EntryNotObject); }
    var actions := CollectActions(acl[principal].fields);
    assert Elements(actions) == OwnActions(doc, principal);
    actions := RemoveAll(actions, ids);
    assert Elements(actions) == OwnActions(doc, principal) - Elements(ids);
    assert actions != [] ==> actions[0] in Elements(actions);
    if actions == [] {
      acl := acl - {principal};
    } else {
      var entry := UpdateEntry(acl[principal].fields, registry, actions, Elements(actions));
      EntryInPlace(doc, principal, entry);
      acl := acl[principal := entry];
    }
    assert root["acl" := Obj(acl)] == doc.fields["acl" := Obj(acl)];
    out := IncrementVersion(root["acl" := Obj(acl)]);
  }

  class Document {
    var doc: Value

    constructor (initial: Value)
      ensures doc == initial
    {
      doc := initial;
    }

    method GrantActions(registry: Registry, principal: string, ids: seq<string>) returns (out: Outcome)
      modifies this
      ensures out == Handle(registry, old(doc), Grant(principal, ids))
      ensures doc == if out.Written? then out.doc else old(doc)
    {
      var invalid := CheckAclRequest(Some(registry), principal, ids);
      if invalid.Some? { return Refused(invalid.value); }
      out := GrantIn(doc, registry, principal, ids);
      if out.Written? { doc := out.doc; }
    }

    method RevokeActions(registry: Registry, principal: string, ids: seq<string>) returns (out: Outcome)
      modifies this
      ensures out == Handle(registry, old(doc), Revoke(principal, ids))
      ensures doc == if out.Written? then out.doc else old(doc)
    {
      var invalid := CheckAclRequest(None, principal, ids);
      if invalid.Some? { return Refused(invalid.value); }
      out := RevokeIn(doc, registry, principal, ids);
      if out.Written? { doc := out.doc; }
    }

    /**
     `ensure_allowlist_object`: the document with the containers in place, or nothing if indexing panics.
     Every path but those of the two containers leads where it led before.
     */
    method EnsureAllowlist() returns (grown: Option<Value>)
      ensures grown.None? <==> !doc.Obj? && !doc.Null?
      ensures grown.Some? ==> Lookup(grown.value, ListPath()) == Some(Obj(AllowlistOf(doc)))
      ensures grown.Some? ==> grown.value == WithAllowlist(doc, AllowlistOf(doc))
      ensures grown.Some? ==> forall path :: !(path <= ListPath()) ==> Lookup(grown.value, path) == Lookup(doc, path)
    {
      if !doc.Obj? && !doc.Null? { return None; }
      var root := Fields(doc);
      if "latchgate" !in root || !root["latchgate"].Obj? {
        root := root["latchgate" := Obj(map[])];
      }
      var lg := root["latchgate"].fields;
      if "allowlist" !in lg || !lg["allowlist"].Obj? {
        lg := lg["allowlist" := Obj(map[])];
      }
      root := root["latchgate" := Obj(lg)];
      assert lg == Fields(Child(doc, "latchgate"))["allowlist" := Obj(AllowlistOf(doc))];
      assert root == Fields(doc)["latchgate" := Obj(lg)];
      forall path | !(path <= ListPath()) ensures Lookup(Obj(root), path) == Lookup(doc, path) {
        ContainersMade(doc, path);
      }
      ListPlaced(doc, AllowlistOf(doc));
      return Some(Obj(root));
    }

    method AddAllowlistEntry(registry: Registry, action: string, agent: string) returns (out: Outcome)
      modifies this
      ensures out == Handle(registry, old(doc), Allow(action, agent))
      ensures doc == if out.Written? then out.doc else old(doc)
    {
      var invalid := Validate(registry, Allow(action, agent));
      if invalid.Some? { return Refused(invalid.value); }
      var ensured := EnsureAllowlist();
      if ensured.None? { return Aborted; }
      var lg := ensured.value.fields["latchgate"].fields;
      var list := lg["allowlist"].fields;
      if action !in list || !list[action].Obj? {
        list := list[action := Obj(map[])];
      }
      var agents := list[action].fields[agent := Bool(true)];
      PairInPlace(doc, action, agent, Bool(true));
      list := list[action := Obj(agents)];
      assert list == AllowlistOf(doc)[action := Obj(agents)];
      Overwrite(doc, AllowlistOf(doc), list);
      doc := Obj(ensured.value.fields["latchgate" := Obj(lg["allowlist" := Obj(list)])]);
      out := Written(doc);
    }

    method RemoveAllowlistEntry(registry: Registry, action: string, agent: string) returns (out: Outcome)
      modifies this
      ensures out == Handle(registry, old(doc), Disallow(action, agent))
      ensures doc == if out.Written? then out.doc else old(doc)
    {
      var invalid := Validate(registry, Disallow(action, agent));
      if invalid.Some? { return Refused(invalid.value); }
      var ensured := EnsureAllowlist();
      if ensured.None? { return Aborted; }
      var lg := ensured.value.fields["latchgate"].fields;
      var list := lg["allowlist"].fields;
      PairInPlace(doc, action, agent, Null);
      if action !in list || agent !in Fields(list[action]) { return Refused(AllowlistEntryNotFound); }
      PairRemoved(doc, action, agent);
      var agents := list[action].fields - {agent};
      list := if agents == map[] then list - {action} else list[action := Obj(agents)];
      Overwrite(doc, AllowlistOf(doc), list);
      doc := Obj(ensured.value.fields["latchgate" := Obj(lg["allowlist" := Obj(list)])]);
      out := Written(doc);
    }
  }

  method CheckAclRequest(registry: Option<Registry>, principal: string, ids: seq<string>) returns (bad: Option<Refusal>)
    ensures bad == AclRefusal(registry, principal, ids)
  {
    if !IsPrincipal(principal) { return Some(InvalidPrincipal); }
    if ids == [] { return Some(EmptyActions); }
    if |ids| > MAX_ACTIONS_PER_REQUEST { return Some(TooManyActions); }
    bad := CheckIds(registry, ids);
  }

  ghost function AllowlistOf(doc: Value): map<string, Value> {
    Fields(Child(Child(doc, "latchgate"), "allowlist"))
  }

  ghost function WithAllowlist(doc: Value, list: map<string, Value>): Value {
    Obj(Fields(doc)["latchgate" := Obj(Fields(Child(doc, "latchgate"))["allowlist" := Obj(list)])])
  }

  lemma {:induction false} ListPlaced(doc: Value, list: map<string, Value>)
    ensures Lookup(WithAllowlist(doc, list), ListPath()) == Some(Obj(list))
  {
    assert ListPath()[1..] == ["allowlist"] && ["allowlist"][1..] == [];
    var lg := Obj(Fields(Child(doc, "latchgate"))["allowlist" := Obj(list)]);
    assert Lookup(lg, ["allowlist"]) == Lookup(Obj(list), []);
  }

  lemma {:induction false} ContainersMade(doc: Value, path: Path)
    requires !(path <= ListPath())
    ensures Lookup(WithAllowlist(doc, AllowlistOf(doc)), path) == Lookup(doc, path)
  {
    assert path != [];
    if path[0] == "latchgate" {
      assert path != ["latchgate"] && path != ["latchgate", "allowlist"];
      var rest, lg := path[1..], Fields(Child(doc, "latchgate"));
      assert path == ["latchgate"] + rest;
      assert rest != [] && rest != ["allowlist"];
      MemberMadeObject(lg, "allowlist", rest);
      assert Lookup(Obj(lg), rest) == Lookup(Child(doc, "latchgate"), rest);
    }
  }

  lemma {:induction false} DeepPaths(doc: Value, path: Path, x: Value)
    requires path != []
    ensures Lookup(doc, ["latchgate", "allowlist"] + path) == Lookup(Obj(AllowlistOf(doc)), path)
    ensures Set(doc, ["latchgate", "allowlist"] + path, x) == WithAllowlist(doc, Set(Obj(AllowlistOf(doc)), path, x).fields)
    ensures path[0] in AllowlistOf(doc) ==>
              Delete(doc, ["latchgate", "allowlist"] + path) == WithAllowlist(doc, Delete(Obj(AllowlistOf(doc)), path).fields)
  {
    var full := ["latchgate", "allowlist"] + path;
    assert full[1..][0] == "allowlist" && full[1..][1..] == path;
    var lg := Child(doc, "latchgate");
    var list := Child(lg, "allowlist");
    assert Lookup(list, path) == Lookup(Obj(Fields(list)), path);
    assert Lookup(lg, full[1..]) == if "allowlist" in Fields(lg) then Lookup(list, path) else None;
    assert Set(list, path, x) == Set(Obj(Fields(list)), path, x);
    assert Set(lg, full[1..], x) == Obj(Fields(lg)["allowlist" := Set(list, path, x)]);
  }

  lemma {:induction false} PairInPlace(doc: Value, action: string, agent: string, x: Value)
    ensures var list := AllowlistOf(doc);
            && Lookup(doc, PairPath(action, agent)) ==
               (if action in list && agent in Fields(list[action]) then Some(Fields(list[action])[agent]) else None)
            && Set(doc, PairPath(action, agent), x) ==
               WithAllowlist(doc, list[action := Obj(Fields(Child(Obj(list), action))[agent := x])])
  {
    var list, path := Obj(AllowlistOf(doc)), [action, agent];
    assert PairPath(action, agent) == ["latchgate", "allowlist"] + path;
    DeepPaths(doc, path, x);
    assert path[1..] == [agent] && [agent][1..] == [];
    assert Set(Child(list, action), [agent], x) == Obj(Fields(Child(list, action))[agent := x]);
    if action in list.fields {
      assert Lookup(list.fields[action], [agent]) ==
             if agent in Fields(list.fields[action]) then Some(Fields(list.fields[action])[agent]) else None;
    }
  }

  lemma {:induction false} Overwrite(doc: Value, list: map<string, Value>, next: map<string, Value>)
    ensures WithAllowlist(WithAllowlist(doc, list), next) == WithAllowlist(doc, next)
  {
    var lg, x, y := Fields(Child(doc, "latchgate")), Obj(list), Obj(next);
    assert Fields(Child(WithAllowlist(doc, list), "latchgate")) == lg["allowlist" := x];
    assert lg["allowlist" := x]["allowlist" := y] == lg["allowlist" := y];
    var f := Fields(doc);
    var a, b := Obj(lg["allowlist" := x]), Obj(lg["allowlist" := y]);
    assert f["latchgate" := a]["latchgate" := b] == f["latchgate" := b];
  }

  lemma {:induction false} PairRemoved(doc: Value, action: string, agent: string)
    requires action in AllowlistOf(doc) && agent in Fields(AllowlistOf(doc)[action])
    ensures var list := AllowlistOf(doc);
            var agents := Fields(list[action]) - {agent};
            Prune(Delete(doc, PairPath(action, agent)), action) ==
            WithAllowlist(doc, if agents == map[] then list - {action} else list[action := Obj(agents)])
  {
    var list := AllowlistOf(doc);
    var agents := Fields(list[action]) - {agent};
    var path := [action, agent];
    assert PairPath(action, agent) == ["latchgate", "allowlist"] + path;
    DeepPaths(doc, path, Null);
    assert path[1..] == [agent];
    var gone := Delete(doc, PairPath(action, agent));
    assert gone == WithAllowlist(doc, list[action := Obj(agents)]);
    assert AllowlistOf(gone) == list[action := Obj(agents)];
    assert ActionPath(action) == ["latchgate", "allowlist"] + [action];
    DeepPaths(gone, [action], Null);
    assert [action][1..] == [];
    assert Lookup(gone, ActionPath(action)) == Some(Obj(agents));
    if agents == map[] {
      assert list[action := Obj(agents)] - {action} == list - {action};
      Overwrite(doc, list[action := Obj(agents)], list - {action});
    }
  }
}
