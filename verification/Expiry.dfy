/**
 The approval expiry scanner of `crates/latchgate-api/src/expiry.rs`: each scan lists pending
 approvals, emits an event for every newly expired one, and prunes the set of emitted identifiers to
 the listing. The guarantee is about whole sequences of scans.
 */
module Expiry {
  import opened Wrappers

  /** `expiresAt` is None when the stored timestamp does not parse. */
  datatype Summary = Summary(id: string, expiresAt: Option<int>)

  /** A scan either fails to list, or sees this listing at this time. Listings may be cut or repeat. */
  datatype Scan = Unlisted | Listing(list: seq<Summary>, now: int)

  predicate Expired(x: Summary, now: int) {
    x.expiresAt.Some? && now >= x.expiresAt.value
  }

  predicate Lists(s: Scan, id: string) {
    s.Listing? && exists i :: 0 <= i < |s.list| && s.list[i].id == id
  }

  /** The scan lists the approval past a parseable expiry. */
  predicate Due(s: Scan, id: string) {
    s.Listing? && exists i :: 0 <= i < |s.list| && IsDue(s.list[i], id, s.now)
  }

  predicate IsDue(x: Summary, id: string, now: int) {
    match x.expiresAt
    case None => false
    case Some(deadline) => x.id == id && deadline <= now
  }

  function Ids(list: seq<Summary>): set<string> {
    set x | x in list :: x.id
  }

  /** The loop of one scan: the new emitted set and the events, in order. */
  function Pass(emitted: set<string>, list: seq<Summary>, now: int): (set<string>, seq<string>) {
    if list == [] then (emitted, [])
    else
      var (seen, events) := Pass(emitted, list[..|list| - 1], now);
      var x := list[|list| - 1];
      if x.id !in seen && Expired(x, now) then (seen + {x.id}, events + [x.id]) else (seen, events)
  }

  function ScanResult(emitted: set<string>, s: Scan): (set<string>, seq<string>) {
    match s
    case Unlisted => (emitted, [])
    case Listing(list, now) => var (seen, events) := Pass(emitted, list, now); (seen * Ids(list), events)
  }

  class Scanner {
    var emitted: set<string>
    var events: seq<string>

    constructor ()
      ensures emitted == {} && events == []
    {
      emitted, events := {}, [];
    }

    method ScanOnce(s: Scan)
      modifies this
      ensures emitted == ScanResult(old(emitted), s).0
      ensures events == old(events) + ScanResult(old(emitted), s).1
    {
      if s.Unlisted? { return; }
      for k := 0 to |s.list|
        invariant emitted == Pass(old(emitted), s.list[..k], s.now).0
        invariant events == old(events) + Pass(old(emitted), s.list[..k], s.now).1
      {
        assert s.list[..k + 1][..k] == s.list[..k];
        var x := s.list[k];
        if x.id in emitted { continue; }
        if x.expiresAt.None? { continue; }
        if s.now >= x.expiresAt.value {
          events := events + [x.id];
          emitted := emitted + {x.id};
        }
      }
      assert s.list[..|s.list|] == s.list;
      var current := set x | x in s.list :: x.id;
      emitted := set id | id in emitted && id in current;
      assert emitted == ScanResult(old(emitted), s).0;
    }
  }

  // ---------------------------------------------------------------------------------------------
  // One scan
  // ---------------------------------------------------------------------------------------------

  function Count(events: seq<string>, id: string): nat {
    multiset(events)[id]
  }

  lemma {:induction false} PassLaw(emitted: set<string>, list: seq<Summary>, now: int, id: string)
    ensures var (seen, events) := Pass(emitted, list, now);
            && (id in seen <==> id in emitted || Due(Listing(list, now), id))
            && Count(events, id) == if id !in emitted && Due(Listing(list, now), id) then 1 else 0
  {
    if list != [] {
      var front := list[..|list| - 1];
      PassLaw(emitted, front, now, id);
      DueGrows(list, now, id);
    }
  }

  lemma DueGrows(list: seq<Summary>, now: int, id: string)
    requires list != []
    ensures var x := list[|list| - 1];
            Due(Listing(list, now), id) <==> Due(Listing(list[..|list| - 1], now), id) || (x.id == id && Expired(x, now))
  {
    var front, n := list[..|list| - 1], |list| - 1;
    if Due(Listing(front, now), id) {
      var i :| 0 <= i < |front| && IsDue(front[i], id, now);
      assert list[i] == front[i];
    }
    if i :| 0 <= i < |list| && IsDue(list[i], id, now) {
      assert i < n ==> front[i] == list[i];
    }
  }

  lemma ListsIsIds(s: Scan, id: string)
    requires s.Listing?
    ensures Lists(s, id) <==> id in Ids(s.list)
  {
    if Lists(s, id) {
      var i :| 0 <= i < |s.list| && s.list[i].id == id;
      assert s.list[i] in s.list;
    }
  }

  lemma ScanLaw(emitted: set<string>, s: Scan, id: string)
    ensures var (seen, events) := ScanResult(emitted, s);
            && (s.Listing? ==> (id in seen <==> Lists(s, id) && (id in emitted || Due(s, id))))
            && (s.Unlisted? ==> seen == emitted)
            && Count(events, id) == if id !in emitted && Due(s, id) then 1 else 0
  {
    if s.Listing? {
      PassLaw(emitted, s.list, s.now, id);
      ListsIsIds(s, id);
    }
  }

  // ---------------------------------------------------------------------------------------------
  // Sequences of scans, from an empty set
  // ---------------------------------------------------------------------------------------------

  function EmittedAt(scans: seq<Scan>, k: nat): set<string>
    requires k <= |scans|
  {
    if k == 0 then {} else ScanResult(EmittedAt(scans, k - 1), scans[k - 1]).0
  }

  function EventsAt(scans: seq<Scan>, k: nat): seq<string>
    requires k < |scans|
  {
    ScanResult(EmittedAt(scans, k), scans[k]).1
  }

  /** Every successful scan in `[a, b)` lists the approval. */
  ghost predicate Unbroken(scans: seq<Scan>, a: nat, b: nat, id: string)
    requires b <= |scans|
  {
    forall m :: a <= m < b && scans[m].Listing? ==> Lists(scans[m], id)
  }

  /** Some earlier scan saw it due, and it has been listed ever since. */
  ghost predicate Held(scans: seq<Scan>, k: nat, id: string)
    requires k <= |scans|
  {
    exists j :: 0 <= j < k && Due(scans[j], id) && Unbroken(scans, j, k, id)
  }

  lemma {:induction false} EmittedIsHeld(scans: seq<Scan>, k: nat, id: string)
    requires k <= |scans|
    ensures id in EmittedAt(scans, k) <==> Held(scans, k, id)
  {
    if k > 0 {
      EmittedIsHeld(scans, k - 1, id);
      ScanLaw(EmittedAt(scans, k - 1), scans[k - 1], id);
      HeldStep(scans, k - 1, id);
    }
  }

  lemma HeldStep(scans: seq<Scan>, k: nat, id: string)
    requires k < |scans|
    ensures Held(scans, k + 1, id) <==>
            (Held(scans, k, id) && (scans[k].Listing? ==> Lists(scans[k], id))) || Due(scans[k], id)
  {
    if Held(scans, k, id) && (scans[k].Listing? ==> Lists(scans[k], id)) {
      var j :| 0 <= j < k && Due(scans[j], id) && Unbroken(scans, j, k, id);
      assert Unbroken(scans, j, k + 1, id);
    }
    if Due(scans[k], id) {
      assert Unbroken(scans, k, k + 1, id);
    }
    if Held(scans, k + 1, id) {
      var j :| 0 <= j < k + 1 && Due(scans[j], id) && Unbroken(scans, j, k + 1, id);
      assert j < k ==> Unbroken(scans, j, k, id);
    }
  }

  /**
   Whatever fails, is cut or reappears on the way, a scan emits an event for an approval exactly when
   it sees it due and no earlier due sighting has been followed by unbroken listing; never twice.
   After a successful scan only listed approvals are remembered.
   */
  lemma EventExactlyWhenNew(scans: seq<Scan>, k: nat, id: string)
    requires k < |scans|
    ensures Count(EventsAt(scans, k), id) == if Due(scans[k], id) && !Held(scans, k, id) then 1 else 0
    ensures scans[k].Listing? ==> EmittedAt(scans, k + 1) <= Ids(scans[k].list)
  {
    EmittedIsHeld(scans, k, id);
    ScanLaw(EmittedAt(scans, k), scans[k], id);
  }

  /** Events for one approval over `[a, b)`. */
  function Total(scans: seq<Scan>, a: nat, b: nat, id: string): nat
    requires a <= b <= |scans|
  {
    if a == b then 0 else Total(scans, a, b - 1, id) + Count(EventsAt(scans, b - 1), id)
  }

  /** No earlier streak reaches `a`: a successful scan without the approval lies in between. */
  ghost predicate StartsStreak(scans: seq<Scan>, a: nat, id: string)
    requires a <= |scans|
  {
    forall j :: 0 <= j < a && Lists(scans[j], id) ==> !Unbroken(scans, j, a, id)
  }

  ghost predicate DueIn(scans: seq<Scan>, a: nat, b: nat, id: string)
    requires b <= |scans|
  {
    exists j :: a <= j < b && Due(scans[j], id)
  }

  lemma NotHeldFromBefore(scans: seq<Scan>, j: nat, a: nat, b: nat, id: string)
    requires j < a <= b <= |scans| && StartsStreak(scans, a, id) && Due(scans[j], id)
    ensures !Unbroken(scans, j, b, id)
  {
    DueIsListed(scans[j], id);
    assert Unbroken(scans, j, b, id) ==> Unbroken(scans, j, a, id);
  }

  lemma HeldInStreak(scans: seq<Scan>, a: nat, b: nat, id: string)
    requires a <= b <= |scans| && StartsStreak(scans, a, id) && Unbroken(scans, a, b, id)
    ensures Held(scans, b, id) <==> DueIn(scans, a, b, id)
  {
    if j :| a <= j < b && Due(scans[j], id) {
      assert Unbroken(scans, j, b, id);
    }
    forall j | 0 <= j < a && Due(scans[j], id) ensures !Unbroken(scans, j, b, id) {
      NotHeldFromBefore(scans, j, a, b, id);
    }
  }

  lemma DueInGrows(scans: seq<Scan>, a: nat, b: nat, id: string)
    requires a <= b < |scans|
    ensures DueIn(scans, a, b + 1, id) <==> DueIn(scans, a, b, id) || Due(scans[b], id)
  {
  }

  lemma DueIsListed(s: Scan, id: string)
    requires Due(s, id)
    ensures Lists(s, id)
  {
    var i :| 0 <= i < |s.list| && IsDue(s.list[i], id, s.now);
    assert s.list[i].id == id;
  }

  /** Within a streak a scan emits an event exactly if it is the first to see the approval due. */
  lemma NextInStreak(scans: seq<Scan>, a: nat, b: nat, id: string)
    requires a <= b < |scans| && StartsStreak(scans, a, id) && Unbroken(scans, a, b, id)
    ensures (if DueIn(scans, a, b, id) then 1 else 0) + Count(EventsAt(scans, b), id) ==
              if DueIn(scans, a, b + 1, id) then 1 else 0
  {
    HeldInStreak(scans, a, b, id);
    EventExactlyWhenNew(scans, b, id);
    DueInGrows(scans, a, b, id);
  }

  /** A streak in which the approval was seen due yields exactly one event, any other yields none. */
  lemma {:induction false} OneEventPerStreak(scans: seq<Scan>, a: nat, b: nat, id: string)
    requires a <= b <= |scans| && StartsStreak(scans, a, id) && Unbroken(scans, a, b, id)
    ensures Total(scans, a, b, id) == if DueIn(scans, a, b, id) then 1 else 0
  {
    if a < b {
      assert Unbroken(scans, a, b - 1, id);
      OneEventPerStreak(scans, a, b - 1, id);
      NextInStreak(scans, a, b - 1, id);
    }
  }
}
