/**
 The in-memory anti-replay cache of `crates/latchgate-auth/src/replay.rs`, one call at a time.

 The cache maps a proof identifier (`jti`) to the instant at which it was last accepted. It
 overwrites expired entries lazily, a background sweep removes them, and a separate counter
 enforces a hard cap. The specification it is proved against remembers every acceptance for ever.
 Interleaved calls are the subject of module `ReplayThreads`.
 */
module Replay {
  import opened FiniteSets

  datatype Verdict = Accepted | AlreadySeen | AtCapacity

  /** The abstract value of the cache. Instants and durations are naturals in one unit. */
  datatype Cache = Cache(ttl: nat, cap: nat, entries: map<string, nat>, count: nat)

  /** `Instant::duration_since` saturates to zero when the argument lies in the future. */
  function Elapsed(now: nat, since: nat): nat {
    if since <= now then now - since else 0
  }

  predicate IsFresh(c: Cache, jti: string, now: nat) {
    jti in c.entries && Elapsed(now, c.entries[jti]) < c.ttl
  }

  /** One `memory_check_and_store` call. */
  function Check(c: Cache, jti: string, now: nat): (Cache, Verdict) {
    if IsFresh(c, jti, now) then
      (c, AlreadySeen)
    else if jti in c.entries then
      (c.(entries := c.entries[jti := now]), Accepted)
    else if c.count >= c.cap then
      (c, AtCapacity)
    else
      (c.(entries := c.entries[jti := now], count := c.count + 1), Accepted)
  }

  /** One `evict_expired` call: drop what has expired, then reset the counter. */
  function SweepAll(c: Cache, now: nat): Cache {
    var kept := map jti | jti in c.entries && Elapsed(now, c.entries[jti]) < c.ttl :: c.entries[jti];
    c.(entries := kept, count := |kept|)
  }

  class ReplayCache {
    const ttl: nat
    const cap: nat
    var entries: map<string, nat>
    var count: nat

    function View(): Cache
      reads this
    {
      Cache(ttl, cap, entries, count)
    }

    constructor (ttl: nat, cap: nat)
      ensures View() == Cache(ttl, cap, map[], 0)
    {
      this.ttl, this.cap := ttl, cap;
      entries, count := map[], 0;
    }

    method CheckAndStore(jti: string, now: nat) returns (verdict: Verdict)
      modifies this
      ensures (View(), verdict) == Check(old(View()), jti, now)
    {
      if jti in entries {
        if Elapsed(now, entries[jti]) < ttl {
          return AlreadySeen;
        }
        entries := entries[jti := now];
        return Accepted;
      }
      var current := count;
      count := count + 1;
      if current >= cap {
        count := count - 1;
        return AtCapacity;
      }
      entries := entries[jti := now];
      return Accepted;
    }

    method EvictExpired(now: nat) returns (evicted: nat)
      modifies this
      ensures View() == SweepAll(old(View()), now)
      ensures evicted == |old(entries)| - |entries|
    {
      var before := |entries|;
      var pending := entries.Keys;
      while pending != {}
        invariant pending <= entries.Keys <= old(entries).Keys
        invariant forall jti :: jti in entries ==> entries[jti] == old(entries)[jti]
        invariant forall jti :: jti in old(entries) && jti !in pending ==>
                    (jti in entries <==> Elapsed(now, old(entries)[jti]) < ttl)
        invariant |entries| <= before
        invariant count == old(count)
        decreases pending
      {
        var jti :| jti in pending;
        if Elapsed(now, entries[jti]) >= ttl {
          entries := map other | other in entries && other != jti :: entries[other];
          assert entries.Keys == old(entries).Keys * entries.Keys;
          SubsetSize(entries.Keys, old(entries).Keys);
        }
        pending := pending - {jti};
      }
      assert entries == SweepAll(old(View()), now).entries;
      var after := |entries|;
      evicted := before - after;
      count := after;
    }
  }

  // ---------------------------------------------------------------------------------------------
  // Runs: any sequence of probes and sweeps
  // ---------------------------------------------------------------------------------------------

  datatype Event = Probe(jti: string, at: nat) | Sweep(at: nat)

  ghost predicate Monotone(evs: seq<Event>) {
    forall i, j :: 0 <= i <= j < |evs| ==> evs[i].at <= evs[j].at
  }

  function Apply(c: Cache, e: Event): Cache {
    match e
    case Probe(jti, at) => Check(c, jti, at).0
    case Sweep(at) => SweepAll(c, at)
  }

  /** The cache after the first `k` events. */
  function After(c: Cache, evs: seq<Event>, k: nat): Cache
    requires k <= |evs|
  {
    if k == 0 then c else Apply(After(c, evs, k - 1), evs[k - 1])
  }

  function VerdictAt(c: Cache, evs: seq<Event>, k: nat): Verdict
    requires k < |evs| && evs[k].Probe?
  {
    Check(After(c, evs, k), evs[k].jti, evs[k].at).1
  }

  predicate AcceptedAt(c: Cache, evs: seq<Event>, k: nat)
    requires k < |evs|
  {
    evs[k].Probe? && VerdictAt(c, evs, k) == Accepted
  }

  /** Event `i` accepted this `jti` less than `ttl` before `now`. */
  predicate RecentlyAccepted(c: Cache, evs: seq<Event>, i: nat, jti: string, now: nat)
    requires i < |evs|
  {
    AcceptedAt(c, evs, i) && evs[i].jti == jti && now < evs[i].at + c.ttl
  }

  function Empty(ttl: nat, cap: nat): Cache {
    Cache(ttl, cap, map[], 0)
  }

  // ---------------------------------------------------------------------------------------------
  // The invariant that ties the stored entries to the unbounded acceptance history
  // ---------------------------------------------------------------------------------------------

  function ClockAt(evs: seq<Event>, k: nat): nat
    requires k <= |evs|
  {
    if k == 0 then 0 else evs[k - 1].at
  }

  ghost predicate Counted(c0: Cache, c: Cache) {
    c.ttl == c0.ttl && c.cap == c0.cap && c.count == |c.entries| <= c.cap
  }

  /** Every stored instant is the time of some acceptance. */
  ghost predicate Grounded(c0: Cache, evs: seq<Event>, k: nat)
    requires k <= |evs|
  {
    forall jti :: jti in After(c0, evs, k).entries ==>
      exists i :: 0 <= i < k && AcceptedAt(c0, evs, i) && evs[i].jti == jti && evs[i].at == After(c0, evs, k).entries[jti]
  }

  /** An acceptance is either covered by an entry at least as young, or has aged out. */
  ghost predicate Covered(c0: Cache, evs: seq<Event>, k: nat, i: nat)
    requires i < k <= |evs|
  {
    AcceptedAt(c0, evs, i) ==>
      var c := After(c0, evs, k);
      || evs[i].at + c0.ttl <= ClockAt(evs, k)
      || (evs[i].jti in c.entries && evs[i].at <= c.entries[evs[i].jti])
  }

  lemma CountedStep(c0: Cache, c: Cache, e: Event)
    requires Counted(c0, c)
    ensures Counted(c0, Apply(c, e))
  {
    match e
    case Probe(jti, at) =>
      if jti in c.entries {
        assert c.entries[jti := at].Keys == c.entries.Keys;
      } else {
        assert c.entries[jti := at].Keys == c.entries.Keys + {jti};
      }
    case Sweep(at) =>
      SubsetSize(SweepAll(c, at).entries.Keys, c.entries.Keys);
  }

  lemma GroundedStep(c0: Cache, evs: seq<Event>, k: nat)
    requires k < |evs| && Grounded(c0, evs, k)
    ensures Grounded(c0, evs, k + 1)
  {
    var c, d := After(c0, evs, k), After(c0, evs, k + 1);
    forall jti | jti in d.entries
      ensures exists i :: 0 <= i < k + 1 && AcceptedAt(c0, evs, i) && evs[i].jti == jti && evs[i].at == d.entries[jti]
    {
      if jti in c.entries && c.entries[jti] == d.entries[jti] {
        var i :| 0 <= i < k && AcceptedAt(c0, evs, i) && evs[i].jti == jti && evs[i].at == c.entries[jti];
        assert 0 <= i < k + 1;
      } else {
        assert AcceptedAt(c0, evs, k) && evs[k].jti == jti && evs[k].at == d.entries[jti];
      }
    }
  }

  lemma CoveredStep(c0: Cache, evs: seq<Event>, k: nat, i: nat)
    requires i <= k < |evs| && Monotone(evs)
    requires Counted(c0, After(c0, evs, k))
    requires i < k ==> Covered(c0, evs, k, i)
    ensures Covered(c0, evs, k + 1, i)
  {
    if i < k {
      assert ClockAt(evs, k) <= evs[k].at;
      assert evs[i].at <= evs[k].at;
    }
  }

  lemma {:induction false} CountedHolds(c0: Cache, evs: seq<Event>, k: nat)
    requires c0 == Empty(c0.ttl, c0.cap) && k <= |evs|
    ensures Counted(c0, After(c0, evs, k))
  {
    if k > 0 {
      CountedHolds(c0, evs, k - 1);
      CountedStep(c0, After(c0, evs, k - 1), evs[k - 1]);
    }
  }

  lemma {:induction false} GroundedHolds(c0: Cache, evs: seq<Event>, k: nat)
    requires c0 == Empty(c0.ttl, c0.cap) && k <= |evs|
    ensures Grounded(c0, evs, k)
  {
    if k == 0 {
      assert After(c0, evs, 0).entries == map[];
    } else {
      GroundedHolds(c0, evs, k - 1);
      GroundedStep(c0, evs, k - 1);
    }
  }

  lemma {:induction false} CoveredHolds(c0: Cache, evs: seq<Event>, k: nat, i: nat)
    requires c0 == Empty(c0.ttl, c0.cap) && Monotone(evs) && i < k <= |evs|
    ensures Covered(c0, evs, k, i)
  {
    if i < k - 1 {
      CoveredHolds(c0, evs, k - 1, i);
    }
    CountedHolds(c0, evs, k - 1);
    CoveredStep(c0, evs, k - 1, i);
  }

  /** What the full history says about `jti`, given a cache that is counted, grounded and covering. */
  lemma FreshEntryIsRecentAcceptance(c0: Cache, evs: seq<Event>, k: nat, jti: string)
    requires c0 == Empty(c0.ttl, c0.cap) && Monotone(evs) && k < |evs|
    ensures IsFresh(After(c0, evs, k), jti, evs[k].at) <==>
            exists i :: 0 <= i < k && RecentlyAccepted(c0, evs, i, jti, evs[k].at)
  {
    var c, now := After(c0, evs, k), evs[k].at;
    CountedHolds(c0, evs, k);
    if IsFresh(c, jti, now) {
      GroundedHolds(c0, evs, k);
      var i :| 0 <= i < k && AcceptedAt(c0, evs, i) && evs[i].jti == jti && evs[i].at == c.entries[jti];
      assert evs[i].at <= evs[k].at;
      assert RecentlyAccepted(c0, evs, i, jti, now);
    } else {
      forall i | 0 <= i < k ensures !RecentlyAccepted(c0, evs, i, jti, now) {
        CoveredHolds(c0, evs, k, i);
        assert ClockAt(evs, k) <= now;
      }
    }
  }

  // ---------------------------------------------------------------------------------------------
  // Main results
  // ---------------------------------------------------------------------------------------------

  /**
   Whatever was swept or overwritten on the way, a probe is refused as a replay exactly when the
   full history holds an acceptance of the same `jti` younger than the TTL, and is refused for
   capacity exactly when it is not a replay, has no entry and the map holds `cap` entries.
   */
  lemma VerdictIsHistory(ttl: nat, cap: nat, evs: seq<Event>, k: nat)
    requires Monotone(evs) && k < |evs| && evs[k].Probe?
    ensures var c0 := Empty(ttl, cap);
            var replay := exists i :: 0 <= i < k && RecentlyAccepted(c0, evs, i, evs[k].jti, evs[k].at);
            var full := |After(c0, evs, k).entries| == cap && evs[k].jti !in After(c0, evs, k).entries;
            VerdictAt(c0, evs, k) == if replay then AlreadySeen else if full then AtCapacity else Accepted
  {
    var c0 := Empty(ttl, cap);
    CountedHolds(c0, evs, k);
    FreshEntryIsRecentAcceptance(c0, evs, k, evs[k].jti);
  }

  /** The specification: it never forgets, has no cap and knows nothing of sweeps. */
  predicate SpecAccepts(ttl: nat, evs: seq<Event>, k: nat)
    requires k < |evs|
    decreases k
  {
    evs[k].Probe? &&
    forall i :: 0 <= i < k ==>
      !(SpecAccepts(ttl, evs, i) && evs[i].jti == evs[k].jti && evs[k].at < evs[i].at + ttl)
  }

  ghost predicate NoCapacityRefusalBefore(c0: Cache, evs: seq<Event>, k: nat)
    requires k <= |evs|
  {
    forall i :: 0 <= i < k && evs[i].Probe? ==> VerdictAt(c0, evs, i) != AtCapacity
  }

  /**
   Until the first capacity refusal the answers equal those of the specification run on its own
   history, and that first refusal denies a probe the specification would accept.
   */
  lemma {:induction false} RefinesUnboundedHistory(ttl: nat, cap: nat, evs: seq<Event>, k: nat)
    requires Monotone(evs) && k < |evs| && evs[k].Probe?
    requires NoCapacityRefusalBefore(Empty(ttl, cap), evs, k)
    ensures var v := VerdictAt(Empty(ttl, cap), evs, k);
            SpecAccepts(ttl, evs, k) <==> v != AlreadySeen
    decreases k
  {
    var c0 := Empty(ttl, cap);
    forall i | 0 <= i < k ensures SpecAccepts(ttl, evs, i) <==> AcceptedAt(c0, evs, i) {
      if evs[i].Probe? {
        RefinesUnboundedHistory(ttl, cap, evs, i);
      }
    }
    VerdictIsHistory(ttl, cap, evs, k);
    assert forall i :: 0 <= i < k ==>
        (RecentlyAccepted(c0, evs, i, evs[k].jti, evs[k].at) <==>
         SpecAccepts(ttl, evs, i) && evs[i].jti == evs[k].jti && evs[k].at < evs[i].at + ttl);
  }

  /**
   Over the first `n` events every probe is accepted exactly if the specification accepts it, if and
   only if none of them was refused for capacity. The first such refusal is itself a difference.
   */
  lemma AnswersMatchExactly(ttl: nat, cap: nat, evs: seq<Event>, n: nat)
    requires Monotone(evs) && n <= |evs|
    ensures (forall k :: 0 <= k < n ==> (AcceptedAt(Empty(ttl, cap), evs, k) <==> SpecAccepts(ttl, evs, k)))
            <==> NoCapacityRefusalBefore(Empty(ttl, cap), evs, n)
  {
    var c0 := Empty(ttl, cap);
    if NoCapacityRefusalBefore(c0, evs, n) {
      forall k | 0 <= k < n ensures AcceptedAt(c0, evs, k) <==> SpecAccepts(ttl, evs, k) {
        if evs[k].Probe? {
          RefinesUnboundedHistory(ttl, cap, evs, k);
        }
      }
    } else {
      var k := FirstRefusal(c0, evs, n);
      RefinesUnboundedHistory(ttl, cap, evs, k);
      assert SpecAccepts(ttl, evs, k) && !AcceptedAt(c0, evs, k);
    }
  }

  lemma {:induction false} FirstRefusal(c0: Cache, evs: seq<Event>, n: nat) returns (k: nat)
    requires n <= |evs| && !NoCapacityRefusalBefore(c0, evs, n)
    ensures k < n && evs[k].Probe? && VerdictAt(c0, evs, k) == AtCapacity && NoCapacityRefusalBefore(c0, evs, k)
  {
    if NoCapacityRefusalBefore(c0, evs, n - 1) {
      k := n - 1;
    } else {
      k := FirstRefusal(c0, evs, n - 1);
    }
  }

  /** A sweep leaves exactly the identifiers accepted within the TTL, and resets the counter to their number. */
  lemma SweepKeepsExactlyTheFresh(ttl: nat, cap: nat, evs: seq<Event>, k: nat, jti: string)
    requires Monotone(evs) && k < |evs| && evs[k].Sweep?
    ensures var c0 := Empty(ttl, cap);
            var swept := After(c0, evs, k + 1);
            && swept.count == |swept.entries| <= cap
            && (jti in swept.entries <==>
                exists i :: 0 <= i < k && RecentlyAccepted(c0, evs, i, jti, evs[k].at))
  {
    var c0 := Empty(ttl, cap);
    CountedHolds(c0, evs, k + 1);
    FreshEntryIsRecentAcceptance(c0, evs, k, jti);
    CountedHolds(c0, evs, k);
    assert jti in SweepAll(After(c0, evs, k), evs[k].at).entries <==> IsFresh(After(c0, evs, k), jti, evs[k].at);
  }

  /**
   Past a capacity refusal the two histories part: the specification has accepted a probe that the
   cache denied, so the cache may later accept a probe the specification refuses.
   */
  lemma HistoriesPartAfterARefusal()
    ensures var evs := [Probe("a", 0), Probe("b", 5), Sweep(10), Probe("b", 11)];
            && Monotone(evs)
            && VerdictAt(Empty(10, 1), evs, 1) == AtCapacity
            && VerdictAt(Empty(10, 1), evs, 3) == Accepted
            && SpecAccepts(10, evs, 1) && !SpecAccepts(10, evs, 3)
  {
    var evs := [Probe("a", 0), Probe("b", 5), Sweep(10), Probe("b", 11)];
    var c0 := Empty(10, 1);
    assert After(c0, evs, 0) == c0;
    var c1 := Cache(10, 1, map["a" := 0], 1);
    assert After(c0, evs, 1) == c1;
    assert After(c0, evs, 2) == c1;
    assert SweepAll(c1, 10).entries == map[];
    assert After(c0, evs, 3) == c0;
    assert SpecAccepts(10, evs, 0);
    assert "a" != "b";
    assert SpecAccepts(10, evs, 1);
  }
}
