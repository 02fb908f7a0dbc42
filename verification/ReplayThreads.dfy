/**
 The anti-replay cache of `crates/latchgate-auth/src/replay.rs` under interleaving.

 Any number of worker slots run `memory_check_and_store` while one background task runs
 `evict_expired`. Every shared access is a step of its own: reading the clock, taking the entry
 lock, the atomic `fetch_add`, the insert or the undoing `fetch_sub`, and in the sweep the removal
 of one entry, the length read and the counter store. Locks are per identifier, which allows more
 interleavings than the sharded locks of the map.
 */
module ReplayThreads {
  import opened Atomics
  import opened FiniteSets
  import Replay

  datatype Config = Config(ttl: nat, cap: nat, slots: set<nat>, sweeps: bool) {
    /** Fewer requests in flight than the counter can tell apart. */
    predicate Valid() {
      cap + |slots| < WORD
    }
  }

  datatype Pc =
    | Idle
    | Timed(jti: string, read: nat)     // clock read, lock not yet taken
    | Locked(jti: string, read: nat)    // entry lock held
    | Reserved(jti: string, read: nat)  // counter incremented below the cap, insert pending
    | Over(jti: string, read: nat)      // counter incremented at the cap, undo pending

  datatype Sweeper = Resting | Retaining(read: nat) | Measured(len: nat)

  /** An acceptance: the request's clock reading, and the time at which it was granted. */
  datatype Grant = Grant(jti: string, read: nat, at: nat)

  datatype State = State(
    now: nat, entries: map<string, nat>, counter: nat,
    pcs: map<nat, Pc>, sweeper: Sweeper, log: seq<Grant>)

  datatype Step =
    | Tick(delay: nat)
    | ReadClock(w: nat, jti: string)
    | Lock(w: nat)
    | Decide(w: nat)
    | Insert(w: nat)
    | Undo(w: nat)
    | SweepBegin
    | SweepRemove(victim: string)
    | SweepMeasure(len: nat)
    | SweepStore

  predicate Holds(pc: Pc, jti: string) {
    (pc.Locked? || pc.Reserved? || pc.Over?) && pc.jti == jti
  }

  predicate Unlocked(s: State, jti: string) {
    forall w :: w in s.pcs ==> !Holds(s.pcs[w], jti)
  }

  predicate Enabled(cfg: Config, s: State, step: Step) {
    match step
    case Tick(_) => true
    case ReadClock(w, jti) => w in s.pcs && s.pcs[w].Idle?
    case Lock(w) => w in s.pcs && s.pcs[w].Timed? && Unlocked(s, s.pcs[w].jti)
    case Decide(w) => w in s.pcs && s.pcs[w].Locked?
    case Insert(w) => w in s.pcs && s.pcs[w].Reserved?
    case Undo(w) => w in s.pcs && s.pcs[w].Over?
    case SweepBegin => cfg.sweeps && s.sweeper.Resting?
    case SweepRemove(victim) =>
      && s.sweeper.Retaining? && victim in s.entries && Unlocked(s, victim)
      && cfg.ttl <= Replay.Elapsed(s.sweeper.read, s.entries[victim])
    // `len` adds up shard sizes read at different moments, so it may be no size the map ever had.
    case SweepMeasure(len) => s.sweeper.Retaining? && len < WORD
    case SweepStore => s.sweeper.Measured?
  }

  function Release(s: State, w: nat): State {
    s.(pcs := s.pcs[w := Idle])
  }

  function Accept(s: State, w: nat, jti: string, read: nat): State {
    Release(s, w).(entries := s.entries[jti := read], log := s.log + [Grant(jti, read, s.now)])
  }

  function Apply(cfg: Config, s: State, step: Step): State
    requires Enabled(cfg, s, step)
  {
    match step
    case Tick(delay) => s.(now := s.now + delay)
    case ReadClock(w, jti) => s.(pcs := s.pcs[w := Timed(jti, s.now)])
    case Lock(w) => s.(pcs := s.pcs[w := Locked(s.pcs[w].jti, s.pcs[w].read)])
    case Decide(w) =>
      var jti, read := s.pcs[w].jti, s.pcs[w].read;
      if jti in s.entries then
        if Replay.Elapsed(read, s.entries[jti]) < cfg.ttl then Release(s, w) else Accept(s, w, jti, read)
      else
        var counted := s.(counter := FetchAdd(s.counter));
        if s.counter >= cfg.cap
        then counted.(pcs := s.pcs[w := Over(jti, read)])
        else counted.(pcs := s.pcs[w := Reserved(jti, read)])
    case Insert(w) => Accept(s, w, s.pcs[w].jti, s.pcs[w].read)
    case Undo(w) => Release(s, w).(counter := FetchSub(s.counter))
    case SweepBegin => s.(sweeper := Retaining(s.now))
    case SweepRemove(victim) => s.(entries := s.entries - {victim})
    case SweepMeasure(len) => s.(sweeper := Measured(len))
    case SweepStore => s.(counter := s.sweeper.len, sweeper := Resting)
  }

  function Init(cfg: Config): State {
    State(0, map[], 0, map w | w in cfg.slots :: Idle, Resting, [])
  }

  /** `trace` leads from the initial state to `s`. */
  ghost predicate Leads(cfg: Config, trace: seq<Step>, s: State)
    decreases |trace|
  {
    if trace == [] then s == Init(cfg)
    else
      var last := |trace| - 1;
      exists p :: Leads(cfg, trace[..last], p) && Enabled(cfg, p, trace[last]) && s == Apply(cfg, p, trace[last])
  }

  ghost predicate Reachable(cfg: Config, s: State) {
    exists trace :: Leads(cfg, trace, s)
  }

  lemma Extend(cfg: Config, s: State, step: Step)
    requires Reachable(cfg, s) && Enabled(cfg, s, step)
    ensures Reachable(cfg, Apply(cfg, s, step))
  {
    var trace :| Leads(cfg, trace, s);
    assert (trace + [step])[..|trace|] == trace;
    assert Leads(cfg, trace + [step], Apply(cfg, s, step));
  }

  // ---------------------------------------------------------------------------------------------
  // Continuations of a run
  // ---------------------------------------------------------------------------------------------

  /** `trace` leads from `start` to `s`. */
  ghost predicate LeadsFrom(cfg: Config, start: State, trace: seq<Step>, s: State)
    decreases |trace|
  {
    if trace == [] then s == start
    else
      var last := |trace| - 1;
      exists p :: LeadsFrom(cfg, start, trace[..last], p) && Enabled(cfg, p, trace[last]) && s == Apply(cfg, p, trace[last])
  }

  lemma ExtendFrom(cfg: Config, start: State, trace: seq<Step>, s: State, step: Step) returns (more: seq<Step>)
    requires LeadsFrom(cfg, start, trace, s) && Enabled(cfg, s, step)
    ensures LeadsFrom(cfg, start, more, Apply(cfg, s, step))
  {
    more := trace + [step];
    assert more[..|trace|] == trace;
  }

  lemma {:induction false} ReachableOn(cfg: Config, start: State, trace: seq<Step>, s: State)
    requires Reachable(cfg, start) && LeadsFrom(cfg, start, trace, s)
    ensures Reachable(cfg, s) && start.log <= s.log
    decreases |trace|
  {
    if trace != [] {
      var last := |trace| - 1;
      var p :| LeadsFrom(cfg, start, trace[..last], p) && Enabled(cfg, p, trace[last]) && s == Apply(cfg, p, trace[last]);
      ReachableOn(cfg, start, trace[..last], p);
      Extend(cfg, p, trace[last]);
      LogGrows(cfg, p, trace[last]);
    }
  }

  lemma LogGrows(cfg: Config, s: State, step: Step)
    requires Enabled(cfg, s, step)
    ensures s.log <= Apply(cfg, s, step).log
  {
  }

  // ---------------------------------------------------------------------------------------------
  // Replay safety: it rests on the entry lock and the stored instants, never on the counter
  // ---------------------------------------------------------------------------------------------

  /** At most one holder per identifier, and a pending insert or undo has no entry beneath it. */
  ghost predicate Exclusive(s: State) {
    && (forall v, w, jti :: v in s.pcs && w in s.pcs && Holds(s.pcs[v], jti) && Holds(s.pcs[w], jti) ==> v == w)
    && (forall w :: w in s.pcs && (s.pcs[w].Reserved? || s.pcs[w].Over?) ==> s.pcs[w].jti !in s.entries)
  }

  ghost predicate Timely(s: State) {
    && (forall w :: w in s.pcs && !s.pcs[w].Idle? ==> s.pcs[w].read <= s.now)
    && (s.sweeper.Retaining? ==> s.sweeper.read <= s.now)
    && (forall i :: 0 <= i < |s.log| ==> s.log[i].read <= s.log[i].at <= s.now)
  }

  predicate Aged(cfg: Config, s: State, g: Grant) {
    g.read + cfg.ttl <= s.now
  }

  ghost predicate Guarded(cfg: Config, s: State) {
    forall i :: 0 <= i < |s.log| ==>
      var g := s.log[i];
      Aged(cfg, s, g) || (g.jti in s.entries && g.read <= s.entries[g.jti])
  }

  ghost predicate Spaced(cfg: Config, log: seq<Grant>) {
    forall i, j :: 0 <= i < j < |log| && log[i].jti == log[j].jti ==> log[i].read + cfg.ttl <= log[j].at
  }

  ghost predicate Safe(cfg: Config, s: State) {
    Exclusive(s) && Timely(s) && Guarded(cfg, s) && Spaced(cfg, s.log)
  }

  lemma ExclusiveStep(cfg: Config, s: State, step: Step)
    requires Exclusive(s) && Enabled(cfg, s, step)
    ensures Exclusive(Apply(cfg, s, step))
  {
    forall w | w in s.pcs && (s.pcs[w].Reserved? || s.pcs[w].Over?) ensures Holds(s.pcs[w], s.pcs[w].jti) {
    }
  }

  lemma AcceptKeepsSafe(cfg: Config, s: State, w: nat, jti: string, read: nat)
    requires Safe(cfg, s) && w in s.pcs && Holds(s.pcs[w], jti) && s.pcs[w].read == read
    requires jti in s.entries ==> cfg.ttl <= Replay.Elapsed(read, s.entries[jti])
    ensures var t := Accept(s, w, jti, read); Timely(t) && Guarded(cfg, t) && Spaced(cfg, t.log)
  {
    var t := Accept(s, w, jti, read);
    forall i | 0 <= i < |s.log| && s.log[i].jti == jti ensures Aged(cfg, s, s.log[i]) {
    }
  }

  lemma SafeStep(cfg: Config, s: State, step: Step)
    requires Safe(cfg, s) && Enabled(cfg, s, step)
    ensures Safe(cfg, Apply(cfg, s, step))
  {
    ExclusiveStep(cfg, s, step);
    match step
    case Decide(w) =>
      var jti, read := s.pcs[w].jti, s.pcs[w].read;
      if jti in s.entries && cfg.ttl <= Replay.Elapsed(read, s.entries[jti]) {
        AcceptKeepsSafe(cfg, s, w, jti, read);
      }
    case Insert(w) => AcceptKeepsSafe(cfg, s, w, s.pcs[w].jti, s.pcs[w].read);
    case _ =>
  }

  lemma {:induction false} SafeAlong(cfg: Config, trace: seq<Step>, s: State)
    requires Leads(cfg, trace, s)
    ensures Safe(cfg, s)
    decreases |trace|
  {
    if trace != [] {
      var last := |trace| - 1;
      var p :| Leads(cfg, trace[..last], p) && Enabled(cfg, p, trace[last]) && s == Apply(cfg, p, trace[last]);
      SafeAlong(cfg, trace[..last], p);
      SafeStep(cfg, p, trace[last]);
    }
  }

  /**
   In every interleaving of requests and sweeps, if one identifier is granted twice, the later grant
   comes at least a TTL after the clock reading of the earlier request. When that request decided at
   the very instant it read, the two grants are a full TTL apart.
   */
  lemma ReplaySafety(cfg: Config, s: State, i: nat, j: nat)
    requires Reachable(cfg, s) && i < j < |s.log| && s.log[i].jti == s.log[j].jti
    ensures s.log[i].read + cfg.ttl <= s.log[j].at
    ensures s.log[i].read == s.log[i].at ==> cfg.ttl <= s.log[j].at - s.log[i].at
  {
    var trace :| Leads(cfg, trace, s);
    SafeAlong(cfg, trace, s);
  }

  ghost predicate GrantsAreTtlApart(cfg: Config) {
    forall s, i, j :: Reachable(cfg, s) && 0 <= i < j < |s.log| && s.log[i].jti == s.log[j].jti ==>
      cfg.ttl <= s.log[j].at - s.log[i].at
  }

  /**
   The clock is read before the lock is taken, so the gap between two grants themselves is not
   bounded by the TTL: a request delayed for a whole TTL between its reading and its decision
   stores an instant that is already expired, and the next request is granted at the same moment.
   The gap is guaranteed only where nothing can be granted or nothing is ever fresh.
   */
  lemma GrantGapIsExact(cfg: Config)
    ensures GrantsAreTtlApart(cfg) <==> cfg.ttl == 0 || cfg.cap == 0 || cfg.slots == {}
  {
    if cfg.ttl == 0 {
      forall s, i, j | Reachable(cfg, s) && 0 <= i < j < |s.log| && s.log[i].jti == s.log[j].jti
        ensures cfg.ttl <= s.log[j].at - s.log[i].at
      {
        LogIsChronological(cfg, s, i, j);
      }
    } else if cfg.cap == 0 || cfg.slots == {} {
      forall s | Reachable(cfg, s) ensures s.log == [] {
        NothingGranted(cfg, s);
      }
    } else {
      var s := StaleStampRun(cfg);
      assert Reachable(cfg, s) && 0 <= 0 < 1 < |s.log| && s.log[0].jti == s.log[1].jti;
    }
  }

  ghost predicate Chronological(s: State) {
    && (forall i :: 0 <= i < |s.log| ==> s.log[i].at <= s.now)
    && (forall i, j :: 0 <= i <= j < |s.log| ==> s.log[i].at <= s.log[j].at)
  }

  lemma ChronologicalStep(cfg: Config, s: State, step: Step)
    requires Chronological(s) && Enabled(cfg, s, step)
    ensures Chronological(Apply(cfg, s, step))
  {
    var t := Apply(cfg, s, step);
    if t.log != s.log {
      assert t.log[..|s.log|] == s.log;
    }
  }

  lemma {:induction false} ChronologicalAlong(cfg: Config, trace: seq<Step>, s: State)
    requires Leads(cfg, trace, s)
    ensures Chronological(s)
    decreases |trace|
  {
    if trace != [] {
      var last := |trace| - 1;
      var p :| Leads(cfg, trace[..last], p) && Enabled(cfg, p, trace[last]) && s == Apply(cfg, p, trace[last]);
      ChronologicalAlong(cfg, trace[..last], p);
      ChronologicalStep(cfg, p, trace[last]);
    }
  }

  lemma LogIsChronological(cfg: Config, s: State, i: nat, j: nat)
    requires Reachable(cfg, s) && i < j < |s.log|
    ensures s.log[i].at <= s.log[j].at
  {
    var trace :| Leads(cfg, trace, s);
    ChronologicalAlong(cfg, trace, s);
  }

  lemma {:induction false} NothingGrantedAlong(cfg: Config, trace: seq<Step>, s: State)
    requires Leads(cfg, trace, s) && (cfg.cap == 0 || cfg.slots == {})
    ensures s.log == [] && s.entries == map[] && s.pcs.Keys == cfg.slots
    ensures forall w :: w in s.pcs ==> !s.pcs[w].Reserved?
    decreases |trace|
  {
    if trace != [] {
      var last := |trace| - 1;
      var p :| Leads(cfg, trace[..last], p) && Enabled(cfg, p, trace[last]) && s == Apply(cfg, p, trace[last]);
      NothingGrantedAlong(cfg, trace[..last], p);
    }
  }

  lemma NothingGranted(cfg: Config, s: State)
    requires Reachable(cfg, s) && (cfg.cap == 0 || cfg.slots == {})
    ensures s.log == []
  {
    var trace :| Leads(cfg, trace, s);
    NothingGrantedAlong(cfg, trace, s);
  }

  lemma InitReachable(cfg: Config)
    ensures Reachable(cfg, Init(cfg))
  {
    assert Leads(cfg, [], Init(cfg));
  }

  /** A slot runs one request for a new identifier from clock reading to reservation. */
  lemma ReserveRun(cfg: Config, s: State, w: nat, jti: string, delay: nat) returns (t: State)
    requires Reachable(cfg, s) && w in s.pcs && (forall v :: v in s.pcs ==> s.pcs[v].Idle?) && jti !in s.entries
    ensures Reachable(cfg, t) && t.now == s.now + delay && t.counter == FetchAdd(s.counter)
    ensures t.pcs == s.pcs[w := if s.counter >= cfg.cap then Over(jti, s.now) else Reserved(jti, s.now)]
    ensures t.entries == s.entries && t.log == s.log && t.sweeper == s.sweeper
  {
    var a := Apply(cfg, s, ReadClock(w, jti));
    Extend(cfg, s, ReadClock(w, jti));
    var b := Apply(cfg, a, Tick(delay));
    Extend(cfg, a, Tick(delay));
    var c := Apply(cfg, b, Lock(w));
    Extend(cfg, b, Lock(w));
    t := Apply(cfg, c, Decide(w));
    Extend(cfg, c, Decide(w));
    assert t.pcs == s.pcs[w := t.pcs[w]];
  }

  /** A slot runs one request for a new identifier to its grant. */
  lemma GrantRun(cfg: Config, s: State, w: nat, jti: string, delay: nat) returns (t: State)
    requires Reachable(cfg, s) && w in s.pcs && (forall v :: v in s.pcs ==> s.pcs[v].Idle?) && jti !in s.entries
    requires s.counter < cfg.cap
    ensures Reachable(cfg, t) && t.now == s.now + delay && t.counter == FetchAdd(s.counter)
    ensures t.pcs == s.pcs && t.entries == s.entries[jti := s.now] && t.sweeper == s.sweeper
    ensures t.log == s.log + [Grant(jti, s.now, t.now)]
  {
    var r := ReserveRun(cfg, s, w, jti, delay);
    t := Apply(cfg, r, Insert(w));
    Extend(cfg, r, Insert(w));
    assert t.pcs == s.pcs;
  }

  lemma StaleStampRun(cfg: Config) returns (s: State)
    requires cfg.ttl > 0 && cfg.cap > 0 && cfg.slots != {}
    ensures Reachable(cfg, s)
    ensures s.log == [Grant("p", 0, cfg.ttl), Grant("p", cfg.ttl, cfg.ttl)]
  {
    var w :| w in cfg.slots;
    InitReachable(cfg);
    var a := GrantRun(cfg, Init(cfg), w, "p", cfg.ttl);
    var b := Apply(cfg, a, ReadClock(w, "p"));
    Extend(cfg, a, ReadClock(w, "p"));
    var c := Apply(cfg, b, Lock(w));
    Extend(cfg, b, Lock(w));
    s := Apply(cfg, c, Decide(w));
    Extend(cfg, c, Decide(w));
  }

  /** This step grants: the log has one more entry. */
  predicate Grants(cfg: Config, s: State, step: Step)
    requires Enabled(cfg, s, step)
  {
    |Apply(cfg, s, step).log| > |s.log|
  }

  /** In every continuation, the next grants of the same identifier come at least `gap` after the last grant of `s`. */
  ghost predicate KeepsGap(cfg: Config, s: State, gap: nat)
    requires s.log != []
  {
    forall trace, t, j :: LeadsFrom(cfg, s, trace, t) && |s.log| <= j < |t.log| && t.log[j].jti == s.log[|s.log| - 1].jti ==>
      s.log[|s.log| - 1].at + gap <= t.log[j].at
  }

  /** What is left of the TTL when a request is granted some time after it read the clock. */
  function GapLeft(cfg: Config, g: Grant): nat {
    if g.at <= g.read + cfg.ttl then g.read + cfg.ttl - g.at else 0
  }

  lemma {:induction false} GapIsKept(cfg: Config, s: State, trace: seq<Step>, t: State, j: nat)
    requires Reachable(cfg, s) && s.log != [] && LeadsFrom(cfg, s, trace, t)
    requires |s.log| <= j < |t.log| && t.log[j].jti == s.log[|s.log| - 1].jti
    ensures s.log[|s.log| - 1].at + GapLeft(cfg, s.log[|s.log| - 1]) <= t.log[j].at
  {
    ReachableOn(cfg, s, trace, t);
    assert t.log[|s.log| - 1] == s.log[|s.log| - 1];
    ReplaySafety(cfg, t, |s.log| - 1, j);
    LogIsChronological(cfg, t, |s.log| - 1, j);
  }

  /** Right after a grant, the same slot can be granted the same identifier again as soon as the TTL allows. */
  lemma RegrantRun(cfg: Config, s: State, step: Step) returns (trace: seq<Step>, t: State)
    requires Reachable(cfg, s) && Enabled(cfg, s, step) && Grants(cfg, s, step)
    ensures var after := Apply(cfg, s, step);
            var g := after.log[|after.log| - 1];
            && LeadsFrom(cfg, after, trace, t) && |t.log| == |after.log| + 1
            && t.log[|after.log|].jti == g.jti && t.log[|after.log|].at == g.at + GapLeft(cfg, g)
  {
    var before :| Leads(cfg, before, s);
    SafeAlong(cfg, before, s);
    var a, w := Apply(cfg, s, step), step.w;
    var g := a.log[|a.log| - 1];
    AfterGrant(cfg, s, step);
    trace, t := AskAgainRun(cfg, a, w, g.jti, GapLeft(cfg, g));
  }

  /** A free slot waits, and asks for an identifier whose entry has expired by then. */
  lemma AskAgainRun(cfg: Config, a: State, w: nat, jti: string, delay: nat) returns (trace: seq<Step>, t: State)
    requires w in a.pcs && a.pcs[w].Idle? && Unlocked(a, jti)
    requires jti in a.entries && a.entries[jti] + cfg.ttl <= a.now + delay
    ensures LeadsFrom(cfg, a, trace, t) && t.log == a.log + [Grant(jti, a.now + delay, a.now + delay)]
  {
    var b := Apply(cfg, a, Tick(delay));
    trace := ExtendFrom(cfg, a, [], a, Tick(delay));
    var c := Apply(cfg, b, ReadClock(w, jti));
    trace := ExtendFrom(cfg, a, trace, b, ReadClock(w, jti));
    assert c == a.(now := a.now + delay, pcs := a.pcs[w := Timed(jti, a.now + delay)]);
    var d := Apply(cfg, c, Lock(w));
    trace := ExtendFrom(cfg, a, trace, c, Lock(w));
    assert d == c.(pcs := a.pcs[w := Locked(jti, a.now + delay)]);
    t := Apply(cfg, d, Decide(w));
    trace := ExtendFrom(cfg, a, trace, d, Decide(w));
  }

  lemma AfterGrant(cfg: Config, s: State, step: Step)
    requires Safe(cfg, s) && Enabled(cfg, s, step) && Grants(cfg, s, step)
    ensures step.Decide? || step.Insert?
    ensures var a := Apply(cfg, s, step);
            var g := a.log[|a.log| - 1];
            && step.w in a.pcs && a.pcs[step.w].Idle? && Unlocked(a, g.jti) && g.at == a.now && g.read <= g.at
            && g.jti in a.entries && a.entries[g.jti] == g.read
  {
    assert Holds(s.pcs[step.w], s.pcs[step.w].jti);
  }

  /**
   After a grant that came a time d after its clock reading, every later grant of the identifier is at
   least the TTL less d away, and no more than that is guaranteed.
   */
  lemma GapPerGrantIsExact(cfg: Config, s: State, step: Step, gap: nat)
    requires Reachable(cfg, s) && Enabled(cfg, s, step) && Grants(cfg, s, step)
    ensures var a := Apply(cfg, s, step);
            && a.log[|a.log| - 1].read <= a.log[|a.log| - 1].at
            && (KeepsGap(cfg, a, gap) <==> gap <= GapLeft(cfg, a.log[|a.log| - 1]))
  {
    var a := Apply(cfg, s, step);
    var before :| Leads(cfg, before, s);
    SafeAlong(cfg, before, s);
    AfterGrant(cfg, s, step);
    Extend(cfg, s, step);
    forall trace, t, j | LeadsFrom(cfg, a, trace, t) && |a.log| <= j < |t.log| && t.log[j].jti == a.log[|a.log| - 1].jti
      ensures a.log[|a.log| - 1].at + GapLeft(cfg, a.log[|a.log| - 1]) <= t.log[j].at
    {
      GapIsKept(cfg, a, trace, t, j);
    }
    var trace, t := RegrantRun(cfg, s, step);
  }

  // ---------------------------------------------------------------------------------------------
  // The counter between sweeps
  // ---------------------------------------------------------------------------------------------

  function Inserting(s: State): set<nat> {
    set w | w in s.pcs && s.pcs[w].Reserved?
  }

  function Undoing(s: State): set<nat> {
    set w | w in s.pcs && s.pcs[w].Over?
  }

  /** Entries stored plus entries already promised a place. */
  function Occupancy(s: State): nat {
    |s.entries| + |Inserting(s)|
  }

  /**
   The count that a sweep stores counts the entries stored, the inserts pending and the undos pending;
   if `strict`, there are no undos pending.
   */
  ghost predicate IsRight(s: State, step: Step, strict: bool) {
    step.SweepStore? && s.sweeper.Measured? ==>
      s.sweeper.len == Occupancy(s) + |Undoing(s)| && (strict ==> Undoing(s) == {})
  }

  ghost predicate RightLeads(cfg: Config, trace: seq<Step>, s: State, strict: bool)
    decreases |trace|
  {
    if trace == [] then s == Init(cfg)
    else
      var last := |trace| - 1;
      exists p :: RightLeads(cfg, trace[..last], p, strict) && Enabled(cfg, p, trace[last]) &&
                  IsRight(p, trace[last], strict) && s == Apply(cfg, p, trace[last])
  }

  /** Reachable in a run whose every sweep stores the right count. */
  ghost predicate RightlyReachable(cfg: Config, s: State, strict: bool) {
    exists trace :: RightLeads(cfg, trace, s, strict)
  }

  /** `drift` counts the entries that the sweep under way has removed. */
  ghost predicate Accounted(cfg: Config, s: State, drift: nat, strict: bool) {
    && s.pcs.Keys == cfg.slots
    && (s.sweeper.Resting? ==> drift == 0)
    && s.counter == Occupancy(s) + drift + |Undoing(s)|
    && Occupancy(s) + drift <= cfg.cap
    && (strict && Undoing(s) != {} ==> Occupancy(s) + drift == cfg.cap)
    && Exclusive(s)
  }

  lemma SizeAfter(before: set<nat>, after: set<nat>, w: nat)
    requires before - {w} == after - {w}
    ensures |after| == |before| - (if w in before then 1 else 0) + (if w in after then 1 else 0)
  {
    assert w in before ==> before == (before - {w}) + {w};
    assert w in after ==> after == (after - {w}) + {w};
    assert w !in before ==> before == before - {w};
    assert w !in after ==> after == after - {w};
  }

  /** How a change of one slot shows in the two pending sets. */
  lemma PendingAfter(s: State, w: nat, t: State)
    requires w in s.pcs && w in t.pcs && t.pcs == s.pcs[w := t.pcs[w]]
    ensures |Inserting(t)| == |Inserting(s)| - (if s.pcs[w].Reserved? then 1 else 0) + (if t.pcs[w].Reserved? then 1 else 0)
    ensures |Undoing(t)| == |Undoing(s)| - (if s.pcs[w].Over? then 1 else 0) + (if t.pcs[w].Over? then 1 else 0)
  {
    assert Inserting(s) - {w} == Inserting(t) - {w};
    assert Undoing(s) - {w} == Undoing(t) - {w};
    SizeAfter(Inserting(s), Inserting(t), w);
    SizeAfter(Undoing(s), Undoing(t), w);
  }

  lemma CounterBelowWord(cfg: Config, s: State, drift: nat, strict: bool, w: nat)
    requires cfg.Valid() && Accounted(cfg, s, drift, strict) && w in s.pcs && !s.pcs[w].Over?
    ensures s.counter + 1 < WORD
  {
    SubsetSize(Undoing(s) + {w}, cfg.slots);
    assert w !in Undoing(s);
  }

  lemma DecideAccounted(cfg: Config, s: State, drift: nat, strict: bool, w: nat)
    requires cfg.Valid() && Accounted(cfg, s, drift, strict) && Enabled(cfg, s, Decide(w))
    ensures Accounted(cfg, Apply(cfg, s, Decide(w)), drift, strict)
  {
    var t := Apply(cfg, s, Decide(w));
    ExclusiveStep(cfg, s, Decide(w));
    CounterBelowWord(cfg, s, drift, strict, w);
    PendingAfter(s, w, t);
    if s.pcs[w].jti in s.entries {
      assert t.entries.Keys == s.entries.Keys;
      assert Undoing(t) == Undoing(s);
    } else {
      assert Undoing(s) == {} <==> |Undoing(s)| == 0;
      assert Undoing(t) == {} <==> |Undoing(t)| == 0;
    }
  }

  lemma InsertAccounted(cfg: Config, s: State, drift: nat, strict: bool, w: nat)
    requires cfg.Valid() && Accounted(cfg, s, drift, strict) && Enabled(cfg, s, Insert(w))
    ensures Accounted(cfg, Apply(cfg, s, Insert(w)), drift, strict)
  {
    var t := Apply(cfg, s, Insert(w));
    ExclusiveStep(cfg, s, Insert(w));
    PendingAfter(s, w, t);
    assert t.entries.Keys == s.entries.Keys + {s.pcs[w].jti};
    assert Undoing(t) == Undoing(s);
  }

  predicate IsSweep(step: Step) {
    step.SweepBegin? || step.SweepRemove? || step.SweepMeasure? || step.SweepStore?
  }

  lemma SweepAccounted(cfg: Config, s: State, drift: nat, strict: bool, step: Step) returns (next: nat)
    requires Accounted(cfg, s, drift, strict) && Enabled(cfg, s, step) && IsSweep(step) && IsRight(s, step, strict)
    ensures Accounted(cfg, Apply(cfg, s, step), next, strict)
  {
    var t := Apply(cfg, s, step);
    ExclusiveStep(cfg, s, step);
    assert Inserting(t) == Inserting(s) && Undoing(t) == Undoing(s);
    next := drift;
    if step.SweepRemove? {
      assert t.entries.Keys == s.entries.Keys - {step.victim};
      next := drift + 1;
    } else if step.SweepStore? {
      next := 0;
    }
  }

  lemma RequestAccounted(cfg: Config, s: State, drift: nat, strict: bool, step: Step)
    requires cfg.Valid() && Accounted(cfg, s, drift, strict) && Enabled(cfg, s, step) && !IsSweep(step)
    ensures Accounted(cfg, Apply(cfg, s, step), drift, strict)
  {
    var t := Apply(cfg, s, step);
    ExclusiveStep(cfg, s, step);
    match step
    case Tick(_) => assert Inserting(t) == Inserting(s) && Undoing(t) == Undoing(s);
    case ReadClock(w, _) => PendingAfter(s, w, t); assert Undoing(t) == Undoing(s);
    case Lock(w) => PendingAfter(s, w, t); assert Undoing(t) == Undoing(s);
    case Decide(w) => DecideAccounted(cfg, s, drift, strict, w);
    case Insert(w) => InsertAccounted(cfg, s, drift, strict, w);
    case Undo(w) => PendingAfter(s, w, t); assert w in Undoing(s);
  }

  lemma {:induction false} AccountedAlong(cfg: Config, trace: seq<Step>, s: State, strict: bool) returns (drift: nat)
    requires cfg.Valid() && RightLeads(cfg, trace, s, strict)
    ensures Accounted(cfg, s, drift, strict)
    decreases |trace|
  {
    if trace == [] {
      assert Inserting(s) == {} && Undoing(s) == {};
      drift := 0;
    } else {
      var last := |trace| - 1;
      var p :| RightLeads(cfg, trace[..last], p, strict) && Enabled(cfg, p, trace[last]) &&
               IsRight(p, trace[last], strict) && s == Apply(cfg, p, trace[last]);
      drift := AccountedAlong(cfg, trace[..last], p, strict);
      if IsSweep(trace[last]) {
        drift := SweepAccounted(cfg, p, drift, strict, trace[last]);
      } else {
        RequestAccounted(cfg, p, drift, strict, trace[last]);
      }
    }
  }

  /**
   In runs whose sweeps store the right count, stored and promised entries never exceed the cap, not
   even during a sweep, and between sweeps the counter is exactly the entries stored, plus the inserts
   pending, plus the undos pending. If no undo is pending at any store, an undo is pending between
   sweeps only when the cap is reached.
   */
  lemma CounterIsExact(cfg: Config, s: State, strict: bool)
    requires cfg.Valid() && RightlyReachable(cfg, s, strict)
    ensures |s.entries| + |Inserting(s)| <= cfg.cap
    ensures s.sweeper.Resting? ==> s.counter == |s.entries| + |Inserting(s)| + |Undoing(s)|
    ensures strict && s.sweeper.Resting? && Undoing(s) != {} ==> |s.entries| + |Inserting(s)| == cfg.cap
  {
    var trace :| RightLeads(cfg, trace, s, strict);
    var drift := AccountedAlong(cfg, trace, s, strict);
  }

  lemma {:induction false} NoSweepIsRight(cfg: Config, trace: seq<Step>, s: State)
    requires !cfg.sweeps && Leads(cfg, trace, s)
    ensures RightLeads(cfg, trace, s, true) && s.sweeper.Resting?
    decreases |trace|
  {
    if trace != [] {
      var last := |trace| - 1;
      var p :| Leads(cfg, trace[..last], p) && Enabled(cfg, p, trace[last]) && s == Apply(cfg, p, trace[last]);
      NoSweepIsRight(cfg, trace[..last], p);
      assert IsRight(p, trace[last], true);
    }
  }

  lemma WithoutSweeps(cfg: Config, s: State)
    requires cfg.Valid() && !cfg.sweeps && Reachable(cfg, s)
    ensures Occupancy(s) <= cfg.cap && (Undoing(s) != {} ==> Occupancy(s) == cfg.cap)
  {
    var trace :| Leads(cfg, trace, s);
    NoSweepIsRight(cfg, trace, s);
    CounterIsExact(cfg, s, true);
  }

  // ---------------------------------------------------------------------------------------------
  // The counter in all runs
  // ---------------------------------------------------------------------------------------------

  /** By how much the counter is above what it should count. */
  function Excess(s: State): int {
    s.counter - Occupancy(s) - |Undoing(s)|
  }

  lemma DecideExcess(cfg: Config, s: State, w: nat)
    requires s.counter < WORD && Enabled(cfg, s, Decide(w))
    ensures var more := Excess(Apply(cfg, s, Decide(w))) - Excess(s); more == 0 || more + WORD == 0
  {
    var t := Apply(cfg, s, Decide(w));
    PendingAfter(s, w, t);
    if s.pcs[w].jti in s.entries {
      assert t.entries.Keys == s.entries.Keys;
    }
  }

  lemma InsertExcess(cfg: Config, s: State, w: nat)
    requires Exclusive(s) && Enabled(cfg, s, Insert(w))
    ensures Excess(Apply(cfg, s, Insert(w))) == Excess(s)
  {
    var t := Apply(cfg, s, Insert(w));
    PendingAfter(s, w, t);
    assert t.entries.Keys == s.entries.Keys + {s.pcs[w].jti};
  }

  lemma SweepExcess(cfg: Config, s: State, step: Step)
    requires Enabled(cfg, s, step) && IsSweep(step) && !step.SweepStore?
    ensures Excess(Apply(cfg, s, step)) == Excess(s) + if step.SweepRemove? then 1 else 0
  {
    var t := Apply(cfg, s, step);
    assert Inserting(t) == Inserting(s) && Undoing(t) == Undoing(s);
    if step.SweepRemove? {
      assert t.entries.Keys == s.entries.Keys - {step.victim};
    }
  }

  /** No step but a store or a removal changes the excess, except that the counter may wrap. */
  lemma ExcessStep(cfg: Config, s: State, step: Step) returns (wraps: int)
    requires Exclusive(s) && s.counter < WORD && Enabled(cfg, s, step) && !step.SweepStore?
    ensures Excess(Apply(cfg, s, step)) == Excess(s) + (if step.SweepRemove? then 1 else 0) + wraps * WORD
  {
    var t := Apply(cfg, s, step);
    wraps := 0;
    match step
    case Tick(_) => assert Inserting(t) == Inserting(s) && Undoing(t) == Undoing(s);
    case ReadClock(w, _) => PendingAfter(s, w, t);
    case Lock(w) => PendingAfter(s, w, t);
    case Decide(w) =>
      DecideExcess(cfg, s, w);
      wraps := if Excess(t) == Excess(s) then 0 else -1;
    case Insert(w) => InsertExcess(cfg, s, w);
    case Undo(w) =>
      PendingAfter(s, w, t);
      wraps := if s.counter == 0 then 1 else 0;
    case _ => SweepExcess(cfg, s, step);
  }

  lemma {:induction false} CounterIsWord(cfg: Config, trace: seq<Step>, s: State)
    requires Leads(cfg, trace, s)
    ensures s.counter < WORD && (s.sweeper.Measured? ==> s.sweeper.len < WORD)
    decreases |trace|
  {
    if trace != [] {
      var last := |trace| - 1;
      var p :| Leads(cfg, trace[..last], p) && Enabled(cfg, p, trace[last]) && s == Apply(cfg, p, trace[last]);
      CounterIsWord(cfg, trace[..last], p);
      WordStep(cfg, p, trace[last]);
    }
  }

  lemma WordStep(cfg: Config, s: State, step: Step)
    requires Enabled(cfg, s, step) && s.counter < WORD && (s.sweeper.Measured? ==> s.sweeper.len < WORD)
    ensures var t := Apply(cfg, s, step); t.counter < WORD && (t.sweeper.Measured? ==> t.sweeper.len < WORD)
  {
  }

  function Removals(trace: seq<Step>): nat {
    if trace == [] then 0
    else Removals(trace[..|trace| - 1]) + if trace[|trace| - 1].SweepRemove? then 1 else 0
  }

  predicate StoresNothing(trace: seq<Step>) {
    forall i :: 0 <= i < |trace| ==> !trace[i].SweepStore?
  }

  lemma ReachableStep(cfg: Config, s: State, step: Step) returns (wraps: int)
    requires Reachable(cfg, s) && Enabled(cfg, s, step) && !step.SweepStore?
    ensures Excess(Apply(cfg, s, step)) == Excess(s) + (if step.SweepRemove? then 1 else 0) + wraps * WORD
  {
    var trace :| Leads(cfg, trace, s);
    SafeAlong(cfg, trace, s);
    CounterIsWord(cfg, trace, s);
    wraps := ExcessStep(cfg, s, step);
  }

  /** Until the next store, the excess grows by one with each removal and otherwise only wraps. */
  lemma {:induction false} ExcessCountsRemovals(cfg: Config, start: State, trace: seq<Step>, s: State) returns (wraps: int)
    requires Reachable(cfg, start) && LeadsFrom(cfg, start, trace, s) && StoresNothing(trace)
    ensures Excess(s) == Excess(start) + Removals(trace) + wraps * WORD
    decreases |trace|
  {
    if trace == [] {
      wraps := 0;
    } else {
      var last := |trace| - 1;
      var p :| LeadsFrom(cfg, start, trace[..last], p) && Enabled(cfg, p, trace[last]) && s == Apply(cfg, p, trace[last]);
      var before := ExcessCountsRemovals(cfg, start, trace[..last], p);
      ReachableOn(cfg, start, trace[..last], p);
      var now := ReachableStep(cfg, p, trace[last]);
      wraps := before + now;
    }
  }

  /** Equal as 64-bit words. */
  predicate SameWord(a: int, b: int) {
    (a - b) % WORD == 0
  }

  lemma WrappingKeepsWords(a: int, b: int, c: int, d: int, wraps: int)
    requires a - b == c - d + wraps * WORD
    ensures SameWord(a, b) <==> SameWord(c, d)
  {
  }

  /** The counter is, as a word, the entries stored plus the inserts and undos pending. */
  predicate CounterIsRight(s: State) {
    SameWord(s.counter, Occupancy(s) + |Undoing(s)|)
  }

  lemma RightByWords(s: State, c: int, d: int, wraps: int)
    requires Excess(s) == c - d + wraps * WORD
    ensures CounterIsRight(s) <==> SameWord(c, d)
  {
    WrappingKeepsWords(s.counter, Occupancy(s) + |Undoing(s)|, c, d, wraps);
  }

  /** Before any store the counter is right exactly if nothing was removed (as a word). */
  lemma {:induction false} CounterLawBeforeStores(cfg: Config, trace: seq<Step>, s: State)
    requires LeadsFrom(cfg, Init(cfg), trace, s) && StoresNothing(trace)
    ensures CounterIsRight(s) <==> SameWord(Removals(trace), 0)
  {
    InitReachable(cfg);
    assert Inserting(Init(cfg)) == {} && Undoing(Init(cfg)) == {};
    var wraps := ExcessCountsRemovals(cfg, Init(cfg), trace, s);
    RightByWords(s, Removals(trace), 0, wraps);
  }

  /**
   After a store, and until the next one, the counter is right exactly if the stored count together
   with the removals since is what was stored and pending at the moment of the store.
   */
  lemma {:induction false} CounterLaw(cfg: Config, p: State, trace: seq<Step>, s: State)
    requires Reachable(cfg, p) && Enabled(cfg, p, SweepStore)
    requires LeadsFrom(cfg, Apply(cfg, p, SweepStore), trace, s) && StoresNothing(trace)
    ensures CounterIsRight(s) <==> SameWord(p.sweeper.len + Removals(trace), Occupancy(p) + |Undoing(p)|)
  {
    Extend(cfg, p, SweepStore);
    StoredExcess(cfg, p);
    var wraps := ExcessCountsRemovals(cfg, Apply(cfg, p, SweepStore), trace, s);
    RightByWords(s, p.sweeper.len + Removals(trace), Occupancy(p) + |Undoing(p)|, wraps);
  }

  lemma StoredExcess(cfg: Config, p: State)
    requires Enabled(cfg, p, SweepStore)
    ensures Excess(Apply(cfg, p, SweepStore)) == p.sweeper.len - (Occupancy(p) + |Undoing(p)|)
  {
    var q := Apply(cfg, p, SweepStore);
    assert Inserting(q) == Inserting(p) && Undoing(q) == Undoing(p);
  }

  /** A request about to be refused for capacity really finds no room. */
  ghost predicate RefusesOnlyWhenFull(cfg: Config) {
    forall s :: Reachable(cfg, s) && Undoing(s) != {} ==> Occupancy(s) == cfg.cap
  }

  function Name(i: nat): string {
    seq(i, _ => 'j')
  }

  /** One slot fills an empty cache with `n` entries at time zero. */
  lemma {:induction false} FillRun(cfg: Config, start: State, w: nat, n: nat) returns (s: State)
    requires cfg.Valid() && w in cfg.slots && n <= cfg.cap && Reachable(cfg, start) && start.now == 0
    requires start.entries == map[] && start.counter == 0 && start.pcs == Init(cfg).pcs
    ensures Reachable(cfg, s) && s.now == 0 && s.counter == n && s.sweeper == start.sweeper && s.pcs == Init(cfg).pcs
    ensures |s.entries| == n
    ensures forall jti :: jti in s.entries ==> |jti| < n && s.entries[jti] == 0
  {
    if n == 0 {
      s := start;
    } else {
      var p := FillRun(cfg, start, w, n - 1);
      s := GrantRun(cfg, p, w, Name(n - 1), 0);
    }
  }

  /**
   While a sweep has removed an entry and not yet stored the new count, a request can be refused
   although there is room. So capacity refusals are exact if and only if sweeps are excluded (or
   there is no room to begin with, or nobody to ask for it).
   */
  lemma CapacityRefusalIsExact(cfg: Config)
    requires cfg.Valid()
    ensures RefusesOnlyWhenFull(cfg) <==> !cfg.sweeps || cfg.cap == 0 || cfg.slots == {}
  {
    if !cfg.sweeps {
      forall s | Reachable(cfg, s) && Undoing(s) != {} ensures Occupancy(s) == cfg.cap {
        WithoutSweeps(cfg, s);
      }
    } else if cfg.cap == 0 || cfg.slots == {} {
      forall s | Reachable(cfg, s) && Undoing(s) != {} ensures Occupancy(s) == cfg.cap {
        var trace :| Leads(cfg, trace, s);
        NothingGrantedAlong(cfg, trace, s);
        assert Inserting(s) == {};
        var w :| w in Undoing(s);
        assert cfg.slots != {};
      }
    } else {
      var s := RefusalDuringSweepRun(cfg);
    }
  }

  lemma RefusalDuringSweepRun(cfg: Config) returns (s: State)
    requires cfg.Valid() && cfg.sweeps && cfg.cap > 0 && cfg.slots != {}
    ensures Reachable(cfg, s) && Undoing(s) != {} && Occupancy(s) < cfg.cap
  {
    var w :| w in cfg.slots;
    InitReachable(cfg);
    var a := FillRun(cfg, Init(cfg), w, cfg.cap);
    var b := Apply(cfg, a, Tick(cfg.ttl));
    Extend(cfg, a, Tick(cfg.ttl));
    var c := Apply(cfg, b, SweepBegin);
    Extend(cfg, b, SweepBegin);
    var victim :| victim in c.entries;
    var d := Apply(cfg, c, SweepRemove(victim));
    Extend(cfg, c, SweepRemove(victim));
    assert d.entries.Keys == c.entries.Keys - {victim};
    s := ReserveRun(cfg, d, w, Name(cfg.cap), 0);
    assert w in Undoing(s);
    assert Inserting(s) == {};
  }

  ghost predicate CapIsHard(cfg: Config) {
    forall s :: Reachable(cfg, s) ==> Occupancy(s) <= cfg.cap
  }

  /**
   A count that was measured before some inserts and is stored after them makes room for more entries
   than the cap. So the cap is never exceeded if and only if sweeps are excluded (or nothing can be
   inserted at all).
   */
  lemma CapIsHardExactly(cfg: Config)
    requires cfg.Valid()
    ensures CapIsHard(cfg) <==> !cfg.sweeps || cfg.cap == 0 || cfg.slots == {}
  {
    if !cfg.sweeps {
      forall s | Reachable(cfg, s) ensures Occupancy(s) <= cfg.cap {
        WithoutSweeps(cfg, s);
      }
    } else if cfg.cap == 0 || cfg.slots == {} {
      forall s | Reachable(cfg, s) ensures Occupancy(s) <= cfg.cap {
        var trace :| Leads(cfg, trace, s);
        NothingGrantedAlong(cfg, trace, s);
        assert Inserting(s) == {};
      }
    } else {
      var s := StaleCountRun(cfg);
    }
  }

  lemma StaleCountRun(cfg: Config) returns (s: State)
    requires cfg.Valid() && cfg.sweeps && cfg.cap > 0 && cfg.slots != {}
    ensures Reachable(cfg, s) && |s.entries| == cfg.cap + 1 && s.pcs == Init(cfg).pcs && s.sweeper.Resting?
  {
    var w :| w in cfg.slots;
    InitReachable(cfg);
    var a := Apply(cfg, Init(cfg), SweepBegin);
    Extend(cfg, Init(cfg), SweepBegin);
    var b := Apply(cfg, a, SweepMeasure(0));
    Extend(cfg, a, SweepMeasure(0));
    var c := FillRun(cfg, b, w, cfg.cap);
    var d := Apply(cfg, c, SweepStore);
    Extend(cfg, c, SweepStore);
    s := GrantRun(cfg, d, w, Name(cfg.cap), 0);
    assert Name(cfg.cap) !in d.entries;
  }

  /**
   A sweep that stores its count between a request's increment and its undo makes the counter wrap,
   while the cache is empty and idle.
   */
  lemma OverlappedStoreWrapsTheCounter()
    ensures exists s :: Reachable(Config(10, 1, {0}, true), s) && s.entries == map[] && s.pcs == map[0 := Idle] &&
                        s.sweeper == Resting && s.counter == WORD - 1
  {
    var cfg := Config(10, 1, {0}, true);
    var d := SweptRun(cfg);
    var e := ReserveRun(cfg, d, 0, "q", 0);
    var f := Apply(cfg, e, SweepStore);
    Extend(cfg, e, SweepStore);
    var g := Apply(cfg, f, Undo(0));
    Extend(cfg, f, Undo(0));
    assert g.pcs == map[0 := Idle];
  }

  /** A sweep has removed the only entry and measured the map, but not stored its count. */
  lemma SweptRun(cfg: Config) returns (s: State)
    requires cfg == Config(10, 1, {0}, true)
    ensures Reachable(cfg, s) && s.entries == map[] && s.counter == 1 && s.pcs == map[0 := Idle] && s.sweeper == Measured(0)
  {
    InitReachable(cfg);
    var a := GrantRun(cfg, Init(cfg), 0, "p", 10);
    var b := Apply(cfg, a, SweepBegin);
    Extend(cfg, a, SweepBegin);
    var c := Apply(cfg, b, SweepRemove("p"));
    Extend(cfg, b, SweepRemove("p"));
    s := Apply(cfg, c, SweepMeasure(0));
    Extend(cfg, c, SweepMeasure(0));
  }

  /** A single worker in front of an empty cache with a wrapped counter, or undoing its increment. */
  ghost predicate Sealed(cfg: Config, s: State) {
    && s.entries == map[]
    && forall w :: w in s.pcs ==>
         && w in cfg.slots && !s.pcs[w].Reserved?
         && s.counter == if s.pcs[w].Over? then 0 else WORD - 1
  }

  /** With a single worker a wrapped counter refuses every identifier until the next store. */
  lemma {:induction false} WrappedCounterRefuses(cfg: Config, start: State, trace: seq<Step>, s: State)
    requires cfg.Valid() && |cfg.slots| == 1 && start.pcs.Keys == cfg.slots && Sealed(cfg, start)
    requires LeadsFrom(cfg, start, trace, s) && StoresNothing(trace)
    ensures Sealed(cfg, s) && s.pcs.Keys == cfg.slots && s.log == start.log
    decreases |trace|
  {
    if trace != [] {
      var last := |trace| - 1;
      var p :| LeadsFrom(cfg, start, trace[..last], p) && Enabled(cfg, p, trace[last]) && s == Apply(cfg, p, trace[last]);
      WrappedCounterRefuses(cfg, start, trace[..last], p);
      SealedStep(cfg, p, trace[last]);
    }
  }

  lemma SealedStep(cfg: Config, s: State, step: Step)
    requires cfg.Valid() && |cfg.slots| == 1 && s.pcs.Keys == cfg.slots && Sealed(cfg, s)
    requires Enabled(cfg, s, step) && !step.SweepStore?
    ensures var t := Apply(cfg, s, step); Sealed(cfg, t) && t.pcs.Keys == cfg.slots && t.log == s.log
  {
    var w :| w in cfg.slots;
    assert cfg.slots == {w} by {
      assert |cfg.slots - {w}| == 0;
    }
  }
}
