/**
 The authentication pipeline of `crates/latchgate-auth/src/auth.rs` in front of the replay cache.

 Signature and token decoding are foreign: a request carries the answers that `verify_lease` and the
 structural, key, signature, method and URI checks of `verify_dpop_proof` give for it. The order of
 the checks, the `iat` window, the token binding and the cache update are modelled.
 */
module Auth {
  import opened Wrappers
  import opened Replay

  /** Instants are nanoseconds since the epoch; the `iat` window is in whole seconds. */
  const NANOS: nat := 1_000_000_000
  const IAT_MAX_AGE_SECS: nat := 60
  const IAT_CLOCK_SKEW_SECS: nat := 5
  const REPLAY_TTL_SECS: nat := 180
  const SCHEME: string := "DPoP "

  datatype AuthError =
    | MissingHeader(name: string)
    | LeaseExpired
    | InvalidLease
    | InvalidDPoP
    | ClockError
    | ReplayDetected(jti: string)
    | ReplayCacheUnavailable

  /** The claims a proof carries; `text` is the proof as presented. */
  datatype Proof = Proof(text: string, jti: string, iat: int, ath: string)

  datatype LeaseClaims = LeaseClaims(
    subject: string, session: string, jti: string, scope: seq<string>, owner: Option<string>, jkt: string)

  datatype AuthContext = AuthContext(
    principal: string, session: string, leaseJti: string, scopes: seq<string>,
    dpopJti: string, thumbprint: string, owner: Option<string>)

  datatype Request = Request(
    authorization: Option<string>,
    dpop: Option<Proof>,
    lease: Result<LeaseClaims, AuthError>,   // answer of `verify_lease`
    binding: Result<(), AuthError>,          // structure, key, signature, htm and htu
    leaseHash: string,                       // SHA-256 of the presented lease
    at: nat)

  /** RFC 9449, section 7.1: `Authorization: DPoP <token>` with a non-empty token. */
  function ExtractToken(header: Option<string>): Result<string, AuthError> {
    match header
    case None => Err(MissingHeader("Authorization"))
    case Some(value) =>
      if !(SCHEME <= value) then Err(InvalidLease)
      else if value[|SCHEME|..] == "" then Err(InvalidLease)
      else Ok(value[|SCHEME|..])
  }

  /** The extracted token is the one that was prefixed, and nothing else is accepted. */
  lemma TokenRoundTrip(header: Option<string>, token: string)
    ensures ExtractToken(header) == Ok(token) <==> header == Some(SCHEME + token) && token != ""
  {
    if header.Some? && SCHEME <= header.value {
      assert header.value == SCHEME + header.value[|SCHEME|..];
      assert (SCHEME + token)[|SCHEME|..] == token;
    }
  }

  predicate IatInWindow(iat: int, now: nat) {
    now - IAT_MAX_AGE_SECS <= iat <= now + IAT_CLOCK_SKEW_SECS
  }

  function VerifyProof(r: Request, proof: Proof): Result<(), AuthError> {
    if r.binding.Err? then r.binding
    else if !IatInWindow(proof.iat, r.at / NANOS) then Err(InvalidDPoP)
    else if proof.ath != r.leaseHash then Err(InvalidDPoP)
    else Ok(())
  }

  function ContextOf(claims: LeaseClaims, jti: string): AuthContext {
    AuthContext(claims.subject, claims.session, claims.jti, claims.scope, jti, claims.jkt, claims.owner)
  }

  /** Everything that is decided before the cache is consulted. */
  function Vet(r: Request): Result<AuthContext, AuthError> {
    var token := ExtractToken(r.authorization);
    if token.Err? then Err(token.error)
    else if r.dpop.None? then Err(MissingHeader("DPoP"))
    else if r.lease.Err? then Err(r.lease.error)
    else
      var verified := VerifyProof(r, r.dpop.value);
      if verified.Err? then Err(verified.error)
      else Ok(ContextOf(r.lease.value, r.dpop.value.jti))
  }

  function Answer(c: Cache, r: Request): (Cache, Result<AuthContext, AuthError>) {
    match Vet(r)
    case Err(e) => (c, Err(e))
    case Ok(context) =>
      var (d, verdict) := Check(c, context.dpopJti, r.at);
      (d, match verdict
          case Accepted => Ok(context)
          case AlreadySeen => Err(ReplayDetected(context.dpopJti))
          case AtCapacity => Err(ReplayCacheUnavailable))
  }

  method Authenticate(cache: ReplayCache, r: Request) returns (answer: Result<AuthContext, AuthError>)
    modifies cache
    ensures (cache.View(), answer) == Answer(old(cache.View()), r)
  {
    var token := ExtractToken(r.authorization);
    if token.Err? { return Err(token.error); }
    if r.dpop.None? { return Err(MissingHeader("DPoP")); }
    var proof := r.dpop.value;
    if r.lease.Err? { return Err(r.lease.error); }
    var verified := VerifyProof(r, proof);
    if verified.Err? { return Err(verified.error); }
    var verdict := cache.CheckAndStore(proof.jti, r.at);
    match verdict
    case AlreadySeen => answer := Err(ReplayDetected(proof.jti));
    case AtCapacity => answer := Err(ReplayCacheUnavailable);
    case Accepted => answer := Ok(ContextOf(r.lease.value, proof.jti));
  }

  // ---------------------------------------------------------------------------------------------
  // Who gets in, and who is told what
  // ---------------------------------------------------------------------------------------------

  predicate HasToken(r: Request) {
    r.authorization.Some? && "DPoP " <= r.authorization.value && |r.authorization.value| > 5
  }

  /** Issued at most sixty seconds ago and at most five seconds ahead, in whole seconds, and bound to the lease. */
  predicate IsTimelyAndBound(r: Request, proof: Proof) {
    && r.at / NANOS <= proof.iat + 60 && proof.iat <= r.at / NANOS + 5
    && proof.ath == r.leaseHash
  }

  predicate IsVerified(r: Request) {
    HasToken(r) && r.dpop.Some? && r.lease.Ok? && r.binding.Ok? && IsTimelyAndBound(r, r.dpop.value)
  }

  /** The identifier was stored less than a TTL ago. */
  predicate IsRemembered(c: Cache, jti: string, at: nat) {
    jti in c.entries && 0 < c.ttl && at < c.entries[jti] + c.ttl
  }

  predicate IsShutOut(c: Cache, jti: string) {
    jti !in c.entries && c.cap <= c.count
  }

  /** Which error a request earns, check by check. */
  predicate Earns(c: Cache, r: Request, e: AuthError) {
    if r.authorization.None? then e == MissingHeader("Authorization")
    else if !HasToken(r) then e == InvalidLease
    else if r.dpop.None? then e == MissingHeader("DPoP")
    else if r.lease.Err? then e == r.lease.error
    else if r.binding.Err? then e == r.binding.error
    else if !IsTimelyAndBound(r, r.dpop.value) then e == InvalidDPoP
    else if IsRemembered(c, r.dpop.value.jti, r.at) then e == ReplayDetected(r.dpop.value.jti)
    else IsShutOut(c, r.dpop.value.jti) && e == ReplayCacheUnavailable
  }

  lemma TokenExactly(r: Request)
    ensures ExtractToken(r.authorization).Ok? <==> HasToken(r)
    ensures HasToken(r) <==> exists token :: token != "" && r.authorization == Some("DPoP " + token)
  {
    if HasToken(r) {
      var token := r.authorization.value[5..];
      assert r.authorization.value == "DPoP " + token;
    }
  }

  /**
   A request authenticates exactly if it carries a token after the scheme and a proof, the lease and the
   binding of the proof are good, the proof is timely and belongs to this lease, and its identifier is
   neither remembered nor shut out by a full cache. The context then carries the fields of the lease and
   the identifier, each in its place.
   */
  lemma AuthenticatesExactly(c: Cache, r: Request, x: AuthContext)
    ensures Answer(c, r).1 == Ok(x) <==>
              && (exists token :: token != "" && r.authorization == Some("DPoP " + token))
              && r.dpop.Some? && r.lease.Ok? && r.binding.Ok?
              && r.at / NANOS - 60 <= r.dpop.value.iat <= r.at / NANOS + 5
              && r.dpop.value.ath == r.leaseHash
              && !IsRemembered(c, r.dpop.value.jti, r.at) && !IsShutOut(c, r.dpop.value.jti)
              && x.principal == r.lease.value.subject && x.session == r.lease.value.session
              && x.leaseJti == r.lease.value.jti && x.scopes == r.lease.value.scope
              && x.dpopJti == r.dpop.value.jti && x.thumbprint == r.lease.value.jkt && x.owner == r.lease.value.owner
  {
    TokenExactly(r);
  }

  /** An error is given exactly if it is the one the request earns. */
  lemma FailsExactly(c: Cache, r: Request, e: AuthError)
    ensures Answer(c, r).1 == Err(e) <==> Earns(c, r, e)
  {
    TokenExactly(r);
  }

  /** Only an authenticated request changes the cache: it stores its own identifier at its own time. */
  lemma OnlySuccessIsStored(c: Cache, r: Request)
    ensures var (d, answer) := Answer(c, r);
            if answer.Err? then d == c
            else
              && r.dpop.Some? && r.dpop.value.jti in d.entries
              && d.entries == c.entries[r.dpop.value.jti := r.at] && d.ttl == c.ttl && d.cap == c.cap
              && d.count == c.count + if r.dpop.value.jti in c.entries then 0 else 1
  {
  }

  // ---------------------------------------------------------------------------------------------
  // Erasure: requests that fail verification leave no trace
  // ---------------------------------------------------------------------------------------------

  datatype Input = Call(r: Request) | Evict(at: nat)

  function At(x: Input): nat {
    match x case Call(r) => r.at case Evict(at) => at
  }

  predicate Vetted(x: Input) {
    x.Call? ==> Vet(x.r).Ok?
  }

  function Next(c: Cache, x: Input): Cache {
    match x case Call(r) => Answer(c, r).0 case Evict(at) => SweepAll(c, at)
  }

  function Reply(c: Cache, x: Input): Option<Result<AuthContext, AuthError>> {
    match x case Call(r) => Some(Answer(c, r).1) case Evict(_) => None
  }

  function Final(c: Cache, xs: seq<Input>): Cache
    decreases xs
  {
    if xs == [] then c else Final(Next(c, xs[0]), xs[1..])
  }

  /** The replies to the vetted inputs only, in order. */
  function VettedReplies(c: Cache, xs: seq<Input>): seq<Option<Result<AuthContext, AuthError>>>
    decreases xs
  {
    if xs == [] then []
    else (if Vetted(xs[0]) then [Reply(c, xs[0])] else []) + VettedReplies(Next(c, xs[0]), xs[1..])
  }

  function Erase(xs: seq<Input>): seq<Input> {
    if xs == [] then [] else (if Vetted(xs[0]) then [xs[0]] else []) + Erase(xs[1..])
  }

  /**
   Deleting every request that fails header, lease or proof verification changes neither the final
   cache nor the reply to any other request.
   */
  lemma {:induction false} Erasure(c: Cache, xs: seq<Input>)
    ensures Final(c, xs) == Final(c, Erase(xs))
    ensures VettedReplies(c, xs) == VettedReplies(c, Erase(xs))
    ensures forall i :: 0 <= i < |Erase(xs)| ==> Vetted(Erase(xs)[i])
    decreases xs
  {
    if xs != [] {
      var d := Next(c, xs[0]);
      Erasure(d, xs[1..]);
      if Vetted(xs[0]) {
        var rest := Erase(xs[1..]);
        assert Erase(xs) == [xs[0]] + rest;
        assert Erase(xs)[1..] == rest;
      } else {
        assert d == c;
        assert Erase(xs) == Erase(xs[1..]);
      }
    }
  }

  // ---------------------------------------------------------------------------------------------
  // One authentication per proof, over whole runs
  // ---------------------------------------------------------------------------------------------

  /** What the first `k` inputs ask of the cache. */
  function Asked(xs: seq<Input>, k: nat): seq<Event>
    requires k <= |xs|
  {
    if k == 0 then []
    else Asked(xs, k - 1) + AskedBy(xs[k - 1])
  }

  function AskedBy(x: Input): seq<Event> {
    match x
    case Evict(at) => [Sweep(at)]
    case Call(r) => if Vet(r).Ok? then [Probe(Vet(r).value.dpopJti, r.at)] else []
  }

  lemma NextByEvent(c: Cache, x: Input)
    ensures if AskedBy(x) == [] then Next(c, x) == c else |AskedBy(x)| == 1 && Next(c, x) == Apply(c, AskedBy(x)[0])
  {
  }

  function CacheAt(c: Cache, xs: seq<Input>, k: nat): Cache
    requires k <= |xs|
  {
    if k == 0 then c else Next(CacheAt(c, xs, k - 1), xs[k - 1])
  }

  predicate Authenticated(c: Cache, xs: seq<Input>, k: nat)
    requires k < |xs|
  {
    xs[k].Call? && Answer(CacheAt(c, xs, k), xs[k].r).1.Ok?
  }

  lemma {:induction false} AskedPrefix(xs: seq<Input>, k: nat, n: nat)
    requires k <= n <= |xs|
    ensures Asked(xs, k) <= Asked(xs, n)
  {
    if k < n {
      AskedPrefix(xs, k, n - 1);
    }
  }

  lemma {:induction false} AfterPrefix(c: Cache, evs: seq<Event>, more: seq<Event>, k: nat)
    requires evs <= more && k <= |evs|
    ensures After(c, evs, k) == After(c, more, k)
  {
    if k > 0 {
      AfterPrefix(c, evs, more, k - 1);
    }
  }

  /** The cache in front of the k-th input is the cache the asked events lead to. */
  lemma {:induction false} CacheIsAsked(c: Cache, xs: seq<Input>, k: nat)
    requires k <= |xs|
    ensures CacheAt(c, xs, k) == After(c, Asked(xs, k), |Asked(xs, k)|)
  {
    if k > 0 {
      CacheIsAsked(c, xs, k - 1);
      var evs, more := Asked(xs, k - 1), Asked(xs, k);
      AfterPrefix(c, evs, more, |evs|);
      NextByEvent(CacheAt(c, xs, k - 1), xs[k - 1]);
    }
  }

  ghost predicate Ordered(xs: seq<Input>) {
    forall i, j :: 0 <= i <= j < |xs| ==> At(xs[i]) <= At(xs[j])
  }

  lemma {:induction false} AskedMonotone(xs: seq<Input>, k: nat)
    requires Ordered(xs) && k <= |xs|
    ensures Monotone(Asked(xs, k))
    ensures forall e :: e in Asked(xs, k) ==> k > 0 && e.at <= At(xs[k - 1])
  {
    if k > 0 {
      AskedMonotone(xs, k - 1);
      assert k > 1 ==> At(xs[k - 2]) <= At(xs[k - 1]);
      var evs, more := Asked(xs, k - 1), Asked(xs, k);
      forall i, j | 0 <= i <= j < |more| ensures more[i].at <= more[j].at {
        if j < |evs| {
          assert more[i] == evs[i] && more[j] == evs[j];
        } else if i < |evs| {
          assert more[i] == evs[i] && evs[i] in evs;
        }
      }
    }
  }

  /** The vetted call at `k` is event `|Asked(xs, k)|` of what the whole run asks. */
  lemma CallIsEvent(c: Cache, xs: seq<Input>, k: nat, n: nat)
    requires k < n <= |xs| && xs[k].Call? && Vet(xs[k].r).Ok?
    ensures var evs := Asked(xs, n); var p := |Asked(xs, k)|;
            && p < |evs| && evs[p] == Probe(Vet(xs[k].r).value.dpopJti, xs[k].r.at)
            && (Authenticated(c, xs, k) <==> AcceptedAt(c, evs, p))
  {
    var evs, p := Asked(xs, n), |Asked(xs, k)|;
    AskedPrefix(xs, k, n);
    AskedPrefix(xs, k + 1, n);
    CacheIsAsked(c, xs, k);
    AfterPrefix(c, Asked(xs, k), evs, p);
    assert evs[p] == Asked(xs, k + 1)[p];
  }

  /** Both calls present the same proof and both succeed. */
  ghost predicate Reused(c: Cache, xs: seq<Input>, i: nat, j: nat) {
    && i < j < |xs| && Authenticated(c, xs, i) && Authenticated(c, xs, j)
    && xs[i].r.dpop == xs[j].r.dpop
  }

  ghost predicate OncePerProof(ttl: nat) {
    forall cap, xs, i, j :: Ordered(xs) ==> !Reused(Empty(ttl, cap), xs, i, j)
  }

  /** Two calls that the same proof can pass are less than 66 seconds apart. */
  lemma AcceptanceWindow(iat: int, a: nat, b: nat)
    requires IatInWindow(iat, a / NANOS) && IatInWindow(iat, b / NANOS)
    ensures b < a + (IAT_MAX_AGE_SECS + IAT_CLOCK_SKEW_SECS + 1) * NANOS
  {
  }

  /** Two accepted events of one `jti` are at least the TTL apart. */
  lemma NotAcceptedTwice(ttl: nat, cap: nat, evs: seq<Event>, p: nat, q: nat)
    requires p < q < |evs| && Monotone(evs) && evs[p].Probe? && evs[q].Probe? && evs[p].jti == evs[q].jti
    requires AcceptedAt(Empty(ttl, cap), evs, p) && AcceptedAt(Empty(ttl, cap), evs, q)
    ensures evs[p].at + ttl <= evs[q].at
  {
    VerdictIsHistory(ttl, cap, evs, q);
    if evs[q].at < evs[p].at + ttl {
      assert RecentlyAccepted(Empty(ttl, cap), evs, p, evs[q].jti, evs[q].at);
    }
  }

  /** Two authentications with one proof are two accepted events of one `jti`, less than 66 seconds apart. */
  lemma {:induction false} ReuseIsTwoAcceptances(c: Cache, xs: seq<Input>, i: nat, j: nat)
    requires Ordered(xs) && Reused(c, xs, i, j)
    ensures var evs, p, q := Asked(xs, |xs|), |Asked(xs, i)|, |Asked(xs, j)|;
            && p < q < |evs| && evs[p].Probe? && evs[q].Probe? && evs[p].jti == evs[q].jti
            && AcceptedAt(c, evs, p) && AcceptedAt(c, evs, q)
            && evs[q].at < evs[p].at + (IAT_MAX_AGE_SECS + IAT_CLOCK_SKEW_SECS + 1) * NANOS
  {
    CallIsEvent(c, xs, i, |xs|);
    CallIsEvent(c, xs, j, |xs|);
    AskedPrefix(xs, i + 1, j);
    AcceptanceWindow(xs[i].r.dpop.value.iat, xs[i].r.at, xs[j].r.at);
  }

  lemma NoReuse(ttl: nat, cap: nat, xs: seq<Input>, i: nat, j: nat)
    requires (IAT_MAX_AGE_SECS + IAT_CLOCK_SKEW_SECS + 1) * NANOS <= ttl
    requires Ordered(xs)
    ensures !Reused(Empty(ttl, cap), xs, i, j)
  {
    if Reused(Empty(ttl, cap), xs, i, j) {
      ReuseIsTwoAcceptances(Empty(ttl, cap), xs, i, j);
      AskedMonotone(xs, |xs|);
      NotAcceptedTwice(ttl, cap, Asked(xs, |xs|), |Asked(xs, i)|, |Asked(xs, j)|);
      assert false;
    }
  }

  /** With a TTL below 66 seconds the same proof passes at 0 s and again just before 66 s. */
  lemma ReuseRun(ttl: nat)
    requires ttl < (IAT_MAX_AGE_SECS + IAT_CLOCK_SKEW_SECS + 1) * NANOS
    ensures exists xs :: Ordered(xs) && Reused(Empty(ttl, 1), xs, 0, 1)
  {
    var proof := Proof("p", "j", 5, "h");
    var first := Request(Some("DPoP t"), Some(proof), Ok(LeaseClaims("s", "n", "l", [], None, "k")), Ok(()), "h", 0);
    var second := first.(at := 66 * NANOS - 1);
    var xs := [Call(first), Call(second)];
    TokenRoundTrip(first.authorization, "t");
    assert SCHEME + "t" == "DPoP t";
    var context := AuthContext("s", "n", "l", [], "j", "k", None);
    assert Vet(first) == Ok(context) && Vet(second) == Ok(context);
    var c := Empty(ttl, 1);
    assert CacheAt(c, xs, 0) == c;
    assert CacheAt(c, xs, 1) == Cache(ttl, 1, map["j" := 0], 1);
    assert Reused(c, xs, 0, 1);
  }

  /**
   A proof authenticates at most once in a whole run, whatever is swept, refused or interleaved,
   if and only if the TTL is at least one second more than skew plus maximum age. The bound written
   down beside the code, skew plus maximum age, is one second short.
   */
  lemma OncePerProofIsExact(ttl: nat)
    ensures OncePerProof(ttl) <==> (IAT_MAX_AGE_SECS + IAT_CLOCK_SKEW_SECS + 1) * NANOS <= ttl
    ensures OncePerProof(REPLAY_TTL_SECS * NANOS)
    ensures !OncePerProof((IAT_MAX_AGE_SECS + IAT_CLOCK_SKEW_SECS) * NANOS)
  {
    forall t | (IAT_MAX_AGE_SECS + IAT_CLOCK_SKEW_SECS + 1) * NANOS <= t ensures OncePerProof(t) {
      forall cap, xs, i, j | Ordered(xs) ensures !Reused(Empty(t, cap), xs, i, j) {
        NoReuse(t, cap, xs, i, j);
      }
    }
    forall t: nat | t < (IAT_MAX_AGE_SECS + IAT_CLOCK_SKEW_SECS + 1) * NANOS ensures !OncePerProof(t) {
      ReuseRun(t);
    }
  }
}
