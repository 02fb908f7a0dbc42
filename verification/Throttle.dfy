/**
 The log throttle of `crates/latchgate-auth/src/replay.rs`: within each window the first ten events
 are logged at warn level, the rest are suppressed, and the event that opens the next window reports
 how many were suppressed. Each call is taken to be atomic.
 */
module Throttle {
  import opened Atomics

  const WINDOW_SECS: nat := 60
  const MAX_WARNS: nat := 10

  datatype Window = Window(count: nat, start: nat)

  /** `opens`: the event starts a new window; `reported`: the suppressed count it announced, or 0. */
  datatype Outcome = Outcome(warn: bool, opens: bool, reported: nat)

  function Hit(w: Window, now: nat): (Window, Outcome) {
    var age := if w.start <= now then now - w.start else 0;
    if age >= WINDOW_SECS then
      (Window(1, now), Outcome(true, true, if w.count > MAX_WARNS then w.count - MAX_WARNS else 0))
    else
      (Window(FetchAdd(w.count), w.start), Outcome(w.count < MAX_WARNS, false, 0))
  }

  class WarnThrottle {
    var count: nat
    var start: nat

    constructor ()
      ensures count == 0 && start == 0
    {
      count, start := 0, 0;
    }

    method ShouldWarn(now: nat) returns (warn: bool, ghost outcome: Outcome, reported: nat)
      modifies this
      ensures (Window(count, start), outcome) == Hit(Window(old(count), old(start)), now)
      ensures outcome.warn == warn && outcome.reported == reported
    {
      reported := 0;
      if start <= now && now - start >= WINDOW_SECS {
        var previous := count;
        count := 1;
        start := now;
        if previous > MAX_WARNS {
          reported := previous - MAX_WARNS;
        }
        warn, outcome := true, Outcome(true, true, reported);
      } else {
        var previous := count;
        count := FetchAdd(count);
        warn := previous < MAX_WARNS;
        outcome := Outcome(warn, false, 0);
      }
    }
  }

  // ---------------------------------------------------------------------------------------------
  // Runs: events at arbitrary clock readings
  // ---------------------------------------------------------------------------------------------

  function After(nows: seq<nat>, k: nat): Window
    requires k <= |nows|
  {
    if k == 0 then Window(0, 0) else Hit(After(nows, k - 1), nows[k - 1]).0
  }

  function At(nows: seq<nat>, k: nat): Outcome
    requires k < |nows|
  {
    Hit(After(nows, k), nows[k]).1
  }

  /** Events logged at warn level among `nows[lo..hi]`. */
  function Warned(nows: seq<nat>, lo: nat, hi: nat): nat
    requires lo <= hi <= |nows|
  {
    if lo == hi then 0 else Warned(nows, lo, hi - 1) + if At(nows, hi - 1).warn then 1 else 0
  }

  /** Total of all suppressed counts announced by the first `k` events. */
  function Reported(nows: seq<nat>, k: nat): nat
    requires k <= |nows|
  {
    if k == 0 then 0 else Reported(nows, k - 1) + At(nows, k - 1).reported
  }

  function Suppressed(w: Window): nat {
    if w.count > MAX_WARNS then w.count - MAX_WARNS else 0
  }

  function Min(a: nat, b: nat): nat {
    if a <= b then a else b
  }

  lemma {:induction false} CountBounded(nows: seq<nat>, k: nat)
    requires k <= |nows| < WORD
    ensures After(nows, k).count <= k
  {
    if k > 0 {
      CountBounded(nows, k - 1);
    }
  }

  lemma {:induction false} StartSince(nows: seq<nat>, lo: nat, k: nat)
    requires lo <= k <= |nows| && forall i :: lo <= i < k ==> !At(nows, i).opens
    ensures After(nows, k).start == After(nows, lo).start
  {
    if lo < k {
      StartSince(nows, lo, k - 1);
      assert !At(nows, k - 1).opens;
    }
  }

  /**
   An event opens a window exactly if it comes at least sixty seconds after the latest event that did,
   or, if none has, at least sixty seconds after time zero. The clock may jump in any way.
   */
  lemma {:induction false} OpensExactly(nows: seq<nat>, k: nat)
    requires k < |nows|
    ensures forall b :: 0 <= b < k && At(nows, b).opens && (forall i :: b < i < k ==> !At(nows, i).opens) ==>
              (At(nows, k).opens <==> nows[b] + WINDOW_SECS <= nows[k])
    ensures (forall i :: 0 <= i < k ==> !At(nows, i).opens) ==> (At(nows, k).opens <==> WINDOW_SECS <= nows[k])
  {
    forall b | 0 <= b < k && At(nows, b).opens && (forall i :: b < i < k ==> !At(nows, i).opens)
      ensures At(nows, k).opens <==> nows[b] + WINDOW_SECS <= nows[k]
    {
      StartSince(nows, b + 1, k);
    }
    if forall i :: 0 <= i < k ==> !At(nows, i).opens {
      StartSince(nows, 0, k);
    }
  }

  /** No event is lost: each was logged, or is in a summary, or is suppressed in the open window. */
  lemma {:induction false} Conservation(nows: seq<nat>, k: nat)
    requires k <= |nows| < WORD
    ensures k == Warned(nows, 0, k) + Reported(nows, k) + Suppressed(After(nows, k))
  {
    if k > 0 {
      Conservation(nows, k - 1);
      CountBounded(nows, k - 1);
    }
  }

  /** `nows[b..e]` lies inside one window that begins at `b`. */
  ghost predicate InWindow(nows: seq<nat>, b: nat, e: nat) {
    && b <= e <= |nows|
    && (b == 0 || (b < |nows| && At(nows, b).opens))
    && forall k :: b < k < e ==> !At(nows, k).opens
  }

  lemma {:induction false} WindowCount(nows: seq<nat>, b: nat, e: nat)
    requires |nows| < WORD && InWindow(nows, b, e) && b < e
    ensures After(nows, e).count == e - b
    ensures Warned(nows, b, e) == Min(MAX_WARNS, e - b)
  {
    if b + 1 < e {
      assert InWindow(nows, b, e - 1);
      WindowCount(nows, b, e - 1);
      assert !At(nows, e - 1).opens;
    } else {
      assert Warned(nows, b, b) == 0;
    }
  }

  /**
   A window of n events logs exactly min(10, n) of them, and the event that opens the next window
   reports exactly the number it suppressed.
   */
  lemma {:induction false} WindowLaw(nows: seq<nat>, b: nat, e: nat)
    requires |nows| < WORD && InWindow(nows, b, e)
    ensures Warned(nows, b, e) == Min(MAX_WARNS, e - b)
    ensures b < e < |nows| && At(nows, e).opens ==> At(nows, e).reported == (e - b) - Warned(nows, b, e)
  {
    if b < e {
      WindowCount(nows, b, e);
    }
  }

  ghost predicate NonDecreasing(nows: seq<nat>) {
    forall i, j :: 0 <= i <= j < |nows| ==> nows[i] <= nows[j]
  }

  /** No window opens inside `nows[lo..hi]`, except perhaps at its first event. */
  ghost predicate Quiet(nows: seq<nat>, lo: nat, hi: nat)
    requires hi <= |nows|
  {
    forall k :: lo < k < hi ==> !At(nows, k).opens
  }

  /** Such a stretch logs at most ten events. */
  lemma {:induction false} QuietStretch(nows: seq<nat>, lo: nat, hi: nat)
    requires |nows| < WORD && lo <= hi <= |nows|
    requires Quiet(nows, lo, hi)
    ensures Warned(nows, lo, hi) <= MAX_WARNS
    ensures lo < hi ==> Warned(nows, lo, hi) <= After(nows, hi).count
  {
    if lo < hi {
      QuietStretch(nows, lo, hi - 1);
      CountBounded(nows, hi - 1);
      if lo + 1 == hi {
        assert Warned(nows, lo, lo) == 0;
      }
    }
  }

  lemma {:induction false} WarnedSplit(nows: seq<nat>, lo: nat, mid: nat, hi: nat)
    requires lo <= mid <= hi <= |nows|
    ensures Warned(nows, lo, hi) == Warned(nows, lo, mid) + Warned(nows, mid, hi)
  {
    if mid < hi {
      WarnedSplit(nows, lo, mid, hi - 1);
    }
  }

  /** The window open at `k` started at the latest opening event. */
  lemma {:induction false} StartAfterOpening(nows: seq<nat>, b: nat, k: nat)
    requires NonDecreasing(nows) && b < k <= |nows| && At(nows, b).opens
    ensures nows[b] <= After(nows, k).start <= nows[k - 1]
  {
    if b + 1 < k {
      StartAfterOpening(nows, b, k - 1);
    }
  }

  /** Two openings are a full window apart. */
  lemma {:induction false} OpeningsApart(nows: seq<nat>, b: nat, c: nat)
    requires NonDecreasing(nows) && b < c < |nows| && At(nows, b).opens && At(nows, c).opens
    ensures nows[b] + WINDOW_SECS <= nows[c]
  {
    StartAfterOpening(nows, b, c);
  }

  lemma {:induction false} OneOpening(nows: seq<nat>, i: nat, j: nat, b: nat, k: nat)
    requires NonDecreasing(nows) && i < b <= j < |nows| && i < k <= j && nows[j] - nows[i] < WINDOW_SECS
    requires k != b && At(nows, b).opens
    ensures !At(nows, k).opens
  {
    assert nows[i] <= nows[b] <= nows[j] && nows[i] <= nows[k] <= nows[j];
    if At(nows, k).opens {
      if k < b { OpeningsApart(nows, k, b); } else { OpeningsApart(nows, b, k); }
    }
  }

  lemma {:induction false} QuietAround(nows: seq<nat>, i: nat, j: nat, b: nat)
    requires NonDecreasing(nows) && i < b <= j < |nows| && nows[j] - nows[i] < WINDOW_SECS && At(nows, b).opens
    ensures Quiet(nows, i, b) && Quiet(nows, b, j + 1)
  {
    forall k | i < k <= j && k != b ensures !At(nows, k).opens {
      OneOpening(nows, i, j, b, k);
    }
  }

  /** Any span shorter than one window logs at most twenty events, wherever the boundaries fall. */
  lemma {:induction false} SpanBound(nows: seq<nat>, i: nat, j: nat)
    requires |nows| < WORD && NonDecreasing(nows) && i <= j < |nows| && nows[j] - nows[i] < WINDOW_SECS
    ensures Warned(nows, i, j + 1) <= 2 * MAX_WARNS
  {
    if Quiet(nows, i, j + 1) {
      QuietStretch(nows, i, j + 1);
    } else {
      var b :| i < b < j + 1 && At(nows, b).opens;
      QuietAround(nows, i, j, b);
      QuietStretch(nows, i, b);
      QuietStretch(nows, b, j + 1);
      WarnedSplit(nows, i, b, j + 1);
    }
  }
}
