/**
 The policy version string of `increment_version` in `crates/latchgate-core/src/policy_data.rs`:
 split at the last dash, parse the suffix as an unsigned 64-bit decimal, print the successor.
 */
module Version {
  import opened Wrappers

  const U64_MAX: nat := 0xFFFF_FFFF_FFFF_FFFF

  // ---------------------------------------------------------------------------------------------
  // Printing and parsing
  // ---------------------------------------------------------------------------------------------

  predicate IsDigit(c: char) {
    '0' <= c <= '9'
  }

  predicate AllDigits(s: string) {
    forall i :: 0 <= i < |s| ==> IsDigit(s[i])
  }

  function Value(s: string): nat
    requires AllDigits(s)
  {
    if s == "" then 0 else 10 * Value(s[..|s| - 1]) + (s[|s| - 1] as int - '0' as int)
  }

  /** `str::parse::<u64>`: an optional plus sign, at least one digit, no overflow. */
  function ParseU64(s: string): Option<nat> {
    var digits := if s != "" && s[0] == '+' then s[1..] else s;
    if digits != "" && AllDigits(digits) && Value(digits) <= U64_MAX then Some(Value(digits)) else None
  }

  function Digit(n: nat): char
    requires n < 10
  {
    ('0' as int + n) as char
  }

  function Decimal(n: nat): string {
    if n < 10 then [Digit(n)] else Decimal(n / 10) + [Digit(n % 10)]
  }

  lemma {:induction false} DecimalValue(n: nat)
    ensures Decimal(n) != "" && AllDigits(Decimal(n)) && Value(Decimal(n)) == n
    ensures |Decimal(n)| > 1 ==> Decimal(n)[0] != '0'
    ensures n > 0 ==> Decimal(n)[0] != '0'
  {
    if n >= 10 {
      DecimalValue(n / 10);
      var s := Decimal(n);
      assert s[..|s| - 1] == Decimal(n / 10);
    } else {
      assert Value([]) == 0;
      assert Decimal(n)[..0] == [];
    }
  }

  lemma ParsePrinted(n: nat)
    ensures ParseU64(Decimal(n)) == if n <= U64_MAX then Some(n) else None
  {
    DecimalValue(n);
    assert IsDigit(Decimal(n)[0]);
  }

  // ---------------------------------------------------------------------------------------------
  // The increment
  // ---------------------------------------------------------------------------------------------

  /** `str::rfind('-')`. */
  function LastDash(s: string): (r: Option<nat>)
    ensures r.Some? ==> r.value < |s|
  {
    if s == "" then None
    else if s[|s| - 1] == '-' then Some(|s| - 1)
    else LastDash(s[..|s| - 1])
  }

  lemma {:induction false} LastDashIsDash(s: string)
    ensures LastDash(s).Some? ==> s[LastDash(s).value] == '-'
  {
    if s != "" && s[|s| - 1] != '-' {
      LastDashIsDash(s[..|s| - 1]);
    }
  }

  /** None: the addition overflows, which aborts the process (overflow checks are on in release builds). */
  function Increment(current: string): Option<string> {
    var dash := LastDash(current);
    if dash.Some? then
      var prefix, suffix := current[..dash.value + 1], current[dash.value + 1..];
      var parsed := ParseU64(suffix);
      if parsed.Some? then
        if parsed.value < U64_MAX then Some(prefix + Decimal(parsed.value + 1)) else None
      else Some(current + "-1")
    else if current == "" then Some("v1")
    else Some(current + "-1")
  }

  /** `k` applications of a partial step. */
  function Repeat(step: string -> Option<string>, start: string, k: nat): Option<string> {
    if k == 0 then Some(start)
    else
      var before := Repeat(step, start, k - 1);
      if before.None? then None else step(before.value)
  }

  function Iterate(start: string, k: nat): Option<string> {
    Repeat(Increment, start, k)
  }

  /** The fixed prefix and the number from which a non-empty version counts. */
  function Base(start: string): (string, nat) {
    var dash := LastDash(start);
    if dash.Some? && ParseU64(start[dash.value + 1..]).Some?
    then (start[..dash.value + 1], ParseU64(start[dash.value + 1..]).value)
    else (start + "-", 0)
  }

  predicate NoDash(s: string) {
    forall i :: 0 <= i < |s| ==> s[i] != '-'
  }

  lemma {:induction false} DashBefore(prefix: string, suffix: string)
    requires prefix != "" && prefix[|prefix| - 1] == '-' && NoDash(suffix)
    ensures LastDash(prefix + suffix) == Some(|prefix| - 1)
  {
    var s := prefix + suffix;
    if suffix == "" {
      assert s == prefix;
    } else {
      var front := suffix[..|suffix| - 1];
      assert s[..|s| - 1] == prefix + front;
      DashBefore(prefix, front);
    }
  }

  lemma {:induction false} WithoutDash(s: string)
    requires NoDash(s)
    ensures LastDash(s) == None
  {
    if s != "" {
      WithoutDash(s[..|s| - 1]);
    }
  }

  lemma DashBeforeDigits(prefix: string, digits: string)
    requires prefix != "" && prefix[|prefix| - 1] == '-' && AllDigits(digits)
    ensures LastDash(prefix + digits) == Some(|prefix| - 1)
  {
    forall i | 0 <= i < |digits| ensures digits[i] != '-' {
      assert IsDigit(digits[i]);
    }
    DashBefore(prefix, digits);
  }

  lemma PrintedBase(prefix: string, n: nat)
    requires prefix != "" && prefix[|prefix| - 1] == '-' && n <= U64_MAX
    ensures Base(prefix + Decimal(n)) == (prefix, n)
  {
    var s := prefix + Decimal(n);
    DecimalValue(n);
    DashBeforeDigits(prefix, Decimal(n));
    assert s[..|prefix|] == prefix && s[|prefix|..] == Decimal(n);
    ParsePrinted(n);
  }

  lemma IncrementPrinted(prefix: string, n: nat)
    requires prefix != "" && prefix[|prefix| - 1] == '-' && n <= U64_MAX
    ensures Increment(prefix + Decimal(n)) == if n < U64_MAX then Some(prefix + Decimal(n + 1)) else None
  {
    var s := prefix + Decimal(n);
    DecimalValue(n);
    DashBeforeDigits(prefix, Decimal(n));
    assert s[..|prefix|] == prefix && s[|prefix|..] == Decimal(n);
    ParsePrinted(n);
  }

  lemma FirstIncrement(start: string)
    requires start != ""
    ensures var (prefix, n) := Base(start);
            && prefix != "" && prefix[|prefix| - 1] == '-' && n <= U64_MAX
            && Increment(start) == if n < U64_MAX then Some(prefix + Decimal(n + 1)) else None
  {
    LastDashIsDash(start);
    assert Decimal(1) == "1";
    assert (start + "-") + "1" == start + "-1";
  }

  // ---------------------------------------------------------------------------------------------
  // What the increment does to every string
  // ---------------------------------------------------------------------------------------------

  predicate AllZeros(s: string) {
    forall i :: 0 <= i < |s| ==> s[i] == '0'
  }

  lemma {:induction false} LeadingZeros(zeros: string, digits: string)
    requires AllZeros(zeros) && AllDigits(digits)
    ensures AllDigits(zeros + digits) && Value(zeros + digits) == Value(digits)
  {
    var s := zeros + digits;
    forall i | 0 <= i < |s| ensures IsDigit(s[i]) {
      assert i < |zeros| ==> s[i] == zeros[i];
      assert i >= |zeros| ==> s[i] == digits[i - |zeros|];
    }
    if digits != "" {
      var front := digits[..|digits| - 1];
      assert s[..|s| - 1] == zeros + front;
      LeadingZeros(zeros, front);
    } else if zeros != "" {
      var front := zeros[..|zeros| - 1];
      assert s == zeros && s[..|s| - 1] == front + "";
      LeadingZeros(front, "");
    } else {
      assert s == "";
    }
  }

  /** A run of digits is some zeros followed by a number as it is printed. */
  lemma {:induction false} DigitsAreANumber(s: string) returns (zeros: string, n: nat)
    requires s != "" && AllDigits(s)
    ensures AllZeros(zeros) && s == zeros + Decimal(n)
  {
    if |s| == 1 {
      assert IsDigit(s[0]);
      zeros, n := "", s[0] as int - '0' as int;
      assert Decimal(n) == [Digit(n)] && s == [s[0]];
    } else if s[0] == '0' {
      var rest := s[1..];
      assert forall i :: 0 <= i < |rest| ==> rest[i] == s[i + 1];
      var more;
      more, n := DigitsAreANumber(rest);
      zeros := "0" + more;
      assert s == "0" + rest;
      assert zeros + Decimal(n) == "0" + (more + Decimal(n));
    } else {
      zeros, n := "", Value(s);
      PrintedValue(s);
      assert "" + Decimal(n) == Decimal(n);
    }
  }

  lemma {:induction false} PrintedValue(s: string)
    requires s != "" && AllDigits(s) && s[0] != '0'
    ensures Value(s) > 0 && Decimal(Value(s)) == s
  {
    var front, last := s[..|s| - 1], s[|s| - 1];
    assert IsDigit(last);
    if |s| == 1 {
      assert front == "" && Value(front) == 0;
      assert s == [last];
    } else {
      PrintedValue(front);
      assert s == front + [last];
      assert Value(s) / 10 == Value(front) && Value(s) % 10 == last as int - '0' as int;
    }
  }

  lemma ParseDigits(sign: string, digits: string)
    requires (sign == "" || sign == "+") && digits != "" && AllDigits(digits)
    ensures ParseU64(sign + digits) == if Value(digits) <= U64_MAX then Some(Value(digits)) else None
  {
    assert IsDigit(digits[0]);
    assert ("+" + digits)[1..] == digits && "" + digits == digits;
  }

  /** The parser reads every way to write a number: an optional plus sign, leading zeros, the digits. */
  lemma {:induction false} ParseNumber(sign: string, zeros: string, n: nat)
    requires (sign == "" || sign == "+") && AllZeros(zeros)
    ensures ParseU64(sign + zeros + Decimal(n)) == if n <= U64_MAX then Some(n) else None
  {
    DecimalValue(n);
    LeadingZeros(zeros, Decimal(n));
    ParseDigits(sign, zeros + Decimal(n));
    assert sign + zeros + Decimal(n) == sign + (zeros + Decimal(n));
  }

  /** The suffix, without a plus sign in front, is empty or has something that is not a digit. */
  predicate IsNoNumber(suffix: string) {
    if "+" <= suffix then IsNotAllDigits(suffix[1..]) else IsNotAllDigits(suffix)
  }

  predicate IsNotAllDigits(rest: string) {
    rest == "" || exists i :: 0 <= i < |rest| && !('0' <= rest[i] <= '9')
  }

  /**
   After the last dash, a number in any spelling moves to its successor, printed plainly; a number that
   does not fit 64 bits is no number, and the largest that fits cannot be moved.
   */
  lemma {:induction false} IncrementNumber(prefix: string, sign: string, zeros: string, n: nat)
    requires prefix != "" && prefix[|prefix| - 1] == '-' && (sign == "" || sign == "+") && AllZeros(zeros)
    ensures var current := prefix + (sign + zeros + Decimal(n));
            Increment(current) == if n < U64_MAX then Some(prefix + Decimal(n + 1))
                                  else if n == U64_MAX then None
                                  else Some(current + "-1")
  {
    var suffix := sign + zeros + Decimal(n);
    var current := prefix + suffix;
    DecimalValue(n);
    forall i | 0 <= i < |suffix| ensures suffix[i] != '-' {
      var k := i - |sign| - |zeros|;
      assert k >= 0 ==> suffix[i] == Decimal(n)[k] && IsDigit(Decimal(n)[k]);
      assert |sign| <= i && k < 0 ==> suffix[i] == zeros[i - |sign|];
      assert i < |sign| ==> suffix[i] == sign[i];
    }
    DashBefore(prefix, suffix);
    assert current[..|prefix|] == prefix && current[|prefix|..] == suffix;
    ParseNumber(sign, zeros, n);
  }

  /** Anything else after the last dash, and anything without a dash, gets a first number. */
  lemma {:induction false} IncrementOther(prefix: string, suffix: string)
    requires NoDash(suffix) && (prefix == "" || prefix[|prefix| - 1] == '-')
    requires prefix == "" || IsNoNumber(suffix)
    ensures Increment(prefix + suffix) == if prefix + suffix == "" then Some("v1") else Some(prefix + suffix + "-1")
  {
    var current := prefix + suffix;
    if prefix == "" {
      assert current == suffix;
      WithoutDash(current);
    } else {
      DashBefore(prefix, suffix);
      assert current[..|prefix|] == prefix && current[|prefix|..] == suffix;
    }
  }

  /** The two cases are all there are. */
  lemma {:induction false} VersionsSplit(current: string)
    returns (prefix: string, sign: string, zeros: string, n: nat, suffix: string)
    ensures current == prefix + suffix && NoDash(suffix) && (prefix == "" || prefix[|prefix| - 1] == '-')
    ensures prefix == "" || IsNoNumber(suffix)
            || ((sign == "" || sign == "+") && AllZeros(zeros) && suffix == sign + zeros + Decimal(n))
  {
    prefix, suffix := SplitAtDash(current);
    sign, zeros, n := "", "", 0;
    if prefix != "" && !IsNoNumber(suffix) {
      sign := if "+" <= suffix then "+" else "";
      var rest := if "+" <= suffix then suffix[1..] else suffix;
      assert !IsNotAllDigits(rest);
      forall i | 0 <= i < |rest| ensures IsDigit(rest[i]) {
        assert '0' <= rest[i] <= '9';
      }
      zeros, n := DigitsAreANumber(rest);
      assert suffix == sign + rest;
      assert sign + (zeros + Decimal(n)) == sign + zeros + Decimal(n);
    }
  }

  lemma {:induction false} SplitAtDash(s: string) returns (prefix: string, suffix: string)
    ensures s == prefix + suffix && NoDash(suffix) && (prefix == "" || prefix[|prefix| - 1] == '-')
  {
    if s == "" || s[|s| - 1] == '-' {
      prefix, suffix := s, "";
    } else {
      prefix, suffix := SplitAtDash(s[..|s| - 1]);
      suffix := suffix + [s[|s| - 1]];
    }
  }

  lemma {:induction false} ShippedVersion()
    ensures Increment("m0-dev-" + ("" + "00" + Decimal(1))) == Some("m0-dev-" + Decimal(2))
    ensures "m0-dev-" + ("" + "00" + Decimal(1)) == "m0-dev-001" && "m0-dev-" + Decimal(2) == "m0-dev-2"
  {
    assert Decimal(1) == "1" && Decimal(2) == "2";
    IncrementNumber("m0-dev-", "", "00", 1);
  }

  lemma {:induction false} CarriedVersion()
    ensures Increment("v1-" + ("" + "" + Decimal(9))) == Some("v1-" + Decimal(10))
    ensures "v1-" + ("" + "" + Decimal(9)) == "v1-9" && "v1-" + Decimal(10) == "v1-10"
  {
    assert Decimal(9) == "9" && Decimal(10) == "10";
    IncrementNumber("v1-", "", "", 9);
  }

  /** The step moves on from one shown number to the next, up to a limit. */
  ghost predicate MovesOn(step: string -> Option<string>, now: string, show: nat -> string, m: nat, limit: nat) {
    step(now) == if m < limit then Some(show(m + 1)) else None
  }

  ghost predicate MovesOnAt(step: string -> Option<string>, show: nat -> string, m: nat, limit: nat) {
    MovesOn(step, show(m), show, m, limit)
  }

  lemma {:induction false} RepeatCounts(
    step: string -> Option<string>, start: string, show: nat -> string, n: nat, limit: nat, k: nat)
    requires k > 0 && n <= limit && MovesOn(step, start, show, n, limit)
    requires forall m: nat :: m <= limit ==> MovesOnAt(step, show, m, limit)
    ensures Repeat(step, start, k) == if n + k <= limit then Some(show(n + k)) else None
  {
    if k == 1 {
      assert Repeat(step, start, 0) == Some(start);
    } else {
      RepeatCounts(step, start, show, n, limit, k - 1);
      var m: nat := n + k - 1;
      assert m <= limit ==> MovesOnAt(step, show, m, limit);
    }
  }

  /**
   From a non-empty version the k-th increment is a fixed prefix followed by consecutive decimals; it
   exists exactly as long as the number fits 64 bits.
   */
  lemma {:induction false} ClosedForm(start: string, k: nat)
    requires start != "" && k > 0
    ensures var (prefix, n) := Base(start);
            Iterate(start, k) == if n + k <= U64_MAX then Some(prefix + Decimal(n + k)) else None
  {
    FirstIncrement(start);
    CountsFrom(start, Base(start).0, Base(start).1, k);
  }

  lemma {:induction false} CountsFrom(start: string, prefix: string, n: nat, k: nat)
    requires k > 0 && n <= U64_MAX && prefix != "" && prefix[|prefix| - 1] == '-'
    requires Increment(start) == if n < U64_MAX then Some(prefix + Decimal(n + 1)) else None
    ensures Iterate(start, k) == if n + k <= U64_MAX then Some(prefix + Decimal(n + k)) else None
  {
    var show := (m: nat) => prefix + Decimal(m);
    forall m: nat | m <= U64_MAX ensures MovesOnAt(Increment, show, m, U64_MAX) {
      IncrementPrinted(prefix, m);
    }
    RepeatCounts(Increment, start, show, n, U64_MAX, k);
  }

  /** From a missing version: `v1`, then `v1-1`, `v1-2` and so on. */
  lemma {:induction false} ClosedFormFromMissing(k: nat)
    requires k <= U64_MAX
    ensures Iterate("", k + 1) == Some(if k == 0 then "v1" else "v1-" + Decimal(k))
  {
    FirstFromMissing();
    if k > 0 {
      Shift("", 1, k);
      ClosedForm("v1", k);
    }
  }

  lemma FirstFromMissing()
    ensures Iterate("", 1) == Some("v1") && Base("v1") == ("v1-", 0)
  {
    assert Iterate("", 0) == Some("");
    assert "v1"[..1] == "v" && "v"[..0] == "";
    assert LastDash("v1") == None;
    assert "v1" + "-" == "v1-";
  }

  lemma {:induction false} RepeatFrom(step: string -> Option<string>, start: string, a: nat, b: nat)
    requires Repeat(step, start, a).Some?
    ensures Repeat(step, start, a + b) == Repeat(step, Repeat(step, start, a).value, b)
  {
    if b > 0 {
      RepeatFrom(step, start, a, b - 1);
    }
  }

  lemma {:induction false} RepeatDefined(step: string -> Option<string>, start: string, i: nat, j: nat)
    requires i <= j && Repeat(step, start, j).Some?
    ensures Repeat(step, start, i).Some?
  {
    if i < j {
      RepeatDefined(step, start, i, j - 1);
    }
  }

  lemma Shift(start: string, a: nat, b: nat)
    requires Iterate(start, a).Some?
    ensures Iterate(start, a + b) == Iterate(Iterate(start, a).value, b)
  {
    RepeatFrom(Increment, start, a, b);
  }

  /** The start differs from everything that follows it. */
  lemma StartIsLeft(start: string, j: nat, end: string)
    requires j > 0 && Iterate(start, j) == Some(end)
    ensures end != start
  {
    if start == "" {
      IterateNonEmpty(start, j);
    } else {
      var (prefix, n) := Base(start);
      ClosedForm(start, j);
      FirstIncrement(start);
      if prefix + Decimal(n + j) == start {
        PrintedBase(prefix, n + j);
      }
    }
  }

  lemma {:induction false} IterateNonEmpty(start: string, j: nat)
    requires j > 0 && Iterate(start, j).Some?
    ensures Iterate(start, j).value != ""
  {
    var before := Iterate(start, j - 1).value;
    if before != "" {
      FirstIncrement(before);
    }
  }

  /** A step that never leads back to where it started produces pairwise distinct results. */
  lemma {:induction false} RepeatDistinct(step: string -> Option<string>, start: string, i: nat, j: nat)
    requires i < j && Repeat(step, start, j).Some?
    requires forall s, k: nat :: k > 0 ==> Repeat(step, s, k) != Some(s)
    ensures Repeat(step, start, i).Some? && Repeat(step, start, i) != Repeat(step, start, j)
  {
    RepeatDefined(step, start, i, j);
    RepeatFrom(step, start, i, j - i);
    assert Repeat(step, Repeat(step, start, i).value, j - i) != Repeat(step, start, i);
  }

  /** All versions of a run, the first included, are pairwise distinct. */
  lemma VersionsDistinct(start: string, i: nat, j: nat)
    requires i < j && Iterate(start, j).Some?
    ensures Iterate(start, i).Some? && Iterate(start, i) != Iterate(start, j)
  {
    forall s, k: nat | k > 0 ensures Repeat(Increment, s, k) != Some(s) {
      if Iterate(s, k) == Some(s) {
        StartIsLeft(s, k, s);
      }
    }
    RepeatDistinct(Increment, start, i, j);
  }
}
