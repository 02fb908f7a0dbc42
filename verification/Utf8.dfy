/** Strings as Rust stores them: the UTF-8 bytes (RFC 3629), whose number is `str::len`. */
module Utf8 {

  function CharBytes(c: char): seq<nat> {
    var n := c as int;
    if n < 0x80 then [n]
    else if n < 0x800 then [0xC0 + n / 0x40, 0x80 + n % 0x40]
    else if n < 0x1_0000 then [0xE0 + n / 0x1000, 0x80 + n / 0x40 % 0x40, 0x80 + n % 0x40]
    else [0xF0 + n / 0x4_0000, 0x80 + n / 0x1000 % 0x40, 0x80 + n / 0x40 % 0x40, 0x80 + n % 0x40]
  }

  function Bytes(s: string): seq<nat> {
    if s == "" then [] else CharBytes(s[0]) + Bytes(s[1..])
  }

  // ---------------------------------------------------------------------------------------------
  // Order
  // ---------------------------------------------------------------------------------------------

  /** The order of byte strings, which is the order of `str` and of the sets and maps keyed by it. */
  predicate BytesLess(a: seq<nat>, b: seq<nat>) {
    b != [] && (a == [] || a[0] < b[0] || (a[0] == b[0] && BytesLess(a[1..], b[1..])))
  }

  /** The two differ first at `k`, where the first one is smaller. */
  predicate DifferAt(a: seq<nat>, b: seq<nat>, k: nat) {
    k < |a| && k < |b| && a[..k] == b[..k] && a[k] < b[k]
  }

  lemma {:induction false} FirstDifferenceDecides(a: seq<nat>, b: seq<nat>, x: seq<nat>, y: seq<nat>, k: nat)
    requires DifferAt(a, b, k)
    ensures BytesLess(a + x, b + y) && !BytesLess(b + y, a + x)
  {
    assert (a + x)[0] == a[0] && (b + y)[0] == b[0];
    if k > 0 {
      assert a[0] == a[..k][0] && b[0] == b[..k][0];
      assert a[1..][..k - 1] == a[..k][1..] && b[1..][..k - 1] == b[..k][1..];
      assert (a + x)[1..] == a[1..] + x && (b + y)[1..] == b[1..] + y;
      FirstDifferenceDecides(a[1..], b[1..], x, y, k - 1);
    }
  }

  lemma {:induction false} CommonPrefix(p: seq<nat>, x: seq<nat>, y: seq<nat>)
    ensures BytesLess(p + x, p + y) <==> BytesLess(x, y)
  {
    if p == [] {
      assert p + x == x && p + y == y;
    } else {
      assert (p + x)[1..] == p[1..] + x && (p + y)[1..] == p[1..] + y;
      CommonPrefix(p[1..], x, y);
    }
  }

  lemma HigherDigits(n: nat)
    ensures n / 0x1000 == n / 0x40 / 0x40 && n / 0x4_0000 == n / 0x1000 / 0x40
  {
  }

  /** The number of bytes grows with the character, and so does the first byte from one length to the next. */
  lemma FirstByte(c: char, d: char)
    requires c < d && |CharBytes(c)| != |CharBytes(d)|
    ensures CharBytes(c)[0] < CharBytes(d)[0]
  {
  }

  lemma TwoOrThree(c: char, d: char) returns (k: nat)
    requires c < d && |CharBytes(c)| == |CharBytes(d)| <= 3
    ensures DifferAt(CharBytes(c), CharBytes(d), k)
  {
    var n, m := c as int, d as int;
    NextDigit(n, m);
    NextDigit(n / 0x40, m / 0x40);
    HigherDigits(n);
    HigherDigits(m);
    k := if CharBytes(c)[0] != CharBytes(d)[0] then 0 else if CharBytes(c)[1] != CharBytes(d)[1] then 1 else 2;
  }

  lemma NextDigit(n: nat, m: nat)
    ensures n < m ==> n / 0x40 < m / 0x40 || (n / 0x40 == m / 0x40 && n % 0x40 < m % 0x40)
    ensures n <= m ==> n / 0x40 <= m / 0x40
  {
  }

  lemma Four(c: char, d: char) returns (k: nat)
    requires c < d && |CharBytes(c)| == |CharBytes(d)| == 4
    ensures DifferAt(CharBytes(c), CharBytes(d), k)
  {
    var n, m := c as int, d as int;
    HigherDigits(n);
    HigherDigits(m);
    NextDigit(n, m);
    NextDigit(n / 0x40, m / 0x40);
    NextDigit(n / 0x1000, m / 0x1000);
    k := if n / 0x4_0000 != m / 0x4_0000 then 0
         else if n / 0x1000 != m / 0x1000 then 1
         else if n / 0x40 != m / 0x40 then 2 else 3;
  }

  /** A smaller character has a smaller encoding, and neither encoding begins the other. */
  lemma CharOrder(c: char, d: char) returns (k: nat)
    requires c < d
    ensures DifferAt(CharBytes(c), CharBytes(d), k)
  {
    if |CharBytes(c)| != |CharBytes(d)| {
      FirstByte(c, d);
      k := 0;
    } else if |CharBytes(c)| == 4 {
      k := Four(c, d);
    } else {
      k := TwoOrThree(c, d);
    }
  }

  predicate Less(a: string, b: string) {
    b != "" && (a == "" || a[0] < b[0] || (a[0] == b[0] && Less(a[1..], b[1..])))
  }

  /** The order by characters is the order by bytes. */
  lemma {:induction false} LessIsByteOrder(a: string, b: string)
    ensures Less(a, b) <==> BytesLess(Bytes(a), Bytes(b))
  {
    if a != "" && b != "" {
      if a[0] < b[0] {
        var k := CharOrder(a[0], b[0]);
        FirstDifferenceDecides(CharBytes(a[0]), CharBytes(b[0]), Bytes(a[1..]), Bytes(b[1..]), k);
      } else if b[0] < a[0] {
        var k := CharOrder(b[0], a[0]);
        FirstDifferenceDecides(CharBytes(b[0]), CharBytes(a[0]), Bytes(b[1..]), Bytes(a[1..]), k);
      } else {
        LessIsByteOrder(a[1..], b[1..]);
        CommonPrefix(CharBytes(a[0]), Bytes(a[1..]), Bytes(b[1..]));
      }
    }
  }

  /** One string comes before another exactly if it is a proper beginning of it, or smaller where they first differ. */
  lemma {:induction false} LessExactly(a: string, b: string)
    ensures Less(a, b) <==>
              exists k :: 0 <= k <= |a| && k < |b| && a[..k] == b[..k] && (k == |a| || a[k] < b[k])
  {
    if Less(a, b) {
      var k := LessDiffers(a, b);
    }
    if k :| 0 <= k <= |a| && k < |b| && a[..k] == b[..k] && (k == |a| || a[k] < b[k]) {
      DiffersLess(a, b, k);
    }
  }

  lemma {:induction false} LessDiffers(a: string, b: string) returns (k: nat)
    requires Less(a, b)
    ensures k <= |a| && k < |b| && a[..k] == b[..k] && (k == |a| || a[k] < b[k])
  {
    if a == "" || a[0] < b[0] {
      k := 0;
    } else {
      k := LessDiffers(a[1..], b[1..]);
      k := k + 1;
      assert a[..k] == [a[0]] + a[1..][..k - 1] && b[..k] == [b[0]] + b[1..][..k - 1];
    }
  }

  lemma {:induction false} DiffersLess(a: string, b: string, k: nat)
    requires k <= |a| && k < |b| && a[..k] == b[..k] && (k == |a| || a[k] < b[k])
    ensures Less(a, b)
  {
    if k > 0 {
      assert a[0] == a[..k][0] && b[0] == b[..k][0];
      assert a[1..][..k - 1] == a[..k][1..] && b[1..][..k - 1] == b[..k][1..];
      DiffersLess(a[1..], b[1..], k - 1);
    }
  }

  // ---------------------------------------------------------------------------------------------
  // Checks made byte by byte
  // ---------------------------------------------------------------------------------------------

  predicate AllBytes(bytes: seq<nat>, ok: nat -> bool) {
    forall i :: 0 <= i < |bytes| ==> ok(bytes[i])
  }

  predicate AllChars(s: string, ok: nat -> bool) {
    forall i :: 0 <= i < |s| ==> ok(s[i] as int)
  }

  /** The strings all of whose bytes pass an ASCII test are those all of whose characters do. */
  lemma {:induction false} AsciiCheck(s: string, ok: nat -> bool)
    requires forall b: nat :: ok(b) ==> b < 0x80
    ensures AllBytes(Bytes(s), ok) <==> AllChars(s, ok)
    ensures AllChars(s, ok) ==> |Bytes(s)| == |s|
  {
    if s != "" {
      AsciiCheck(s[1..], ok);
      BytesHead(s[0], Bytes(s[1..]), ok);
      CharsHead(s, ok);
    }
  }

  lemma CharsHead(s: string, ok: nat -> bool)
    requires s != ""
    ensures AllChars(s, ok) <==> ok(s[0] as int) && AllChars(s[1..], ok)
  {
    var rest := s[1..];
    assert forall i :: 0 <= i < |rest| ==> s[i + 1] == rest[i];
    assert forall i :: 1 <= i < |s| ==> s[i] == rest[i - 1];
  }

  lemma BytesHead(c: char, rest: seq<nat>, ok: nat -> bool)
    requires forall b: nat :: ok(b) ==> b < 0x80
    ensures AllBytes(CharBytes(c) + rest, ok) <==> ok(c as int) && AllBytes(rest, ok)
    ensures ok(c as int) ==> |CharBytes(c)| == 1
  {
    var all, n := CharBytes(c) + rest, |CharBytes(c)|;
    assert all[0] == CharBytes(c)[0];
    assert forall i :: 0 <= i < |rest| ==> all[n + i] == rest[i];
    assert forall i :: n <= i < |all| ==> all[i] == rest[i - n];
  }
}
