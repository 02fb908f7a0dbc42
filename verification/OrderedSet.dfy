/**
 Ordered sets of strings as the sequences they are iterated and serialised in: a `BTreeSet<String>` is
 a strictly ascending sequence, and each set has exactly one.
 */
module OrderedSet {

  import opened Utf8

  lemma {:induction false} LessIsTotal(a: string, b: string)
    ensures Less(a, b) || a == b || Less(b, a)
  {
    if a != "" && b != "" && a[0] == b[0] {
      LessIsTotal(a[1..], b[1..]);
      if a[1..] == b[1..] {
        assert a == [a[0]] + a[1..] && b == [b[0]] + b[1..];
      }
    }
  }

  lemma {:induction false} LessIsStrict(a: string)
    ensures !Less(a, a)
  {
    if a != "" {
      LessIsStrict(a[1..]);
    }
  }

  lemma {:induction false} LessIsTransitive(a: string, b: string, c: string)
    requires Less(a, b) && Less(b, c)
    ensures Less(a, c)
  {
    if a != "" && a[0] == b[0] == c[0] {
      LessIsTransitive(a[1..], b[1..], c[1..]);
    }
  }

  predicate Below(x: string, s: seq<string>) {
    forall y :: y in s ==> Less(x, y)
  }

  predicate Ascending(s: seq<string>) {
    s == [] || (Below(s[0], s[1..]) && Ascending(s[1..]))
  }

  function Elements(s: seq<string>): set<string> {
    set x | x in s
  }

  lemma Head(s: seq<string>)
    requires s != []
    ensures Elements(s) == {s[0]} + Elements(s[1..])
  {
    assert s == [s[0]] + s[1..];
  }

  /** Insertion into an ordered set; an element already present stays once. */
  function Insert(s: seq<string>, x: string): seq<string> {
    if s == [] || Less(x, s[0]) then [x] + s
    else if x == s[0] then s
    else [s[0]] + Insert(s[1..], x)
  }

  function Remove(s: seq<string>, x: string): seq<string> {
    if s == [] then []
    else if x == s[0] then s[1..]
    else [s[0]] + Remove(s[1..], x)
  }

  lemma BelowAll(x: string, s: seq<string>)
    requires s != [] && Ascending(s) && Less(x, s[0])
    ensures Below(x, s)
  {
    forall y | y in s ensures Less(x, y) {
      if y != s[0] {
        assert y in s[1..];
        LessIsTransitive(x, s[0], y);
      }
    }
  }

  lemma {:induction false} InsertIsUnion(s: seq<string>, x: string)
    requires Ascending(s)
    ensures Ascending(Insert(s, x)) && Elements(Insert(s, x)) == Elements(s) + {x}
  {
    if s == [] {
      assert Insert(s, x) == [x] && [x][1..] == [];
    } else if Less(x, s[0]) {
      BelowAll(x, s);
      assert ([x] + s)[1..] == s;
    } else if x != s[0] {
      InsertIsUnion(s[1..], x);
      LessIsTotal(x, s[0]);
      var r := Insert(s, x);
      assert r[1..] == Insert(s[1..], x);
      forall y | y in r[1..] ensures Less(s[0], y) {
        assert y in Elements(Insert(s[1..], x));
      }
      Head(s);
      Head(r);
    }
  }

  lemma {:induction false} RemoveIsDifference(s: seq<string>, x: string)
    requires Ascending(s)
    ensures Ascending(Remove(s, x)) && Elements(Remove(s, x)) == Elements(s) - {x}
  {
    if s != [] {
      Head(s);
      if x == s[0] {
        LessIsStrict(x);
        assert x !in s[1..];
      } else {
        RemoveIsDifference(s[1..], x);
        var r := Remove(s, x);
        assert r[1..] == Remove(s[1..], x);
        forall y | y in r[1..] ensures Less(s[0], y) {
          assert y in Elements(Remove(s[1..], x));
        }
        Head(r);
      }
    }
  }

  /** Ascending means: of any two elements, the one further on is the greater. */
  lemma {:induction false} AscendingExactly(s: seq<string>)
    ensures Ascending(s) <==> forall i, j :: 0 <= i < j < |s| ==> Less(s[i], s[j])
  {
    if s != [] {
      var rest := s[1..];
      AscendingExactly(rest);
      assert forall i :: 0 <= i < |rest| ==> rest[i] == s[i + 1];
      if forall i, j :: 0 <= i < j < |s| ==> Less(s[i], s[j]) {
        forall y | y in rest ensures Less(s[0], y) {
          var i :| 0 <= i < |rest| && rest[i] == y;
          assert s[i + 1] == y;
        }
        forall i, j | 0 <= i < j < |rest| ensures Less(rest[i], rest[j]) {
          assert rest[i] == s[i + 1] && rest[j] == s[j + 1];
        }
      }
      if Ascending(s) {
        forall i, j | 0 <= i < j < |s| ensures Less(s[i], s[j]) {
          assert s[j] == rest[j - 1] && s[j] in rest;
          assert i > 0 ==> s[i] == rest[i - 1];
        }
      }
    }
  }

  /** Two ascending sequences with the same elements are equal. */
  lemma {:induction false} ListingIsUnique(s: seq<string>, t: seq<string>)
    requires Ascending(s) && Ascending(t) && Elements(s) == Elements(t)
    ensures s == t
  {
    assert s != [] ==> s[0] in Elements(s);
    assert t != [] ==> t[0] in Elements(t);
    if s != [] {
      assert t != [];
      Head(s);
      Head(t);
      LessIsStrict(s[0]);
      LessIsStrict(t[0]);
      if s[0] != t[0] {
        assert t[0] in s[1..] && s[0] in t[1..];
        LessIsTransitive(s[0], t[0], s[0]);
      }
      assert s[0] !in s[1..] && t[0] !in t[1..];
      ListingIsUnique(s[1..], t[1..]);
      assert s == [s[0]] + s[1..] && t == [t[0]] + t[1..];
    }
  }

  lemma {:induction false} ListingExists(xs: set<string>)
    ensures exists s :: Ascending(s) && Elements(s) == xs
    decreases |xs|
  {
    if xs == {} {
      assert Ascending([]) && Elements([]) == xs;
    } else {
      var x :| x in xs;
      ListingExists(xs - {x});
      var s :| Ascending(s) && Elements(s) == xs - {x};
      InsertIsUnion(s, x);
      assert Elements(Insert(s, x)) == xs;
    }
  }

  /** The ascending sequence of a set. */
  ghost function Listing(xs: set<string>): (s: seq<string>)
    ensures Ascending(s) && Elements(s) == xs
  {
    ListingExists(xs);
    var s :| Ascending(s) && Elements(s) == xs;
    s
  }
}
