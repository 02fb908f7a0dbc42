/**
 The response builder of `crates/latchgate-api/src/json_response.rs`, with the escaping routine of
 `crates/latchgate-core/src/crypto/json.rs`, proved inverse to a parser for flat JSON objects whose
 members are strings (sections 4 and 7 of RFC 8259).
 */
module JsonResponse {
  import opened Wrappers

  type Member = (string, string)

  // ---------------------------------------------------------------------------------------------
  // Printing
  // ---------------------------------------------------------------------------------------------

  /** `char::is_control`: the C0 and C1 controls and DEL. */
  predicate IsControl(c: char) {
    c as int < 0x20 || 0x7F <= c as int <= 0x9F
  }

  function HexDigit(n: nat): char
    requires n < 16
  {
    if n < 10 then ('0' as int + n) as char else ('a' as int + n - 10) as char
  }

  /** `{:04x}`; control characters are below 256. */
  function Hex4(n: nat): string
    requires n < 0x100
  {
    ['0', '0', HexDigit(n / 0x10), HexDigit(n % 0x10)]
  }

  function EscapeChar(c: char): string {
    if c == '"' then "\\\""
    else if c == '\\' then "\\\\"
    else if c == '\n' then "\\n"
    else if c == '\r' then "\\r"
    else if c == '\t' then "\\t"
    else if IsControl(c) then "\\u" + Hex4(c as int)
    else [c]
  }

  function Escape(s: string): string {
    if s == "" then "" else Escape(s[..|s| - 1]) + EscapeChar(s[|s| - 1])
  }

  function PrintMember(m: Member): string {
    "\"" + Escape(m.0) + "\":\"" + Escape(m.1) + "\""
  }

  /** The buffer after some members: the object is still open. */
  function PrintOpen(members: seq<Member>): string
    requires members != []
  {
    var last := PrintMember(members[|members| - 1]);
    if |members| == 1 then "{" + last else PrintOpen(members[..|members| - 1]) + "," + last
  }

  lemma MemberText(prefix: string, key: string, value: string)
    ensures prefix + "\"" + Escape(key) + "\":\"" + Escape(value) + "\"" == prefix + PrintMember((key, value))
  {
  }

  lemma EscapeNext(before: string, s: string, i: nat, piece: string)
    requires i < |s| && piece == EscapeChar(s[i])
    ensures before + Escape(s[..i]) + piece == before + Escape(s[..i + 1])
  {
    assert s[..i + 1][..i] == s[..i];
    assert Escape(s[..i + 1]) == Escape(s[..i]) + piece;
  }

  class Builder {
    var body: string
    ghost var members: seq<Member>

    ghost predicate Valid()
      reads this
    {
      members != [] && body == PrintOpen(members)
    }

    constructor WithKey(key: string, value: string)
      ensures Valid() && members == [(key, value)]
    {
      body := "{" + "\"";
      members := [(key, value)];
      new;
      EscapeInto(key);
      body := body + "\":\"";
      EscapeInto(value);
      body := body + "\"";
      MemberText("{", key, value);
    }

    method EscapeInto(s: string)
      modifies this`body
      ensures body == old(body) + Escape(s)
    {
      for i := 0 to |s|
        invariant body == old(body) + Escape(s[..i])
      {
        var piece := [s[i]];
        if s[i] == '"' { piece := "\\\""; }
        else if s[i] == '\\' { piece := "\\\\"; }
        else if s[i] == '\n' { piece := "\\n"; }
        else if s[i] == '\r' { piece := "\\r"; }
        else if s[i] == '\t' { piece := "\\t"; }
        else if IsControl(s[i]) { piece := "\\u" + Hex4(s[i] as int); }
        body := body + piece;
        assert piece == EscapeChar(s[i]);
        EscapeNext(old(body), s, i, piece);
      }
      assert s[..|s|] == s;
    }

    method Field(key: string, value: string)
      requires Valid()
      modifies this
      ensures Valid() && members == old(members) + [(key, value)]
    {
      ghost var before := body;
      body := body + "," + "\"";
      EscapeInto(key);
      body := body + "\":\"";
      EscapeInto(value);
      body := body + "\"";
      MemberText(before + ",", key, value);
      members := members + [(key, value)];
      assert members[..|members| - 1] == old(members);
    }

    /** The finished body parses back to exactly the members given, in order. */
    method Finish() returns (text: string)
      requires Valid()
      modifies this
      ensures text == PrintOpen(old(members)) + "}"
      ensures ParseObject(text) == Some(old(members))
    {
      body := body + "}";
      text := body;
      RoundTrip(members);
    }
  }

  // ---------------------------------------------------------------------------------------------
  // Parsing
  // ---------------------------------------------------------------------------------------------

  function HexValue(c: char): Option<nat> {
    if '0' <= c <= '9' then Some(c as int - '0' as int)
    else if 'a' <= c <= 'f' then Some(c as int - 'a' as int + 10)
    else if 'A' <= c <= 'F' then Some(c as int - 'A' as int + 10)
    else None
  }

  /** The code unit written by the four hexadecimal digits at the head of `s`. */
  function ParseHex4(s: string): (r: Option<nat>)
    ensures r.Some? ==> r.value < 0x10000
  {
    if |s| < 4 then None
    else
      var a, b, c, d := HexValue(s[0]), HexValue(s[1]), HexValue(s[2]), HexValue(s[3]);
      if a.Some? && b.Some? && c.Some? && d.Some?
      then Some(0x1000 * a.value + 0x100 * b.value + 0x10 * c.value + d.value)
      else None
  }

  /** One escape sequence after its backslash: the character it stands for and its length. */
  function ParseEscape(s: string): (r: Option<(char, nat)>)
    ensures r.Some? ==> 0 < r.value.1 <= |s|
  {
    if s == "" then None
    else match s[0]
      case '"' => Some(('"', 1))
      case '\\' => Some(('\\', 1))
      case '/' => Some(('/', 1))
      case 'b' => Some((8 as char, 1))
      case 'f' => Some((12 as char, 1))
      case 'n' => Some(('\n', 1))
      case 'r' => Some(('\r', 1))
      case 't' => Some(('\t', 1))
      case 'u' => ParseUnicode(s[1..])
      case _ => None
  }

  /** `XXXX`, or `XXXX` + `\uXXXX` for a surrogate pair. The length includes the leading `u`. */
  function ParseUnicode(s: string): (r: Option<(char, nat)>)
    ensures r.Some? ==> r.value.1 <= |s| + 1
    ensures r.Some? ==> 0 < r.value.1
  {
    var unit := ParseHex4(s);
    if unit.None? then None
    else if unit.value < 0xD800 || 0xE000 <= unit.value then Some((unit.value as char, 5))
    else if unit.value < 0xDC00 && |s| >= 10 && s[4] == '\\' && s[5] == 'u' then
      var low := ParseHex4(s[6..]);
      if low.Some? && 0xDC00 <= low.value < 0xE000
      then Some(((0x10000 + 0x400 * (unit.value - 0xD800) + (low.value - 0xDC00)) as char, 11))
      else None
    else None
  }

  /** The characters of a string up to its closing quote, and the text after it. */
  function ParseChars(s: string): (r: Option<(string, string)>)
    ensures r.Some? ==> |r.value.1| < |s|
    decreases |s|
  {
    if s == "" || s[0] as int < 0x20 then None
    else if s[0] == '"' then Some(("", s[1..]))
    else if s[0] == '\\' then
      var e := ParseEscape(s[1..]);
      if e.None? then None else Prepend(e.value.0, ParseChars(s[1 + e.value.1..]))
    else Prepend(s[0], ParseChars(s[1..]))
  }

  function Prepend(c: char, r: Option<(string, string)>): Option<(string, string)> {
    if r.None? then None else Some(([c] + r.value.0, r.value.1))
  }

  function SkipSpace(s: string): (r: string)
    ensures |r| <= |s|
  {
    if s != "" && s[0] in {' ', '\t', '\n', '\r'} then SkipSpace(s[1..]) else s
  }

  /** The text after `c` and surrounding white space, if `c` comes next. */
  function Eat(c: char, s: string): (r: Option<string>)
    ensures r.Some? ==> |r.value| < |s|
  {
    var t := SkipSpace(s);
    if t != "" && t[0] == c then Some(t[1..]) else None
  }

  function ParseQuoted(s: string): (r: Option<(string, string)>)
    ensures r.Some? ==> |r.value.1| < |s|
  {
    var t := Eat('"', s);
    if t.None? then None else ParseChars(t.value)
  }

  function ParseMember(s: string): (r: Option<(Member, string)>)
    ensures r.Some? ==> |r.value.1| < |s|
  {
    var key := ParseQuoted(s);
    if key.None? then None
    else
      var colon := Eat(':', key.value.1);
      if colon.None? then None
      else
        var value := ParseQuoted(colon.value);
        if value.None? then None else Some(((key.value.0, value.value.0), value.value.1))
  }

  /** Members separated by commas, closed by a brace, followed by white space only. */
  function ParseMembers(s: string): Option<seq<Member>>
    decreases |s|
  {
    var m := ParseMember(s);
    if m.None? then None
    else
      var rest := m.value.1;
      if Eat('}', rest).Some? then
        if SkipSpace(Eat('}', rest).value) == "" then Some([m.value.0]) else None
      else if Eat(',', rest).Some? then
        var more := ParseMembers(Eat(',', rest).value);
        if more.None? then None else Some([m.value.0] + more.value)
      else None
  }

  function ParseObject(s: string): Option<seq<Member>> {
    var open := Eat('{', s);
    if open.None? then None
    else if Eat('}', open.value).Some? then
      if SkipSpace(Eat('}', open.value).value) == "" then Some([]) else None
    else ParseMembers(open.value)
  }

  // ---------------------------------------------------------------------------------------------
  // Round trip
  // ---------------------------------------------------------------------------------------------

  lemma HexRoundTrip(n: nat, rest: string)
    requires n < 0x100
    ensures ParseHex4(Hex4(n) + rest) == Some(n)
  {
    var s := Hex4(n) + rest;
    assert s[0] == '0' && s[1] == '0' && s[2] == HexDigit(n / 0x10) && s[3] == HexDigit(n % 0x10);
    DigitRoundTrip(n / 0x10);
    DigitRoundTrip(n % 0x10);
  }

  lemma DigitRoundTrip(n: nat)
    requires n < 16
    ensures HexValue(HexDigit(n)) == Some(n)
  {
  }

  lemma ControlRoundTrip(c: char, rest: string)
    requires IsControl(c)
    ensures ParseChars("\\u" + Hex4(c as int) + rest) == Prepend(c, ParseChars(rest))
  {
    var s := "\\u" + Hex4(c as int) + rest;
    assert s[0] == '\\' && s[1..] == "u" + Hex4(c as int) + rest;
    assert s[1..][1..] == Hex4(c as int) + rest;
    HexRoundTrip(c as int, rest);
    assert ParseEscape(s[1..]) == Some((c, 5));
    assert s[6..] == rest;
  }

  lemma {:induction false} ShortEscape(letter: char, c: char, rest: string)
    requires ParseEscape([letter] + rest) == Some((c, 1))
    ensures ParseChars("\\" + [letter] + rest) == Prepend(c, ParseChars(rest))
  {
    var s := "\\" + [letter] + rest;
    assert s[0] == '\\' && s[1..] == [letter] + rest;
    assert s[2..] == rest;
  }

  lemma CharRoundTrip(c: char, rest: string)
    ensures ParseChars(EscapeChar(c) + rest) == Prepend(c, ParseChars(rest))
  {
    if c in {'"', '\\', '\n', '\r', '\t'} {
      var letter := EscapeChar(c)[1];
      assert EscapeChar(c) == "\\" + [letter];
      assert ([letter] + rest)[0] == letter;
      ShortEscape(letter, c, rest);
    } else if IsControl(c) {
      ControlRoundTrip(c, rest);
    } else {
      assert ([c] + rest)[1..] == rest;
    }
  }

  lemma Assoc(a: string, b: string, c: string)
    ensures (a + b) + c == a + (b + c)
  {
  }

  /** The head of an escaped string is its first character, escaped. */
  lemma {:induction false} EscapeHead(s: string)
    requires s != ""
    ensures Escape(s) == EscapeChar(s[0]) + Escape(s[1..])
  {
    if |s| == 1 {
      assert s[..0] == "" && s[1..] == "";
    } else {
      var front := s[..|s| - 1];
      EscapeHead(front);
      var tail := s[1..];
      assert tail[..|tail| - 1] == front[1..] && tail[|tail| - 1] == s[|s| - 1];
      assert Escape(tail) == Escape(front[1..]) + EscapeChar(s[|s| - 1]);
      Assoc(EscapeChar(s[0]), Escape(front[1..]), EscapeChar(s[|s| - 1]));
    }
  }

  lemma {:induction false} StringRoundTrip(s: string, rest: string)
    ensures ParseChars(Escape(s) + "\"" + rest) == Some((s, rest))
  {
    if s == "" {
      assert Escape(s) + "\"" + rest == "\"" + rest;
      assert ("\"" + rest)[1..] == rest;
    } else {
      EscapeHead(s);
      var tail := Escape(s[1..]) + "\"" + rest;
      assert Escape(s) + "\"" + rest == EscapeChar(s[0]) + tail;
      StringRoundTrip(s[1..], rest);
      CharRoundTrip(s[0], tail);
      assert [s[0]] + s[1..] == s;
    }
  }

  /** Eating a character that is there and is not white space. */
  lemma EatHead(c: char, d: char, rest: string)
    requires d !in {' ', '\t', '\n', '\r'}
    ensures Eat(c, [d] + rest) == if c == d then Some(rest) else None
  {
    assert ([d] + rest)[0] == d && ([d] + rest)[1..] == rest;
  }

  lemma QuotedRoundTrip(s: string, rest: string)
    ensures ParseQuoted("\"" + Escape(s) + "\"" + rest) == Some((s, rest))
  {
    var text := Escape(s) + "\"" + rest;
    assert "\"" + Escape(s) + "\"" + rest == ['"'] + text;
    EatHead('"', '"', text);
    StringRoundTrip(s, rest);
  }

  lemma MemberShape(key: string, value: string, rest: string)
    ensures "\"" + key + "\":\"" + value + "\"" + rest == "\"" + key + "\"" + ([':'] + ("\"" + value + "\"" + rest))
  {
    assert "\":\"" == "\"" + [':'] + "\"";
  }

  lemma {:induction false} MemberRoundTrip(m: Member, rest: string)
    ensures ParseMember(PrintMember(m) + rest) == Some((m, rest))
  {
    var value := "\"" + Escape(m.1) + "\"" + rest;
    var colon := [':'] + value;
    MemberShape(Escape(m.0), Escape(m.1), rest);
    QuotedRoundTrip(m.0, colon);
    EatHead(':', ':', value);
    QuotedRoundTrip(m.1, rest);
  }

  /** The same text, read from the front: a member, then what follows it. */
  function PrintRest(members: seq<Member>): string
    requires members != []
    decreases |members|, 0
  {
    PrintMember(members[0]) + Following(members[1..])
  }

  function Following(members: seq<Member>): string
    decreases |members|, 1
  {
    if members == [] then "}" else "," + PrintRest(members)
  }

  lemma RestUnfolds(m: Member, more: seq<Member>)
    ensures PrintRest([m] + more) == PrintMember(m) + Following(more)
  {
    assert ([m] + more)[1..] == more;
  }

  /** Moving one member across the boundary between what is printed and what follows. */
  lemma OpenExtends(front: seq<Member>, m: Member, more: seq<Member>)
    requires front != []
    ensures PrintOpen(front + [m]) + Following(more) == PrintOpen(front) + Following([m] + more)
  {
    var open, text, rest := PrintOpen(front), PrintMember(m), Following(more);
    assert (front + [m])[..|front|] == front;
    assert PrintOpen(front + [m]) == open + "," + text;
    RestUnfolds(m, more);
    assert Following([m] + more) == "," + (text + rest);
    Assoc(open + ",", text, rest);
    Assoc(open, ",", text + rest);
  }

  lemma {:induction false} OpenIsRest(members: seq<Member>, more: seq<Member>)
    requires members != []
    ensures PrintOpen(members) + Following(more) == "{" + PrintRest(members + more)
    decreases |members|
  {
    var last := members[|members| - 1];
    if |members| == 1 {
      assert members == [last];
      RestUnfolds(last, more);
      Assoc("{", PrintMember(last), Following(more));
    } else {
      var front := members[..|members| - 1];
      assert front + [last] == members && front + ([last] + more) == members + more;
      OpenExtends(front, last, more);
      OpenIsRest(front, [last] + more);
    }
  }

  lemma {:induction false} MembersRoundTrip(members: seq<Member>)
    requires members != []
    ensures ParseMembers(PrintRest(members)) == Some(members)
  {
    var m := members[0];
    if |members| == 1 {
      MemberRoundTrip(m, "}");
      EatHead('}', '}', "");
      assert "}" == ['}'] + "";
      assert members == [m];
    } else {
      var rest := PrintRest(members[1..]);
      MemberRoundTrip(m, "," + rest);
      assert "," + rest == [','] + rest;
      EatHead('}', ',', rest);
      EatHead(',', ',', rest);
      assert Following(members[1..]) == "," + rest;
      MembersRoundTrip(members[1..]);
      assert [m] + members[1..] == members;
    }
  }

  /**
   For every chain of fields, with arbitrary keys and values, the finished body is one JSON object
   whose members are exactly the given pairs in the given order.
   */
  lemma RoundTrip(members: seq<Member>)
    requires members != []
    ensures ParseObject(PrintOpen(members) + "}") == Some(members)
  {
    OpenIsRest(members, []);
    assert members + [] == members;
    var rest := PrintRest(members);
    assert "{" + rest == ['{'] + rest;
    EatHead('{', '{', rest);
    assert rest == ['"'] + rest[1..];
    EatHead('}', '"', rest[1..]);
    MembersRoundTrip(members);
  }

  /** So no value can add, drop or merge a member: equal bodies come from equal members. */
  lemma BodiesInjective(a: seq<Member>, b: seq<Member>)
    requires a != [] && b != [] && PrintOpen(a) + "}" == PrintOpen(b) + "}"
    ensures a == b
  {
    RoundTrip(a);
    RoundTrip(b);
  }
}
