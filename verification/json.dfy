/** `JSON.stringify` on strings and on objects whose values are strings or
    `undefined`, as ECMA-262 specifies it: strings are quoted and escaped
    as in section 7 of RFC 8259, with the short escapes for quote,
    backslash, backspace, form feed, newline, carriage return and tab, and
    `\u00xx` with lower-case hex digits for the other control characters;
    keys whose value is `undefined` are left out.

    A decoder for exactly this output is given alongside, and the encoder
    is proved to round-trip through it. */
module Json {
  import opened Wrappers
  import opened Dict
  import Text

  // ---------------------------------------------------------------------
  // Encoding

  /** A lower-case hexadecimal digit. */
  function Hex(d: nat): (c: char)
    requires d < 16
  {
    if d < 10 then ('0' as int + d) as char else ('a' as int + d - 10) as char
  }

  /** The escaped form of one character. */
  function EscapeChar(c: char): (e: string)
    ensures |e| >= 1
    ensures e[0] == '\\' || (|e| == 1 && e[0] == c)
  {
    if c == '"' then "\\\""
    else if c == '\\' then "\\\\"
    else if c as int == 0x08 then "\\b"
    else if c as int == 0x0C then "\\f"
    else if c == '\n' then "\\n"
    else if c == '\r' then "\\r"
    else if c == '\t' then "\\t"
    else if c < ' ' then "\\u00" + [Hex(c as int / 16), Hex(c as int % 16)]
    else [c]
  }

  function Escape(s: string): (e: string)
    ensures '"' in s ==> |e| > |s|
    ensures |e| >= |s|
  {
    if |s| == 0 then "" else EscapeChar(s[0]) + Escape(s[1..])
  }

  /** A character that `JSON.stringify` writes as it is. */
  predicate Plain(c: char) {
    c >= ' ' && c != '"' && c != '\\'
  }

  /** Text without quotes, backslashes or control characters is not changed by escaping. */
  lemma {:induction false} EscapePlain(s: string)
    requires forall i :: 0 <= i < |s| ==> Plain(s[i])
    ensures Escape(s) == s
  {
    if |s| > 0 {
      assert Plain(s[0]);
      EscapePlain(s[1..]);
      assert [s[0]] + s[1..] == s;
    }
  }

  /** `JSON.stringify(s)` for a string `s`. */
  function Quote(s: string): (q: string)
    ensures |q| >= 2 && q[0] == '"' && q[|q| - 1] == '"'
  {
    "\"" + Escape(s) + "\""
  }

  /** The entries whose value is not `undefined`, in order. */
  function Defined(m: Entries<Option<string>>): (d: Entries<string>)
    ensures |d| <= |m|
    ensures forall e :: e in d ==> (e.0, Some(e.1)) in m
    ensures forall e :: e in m && e.1.Some? ==> (e.0, e.1.value) in d
  {
    if |m| == 0 then []
    else
      var rest := Defined(m[1..]);
      assert forall e :: e in m <==> e == m[0] || e in m[1..];
      match m[0].1
      case None => rest
      case Some(v) => [(m[0].0, v)] + rest
  }

  function Member(e: (string, string)): string {
    Quote(e.0) + ":" + Quote(e.1)
  }

  function Members(d: Entries<string>): (r: string)
  {
    if |d| == 0 then ""
    else if |d| == 1 then Member(d[0])
    else Member(d[0]) + "," + Members(d[1..])
  }

  /** `JSON.stringify(o)` for an object `o` whose values are strings or `undefined`. */
  function StringifyObject(m: Entries<Option<string>>): (s: string)
    ensures |s| >= 2 && s[0] == '{' && s[|s| - 1] == '}'
  {
    "{" + Members(Defined(m)) + "}"
  }

  // ---------------------------------------------------------------------
  // Decoding: the inverse the encoder is checked against

  function HexValue(c: char): Option<nat>
  {
    if '0' <= c <= '9' then Some(c as int - '0' as int)
    else if 'a' <= c <= 'f' then Some(c as int - 'a' as int + 10)
    else if 'A' <= c <= 'F' then Some(c as int - 'A' as int + 10)
    else None
  }

  /** Decodes the escape sequence that follows a backslash: the character
      it stands for and how many characters it takes. */
  function ReadEscape(s: string): (r: Option<(char, nat)>)
    ensures r.Some? ==> 1 <= r.value.1 <= |s|
  {
    if |s| == 0 then None
    else if s[0] == '"' then Some(('"', 1))
    else if s[0] == '\\' then Some(('\\', 1))
    else if s[0] == '/' then Some(('/', 1))
    else if s[0] == 'b' then Some((0x08 as char, 1))
    else if s[0] == 'f' then Some((0x0C as char, 1))
    else if s[0] == 'n' then Some(('\n', 1))
    else if s[0] == 'r' then Some(('\r', 1))
    else if s[0] == 't' then Some(('\t', 1))
    else if s[0] == 'u' && |s| >= 5 then
      match (HexValue(s[1]), HexValue(s[2]), HexValue(s[3]), HexValue(s[4]))
      case (Some(a), Some(b), Some(c), Some(d)) =>
        var code := ((a * 16 + b) * 16 + c) * 16 + d;
        if code < 0xD800 || (0xE000 <= code < 0x11_0000) then Some((code as char, 5)) else None
      case _ => None
    else None
  }

  /** Decodes a string body up to its closing quote: the text, and what
      follows the quote. */
  function ReadBody(s: string): (r: Option<(string, string)>)
    ensures r.Some? ==> |r.value.1| < |s|
    decreases |s|
  {
    if |s| == 0 then None
    else if s[0] == '"' then Some(("", s[1..]))
    else if s[0] == '\\' then
      match ReadEscape(s[1..])
      case None => None
      case Some((c, n)) =>
        match ReadBody(s[1 + n..])
        case None => None
        case Some((t, rest)) => Some(([c] + t, rest))
    else if s[0] < ' ' then None
    else
      match ReadBody(s[1..])
      case None => None
      case Some((t, rest)) => Some(([s[0]] + t, rest))
  }

  function ReadString(s: string): (r: Option<(string, string)>)
    ensures r.Some? ==> |r.value.1| < |s|
  {
    if |s| > 0 && s[0] == '"' then ReadBody(s[1..]) else None
  }

  /** Decodes the members of an object after its opening brace, through the
      closing brace. */
  function ReadMembers(s: string): (r: Option<(Entries<string>, string)>)
    decreases |s|
  {
    match ReadString(s)
    case None => None
    case Some((k, s1)) =>
      if |s1| == 0 || s1[0] != ':' then None
      else
        match ReadString(s1[1..])
        case None => None
        case Some((v, s2)) =>
          if |s2| == 0 then None
          else if s2[0] == '}' then Some(([(k, v)], s2[1..]))
          else if s2[0] == ',' then
            match ReadMembers(s2[1..])
            case None => None
            case Some((es, s3)) => Some(([(k, v)] + es, s3))
          else None
  }

  function ReadObject(s: string): Option<(Entries<string>, string)>
  {
    if |s| >= 2 && s[0] == '{' then
      if s[1] == '}' then Some(([], s[2..])) else ReadMembers(s[1..])
    else None
  }

  lemma HexRoundTrip(d: nat)
    requires d < 16
    ensures HexValue(Hex(d)) == Some(d)
  {
  }

  /** One escaped character, then anything: the decoder reads the character back. */
  lemma ReadEscapedChar(c: char, t: string)
    ensures ReadBody(EscapeChar(c) + t) ==
      match ReadBody(t)
      case None => None
      case Some((u, rest)) => Some(([c] + u, rest))
  {
    var s := EscapeChar(c) + t;
    if c == '"' || c == '\\' || c as int == 0x08 || c as int == 0x0C || c == '\n' || c == '\r' || c == '\t' {
      assert s[0] == '\\' && s[1..] == [s[1]] + t && s[2..] == t;
    } else if c < ' ' {
      var hi, lo := c as int / 16, c as int % 16;
      HexRoundTrip(hi);
      HexRoundTrip(lo);
      assert s == "\\u00" + [Hex(hi), Hex(lo)] + t;
      assert s[1..][1] == '0' && s[1..][2] == '0';
      assert s[1..][3] == Hex(hi) && s[1..][4] == Hex(lo);
      assert ReadEscape(s[1..]) == Some((c, 5));
      assert s[6..] == t;
    } else {
      assert s[0] == c && s[1..] == t;
    }
  }

  lemma {:induction false} ReadBodyEscape(x: string, rest: string)
    ensures ReadBody(Escape(x) + "\"" + rest) == Some((x, rest))
    decreases |x|
  {
    if |x| == 0 {
      assert Escape(x) + "\"" + rest == "\"" + rest;
    } else {
      var t := Escape(x[1..]) + "\"" + rest;
      assert Escape(x) + "\"" + rest == EscapeChar(x[0]) + t;
      ReadBodyEscape(x[1..], rest);
      ReadEscapedChar(x[0], t);
      assert [x[0]] + x[1..] == x;
    }
  }

  /** Decoding a quoted string gives back the string and leaves what follows. */
  lemma ReadQuote(x: string, rest: string)
    ensures ReadString(Quote(x) + rest) == Some((x, rest))
  {
    assert (Quote(x) + rest)[1..] == Escape(x) + "\"" + rest;
    ReadBodyEscape(x, rest);
  }

  /** One member, then what follows it. */
  lemma ReadMembersStep(k: string, v: string, tail: string)
    requires |tail| > 0
    ensures ReadMembers(Quote(k) + (":" + (Quote(v) + tail))) ==
      if tail[0] == '}' then Some(([(k, v)], tail[1..]))
      else if tail[0] == ',' then
        match ReadMembers(tail[1..])
        case None => None
        case Some((es, s3)) => Some(([(k, v)] + es, s3))
      else None
  {
    var s1 := ":" + (Quote(v) + tail);
    ReadQuote(k, s1);
    assert s1[0] == ':' && s1[1..] == Quote(v) + tail;
    ReadQuote(v, tail);
  }

  lemma MembersSplit(d: Entries<string>, rest: string)
    requires |d| >= 1
    ensures Members(d) + "}" + rest ==
      Quote(d[0].0) + (":" + (Quote(d[0].1) +
        (if |d| == 1 then "}" + rest else "," + (Members(d[1..]) + "}" + rest))))
  {
    var a, b := Quote(d[0].0), Quote(d[0].1);
    assert Member(d[0]) == a + ":" + b;
    if |d| == 1 {
      assert Members(d) == a + ":" + b;
      Assoc4(a, b, "}", rest);
    } else {
      var m := Members(d[1..]);
      assert Members(d) == a + ":" + b + "," + m;
      Assoc5(a, b, m, rest);
    }
  }

  lemma Assoc4(a: string, b: string, c: string, rest: string)
    ensures (a + ":" + b) + c + rest == a + (":" + (b + (c + rest)))
  {
  }

  lemma Assoc5(a: string, b: string, m: string, rest: string)
    ensures (a + ":" + b + "," + m) + "}" + rest == a + (":" + (b + ("," + (m + "}" + rest))))
  {
  }

  lemma {:induction false} ReadMembersRoundTrip(d: Entries<string>, rest: string)
    requires |d| >= 1
    ensures ReadMembers(Members(d) + "}" + rest) == Some((d, rest))
    decreases |d|
  {
    var k, v := d[0].0, d[0].1;
    var tail := if |d| == 1 then "}" + rest else "," + (Members(d[1..]) + "}" + rest);
    MembersSplit(d, rest);
    ReadMembersStep(k, v, tail);
    if |d| > 1 {
      assert tail[1..] == Members(d[1..]) + "}" + rest;
      ReadMembersRoundTrip(d[1..], rest);
      assert [(k, v)] + d[1..] == d;
    } else {
      assert tail[1..] == rest;
      assert [(k, v)] == d;
    }
  }

  lemma ReadObjectMembers(d: Entries<string>, rest: string)
    ensures ReadObject("{" + (Members(d) + "}" + rest)) == Some((d, rest))
  {
    var t := Members(d) + "}" + rest;
    var s := "{" + t;
    assert s[1..] == t;
    if |d| == 0 {
      assert t == "}" + rest;
      assert s[2..] == rest;
    } else {
      MembersFirst(d);
      ReadMembersRoundTrip(d, rest);
      ReadObjectUnfold(s);
    }
  }

  lemma MembersFirst(d: Entries<string>)
    requires |d| >= 1
    ensures |Members(d)| > 0 && Members(d)[0] == '"'
  {
    var q := Quote(d[0].0);
    if |d| == 1 {
      assert Members(d) == q + ":" + Quote(d[0].1);
    } else {
      assert Members(d) == q + ":" + Quote(d[0].1) + "," + Members(d[1..]);
    }
  }

  lemma ReadObjectUnfold(s: string)
    requires |s| >= 2 && s[0] == '{' && s[1] != '}'
    ensures ReadObject(s) == ReadMembers(s[1..])
  {
  }

  /** The JSON text of an object decodes to exactly its defined entries, in order. */
  lemma StringifyObjectRoundTrip(m: Entries<Option<string>>, rest: string)
    ensures ReadObject(StringifyObject(m) + rest) == Some((Defined(m), rest))
  {
    var body := Members(Defined(m));
    Regroup(body, rest);
    ReadObjectMembers(Defined(m), rest);
  }

  lemma Regroup(body: string, rest: string)
    ensures ("{" + body + "}") + rest == "{" + (body + "}" + rest)
  {
  }
}
