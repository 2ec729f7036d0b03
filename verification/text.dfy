/** String helpers with JavaScript's semantics: `Array.prototype.join`,
    `String.prototype.split` with a non-empty separator, decimal rendering
    of integers (as a template literal renders a number), and the ASCII
    part of `toUpperCase`/`toLowerCase`. */
module Text {
  import opened Wrappers

  // ---------------------------------------------------------------------
  // Characters

  predicate IsUpper(c: char) {
    'A' <= c <= 'Z'
  }

  predicate IsLower(c: char) {
    'a' <= c <= 'z'
  }

  /** ASCII upper-casing; every other character is left as it is. */
  function ToUpper(c: char): (u: char)
    ensures IsLower(c) ==> IsUpper(u) && u as int == c as int - 32
    ensures !IsLower(c) ==> u == c
  {
    if IsLower(c) then (c as int - 32) as char else c
  }

  /** ASCII lower-casing; every other character is left as it is. */
  function ToLower(c: char): (l: char)
    ensures IsUpper(c) ==> IsLower(l) && l as int == c as int + 32
    ensures !IsUpper(c) ==> l == c
    ensures !IsUpper(l)
  {
    if IsUpper(c) then (c as int + 32) as char else c
  }

  // ---------------------------------------------------------------------
  // Join

  /** `parts.join(sep)`: no separator before the first part or after the last. */
  function Join(parts: seq<string>, sep: string): string
  {
    if |parts| == 0 then ""
    else if |parts| == 1 then parts[0]
    else parts[0] + sep + Join(parts[1..], sep)
  }

  // ---------------------------------------------------------------------
  // Search and split

  predicate OccursAt(s: string, pat: string, i: nat) {
    i + |pat| <= |s| && s[i..i + |pat|] == pat
  }

  /** The first index at or after `i` where `pat` occurs in `s`. */
  function FindFrom(s: string, pat: string, i: nat): (r: Option<nat>)
    requires |pat| > 0
    ensures r.Some? ==> i <= r.value && OccursAt(s, pat, r.value)
    ensures r.Some? ==> forall j :: i <= j < r.value ==> !OccursAt(s, pat, j)
    ensures r.None? ==> forall j :: i <= j ==> !OccursAt(s, pat, j)
    decreases |s| - i
  {
    if i + |pat| > |s| then None
    else if s[i..i + |pat|] == pat then Some(i)
    else FindFrom(s, pat, i + 1)
  }

  /** `s.indexOf(pat)`, with `None` for -1. */
  function Find(s: string, pat: string): Option<nat>
    requires |pat| > 0
  {
    FindFrom(s, pat, 0)
  }

  /** `s.split(sep)`: cut at every leftmost non-overlapping occurrence of `sep`.
      Joining the pieces back gives `s`, and no piece contains `sep`. */
  function Split(s: string, sep: string): (r: seq<string>)
    requires |sep| > 0
    ensures |r| >= 1
    ensures Join(r, sep) == s
    ensures forall k :: 0 <= k < |r| ==> Find(r[k], sep).None?
    ensures Find(s, sep).None? ==> r == [s]
    ensures Find(s, sep).Some? ==>
      var k := Find(s, sep).value;
      |r| >= 2 && r[0] == s[..k] && r[1..] == Split(s[k + |sep|..], sep)
    decreases |s|
  {
    match Find(s, sep)
    case None => [s]
    case Some(i) =>
      var head := s[..i];
      var rest := Split(s[i + |sep|..], sep);
      assert s == head + sep + s[i + |sep|..];
      assert Find(head, sep).None? by {
        forall j: nat | OccursAt(head, sep, j)
          ensures false
        {
          assert head[j..j + |sep|] == s[j..j + |sep|];
          assert OccursAt(s, sep, j);
        }
      }
      [head] + rest
  }

  /** A search that succeeds inside `a` gives the same answer in any extension of `a`. */
  lemma {:induction false} FindFromExtend(a: string, b: string, pat: string, i: nat)
    requires |pat| > 0
    requires FindFrom(a, pat, i).Some?
    ensures FindFrom(a + b, pat, i) == FindFrom(a, pat, i)
    decreases |a| - i
  {
    assert i + |pat| <= |a|;
    assert (a + b)[i..i + |pat|] == a[i..i + |pat|];
    if a[i..i + |pat|] != pat {
      FindFromExtend(a, b, pat, i + 1);
    }
  }

  /** The pieces can be told apart after joining: the first occurrence of
      `sep` after each non-last piece is the one the join put there, and the
      last piece has none. */
  predicate Separable(parts: seq<string>, sep: string)
    requires |sep| > 0
  {
    && |parts| >= 1
    && Find(parts[|parts| - 1], sep).None?
    && forall k :: 0 <= k < |parts| - 1 ==> Find(parts[k] + sep, sep) == Some(|parts[k]|)
  }

  /** Splitting a join gives back the parts exactly when they are separable. */
  lemma {:induction false} SplitJoin(parts: seq<string>, sep: string)
    requires |sep| > 0
    requires Separable(parts, sep)
    ensures Split(Join(parts, sep), sep) == parts
    decreases |parts|
  {
    if |parts| > 1 {
      var p := parts[0];
      var j := Join(parts[1..], sep);
      assert Find(p + sep, sep) == Some(|p|);
      FindFromExtend(p + sep, j, sep, 0);
      assert Join(parts, sep) == (p + sep) + j;
      assert (p + sep + j)[|p| + |sep|..] == j;
      assert (p + sep + j)[..|p|] == p;
      assert Separable(parts[1..], sep) by {
        forall k | 0 <= k < |parts[1..]| - 1
          ensures Find(parts[1..][k] + sep, sep) == Some(|parts[1..][k]|)
        {
          assert parts[1..][k] == parts[k + 1];
        }
      }
      SplitJoin(parts[1..], sep);
    }
  }

  /** With a one-character separator, separable means no part contains it. */
  lemma SingleCharSeparable(parts: seq<string>, c: char)
    requires |parts| >= 1
    requires forall k :: 0 <= k < |parts| ==> c !in parts[k]
    ensures Separable(parts, [c])
  {
    forall k | 0 <= k < |parts|
      ensures Find(parts[k], [c]).None?
      ensures Find(parts[k] + [c], [c]) == Some(|parts[k]|)
    {
      NoOccurrence(parts[k], c);
      var s := parts[k] + [c];
      forall j | 0 <= j < |parts[k]|
        ensures !OccursAt(s, [c], j)
      {
        assert s[j..j + 1] == [parts[k][j]];
      }
      assert OccursAt(s, [c], |parts[k]|);
      FindFirst(s, [c], |parts[k]|);
    }
  }

  lemma NoOccurrence(s: string, c: char)
    requires c !in s
    ensures Find(s, [c]).None?
  {
    forall j: nat | j < |s|
      ensures !OccursAt(s, [c], j)
    {
      assert s[j] != c;
    }
  }

  /** A separator whose first character occurs in no part separates them. */
  lemma LeadCharSeparable(parts: seq<string>, sep: string)
    requires |sep| > 0 && |parts| >= 1
    requires forall k :: 0 <= k < |parts| ==> sep[0] !in parts[k]
    ensures Separable(parts, sep)
  {
    forall k | 0 <= k < |parts|
      ensures Find(parts[k], sep).None?
      ensures Find(parts[k] + sep, sep) == Some(|parts[k]|)
    {
      var p := parts[k];
      var s := p + sep;
      forall j | 0 <= j < |p|
        ensures !OccursAt(s, sep, j)
      {
        assert s[j] == p[j];
      }
      assert s[|p|..|p| + |sep|] == sep;
      FindFirst(s, sep, |p|);
    }
  }

  /** `Find` returns the first occurrence. */
  lemma FindFirst(s: string, pat: string, i: nat)
    requires |pat| > 0
    requires OccursAt(s, pat, i)
    requires forall j :: 0 <= j < i ==> !OccursAt(s, pat, j)
    ensures Find(s, pat) == Some(i)
  {
  }

  // ---------------------------------------------------------------------
  // Decimal numbers

  function DigitChar(d: nat): (c: char)
    requires d < 10
    ensures '0' <= c <= '9'
  {
    ('0' as int + d) as char
  }

  predicate IsDigit(c: char) {
    '0' <= c <= '9'
  }

  /** The decimal digits of `n`, without leading zeros. */
  function NatToString(n: nat): (s: string)
    ensures |s| >= 1
    ensures forall k :: 0 <= k < |s| ==> IsDigit(s[k])
    ensures |s| > 1 ==> s[0] != '0'
  {
    if n < 10 then [DigitChar(n)] else NatToString(n / 10) + [DigitChar(n % 10)]
  }

  /** How JavaScript renders an integer-valued number as text. */
  function IntToString(i: int): (s: string)
    ensures |s| >= 1
    ensures i < 0 <==> s[0] == '-'
  {
    if i < 0 then "-" + NatToString(-i) else NatToString(i)
  }

  /** Reads a string of decimal digits back. */
  function ParseDigits(s: string): nat
    requires forall k :: 0 <= k < |s| ==> IsDigit(s[k])
  {
    if |s| == 0 then 0
    else
      assert IsDigit(s[|s| - 1]);
      ParseDigits(s[..|s| - 1]) * 10 + (s[|s| - 1] as int - '0' as int)
  }

  lemma {:induction false} ParseNatToString(n: nat)
    ensures ParseDigits(NatToString(n)) == n
  {
    if n >= 10 {
      var s := NatToString(n);
      assert s[..|s| - 1] == NatToString(n / 10);
      ParseNatToString(n / 10);
    }
  }

  lemma NatToStringInjective(m: nat, n: nat)
    requires NatToString(m) == NatToString(n)
    ensures m == n
  {
    ParseNatToString(m);
    ParseNatToString(n);
  }

  lemma IntToStringInjective(m: int, n: int)
    requires IntToString(m) == IntToString(n)
    ensures m == n
  {
    var s := IntToString(m);
    if m < 0 {
      assert s[1..] == NatToString(-m) == NatToString(-n);
      NatToStringInjective(-m, -n);
    } else {
      NatToStringInjective(m, n);
    }
  }
}
