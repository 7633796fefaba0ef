/**
 * The JavaScript string built-ins the core relies on: `toLowerCase` (ASCII letters only),
 * `includes`, `trim`, and the decimal rendering of a number inside a template literal.
 */
module Text {

  // ---------------------------------------------------------------------------
  // toLowerCase, restricted to the ASCII letters
  // ---------------------------------------------------------------------------

  predicate IsUpper(c: char) {
    'A' <= c <= 'Z'
  }

  function LowerChar(c: char): (d: char)
    ensures IsUpper(c) ==> d as int == c as int + 32
    ensures !IsUpper(c) ==> d == c
    ensures !IsUpper(d)
  {
    if IsUpper(c) then (c as int + 32) as char else c
  }

  /** `s.toLowerCase()`, with every character outside `A`..`Z` left as it is. */
  function Lower(s: string): (r: string)
    ensures |r| == |s|
    ensures forall i :: 0 <= i < |s| ==> r[i] == LowerChar(s[i])
  {
    seq(|s|, i requires 0 <= i < |s| => LowerChar(s[i]))
  }

  /** Lower-casing twice is lower-casing once. */
  lemma LowerIdempotent(s: string)
    ensures Lower(Lower(s)) == Lower(s)
  {
  }

  // ---------------------------------------------------------------------------
  // includes
  // ---------------------------------------------------------------------------

  /** `needle` occurs in `hay` starting at index `i`. */
  predicate OccursAt(hay: string, needle: string, i: int) {
    0 <= i && i + |needle| <= |hay| && hay[i..i + |needle|] == needle
  }

  predicate IsPrefix(p: string, s: string) {
    |p| <= |s| && s[..|p|] == p
  }

  /** `hay.includes(needle)`, as a left-to-right scan for a match. */
  predicate Includes(hay: string, needle: string)
    decreases |hay|
  {
    IsPrefix(needle, hay) || (hay != [] && Includes(hay[1..], needle))
  }

  /** An occurrence in the tail of `hay` is an occurrence in `hay` one index further on. */
  lemma OccursShift(hay: string, needle: string, i: nat)
    requires hay != []
    ensures OccursAt(hay[1..], needle, i) <==> OccursAt(hay, needle, i + 1)
  {
    if i + 1 + |needle| <= |hay| {
      assert hay[1..][i..i + |needle|] == hay[i + 1..i + 1 + |needle|];
    }
  }

  /** The scan reaches every occurrence. */
  lemma {:induction false} IncludesFromOccurs(hay: string, needle: string, i: int)
    requires OccursAt(hay, needle, i)
    ensures Includes(hay, needle)
    decreases i
  {
    if i > 0 {
      OccursShift(hay, needle, i - 1);
      IncludesFromOccurs(hay[1..], needle, i - 1);
    }
  }

  /** A successful scan stops at an occurrence. */
  lemma {:induction false} OccursFromIncludes(hay: string, needle: string) returns (i: nat)
    requires Includes(hay, needle)
    ensures OccursAt(hay, needle, i)
    decreases |hay|
  {
    if IsPrefix(needle, hay) {
      i := 0;
    } else {
      var j := OccursFromIncludes(hay[1..], needle);
      OccursShift(hay, needle, j);
      i := j + 1;
    }
  }

  /** The scan finds a match exactly when the needle occurs at some index. */
  lemma IncludesIff(hay: string, needle: string)
    ensures Includes(hay, needle) <==> exists i :: OccursAt(hay, needle, i)
  {
    if Includes(hay, needle) {
      var i := OccursFromIncludes(hay, needle);
      assert OccursAt(hay, needle, i);
    }
    forall i | OccursAt(hay, needle, i) ensures Includes(hay, needle) {
      IncludesFromOccurs(hay, needle, i);
    }
  }

  /** A needle longer than the haystack is never included. */
  lemma {:induction false} IncludesTooLong(hay: string, needle: string)
    requires |needle| > |hay|
    ensures !Includes(hay, needle)
    decreases |hay|
  {
    if hay != [] {
      IncludesTooLong(hay[1..], needle);
    }
  }

  // ---------------------------------------------------------------------------
  // trim
  // ---------------------------------------------------------------------------

  /** The WhiteSpace and LineTerminator code points that `String.prototype.trim` removes. */
  predicate IsWhitespace(c: char) {
    var n := c as int;
    n == 0x09 || n == 0x0A || n == 0x0B || n == 0x0C || n == 0x0D || n == 0x20
    || n == 0xA0 || n == 0x1680 || (0x2000 <= n <= 0x200A) || n == 0x2028 || n == 0x2029
    || n == 0x202F || n == 0x205F || n == 0x3000 || n == 0xFEFF
  }

  predicate AllWhitespace(s: string) {
    forall c :: c in s ==> IsWhitespace(c)
  }

  /** Removes leading whitespace: the result is a suffix of `s` that starts with a non-blank. */
  function TrimStart(s: string): (r: string)
    ensures exists k :: 0 <= k <= |s| && AllWhitespace(s[..k]) && r == s[k..]
    ensures r != [] ==> !IsWhitespace(r[0])
    decreases |s|
  {
    if s != [] && IsWhitespace(s[0]) then
      var r := TrimStart(s[1..]);
      var k :| 0 <= k <= |s[1..]| && AllWhitespace(s[1..][..k]) && r == s[1..][k..];
      assert s[..k + 1] == [s[0]] + s[1..][..k];
      assert r == s[k + 1..];
      r
    else
      assert AllWhitespace(s[..0]);
      s
  }

  /** Removes trailing whitespace: the result is a prefix of `s` that ends with a non-blank. */
  function TrimEnd(s: string): (r: string)
    ensures exists k :: 0 <= k <= |s| && AllWhitespace(s[k..]) && r == s[..k]
    ensures r != [] ==> !IsWhitespace(r[|r| - 1])
    decreases |s|
  {
    if s != [] && IsWhitespace(s[|s| - 1]) then
      var s' := s[..|s| - 1];
      var r := TrimEnd(s');
      var k :| 0 <= k <= |s'| && AllWhitespace(s'[k..]) && r == s'[..k];
      assert s[k..] == s'[k..] + [s[|s| - 1]];
      assert r == s[..k];
      r
    else
      assert AllWhitespace(s[|s|..]);
      s
  }

  /** `s.trim()`. */
  function Trim(s: string): string {
    TrimEnd(TrimStart(s))
  }

  /** A non-empty string is blank exactly when its first character and its tail are. */
  lemma AllWhitespaceCons(s: string)
    requires s != []
    ensures AllWhitespace(s) <==> IsWhitespace(s[0]) && AllWhitespace(s[1..])
  {
    assert s == [s[0]] + s[1..];
    assert forall c :: c in s <==> c == s[0] || c in s[1..];
  }

  /** Trimming the start leaves nothing exactly when every character is whitespace. */
  lemma {:induction false} TrimStartEmptyIff(s: string)
    ensures TrimStart(s) == [] <==> AllWhitespace(s)
    decreases |s|
  {
    if s != [] {
      AllWhitespaceCons(s);
      if IsWhitespace(s[0]) {
        TrimStartEmptyIff(s[1..]);
      }
    }
  }

  /** Trimming the end of a string that starts with a non-blank leaves that character. */
  lemma {:induction false} TrimEndKeepsFirst(t: string)
    requires t != [] && !IsWhitespace(t[0])
    ensures TrimEnd(t) != []
    decreases |t|
  {
    if IsWhitespace(t[|t| - 1]) {
      TrimEndKeepsFirst(t[..|t| - 1]);
    }
  }

  /** `s.trim()` is falsy (the empty string) exactly when every character of `s` is whitespace. */
  lemma TrimEmptyIff(s: string)
    ensures Trim(s) == [] <==> AllWhitespace(s)
  {
    TrimStartEmptyIff(s);
    var t := TrimStart(s);
    if t != [] {
      TrimEndKeepsFirst(t);
    }
  }

  /** A query is blank when its trimmed form is empty. */
  predicate IsBlank(s: string) {
    Trim(s) == []
  }

  lemma LowerCharWhitespace(c: char)
    ensures IsWhitespace(LowerChar(c)) == IsWhitespace(c)
  {
    if IsUpper(c) {
      assert 97 <= LowerChar(c) as int <= 122;
    }
  }

  lemma LowerAllWhitespace(s: string)
    ensures AllWhitespace(Lower(s)) == AllWhitespace(s)
  {
    var l := Lower(s);
    if AllWhitespace(s) {
      forall i | 0 <= i < |l| ensures IsWhitespace(l[i]) {
        LowerCharWhitespace(s[i]);
        assert s[i] in s;
      }
    }
    if AllWhitespace(l) {
      forall i | 0 <= i < |s| ensures IsWhitespace(s[i]) {
        LowerCharWhitespace(s[i]);
        assert l[i] in l;
      }
    }
  }

  /** Lower-casing changes no whitespace character and creates none, so it keeps a string blank
      or non-blank. */
  lemma LowerKeepsBlank(s: string)
    ensures IsBlank(Lower(s)) == IsBlank(s)
  {
    TrimEmptyIff(s);
    TrimEmptyIff(Lower(s));
    LowerAllWhitespace(s);
  }

  // ---------------------------------------------------------------------------
  // Decimal rendering of numbers in template literals
  // ---------------------------------------------------------------------------

  function DigitChar(d: nat): (c: char)
    requires d < 10
    ensures '0' <= c <= '9' && c as int - '0' as int == d
  {
    ('0' as int + d) as char
  }

  /** `${n}` for a non-negative integer: its decimal digits, without leading zeros. */
  function NatToString(n: nat): (s: string)
    ensures |s| >= 1
    ensures forall i :: 0 <= i < |s| ==> '0' <= s[i] <= '9'
    ensures |s| > 1 ==> s[0] != '0'
  {
    if n < 10 then [DigitChar(n)] else NatToString(n / 10) + [DigitChar(n % 10)]
  }

  /** `${n}` for any integer. */
  function IntToString(n: int): string {
    if n < 0 then "-" + NatToString(-n) else NatToString(n)
  }

  /** Reads decimal digits back into a number. */
  function ParseDigits(s: string): nat
    requires forall i :: 0 <= i < |s| ==> '0' <= s[i] <= '9'
  {
    if s == [] then 0
    else ParseDigits(s[..|s| - 1]) * 10 + (s[|s| - 1] as int - '0' as int)
  }

  /** Reading the rendering back gives the number, so distinct numbers render differently. */
  lemma {:induction false} NatToStringRoundTrip(n: nat)
    ensures ParseDigits(NatToString(n)) == n
  {
    if n >= 10 {
      NatToStringRoundTrip(n / 10);
      var s := NatToString(n);
      assert s[..|s| - 1] == NatToString(n / 10);
    }
  }

  lemma NatToStringInjective(a: nat, b: nat)
    ensures NatToString(a) == NatToString(b) ==> a == b
  {
    NatToStringRoundTrip(a);
    NatToStringRoundTrip(b);
  }
}
