/**
 * String operations of the Rust standard library that the templating code
 * relies on: `str::contains`, `str::replace`, `str::trim`, `[String]::join`
 * and the decimal `Display` of an unsigned integer.  Strings are sequences
 * of Unicode scalar values (`seq<char>`).
 */
module Text {

  /** `p` is a prefix of `s`. */
  predicate IsPrefix(p: string, s: string) {
    |p| <= |s| && s[..|p|] == p
  }

  /** `str::contains`: `t` occurs somewhere in `s` as a contiguous run. */
  predicate Contains(s: string, t: string)
    decreases |s|
  {
    IsPrefix(t, s) || (|s| > 0 && Contains(s[1..], t))
  }

  lemma {:induction false} ContainsWitness(s: string, t: string) returns (k: nat)
    requires Contains(s, t)
    ensures k + |t| <= |s| && s[k..k + |t|] == t
    decreases |s|
  {
    if IsPrefix(t, s) {
      k := 0;
    } else {
      var k' := ContainsWitness(s[1..], t);
      k := k' + 1;
      assert s[1..][k'..k' + |t|] == s[k..k + |t|];
    }
  }

  /**
   * `str::replace`: every non-overlapping occurrence of `pat`, found left to
   * right, is replaced by `rep`.
   */
  function Replace(s: string, pat: string, rep: string): (r: string)
    requires |pat| > 0
    ensures !Contains(s, pat) ==> r == s
    decreases |s|
  {
    if |s| == 0 then ""
    else if IsPrefix(pat, s) then rep + Replace(s[|pat|..], pat, rep)
    else [s[0]] + Replace(s[1..], pat, rep)
  }

  /** A pattern without `c` starts `a + [c] + b` exactly when it starts `a`. */
  lemma PrefixBeforeChar(a: string, c: char, b: string, pat: string)
    requires c !in pat
    ensures IsPrefix(pat, a + [c] + b) <==> IsPrefix(pat, a)
  {
    var s := a + [c] + b;
    assert |a| < |pat| ==> pat[|a|] == s[|a|] || !IsPrefix(pat, s);
    if |pat| <= |a| {
      assert s[..|pat|] == a[..|pat|];
    }
  }

  /** Replacing splits around any character that the pattern does not contain. */
  lemma {:induction false} ReplaceAroundChar(a: string, c: char, b: string, pat: string, rep: string)
    requires |pat| > 0 && c !in pat
    ensures Replace(a + [c] + b, pat, rep) == Replace(a, pat, rep) + [c] + Replace(b, pat, rep)
    decreases |a|, 1
  {
    var s := a + [c] + b;
    PrefixBeforeChar(a, c, b, pat);
    if |a| == 0 {
      assert s == [c] + b && s[1..] == b;
      assert Replace(s, pat, rep) == [c] + Replace(b, pat, rep);
    } else if IsPrefix(pat, a) {
      ReplaceAroundCharMatch(a, c, b, pat, rep);
    } else {
      ReplaceAroundCharSkip(a, c, b, pat, rep);
    }
  }

  lemma {:induction false} ReplaceAroundCharMatch(a: string, c: char, b: string, pat: string, rep: string)
    requires |pat| > 0 && c !in pat && |a| > 0 && IsPrefix(pat, a)
    ensures Replace(a + [c] + b, pat, rep) == Replace(a, pat, rep) + [c] + Replace(b, pat, rep)
    decreases |a|, 0
  {
    var s := a + [c] + b;
    PrefixBeforeChar(a, c, b, pat);
    assert s[|pat|..] == a[|pat|..] + [c] + b;
    ReplaceAroundChar(a[|pat|..], c, b, pat, rep);
    assert Replace(s, pat, rep) == rep + Replace(s[|pat|..], pat, rep);
  }

  lemma {:induction false} ReplaceAroundCharSkip(a: string, c: char, b: string, pat: string, rep: string)
    requires |pat| > 0 && c !in pat && |a| > 0 && !IsPrefix(pat, a)
    ensures Replace(a + [c] + b, pat, rep) == Replace(a, pat, rep) + [c] + Replace(b, pat, rep)
    decreases |a|, 0
  {
    var s := a + [c] + b;
    PrefixBeforeChar(a, c, b, pat);
    assert s[0] == a[0] && s[1..] == a[1..] + [c] + b;
    ReplaceAroundChar(a[1..], c, b, pat, rep);
    assert Replace(s, pat, rep) == [a[0]] + Replace(s[1..], pat, rep);
  }

  /** Replacing a pattern in the pattern itself yields the replacement. */
  lemma ReplaceWhole(pat: string, rep: string)
    requires |pat| > 0
    ensures Replace(pat, pat, rep) == rep
  {
    assert pat[|pat|..] == "";
  }

  /** `[String]::join(sep)`. */
  function Join(items: seq<string>, sep: string): string
    decreases |items|
  {
    if |items| == 0 then ""
    else if |items| == 1 then items[0]
    else items[0] + sep + Join(items[1..], sep)
  }

  /** `str::replace` distributes over a join when the separator is a single
      character that the pattern does not contain. */
  lemma {:induction false} ReplaceJoin(items: seq<string>, c: char, pat: string, rep: string)
    requires |pat| > 0 && c !in pat
    ensures Replace(Join(items, [c]), pat, rep) == Join(ReplaceEach(items, pat, rep), [c])
    decreases |items|
  {
    if |items| == 0 {
    } else if |items| == 1 {
    } else {
      assert Join(items, [c]) == items[0] + [c] + Join(items[1..], [c]);
      ReplaceAroundChar(items[0], c, Join(items[1..], [c]), pat, rep);
      ReplaceJoin(items[1..], c, pat, rep);
      assert ReplaceEach(items, pat, rep)[1..] == ReplaceEach(items[1..], pat, rep);
    }
  }

  function ReplaceEach(items: seq<string>, pat: string, rep: string): (r: seq<string>)
    requires |pat| > 0
    ensures |r| == |items|
    ensures forall k :: 0 <= k < |items| ==> r[k] == Replace(items[k], pat, rep)
  {
    seq(|items|, k requires 0 <= k < |items| => Replace(items[k], pat, rep))
  }

  /** The Unicode `White_Space` property, which `str::trim` uses. */
  predicate IsWhitespace(c: char) {
    ('\U{0009}' <= c <= '\U{000D}') || c == ' ' || c == '\U{0085}' || c == '\U{00A0}' ||
    c == '\U{1680}' || ('\U{2000}' <= c <= '\U{200A}') || c == '\U{2028}' || c == '\U{2029}' ||
    c == '\U{202F}' || c == '\U{205F}' || c == '\U{3000}'
  }

  function TrimStart(s: string): (r: string)
    ensures |r| <= |s| && r == s[|s| - |r|..]
    ensures r == [] || !IsWhitespace(r[0])
    ensures forall k :: 0 <= k < |s| - |r| ==> IsWhitespace(s[k])
    decreases |s|
  {
    if |s| > 0 && IsWhitespace(s[0]) then TrimStart(s[1..]) else s
  }

  function TrimEnd(s: string): (r: string)
    ensures |r| <= |s| && r == s[..|r|]
    ensures r == [] || !IsWhitespace(r[|r| - 1])
    ensures forall k :: |r| <= k < |s| ==> IsWhitespace(s[k])
    decreases |s|
  {
    if |s| > 0 && IsWhitespace(s[|s| - 1]) then TrimEnd(s[..|s| - 1]) else s
  }

  /** `str::trim`: the longest infix with no leading or trailing whitespace. */
  function Trim(s: string): (r: string)
  {
    TrimEnd(TrimStart(s))
  }

  /** What `str::trim` leaves is a contiguous infix of its input, it neither
      starts nor ends with whitespace, and everything cut away is whitespace. */
  lemma TrimShape(s: string) returns (lo: nat)
    ensures lo + |Trim(s)| <= |s| && Trim(s) == s[lo..lo + |Trim(s)|]
    ensures Trim(s) == [] || (!IsWhitespace(Trim(s)[0]) && !IsWhitespace(Trim(s)[|Trim(s)| - 1]))
    ensures forall k :: 0 <= k < lo || lo + |Trim(s)| <= k < |s| ==> IsWhitespace(s[k])
  {
    lo := TrimInfix(s);
    TrimEnds(s);
  }

  lemma TrimInfix(s: string) returns (lo: nat)
    ensures lo + |Trim(s)| <= |s| && Trim(s) == s[lo..lo + |Trim(s)|]
    ensures forall k :: 0 <= k < lo || lo + |Trim(s)| <= k < |s| ==> IsWhitespace(s[k])
  {
    var t := TrimStart(s);
    lo := |s| - |t|;
    TrimEndCut(s, t, lo);
  }

  lemma TrimEnds(s: string)
    ensures Trim(s) == [] || (!IsWhitespace(Trim(s)[0]) && !IsWhitespace(Trim(s)[|Trim(s)| - 1]))
  {
    var t := TrimStart(s);
    var r := TrimEnd(t);
    assert r != [] ==> r[0] == t[0];
  }

  /** What `TrimEnd` cuts from the suffix `t` of `s` is whitespace of `s`. */
  lemma TrimEndCut(s: string, t: string, lo: nat)
    requires lo <= |s| && t == s[lo..]
    ensures lo + |TrimEnd(t)| <= |s| && TrimEnd(t) == s[lo..lo + |TrimEnd(t)|]
    ensures forall k :: lo + |TrimEnd(t)| <= k < |s| ==> IsWhitespace(s[k])
  {
    var r := TrimEnd(t);
    forall k | lo + |r| <= k < |s| ensures IsWhitespace(s[k]) {
      assert s[k] == t[k - lo];
    }
  }

  /** A string is trimmed to nothing exactly when it is all whitespace. */
  lemma TrimEmptyIff(s: string)
    ensures Trim(s) == [] <==> forall k :: 0 <= k < |s| ==> IsWhitespace(s[k])
  {
    var lo := TrimShape(s);
    assert Trim(s) != [] ==> s[lo] == Trim(s)[0];
  }

  /** The characters '0'..'9'. */
  function Digit(d: nat): (c: char)
    requires d < 10
    ensures '0' <= c <= '9'
  {
    ['0', '1', '2', '3', '4', '5', '6', '7', '8', '9'][d]
  }

  function DigitValue(c: char): nat
    requires '0' <= c <= '9'
  {
    (c as int - '0' as int) as nat
  }

  /** The `Display` of an unsigned integer: its decimal digits, no sign, no
      leading zero. */
  function Decimal(n: nat): (r: string)
    ensures |r| > 0 && forall k :: 0 <= k < |r| ==> '0' <= r[k] <= '9'
    ensures |r| > 1 ==> r[0] != '0'
    decreases n
  {
    if n < 10 then [Digit(n)] else Decimal(n / 10) + [Digit(n % 10)]
  }

  /** Reading a string of decimal digits back as a number. */
  function DecimalValue(s: string): nat
    requires forall k :: 0 <= k < |s| ==> '0' <= s[k] <= '9'
    decreases |s|
  {
    if |s| == 0 then 0 else 10 * DecimalValue(s[..|s| - 1]) + DigitValue(s[|s| - 1])
  }

  /** Formatting a count and reading it back gives the count. */
  lemma {:induction false} DecimalRoundTrip(n: nat)
    ensures DecimalValue(Decimal(n)) == n
    decreases n
  {
    var r := Decimal(n);
    if n >= 10 {
      DecimalRoundTrip(n / 10);
      assert r[..|r| - 1] == Decimal(n / 10);
    }
  }

  /** Distinct counts are formatted differently. */
  lemma DecimalInjective(m: nat, n: nat)
    requires Decimal(m) == Decimal(n)
    ensures m == n
  {
    DecimalRoundTrip(m);
    DecimalRoundTrip(n);
  }
}
