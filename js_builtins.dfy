/**
 * The JavaScript text primitives the codec is built from, on strings of
 * characters: `Number.prototype.toString(16)`, `String.prototype.padStart`,
 * `parseInt(_, 16)`, `String.prototype.replace` with a string pattern and
 * `String.prototype.match(/.{2}/g)`.
 */
module JsBuiltins {
  import opened Wrappers

  // ---------------------------------------------------------------------
  // Hex digits and the value of a digit string
  // ---------------------------------------------------------------------

  /** A digit `toString(16)` writes. */
  predicate IsLowerHexDigit(c: char) {
    ('0' <= c <= '9') || ('a' <= c <= 'f')
  }

  /** A digit `parseInt(_, 16)` accepts, in either case. */
  predicate IsHexDigit(c: char) {
    IsLowerHexDigit(c) || ('A' <= c <= 'F')
  }

  predicate AllLowerHex(s: string) {
    forall i :: 0 <= i < |s| ==> IsLowerHexDigit(s[i])
  }

  predicate AllHex(s: string) {
    forall i :: 0 <= i < |s| ==> IsHexDigit(s[i])
  }

  lemma LowerHexConcat(x: string, y: string)
    requires AllLowerHex(x) && AllLowerHex(y)
    ensures AllLowerHex(x + y)
  {
    forall i | 0 <= i < |x + y|
      ensures IsLowerHexDigit((x + y)[i])
    {
      if i < |x| {
        assert (x + y)[i] == x[i];
      } else {
        assert (x + y)[i] == y[i - |x|];
      }
    }
  }

  function Pow16(n: nat): (p: nat)
    ensures p >= 1
  {
    if n == 0 then 1 else 16 * Pow16(n - 1)
  }

  function DigitValue(c: char): (d: nat)
    requires IsHexDigit(c)
    ensures d < 16
  {
    if '0' <= c <= '9' then c as int - '0' as int
    else if 'a' <= c <= 'f' then c as int - 'a' as int + 10
    else c as int - 'A' as int + 10
  }

  /** The lower-case digit for `d`. */
  function HexDigit(d: nat): (c: char)
    requires d < 16
    ensures IsLowerHexDigit(c) && DigitValue(c) == d
  {
    if d < 10 then ('0' as int + d) as char else ('a' as int + d - 10) as char
  }

  /** Two lower-case digits with the same value are the same digit. */
  lemma LowerDigitInjective(a: char, b: char)
    requires IsLowerHexDigit(a) && IsLowerHexDigit(b)
    requires DigitValue(a) == DigitValue(b)
    ensures a == b
  {
  }

  /** The number a string of hex digits denotes, most significant digit first. */
  function HexValue(s: string): nat
    requires AllHex(s)
  {
    if s == [] then 0 else HexValue(s[..|s| - 1]) * 16 + DigitValue(s[|s| - 1])
  }

  lemma {:induction false} HexValueBound(s: string)
    requires AllHex(s)
    ensures HexValue(s) < Pow16(|s|)
  {
    if s != [] {
      HexValueBound(s[..|s| - 1]);
    }
  }

  /** Appending digits shifts what was there by one hex place per digit. */
  lemma {:induction false} HexValueAppend(x: string, y: string)
    requires AllHex(x) && AllHex(y)
    ensures AllHex(x + y)
    ensures HexValue(x + y) == HexValue(x) * Pow16(|y|) + HexValue(y)
  {
    if y == [] {
      assert x + y == x;
    } else {
      var y' := y[..|y| - 1];
      assert (x + y)[..|x + y| - 1] == x + y';
      HexValueAppend(x, y');
      var d := DigitValue(y[|y| - 1]);
      assert HexValue(x + y) == HexValue(x + y') * 16 + d;
      assert HexValue(y) == HexValue(y') * 16 + d;
      assert Pow16(|y|) == Pow16(|y'|) * 16;
      MulAssoc16(HexValue(x), Pow16(|y'|));
    }
  }

  lemma MulAssoc16(a: nat, b: nat)
    ensures (a * b) * 16 == a * (b * 16)
  {
  }

  /** A string of `n` copies of `c`. */
  function Repeat(c: char, n: nat): (r: string)
    ensures |r| == n && forall i :: 0 <= i < n ==> r[i] == c
  {
    if n == 0 then [] else [c] + Repeat(c, n - 1)
  }

  lemma RepeatSplit(c: char, m: nat, n: nat)
    ensures Repeat(c, m + n) == Repeat(c, m) + Repeat(c, n)
  {
    assert Repeat(c, m + n) == Repeat(c, m) + Repeat(c, n);
  }

  /** Leading zeros do not change the value of a digit string. */
  lemma {:induction false} LeadingZeros(k: nat, s: string)
    requires AllHex(s)
    ensures AllHex(Repeat('0', k) + s)
    ensures HexValue(Repeat('0', k) + s) == HexValue(s)
  {
    ZerosValue(k);
    HexValueAppend(Repeat('0', k), s);
  }

  lemma {:induction false} ZerosValue(k: nat)
    ensures AllHex(Repeat('0', k)) && HexValue(Repeat('0', k)) == 0
  {
    if k > 0 {
      ZerosValue(k - 1);
      assert Repeat('0', k)[..k - 1] == Repeat('0', k - 1);
    }
  }

  /** A fixed-width lower-case hex string is determined by its value. */
  lemma {:induction false} HexUnique(x: string, y: string)
    requires AllLowerHex(x) && AllLowerHex(y) && |x| == |y|
    requires HexValue(x) == HexValue(y)
    ensures x == y
  {
    if x != [] {
      var n := |x|;
      var dx, dy := DigitValue(x[n - 1]), DigitValue(y[n - 1]);
      var px, py := HexValue(x[..n - 1]), HexValue(y[..n - 1]);
      DigitSplit(px, dx, py, dy);
      LowerDigitInjective(x[n - 1], y[n - 1]);
      HexUnique(x[..n - 1], y[..n - 1]);
      assert x == x[..n - 1] + [x[n - 1]];
      assert y == y[..n - 1] + [y[n - 1]];
    }
  }

  lemma DigitSplit(p: nat, d: nat, q: nat, e: nat)
    requires d < 16 && e < 16 && p * 16 + d == q * 16 + e
    ensures p == q && d == e
  {
  }

  // ---------------------------------------------------------------------
  // Number.prototype.toString(16) and String.prototype.padStart
  // ---------------------------------------------------------------------

  /** `v.toString(16)`: the shortest lower-case hex digits for `v` ("0" for zero). */
  function ToHex(v: nat): (s: string)
    ensures 1 <= |s| && AllLowerHex(s)
    ensures HexValue(s) == v
    ensures |s| > 1 ==> s[0] != '0'
    decreases v
  {
    if v < 16 then [HexDigit(v)]
    else
      var s := ToHex(v / 16) + [HexDigit(v % 16)];
      assert s[..|s| - 1] == ToHex(v / 16);
      s
  }

  /** `toString(16)` needs at most `n` digits for a value below 16^n. */
  lemma {:induction false} ToHexLength(v: nat, n: nat)
    requires 1 <= n
    ensures v < Pow16(n) ==> |ToHex(v)| <= n
    decreases v
  {
    if v >= 16 && v < Pow16(n) {
      assert n >= 2;
      assert v / 16 < Pow16(n - 1);
      ToHexLength(v / 16, n - 1);
    }
  }

  /** `s.padStart(n, fill)` with a one-character fill string. */
  function PadStart(s: string, n: nat, fill: char): (r: string)
    ensures |r| == if |s| >= n then |s| else n
    ensures r[|r| - |s|..] == s
    ensures forall i :: 0 <= i < |r| - |s| ==> r[i] == fill
  {
    if |s| >= n then s else Repeat(fill, n - |s|) + s
  }

  /** Zero-padding keeps the value and the digits lower-case. */
  lemma ZeroPadValue(s: string, n: nat)
    requires AllLowerHex(s)
    ensures AllLowerHex(PadStart(s, n, '0'))
    ensures HexValue(PadStart(s, n, '0')) == HexValue(s)
  {
    if |s| < n {
      LeadingZeros(n - |s|, s);
    }
  }

  // ---------------------------------------------------------------------
  // parseInt(_, 16)
  // ---------------------------------------------------------------------

  /** The characters `parseInt` skips at the start: WhiteSpace and LineTerminator of ECMAScript. */
  predicate IsJsWhitespace(c: char) {
    c == '\t' || c == '\U{B}' || c == '\U{C}' || c == ' ' || c == '\U{A0}' || c == '\U{FEFF}'
    || c == '\U{1680}' || ('\U{2000}' <= c <= '\U{200A}') || c == '\U{202F}' || c == '\U{205F}'
    || c == '\U{3000}' || IsLineTerminator(c)
  }

  predicate IsLineTerminator(c: char) {
    c == '\n' || c == '\r' || c == '\U{2028}' || c == '\U{2029}'
  }

  function TrimStart(s: string): (r: string)
    ensures |r| <= |s| && r == s[|s| - |r|..]
    ensures r != [] ==> !IsJsWhitespace(r[0])
  {
    if s != [] && IsJsWhitespace(s[0]) then TrimStart(s[1..]) else s
  }

  /** The longest prefix of `s` made of hex digits. */
  function HexPrefix(s: string): (r: string)
    ensures AllHex(r) && |r| <= |s| && r == s[..|r|]
    ensures |r| < |s| ==> !IsHexDigit(s[|r|])
  {
    if s != [] && IsHexDigit(s[0]) then [s[0]] + HexPrefix(s[1..]) else []
  }

  lemma {:induction false} HexPrefixOfHex(s: string)
    requires AllHex(s)
    ensures HexPrefix(s) == s
  {
    if s != [] {
      HexPrefixOfHex(s[1..]);
    }
  }

  /**
   * `parseInt(s, 16)`: skip leading whitespace, take one optional sign,
   * drop a `0x`/`0X` prefix, then read the longest run of hex digits.
   * `None` stands for NaN (no digit at all).
   */
  function ParseInt16(s: string): (r: Option<int>)
  {
    var t := TrimStart(s);
    var negative := t != [] && t[0] == '-';
    var u := if t != [] && (t[0] == '-' || t[0] == '+') then t[1..] else t;
    var w := if |u| >= 2 && u[0] == '0' && (u[1] == 'x' || u[1] == 'X') then u[2..] else u;
    var digits := HexPrefix(w);
    if digits == [] then None
    else if negative then Some(-(HexValue(digits) as int))
    else Some(HexValue(digits))
  }

  /** parseInt reads a `0x`-prefixed run of hex digits as its value. */
  lemma ParsePrefixedHex(digits: string)
    requires digits != [] && AllHex(digits)
    ensures ParseInt16("0x" + digits) == Some(HexValue(digits))
  {
    var s := "0x" + digits;
    assert s[0] == '0' && s[1] == 'x' && !IsJsWhitespace(s[0]);
    assert s[0] != '-' && s[0] != '+';
    assert TrimStart(s) == s;
    assert s[2..] == digits;
    HexPrefixOfHex(digits);
  }

  /** parseInt reads two hex digits with no prefix as their value. */
  lemma ParseHexPair(p: string)
    requires |p| == 2 && AllHex(p)
    ensures ParseInt16(p) == Some(HexValue(p))
  {
    assert IsHexDigit(p[0]) && IsHexDigit(p[1]);
    assert !IsJsWhitespace(p[0]) && p[0] != '-' && p[0] != '+';
    assert TrimStart(p) == p;
    assert p[1] != 'x' && p[1] != 'X';
    HexPrefixOfHex(p);
  }

  // ---------------------------------------------------------------------
  // String.prototype.replace with a string pattern
  // ---------------------------------------------------------------------

  predicate OccursAt(s: string, pat: string, i: nat) {
    i + |pat| <= |s| && s[i..i + |pat|] == pat
  }

  /** `s.indexOf(pat)`: the first position where `pat` occurs, or -1. */
  function IndexOf(s: string, pat: string): (k: int)
    ensures k == -1 || (0 <= k && OccursAt(s, pat, k))
    ensures forall j: nat :: OccursAt(s, pat, j) ==> 0 <= k <= j
    decreases |s|
  {
    if OccursAt(s, pat, 0) then 0
    else if s == [] then -1
    else
      var k := IndexOf(s[1..], pat);
      OccursLater(s, pat);
      if k == -1 then -1 else k + 1
  }

  /** An occurrence past the first position is an occurrence in the tail, one place earlier. */
  lemma OccursLater(s: string, pat: string)
    requires s != []
    ensures forall j: nat :: OccursAt(s, pat, j) && j > 0 ==> OccursAt(s[1..], pat, j - 1)
  {
    forall j: nat | OccursAt(s, pat, j) && j > 0
      ensures OccursAt(s[1..], pat, j - 1)
    {
      assert s[1..][j - 1..j - 1 + |pat|] == s[j..j + |pat|];
    }
  }

  /**
   * `s.replace(pat, rep)`: with no occurrence `s` is returned as it is;
   * otherwise the first occurrence, and only it, is replaced.
   */
  function ReplaceFirst(s: string, pat: string, rep: string): (r: string)
    ensures (forall j: nat :: !OccursAt(s, pat, j)) ==> r == s
    ensures forall k: nat :: OccursAt(s, pat, k) && (forall j: nat :: j < k ==> !OccursAt(s, pat, j)) ==>
      r == s[..k] + rep + s[k + |pat|..]
  {
    var k := IndexOf(s, pat);
    if k < 0 then s else s[..k] + rep + s[k + |pat|..]
  }

  /** Removing `0x` from a string that starts with it removes exactly that prefix. */
  lemma ReplaceLeadingPrefix(h: string)
    ensures ReplaceFirst("0x" + h, "0x", "") == h
  {
    assert OccursAt("0x" + h, "0x", 0);
    assert ("0x" + h)[2..] == h;
  }

  /** A string of hex digits holds no `0x`, so replacing it changes nothing. */
  lemma ReplaceInHex(h: string)
    requires AllHex(h)
    ensures ReplaceFirst(h, "0x", "") == h
  {
    forall j: nat
      ensures !OccursAt(h, "0x", j)
    {
      if j + 2 <= |h| {
        NoPrefixInHex(h, j);
      }
    }
  }

  /** Two hex digits never spell `0x`: the `x` is not a hex digit. */
  lemma NoPrefixInHex(h: string, j: nat)
    requires AllHex(h) && j + 2 <= |h|
    ensures h[j..j + 2] != "0x"
  {
    assert h[j..j + 2][1] == h[j + 1];
    assert IsHexDigit(h[j + 1]);
  }

  // ---------------------------------------------------------------------
  // String.prototype.match(/.{2}/g)
  // ---------------------------------------------------------------------

  /**
   * The matches of `/.{2}/g`, left to right: two characters neither of which
   * is a line terminator (`.` does not match one). The empty sequence stands
   * for the `null` that `match` returns when nothing matches.
   */
  function MatchPairs(s: string): (ps: seq<string>)
    ensures forall k :: 0 <= k < |ps| ==> |ps[k]| == 2
    ensures |ps| <= |s| / 2
    decreases |s|
  {
    if |s| < 2 then []
    else if !IsLineTerminator(s[0]) && !IsLineTerminator(s[1]) then [s[..2]] + MatchPairs(s[2..])
    else MatchPairs(s[1..])
  }

  /** On hex digits the matches are the consecutive pairs; an odd last digit is dropped. */
  lemma {:induction false} MatchPairsOfHex(h: string)
    requires AllHex(h)
    ensures |MatchPairs(h)| == |h| / 2
    ensures forall k :: 0 <= k < |h| / 2 ==> MatchPairs(h)[k] == h[2 * k..2 * k + 2]
    decreases |h|
  {
    if |h| >= 2 {
      assert !IsLineTerminator(h[0]) && !IsLineTerminator(h[1]);
      MatchPairsOfHex(h[2..]);
      forall k | 0 < k < |h| / 2
        ensures MatchPairs(h)[k] == h[2 * k..2 * k + 2]
      {
        assert MatchPairs(h)[k] == MatchPairs(h[2..])[k - 1];
        assert h[2..][2 * (k - 1)..2 * (k - 1) + 2] == h[2 * k..2 * k + 2];
      }
    }
  }
}
