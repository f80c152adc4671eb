/** String primitives the resume service relies on: Python's substring test
    (`pat in s`), `str.endswith`, ASCII `str.lower` and the decimal rendering
    used by the f-string `f"{score}%"`. */
module Strings {

  datatype Option<T> = None | Some(value: T)

  /** `pat` occurs in `s` starting at index `i`. */
  predicate OccursAt(pat: string, s: string, i: nat) {
    i + |pat| <= |s| && s[i..i + |pat|] == pat
  }

  /** The declarative meaning of "pat is a substring of s". */
  ghost predicate IsSubstring(pat: string, s: string) {
    exists i: nat :: OccursAt(pat, s, i)
  }

  /** Occurrences in `s[1..]` are the occurrences in `s`, shifted by one. */
  lemma OccursInTail(pat: string, s: string, j: nat)
    requires |s| > 0
    ensures OccursAt(pat, s[1..], j) <==> OccursAt(pat, s, j + 1)
  {
    if j + 1 + |pat| <= |s| {
      assert s[1..][j..j + |pat|] == s[j + 1..j + 1 + |pat|];
    }
  }

  /** Leftmost index at which `pat` occurs in `s`, the search behind Python's
      `pat in s` and `s.split(pat)`. */
  function IndexOf(s: string, pat: string): (r: Option<nat>)
    decreases |s|
    ensures r.Some? ==> OccursAt(pat, s, r.value)
    ensures r.Some? ==> forall j: nat :: j < r.value ==> !OccursAt(pat, s, j)
    ensures r.None? ==> !IsSubstring(pat, s)
  {
    if |s| < |pat| then None
    else if s[..|pat|] == pat then Some(0)
    else
      match IndexOf(s[1..], pat)
      case None =>
        assert forall j: nat :: !OccursAt(pat, s, j) by {
          forall j: nat ensures !OccursAt(pat, s, j) {
            if j > 0 { OccursInTail(pat, s, j - 1); }
          }
        }
        None
      case Some(i) =>
        OccursInTail(pat, s, i);
        assert forall j: nat :: j < i + 1 ==> !OccursAt(pat, s, j) by {
          forall j: nat | j < i + 1 ensures !OccursAt(pat, s, j) {
            if j > 0 { OccursInTail(pat, s, j - 1); }
          }
        }
        Some(i + 1)
  }

  /** Python's `pat in s`: the search finds something exactly when the
      pattern occurs somewhere in `s`. */
  function Contains(s: string, pat: string): (b: bool)
    ensures b <==> IsSubstring(pat, s)
  {
    var r := IndexOf(s, pat);
    assert r.Some? ==> OccursAt(pat, s, r.value);
    r.Some?
  }

  /** A substring of a substring is a substring. */
  lemma {:induction false} SubstringTransitive(a: string, b: string, c: string)
    requires IsSubstring(a, b) && IsSubstring(b, c)
    ensures IsSubstring(a, c)
  {
    var i: nat :| OccursAt(a, b, i);
    var j: nat :| OccursAt(b, c, j);
    assert c[j..j + |b|] == b && b[i..i + |a|] == a;
    forall k | 0 <= k < |a| ensures c[j + i..j + i + |a|][k] == a[k] {
      assert a[k] == b[i + k] == c[j + i + k];
    }
    assert OccursAt(a, c, j + i);
  }

  /** Python's `s.endswith(suffix)`. */
  predicate EndsWith(s: string, suffix: string) {
    |suffix| <= |s| && s[|s| - |suffix|..] == suffix
  }

  /** `s.endswith(suffix)` holds exactly when `s` is some string followed by `suffix`. */
  lemma EndsWithIff(s: string, suffix: string)
    ensures EndsWith(s, suffix) <==> exists stem: string :: stem + suffix == s
  {
    if EndsWith(s, suffix) {
      assert s[..|s| - |suffix|] + suffix == s;
    }
    if exists stem: string :: stem + suffix == s {
      var stem: string :| stem + suffix == s;
      assert s[|s| - |suffix|..] == suffix;
    }
  }

  predicate IsUpper(c: char) {
    'A' <= c <= 'Z'
  }

  /** ASCII lower-casing of one character. */
  function LowerChar(c: char): (d: char)
    ensures !IsUpper(d)
    ensures IsUpper(c) ==> d as int == c as int + 32
    ensures !IsUpper(c) ==> d == c
  {
    if IsUpper(c) then (c as int + 32) as char else c
  }

  /** Python's `s.lower()` restricted to ASCII letters. */
  function ToLower(s: string): (r: string)
    ensures |r| == |s|
    ensures forall i :: 0 <= i < |s| ==> r[i] == LowerChar(s[i])
  {
    if s == [] then [] else [LowerChar(s[0])] + ToLower(s[1..])
  }

  /** A string with no upper-case ASCII letter. */
  predicate IsLower(s: string) {
    forall i :: 0 <= i < |s| ==> !IsUpper(s[i])
  }

  /** Lower-casing leaves no upper-case letter and changes nothing else in
      a string that is already lower case. */
  lemma LowerIsLower(s: string)
    ensures IsLower(ToLower(s))
    ensures IsLower(s) ==> ToLower(s) == s
    ensures ToLower(ToLower(s)) == ToLower(s)
  {
    if IsLower(s) {
      LowerFixesLower(s);
    }
  }

  /** A string already in lower case is its own lower-casing. */
  lemma LowerFixesLower(s: string)
    requires IsLower(s)
    ensures ToLower(s) == s
  {
    var r := ToLower(s);
    forall i | 0 <= i < |s| ensures r[i] == s[i] {
      assert r[i] == LowerChar(s[i]);
    }
  }

  /** Lower-casing works character by character, so it commutes with
      slicing. */
  lemma LowerSlice(s: string, i: nat, j: nat)
    requires i <= j <= |s|
    ensures ToLower(s)[i..j] == ToLower(s[i..j])
  {
    var t := ToLower(s[i..j]);
    var u := ToLower(s);
    forall k | 0 <= k < j - i ensures u[i..j][k] == t[k] {
      assert u[i..j][k] == u[i + k] == LowerChar(s[i + k]);
      assert t[k] == LowerChar(s[i..j][k]) == LowerChar(s[i + k]);
    }
    assert u[i..j] == t;
  }

  /** A lower-case keyword that occurs in `s` in any letter case occurs in
      `s.lower()`; for a lower-case `s` the converse is trivial. */
  lemma {:induction false} LowerKeepsKeyword(k: string, s: string)
    requires IsLower(k)
    requires IsSubstring(k, s)
    ensures IsSubstring(k, ToLower(s))
  {
    var i: nat :| OccursAt(k, s, i);
    LowerSlice(s, i, i + |k|);
    LowerFixesLower(k);
    var u := ToLower(s);
    assert u[i..i + |k|] == ToLower(s[i..i + |k|]) == ToLower(k) == k;
    assert OccursAt(k, u, i);
  }

  predicate IsDigit(c: char) {
    '0' <= c <= '9'
  }

  function DigitValue(c: char): (d: nat)
    requires IsDigit(c)
    ensures d < 10
  {
    c as int - '0' as int
  }

  /** The character of a decimal digit, read back by DigitValue. */
  function DigitChar(d: nat): (c: char)
    requires d < 10
    ensures IsDigit(c) && DigitValue(c) == d
  {
    ('0' as int + d) as char
  }

  /** The decimal rendering of `n` that Python's `str(n)` (and `f"{n}"`)
      produces: digits only, and no leading zero unless `n` is zero. */
  function Decimal(n: nat): (r: string)
    ensures |r| >= 1
    ensures forall i :: 0 <= i < |r| ==> IsDigit(r[i])
    ensures r[0] == '0' ==> n == 0 && r == "0"
  {
    if n < 10 then [DigitChar(n)] else Decimal(n / 10) + [DigitChar(n % 10)]
  }

  /** The number a string of decimal digits denotes. */
  function DecimalValue(s: string): nat
    requires forall i :: 0 <= i < |s| ==> IsDigit(s[i])
  {
    if s == [] then 0 else DecimalValue(s[..|s| - 1]) * 10 + DigitValue(s[|s| - 1])
  }

  /** Reading the rendering back gives the number. */
  lemma {:induction false} DecimalRoundTrip(n: nat)
    ensures DecimalValue(Decimal(n)) == n
  {
    if n >= 10 {
      DecimalRoundTrip(n / 10);
      var r := Decimal(n);
      assert r[..|r| - 1] == Decimal(n / 10);
      assert DigitValue(r[|r| - 1]) == n % 10;
      assert n == n / 10 * 10 + n % 10;
    }
  }
}
