/**
 * The few pieces of Go's `strings`, `strconv` and `unicode` packages that the merger uses,
 * over strings modelled as sequences of Unicode code points.
 */
module Text {
  import opened Wrappers

  /** True when `p` occurs in `s` starting at offset `i`. */
  predicate HasPrefixAt(s: string, i: nat, p: string) {
    i + |p| <= |s| && s[i..i + |p|] == p
  }

  /** The empty string is a unit of concatenation. */
  lemma ConcatEmpty(s: string)
    ensures "" + s == s && s + "" == s
  {
  }

  /** A slice of `s` is the same slice of `p + s`, moved by `|p|`. */
  lemma SliceBehindPrefix(p: string, s: string, a: nat, b: nat)
    requires a <= b <= |s|
    ensures (p + s)[|p| + a..|p| + b] == s[a..b]
  {
  }

  /** Concatenation is associative. */
  lemma ConcatAssoc<T>(a: seq<T>, b: seq<T>, c: seq<T>)
    ensures a + (b + c) == a + b + c
  {
  }

  /** A sequence is its prefix followed by the rest. */
  lemma TakeDrop<T>(s: seq<T>, i: nat)
    requires i <= |s|
    ensures s[..i] + s[i..] == s
  {
  }

  /** One differing character is enough to rule out an occurrence. */
  lemma NotPrefixAt(s: string, i: nat, p: string, k: nat)
    requires k < |p| && (i + k >= |s| || s[i + k] != p[k])
    ensures !HasPrefixAt(s, i, p)
  {
    if i + |p| <= |s| {
      assert s[i..i + |p|][k] == s[i + k];
    }
  }

  // ---------------------------------------------------------------------------
  // strings.ReplaceAll(s, p, "")
  // ---------------------------------------------------------------------------

  /**
   * `strings.ReplaceAll(s, p, "")` for a non-empty `p`: scanning left to right, every
   * non-overlapping occurrence of `p` is cut out; the text left behind is not scanned again.
   */
  function RemoveAll(s: string, p: string): (r: string)
    requires |p| > 0
    ensures |r| <= |s|
  {
    RemoveFrom(s, p, 0)
  }

  /** The scan of `RemoveAll`, from offset `k` of `s` on. */
  function RemoveFrom(s: string, p: string, k: nat): (r: string)
    requires |p| > 0 && k <= |s|
    ensures |r| <= |s| - k
    decreases |s| - k
  {
    if k == |s| then []
    else if HasPrefixAt(s, k, p) then RemoveFrom(s, p, k + |p|)
    else [s[k]] + RemoveFrom(s, p, k + 1)
  }

  /** The scan from offset `k + m` of `s` is the scan from offset `m` of its suffix `t == s[k..]`. */
  lemma {:induction false} ShiftFrom(s: string, t: string, p: string, k: nat, m: nat)
    requires |p| > 0 && k + m <= |s| && t == s[k..]
    ensures RemoveFrom(s, p, k + m) == RemoveFrom(t, p, m)
    decreases |s| - k - m, 1
  {
    if k + m < |s| {
      if HasPrefixAt(s, k + m, p) {
        ShiftSkip(s, t, p, k, m);
      } else {
        ShiftKeep(s, t, p, k, m);
      }
    }
  }

  /** An occurrence at `m` in `t == s[k..]` is an occurrence at `k + m` in `s`. */
  lemma PrefixAtShift(s: string, t: string, p: string, k: nat, m: nat)
    requires k + m <= |s| && t == s[k..]
    ensures HasPrefixAt(s, k + m, p) == HasPrefixAt(t, m, p)
  {
    if k + m + |p| <= |s| {
      assert t[m..m + |p|] == s[k + m..k + m + |p|];
    }
  }

  /** `ShiftFrom` where both scans cut out an occurrence. */
  lemma {:induction false} ShiftSkip(s: string, t: string, p: string, k: nat, m: nat)
    requires |p| > 0 && k + m < |s| && t == s[k..]
    requires HasPrefixAt(s, k + m, p)
    ensures RemoveFrom(s, p, k + m) == RemoveFrom(t, p, m)
    decreases |s| - k - m, 0
  {
    PrefixAtShift(s, t, p, k, m);
    ShiftFrom(s, t, p, k, m + |p|);
    assert k + (m + |p|) == k + m + |p|;
  }

  /** `ShiftFrom` where both scans keep a character. */
  lemma {:induction false} ShiftKeep(s: string, t: string, p: string, k: nat, m: nat)
    requires |p| > 0 && k + m < |s| && t == s[k..]
    requires !HasPrefixAt(s, k + m, p)
    ensures RemoveFrom(s, p, k + m) == RemoveFrom(t, p, m)
    decreases |s| - k - m, 0
  {
    PrefixAtShift(s, t, p, k, m);
    ShiftFrom(s, t, p, k, m + 1);
    assert k + (m + 1) == k + m + 1;
    assert t[m] == s[k + m];
  }

  /** `RemoveAll` of a suffix of `s` is the scan of `s` from where the suffix starts. */
  lemma RemoveAllOfSuffix(s: string, p: string, k: nat)
    requires |p| > 0 && k <= |s|
    ensures RemoveAll(s[k..], p) == RemoveFrom(s, p, k)
  {
    ShiftFrom(s, s[k..], p, k, 0);
  }

  /** Nothing is removed from offset `k` on where `p` does not occur there. */
  lemma {:induction false} RemoveFromAbsent(s: string, p: string, k: nat)
    requires |p| > 0 && k <= |s|
    requires forall i: nat :: k <= i ==> !HasPrefixAt(s, i, p)
    ensures RemoveFrom(s, p, k) == s[k..]
    decreases |s| - k
  {
    if k < |s| {
      assert !HasPrefixAt(s, k, p);
      RemoveFromAbsent(s, p, k + 1);
      assert [s[k]] + s[k + 1..] == s[k..];
    }
  }

  /** Nothing is removed from a string in which `p` does not occur. */
  lemma RemoveAllAbsent(s: string, p: string)
    requires |p| > 0
    requires forall i: nat :: !HasPrefixAt(s, i, p)
    ensures RemoveAll(s, p) == s
  {
    RemoveFromAbsent(s, p, 0);
  }

  /** From offset `k`, the text up to the next occurrence at `i` is kept and that occurrence dropped. */
  lemma {:induction false} RemoveFromLeftmost(s: string, p: string, k: nat, i: nat)
    requires |p| > 0 && k <= i
    requires HasPrefixAt(s, i, p)
    requires forall j: nat :: k <= j < i ==> !HasPrefixAt(s, j, p)
    ensures RemoveFrom(s, p, k) == s[k..i] + RemoveFrom(s, p, i + |p|)
    decreases i - k
  {
    if k < i {
      assert !HasPrefixAt(s, k, p);
      RemoveFromLeftmost(s, p, k + 1, i);
      var rest := RemoveFrom(s, p, i + |p|);
      assert [s[k]] + (s[k + 1..i] + rest) == ([s[k]] + s[k + 1..i]) + rest;
      assert [s[k]] + s[k + 1..i] == s[k..i];
    } else {
      assert s[k..i] + RemoveFrom(s, p, i + |p|) == RemoveFrom(s, p, i + |p|);
    }
  }

  /**
   * Go's algorithm as written: find the leftmost occurrence, keep what precedes it, drop it,
   * and carry on with the text after it.
   */
  lemma RemoveAllLeftmost(s: string, p: string, i: nat)
    requires |p| > 0
    requires HasPrefixAt(s, i, p)
    requires forall j: nat :: j < i ==> !HasPrefixAt(s, j, p)
    ensures RemoveAll(s, p) == s[..i] + RemoveAll(s[i + |p|..], p)
  {
    RemoveFromLeftmost(s, p, 0, i);
    RemoveAllOfSuffix(s, p, i + |p|);
    assert s[0..i] == s[..i];
  }

  /** From offset `k`, an occurrence at `i` shortens the result by `|p|`. */
  lemma {:induction false} RemoveFromShrinks(s: string, p: string, k: nat, i: nat)
    requires |p| > 0 && k <= i
    requires HasPrefixAt(s, i, p)
    ensures |RemoveFrom(s, p, k)| <= |s| - k - |p|
    decreases i - k
  {
    if !HasPrefixAt(s, k, p) {
      assert k < i;
      RemoveFromShrinks(s, p, k + 1, i);
    }
  }

  /** Each occurrence that is cut out shortens the string by `|p|`. */
  lemma RemoveAllShrinks(s: string, p: string, i: nat)
    requires |p| > 0
    requires HasPrefixAt(s, i, p)
    ensures |RemoveAll(s, p)| <= |s| - |p|
  {
    RemoveFromShrinks(s, p, 0, i);
  }

  // ---------------------------------------------------------------------------
  // strings.TrimSpace
  // ---------------------------------------------------------------------------

  /** Go's `unicode.IsSpace`: the Latin-1 spaces and the other Unicode White_Space code points. */
  predicate IsSpace(c: char) {
    c == '\t' || c == '\n' || c == '\U{000B}' || c == '\U{000C}' || c == '\r' || c == ' ' ||
    c == '\U{0085}' || c == '\U{00A0}' || c == '\U{1680}' ||
    ('\U{2000}' <= c <= '\U{200A}') ||
    c == '\U{2028}' || c == '\U{2029}' || c == '\U{202F}' || c == '\U{205F}' || c == '\U{3000}'
  }

  /** The first index at or after `i` that does not hold white space (or `|s|`). */
  function SkipSpace(s: string, i: nat): (k: nat)
    requires i <= |s|
    ensures i <= k <= |s|
    ensures forall m :: i <= m < k ==> IsSpace(s[m])
    ensures k < |s| ==> !IsSpace(s[k])
    decreases |s| - i
  {
    if i < |s| && IsSpace(s[i]) then SkipSpace(s, i + 1) else i
  }

  /** The index, going back from `j` but not below `lo`, just after the last non-space. */
  function BackSpace(s: string, lo: nat, j: nat): (k: nat)
    requires lo <= j <= |s|
    ensures lo <= k <= j
    ensures forall m :: k <= m < j ==> IsSpace(s[m])
    ensures k > lo ==> !IsSpace(s[k - 1])
    decreases j
  {
    if j > lo && IsSpace(s[j - 1]) then BackSpace(s, lo, j - 1) else j
  }

  /**
   * `strings.TrimSpace`: the part of `s` between its leading and its trailing white space.
   * The result is empty exactly when `s` is all white space.
   */
  function TrimSpace(s: string): (r: string)
    ensures r != [] ==> !IsSpace(r[0]) && !IsSpace(r[|r| - 1])
    ensures r == [] <==> forall k :: 0 <= k < |s| ==> IsSpace(s[k])
  {
    var a := SkipSpace(s, 0);
    var b := BackSpace(s, a, |s|);
    assert a < b ==> s[a..b][0] == s[a] && s[a..b][b - a - 1] == s[b - 1];
    s[a..b]
  }

  /** A string with no white space at either end is its own trimmed form. */
  lemma TrimSpaceUnchanged(s: string)
    requires s != [] && !IsSpace(s[0]) && !IsSpace(s[|s| - 1])
    ensures TrimSpace(s) == s
  {
    assert SkipSpace(s, 0) == 0;
    assert BackSpace(s, 0, |s|) == |s|;
  }

  /** The trimmed string is one contiguous piece of `s`, with only white space around it. */
  lemma TrimSpaceIsInfix(s: string) returns (a: nat)
    ensures a + |TrimSpace(s)| <= |s| && TrimSpace(s) == s[a..a + |TrimSpace(s)|]
    ensures forall k :: 0 <= k < a ==> IsSpace(s[k])
    ensures forall k :: a + |TrimSpace(s)| <= k < |s| ==> IsSpace(s[k])
  {
    a := SkipSpace(s, 0);
    var b := BackSpace(s, a, |s|);
    assert TrimSpace(s) == s[a..b];
  }

  // ---------------------------------------------------------------------------
  // Decimal numbers: fmt's %d and strconv.Itoa
  // ---------------------------------------------------------------------------

  predicate IsDigit(c: char) {
    '0' <= c <= '9'
  }

  predicate AllDigits(s: string) {
    forall k :: 0 <= k < |s| ==> IsDigit(s[k])
  }

  function DigitChar(d: nat): (c: char)
    requires d < 10
    ensures IsDigit(c)
  {
    ('0' as int + d) as char
  }

  /** The decimal digits of `n`, most significant first, without leading zeros. */
  function NatToDecimal(n: nat): (r: string)
    ensures |r| > 0 && AllDigits(r)
    ensures r[0] == '0' ==> n == 0
    decreases n
  {
    if n < 10 then [DigitChar(n)] else NatToDecimal(n / 10) + [DigitChar(n % 10)]
  }

  /** `fmt.Sprintf("%d", n)`, equally `strconv.Itoa(n)`: a minus sign, then the digits. */
  function IntToDecimal(n: int): (r: string)
  {
    if n < 0 then "-" + NatToDecimal(-n) else NatToDecimal(n)
  }

  /** The value of a string of decimal digits. */
  function DigitsValue(s: string): nat
    requires AllDigits(s)
  {
    if s == [] then 0 else DigitsValue(s[..|s| - 1]) * 10 + (s[|s| - 1] as int - '0' as int)
  }

  /** Reads back a number written by `IntToDecimal`. */
  function ParseInt(s: string): Option<int>
  {
    if |s| > 1 && s[0] == '-' && AllDigits(s[1..]) then var v: int := DigitsValue(s[1..]); Some(-v)
    else if |s| > 0 && AllDigits(s) then Some(DigitsValue(s))
    else None
  }

  lemma {:induction false} DigitsValueOfDecimal(n: nat)
    ensures DigitsValue(NatToDecimal(n)) == n
    decreases n
  {
    if n >= 10 {
      var d := NatToDecimal(n / 10);
      DigitsValueOfDecimal(n / 10);
      assert (d + [DigitChar(n % 10)])[..|d|] == d;
    }
  }

  /** Decimal formatting loses nothing: it can be read back. */
  lemma DecimalRoundTrip(n: int)
    ensures ParseInt(IntToDecimal(n)) == Some(n)
  {
    if n < 0 {
      DigitsValueOfDecimal(-n);
      assert IntToDecimal(n)[1..] == NatToDecimal(-n);
    } else {
      DigitsValueOfDecimal(n);
    }
  }

  /** Different numbers are written differently. */
  lemma DecimalInjective(m: int, n: int)
    requires IntToDecimal(m) == IntToDecimal(n)
    ensures m == n
  {
    DecimalRoundTrip(m);
    DecimalRoundTrip(n);
  }
}
