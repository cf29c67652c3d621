/** Python string semantics the core relies on: slice and search bounds (which
    count negative indices from the end and clamp out-of-range ones),
    `str.rfind` for a one-character needle, and `str(int)` for decimals. */
module PyText {
  import opened Wrappers

  /** How Python clamps a slice or search bound `i` against a length `n`:
      a negative bound counts from the end, and the result lies in [0, n]. */
  function ClampIndex(i: int, n: nat): (r: nat)
    ensures r <= n
    ensures 0 <= i <= n ==> r == i
  {
    if i < 0 then (if i + n < 0 then 0 else i + n)
    else if i > n then n
    else i
  }

  /** Clamping never widens the gap between two ordered bounds. (It does not
      keep their order: `s[-1:2]` is empty while `s[0:-1]` is not.) */
  lemma ClampGap(i: int, j: int, n: nat)
    ensures i <= j ==> ClampIndex(j, n) <= ClampIndex(i, n) + (j - i)
  {
    if i < 0 {
      assert ClampIndex(i, n) >= i + n;
    }
  }

  /** Python `max(a, b)` and `min(a, b)` on integers. */
  function Max(a: int, b: int): int { if a < b then b else a }

  function Min(a: int, b: int): int { if a < b then a else b }

  /** Python `s[i:j]` (step 1): the piece of `s` that starts at the clamped
      lower bound and ends at the clamped upper one, or nothing when the
      clamped bounds are crossed. */
  function Slice(s: string, i: int, j: int): (r: string)
    ensures var a := ClampIndex(i, |s|);
      a + |r| == Max(a, ClampIndex(j, |s|)) && r == s[a..a + |r|]
  {
    var a, b := ClampIndex(i, |s|), ClampIndex(j, |s|);
    if a < b then s[a..b] else ""
  }

  /** A slice with bounds inside the string is the subsequence they delimit,
      and no slice is longer than the distance between its bounds. */
  lemma SliceFacts(s: string, i: int, j: int)
    ensures 0 <= i <= j <= |s| ==> Slice(s, i, j) == s[i..j]
    ensures i <= j ==> |Slice(s, i, j)| <= j - i
  {
    ClampGap(i, j, |s|);
  }

  /** No `c` in `s[lo..hi]` (positions past the end are ignored). */
  predicate Absent(s: string, c: char, lo: nat, hi: nat) {
    forall k :: lo <= k < hi && k < |s| ==> s[k] != c
  }

  /** The highest index in [lo, hi) holding `c`, or -1 when there is none. */
  function LastIndexOf(s: string, c: char, lo: nat, hi: nat): (r: int)
    requires lo <= hi <= |s|
    ensures r == -1 <==> Absent(s, c, lo, hi)
    ensures r != -1 ==> lo <= r < hi && s[r] == c && Absent(s, c, r + 1, hi)
    decreases hi - lo
  {
    if lo == hi then -1
    else if s[hi - 1] == c then hi - 1
    else LastIndexOf(s, c, lo, hi - 1)
  }

  /** An occurrence of `c` with none after it below `hi` is the last one. */
  lemma {:induction false} LastIndexOfIs(s: string, c: char, lo: nat, hi: nat, r: nat)
    requires lo <= r < hi <= |s|
    requires s[r] == c && Absent(s, c, r + 1, hi)
    ensures LastIndexOf(s, c, lo, hi) == r
    decreases hi - lo
  {
    if r < hi - 1 {
      LastIndexOfIs(s, c, lo, hi - 1, r);
    }
  }

  /** Python `s.rfind(c, i, j)` for a single character `c`: both bounds are
      clamped as for a slice; an empty range finds nothing. */
  function RFind(s: string, c: char, i: int, j: int): (r: int)
    ensures r == -1 || (ClampIndex(i, |s|) <= r < ClampIndex(j, |s|) && s[r] == c)
    ensures r == -1 ==> Absent(s, c, ClampIndex(i, |s|), ClampIndex(j, |s|))
    ensures 0 <= i <= j <= |s| ==> (r == -1 <==> Absent(s, c, i, j))
    ensures r != -1 ==> Absent(s, c, r + 1, ClampIndex(j, |s|))
  {
    var a, b := ClampIndex(i, |s|), ClampIndex(j, |s|);
    if a <= b then LastIndexOf(s, c, a, b) else -1
  }

  predicate IsDigit(ch: char) { '0' <= ch <= '9' }

  predicate AllDigits(s: string) { forall k :: 0 <= k < |s| ==> IsDigit(s[k]) }

  function DigitChar(d: nat): (ch: char)
    requires d < 10
    ensures IsDigit(ch)
  {
    "0123456789"[d]
  }

  function DigitValue(ch: char): (d: nat)
    requires IsDigit(ch)
    ensures d < 10
  {
    (ch as int - '0' as int) as nat
  }

  /** Python `str(n)` for a natural number: decimal digits, no leading zero. */
  function NatToDecimal(n: nat): (s: string)
    ensures |s| > 0 && AllDigits(s)
    ensures s[0] == '0' <==> n == 0
    decreases n
  {
    if n < 10 then [DigitChar(n)] else NatToDecimal(n / 10) + [DigitChar(n % 10)]
  }

  /** The value of a string of decimal digits. */
  function DecimalToNat(s: string): nat
    requires AllDigits(s)
    decreases |s|
  {
    if s == [] then 0 else DecimalToNat(s[..|s| - 1]) * 10 + DigitValue(s[|s| - 1])
  }

  lemma {:induction false} DecimalRoundTrip(n: nat)
    ensures DecimalToNat(NatToDecimal(n)) == n
    decreases n
  {
    var s := NatToDecimal(n);
    if n < 10 {
      assert s[..|s| - 1] == [];
    } else {
      DecimalRoundTrip(n / 10);
      assert s[..|s| - 1] == NatToDecimal(n / 10);
    }
  }

  /** Python `str(i)` for any integer: a minus sign before the digits of `-i`. */
  function IntToDecimal(i: int): (s: string)
    ensures |s| > 0 && forall k :: 0 <= k < |s| ==> s[k] != '_'
  {
    if i < 0 then "-" + NatToDecimal(-i) else NatToDecimal(i)
  }

  /** Reads back what `IntToDecimal` writes. */
  function ParseInt(s: string): Option<int> {
    if |s| > 1 && s[0] == '-' && AllDigits(s[1..]) then Some(-(DecimalToNat(s[1..]) as int))
    else if |s| > 0 && AllDigits(s) then Some(DecimalToNat(s))
    else None
  }

  lemma IntDecimalRoundTrip(i: int)
    ensures ParseInt(IntToDecimal(i)) == Some(i)
  {
    if i < 0 {
      var d := NatToDecimal(-i);
      assert ("-" + d)[1..] == d;
      DecimalRoundTrip(-i);
    } else {
      var d := NatToDecimal(i);
      assert IsDigit(d[0]);
      DecimalRoundTrip(i);
    }
  }
}
