/** The parts of `sscanf` and `printf` the protocol relies on: `%s` with a
    field width, `%lld`/`%d` and their decimal formatting. */
module Scan {
  import opened Text

  const LLONG_MAX: int := 0x7FFF_FFFF_FFFF_FFFF
  const LLONG_MIN: int := -0x8000_0000_0000_0000

  predicate IsDigit(c: char) {
    '0' <= c <= '9'
  }

  predicate AllDigits(s: string) {
    forall i :: 0 <= i < |s| ==> IsDigit(s[i])
  }

  function DigitValue(c: char): (d: nat)
    requires IsDigit(c)
    ensures d < 10
  {
    c as int - '0' as int
  }

  function DigitChar(d: nat): (c: char)
    requires d < 10
    ensures IsDigit(c) && DigitValue(c) == d
  {
    ('0' as int + d) as char
  }

  /** The value of a decimal digit string, read left to right as `strtoll` does. */
  function DigitsValue(ds: string): nat
    requires AllDigits(ds)
  {
    if |ds| == 0 then 0 else DigitsValue(ds[..|ds| - 1]) * 10 + DigitValue(ds[|ds| - 1])
  }

  /** `%lld` of a non-negative value: decimal digits without leading zeros,
      which read back as the value. */
  function NatDigits(n: nat): (r: string)
    ensures |r| > 0 && AllDigits(r)
    ensures DigitsValue(r) == n
    ensures r[0] != '0' || n == 0
  {
    if n < 10 then [DigitChar(n)]
    else
      var hi := NatDigits(n / 10);
      var r := hi + [DigitChar(n % 10)];
      assert r[..|r| - 1] == hi;
      r
  }

  /** `%lld` / `%d` of any value. */
  function FormatInt(n: int): (r: string)
    ensures |r| > 0 && (IsDigit(r[0]) || r[0] == '-')
    ensures forall i :: 0 < i < |r| ==> IsDigit(r[i])
  {
    if n < 0 then "-" + NatDigits(-n) else NatDigits(n)
  }

  /** Input with its leading white space skipped, as every `%` directive but
      `%c` does first. */
  function SkipSpace(s: string): (r: string)
    ensures |r| <= |s| && r == s[|s| - |r|..]
    ensures r == [] || !IsSpace(r[0])
    ensures forall i :: 0 <= i < |s| - |r| ==> IsSpace(s[i])
  {
    if |s| > 0 && IsSpace(s[0]) then SkipSpace(s[1..]) else s
  }

  /** The longest prefix made of digits. */
  function DigitRun(s: string): (r: string)
    ensures r <= s && AllDigits(r)
    ensures |r| == |s| || !IsDigit(s[|r|])
  {
    if |s| > 0 && IsDigit(s[0]) then [s[0]] + DigitRun(s[1..]) else []
  }

  /** The longest prefix of at most `width` non-space characters. */
  function TokenRun(s: string, width: nat): (r: string)
    ensures r <= s && |r| <= width
    ensures forall i :: 0 <= i < |r| ==> !IsSpace(s[i])
    ensures |r| == |s| || |r| == width || IsSpace(s[|r|])
  {
    if |s| > 0 && !IsSpace(s[0]) && width > 0 then [s[0]] + TokenRun(s[1..], width - 1) else []
  }

  /** `strtoll`'s saturation to the range of `long long`. */
  function Clamp(v: int): (r: int)
    ensures LLONG_MIN <= r <= LLONG_MAX
    ensures LLONG_MIN <= v <= LLONG_MAX ==> r == v
  {
    if v > LLONG_MAX then LLONG_MAX else if v < LLONG_MIN then LLONG_MIN else v
  }

  /** Clamping keeps the order, so together with `Clamp`'s contract a value
      above the range reads as LLONG_MAX and one below it as LLONG_MIN. */
  lemma ClampMonotone(v: int, w: int)
    requires v <= w
    ensures Clamp(v) <= Clamp(w)
  {
  }

  /** Out-of-range values saturate to the nearer bound. */
  lemma ClampSaturates(v: int)
    ensures v > LLONG_MAX ==> Clamp(v) == LLONG_MAX
    ensures v < LLONG_MIN ==> Clamp(v) == LLONG_MIN
  {
    if v > LLONG_MAX {
      ClampMonotone(LLONG_MAX, v);
    } else if v < LLONG_MIN {
      ClampMonotone(v, LLONG_MIN);
    }
  }

  /** `%lld`: white space, an optional sign, at least one digit. Yields the
      value and the unread input, or `None` on a matching failure. */
  function ScanInt(s: string): Option<(int, string)> {
    var t := SkipSpace(s);
    var signed := |t| > 0 && (t[0] == '-' || t[0] == '+');
    var u := if signed then t[1..] else t;
    var ds := DigitRun(u);
    if |ds| == 0 then None
    else
      var v: int := if signed && t[0] == '-' then 0 - DigitsValue(ds) else DigitsValue(ds);
      Some((Clamp(v), u[|ds|..]))
  }

  /** `%<width>s`: white space, then at least one and at most `width`
      non-space characters. */
  function ScanToken(s: string, width: nat): Option<(string, string)> {
    var t := SkipSpace(s);
    if |t| == 0 || width == 0 then None
    else
      var w := TokenRun(t, width);
      Some((w, t[|w|..]))
  }

  /** A string `%1023s` reads back whole: one to `width` non-space
      characters without NUL. */
  predicate IsToken(s: string, width: nat) {
    0 < |s| <= width && NUL !in s && forall i :: 0 <= i < |s| ==> !IsSpace(s[i])
  }

  lemma NoSpaceToSkip(s: string)
    requires s != [] && !IsSpace(s[0])
    ensures SkipSpace(s) == s
  {
  }

  lemma {:induction false} DigitRunOf(ds: string, rest: string)
    requires AllDigits(ds)
    requires rest == [] || !IsDigit(rest[0])
    ensures DigitRun(ds + rest) == ds
  {
    if |ds| > 0 {
      assert (ds + rest)[1..] == ds[1..] + rest;
      DigitRunOf(ds[1..], rest);
    } else {
      assert ds + rest == rest;
    }
  }

  lemma {:induction false} TokenRunOf(w: string, rest: string, width: nat)
    requires |w| <= width && forall i :: 0 <= i < |w| ==> !IsSpace(w[i])
    requires rest == [] || IsSpace(rest[0]) || |w| == width
    ensures TokenRun(w + rest, width) == w
  {
    if |w| > 0 {
      assert (w + rest)[1..] == w[1..] + rest;
      TokenRunOf(w[1..], rest, width - 1);
    } else {
      assert w + rest == rest;
    }
  }

  /** `%lld` reads back what `%lld` printed, for every `long long`,
      whatever non-digit text follows it. */
  lemma ScanFormatInt(n: int, rest: string)
    requires LLONG_MIN <= n <= LLONG_MAX
    requires rest == [] || !IsDigit(rest[0])
    ensures ScanInt(FormatInt(n) + rest) == Some((n, rest))
  {
    var s := FormatInt(n) + rest;
    assert s[0] == FormatInt(n)[0];
    NoSpaceToSkip(s);
    if n < 0 {
      ScanNegative(-n, rest);
    } else {
      ScanUnsigned(n, rest);
    }
  }

  lemma ScanUnsigned(n: nat, rest: string)
    requires n <= LLONG_MAX
    requires rest == [] || !IsDigit(rest[0])
    ensures var s := NatDigits(n) + rest;
      DigitRun(s) == NatDigits(n) && s[|NatDigits(n)|..] == rest &&
      ScanInt(s) == Some((n, rest))
  {
    var s := NatDigits(n) + rest;
    assert s[0] == NatDigits(n)[0];
    NoSpaceToSkip(s);
    DigitRunOf(NatDigits(n), rest);
    assert s[|NatDigits(n)|..] == rest;
  }

  lemma ScanNegative(m: nat, rest: string)
    requires 0 < m <= -LLONG_MIN
    requires rest == [] || !IsDigit(rest[0])
    ensures ScanInt("-" + NatDigits(m) + rest) == Some((0 - m as int, rest))
  {
    var ds := NatDigits(m);
    var u := ds + rest;
    ConcatAssoc("-", ds, rest);
    DigitRunOf(ds, rest);
    ScanMinus(u, ds, m);
    assert u[|ds|..] == rest;
  }

  /** `%lld` of a minus sign and a run of digits worth `m`, which fits
      `long long` negated: minus `m`. */
  lemma ScanMinus(u: string, ds: string, m: nat)
    requires ds == DigitRun(u) && |ds| > 0
    requires AllDigits(ds) && DigitsValue(ds) == m && m <= -LLONG_MIN
    ensures ScanInt("-" + u) == Some((0 - m as int, u[|ds|..]))
  {
    var s := "-" + u;
    assert s[0] == '-' && s[1..] == u;
    NoSpaceToSkip(s);
  }

  /** `%<width>s` reads back a token followed by white space or the end. */
  lemma ScanTokenOf(w: string, rest: string, width: nat)
    requires IsToken(w, width)
    requires rest == [] || IsSpace(rest[0])
    ensures ScanToken(w + rest, width) == Some((w, rest))
  {
    assert SkipSpace(w + rest) == w + rest by {
      assert (w + rest)[0] == w[0];
    }
    TokenRunOf(w, rest, width);
    assert (w + rest)[|w|..] == rest;
  }
  function Pow10(k: nat): (r: nat)
    ensures r >= 1
  {
    if k == 0 then 1 else 10 * Pow10(k - 1)
  }

  /** A value below 10^k prints in at most k digits. */
  lemma {:induction false} NatDigitsWithin(n: nat, k: nat)
    requires 0 < k && n < Pow10(k)
    ensures |NatDigits(n)| <= k
  {
    if n >= 10 {
      assert k > 1;
      assert n / 10 < Pow10(k - 1);
      NatDigitsWithin(n / 10, k - 1);
    }
  }

  /** A `long long` prints in at most 20 characters (a sign and 19 digits). */
  lemma FormatIntWidth(n: int)
    requires LLONG_MIN <= n <= LLONG_MAX
    ensures |FormatInt(n)| <= 20
  {
    assert Pow10(8) == 100_000_000;
    assert Pow10(16) == 10_000_000_000_000_000;
    assert Pow10(19) == 10_000_000_000_000_000_000;
    if n < 0 {
      NatDigitsWithin(-n, 19);
    } else {
      NatDigitsWithin(n, 19);
    }
  }

  /** What `%<width>s` stores is a token, and it and the unread input come
      from the scanned text. */
  lemma ScannedToken(s: string, width: nat)
    requires NUL !in s
    ensures ScanToken(s, width).Some? ==>
      IsToken(ScanToken(s, width).value.0, width) && NUL !in ScanToken(s, width).value.1
  {
    if ScanToken(s, width).Some? {
      var t := SkipSpace(s);
      var w := TokenRun(t, width);
      assert |w| > 0;
      assert forall i :: 0 <= i < |t| ==> t[i] == s[|s| - |t| + i];
      assert forall i :: 0 <= i < |w| ==> w[i] == t[i];
    }
  }
}
