/** Decimal printing of 64-bit integers (internal/audit/metrics.go) and the
    ten-digit epoch reader (internal/security/replay.go). */
module Decimal {
  import opened Wrappers

  const INT64_MIN: int := -0x8000_0000_0000_0000
  const INT64_MAX: int := 0x7fff_ffff_ffff_ffff

  type int64 = n: int | INT64_MIN <= n <= INT64_MAX

  /** Two's-complement negation: the least value is its own negation. */
  function Negate(n: int64): (r: int64)
    ensures r == (if n == INT64_MIN then n else -n)
  {
    if n == INT64_MIN then n else -n
  }

  predicate IsDigit(c: char) {
    '0' <= c <= '9'
  }

  predicate AllDigits(s: string) {
    forall i :: 0 <= i < |s| ==> IsDigit(s[i])
  }

  function DigitChar(d: nat): char
    requires d < 10
  {
    '0' + d as char
  }

  function DigitValue(c: char): nat
    requires IsDigit(c)
  {
    (c - '0') as nat
  }

  /** The number a digit string denotes. */
  function NatValue(s: string): nat
    requires AllDigits(s)
  {
    if s == [] then 0 else 10 * NatValue(s[..|s| - 1]) + DigitValue(s[|s| - 1])
  }

  function NatDigits(n: nat): (s: string)
    ensures s != [] && AllDigits(s)
  {
    if n < 10 then [DigitChar(n)] else NatDigits(n / 10) + [DigitChar(n % 10)]
  }

  function Decimal(n: int): string {
    if n < 0 then "-" + NatDigits(-n) else NatDigits(n)
  }

  /** A digit string without superfluous leading zeros that denotes n. */
  predicate CanonicalNat(s: string, n: nat) {
    && s != [] && AllDigits(s)
    && (s[0] == '0' ==> |s| == 1)
    && NatValue(s) == n
  }

  predicate Canonical(s: string, n: int) {
    if n < 0 then s != [] && s[0] == '-' && CanonicalNat(s[1..], -n) else CanonicalNat(s, n)
  }

  lemma {:induction false} NatDigitsCanonical(n: nat)
    ensures CanonicalNat(NatDigits(n), n)
    ensures NatDigits(n)[0] == '0' <==> n == 0
  {
    var s := NatDigits(n);
    if n >= 10 {
      NatDigitsCanonical(n / 10);
      assert s[..|s| - 1] == NatDigits(n / 10);
    } else {
      assert s[..0] == [];
    }
  }

  lemma DigitsOfNext(n: nat, d: nat)
    requires n > 0 && d < 10
    ensures NatDigits(10 * n + d) == NatDigits(n) + [DigitChar(d)]
  {
    var m := 10 * n + d;
    assert m / 10 == n && m % 10 == d;
  }

  lemma {:induction false} CanonicalNatUnique(s: string, n: nat)
    requires CanonicalNat(s, n)
    ensures s == NatDigits(n)
  {
    var front, last := s[..|s| - 1], s[|s| - 1];
    assert s == front + [last];
    if |s| == 1 {
      assert NatValue(front) == 0;
    } else {
      var rest := NatValue(front);
      assert front[0] == s[0];
      CanonicalNatUnique(front, rest);
      NatDigitsCanonical(rest);
      assert rest > 0;
      DigitsOfNext(rest, DigitValue(last));
    }
  }

  /** Exactly one string is the canonical decimal of n, and Decimal computes it. */
  lemma DecimalIsTheCanonicalForm(s: string, n: int)
    ensures Canonical(s, n) <==> s == Decimal(n)
  {
    if n < 0 {
      if s != [] && s[0] == '-' {
        assert s == "-" + s[1..];
        if CanonicalNat(s[1..], -n) { CanonicalNatUnique(s[1..], -n); }
        NatDigitsCanonical(-n);
      }
    } else {
      if CanonicalNat(s, n) { CanonicalNatUnique(s, n); }
      NatDigitsCanonical(n);
    }
  }

  function Reversed(s: string): (r: string)
    ensures |r| == |s|
    ensures forall i :: 0 <= i < |s| ==> r[i] == s[|s| - 1 - i]
  {
    seq(|s|, i requires 0 <= i < |s| => s[|s| - 1 - i])
  }

  lemma ReversedAppend(s: string, c: char)
    ensures Reversed(s + [c]) == [c] + Reversed(s)
  {
  }

  /** What the buffer will print once the digits of the rest are appended. */
  function Printed(rest: nat, buf: string): string {
    (if rest > 0 then NatDigits(rest) else []) + Reversed(buf)
  }

  lemma PrintStep(rest: nat, buf: string)
    requires rest > 0
    ensures Printed(rest, buf) == Printed(rest / 10, buf + [DigitChar(rest % 10)])
  {
    ReversedAppend(buf, DigitChar(rest % 10));
    if rest >= 10 {
      assert NatDigits(rest) == NatDigits(rest / 10) + [DigitChar(rest % 10)];
    }
  }

  /** The digit loop: appends the digits of n, least significant first. A
      negative n (the least 64-bit value is still negative once negated) appends
      nothing. */
  method AppendDigits(n: int64) returns (buf: string)
    ensures n > 0 ==> Reversed(buf) == NatDigits(n)
    ensures n <= 0 ==> buf == []
  {
    buf := [];
    var rest := n;
    while rest > 0
      invariant rest <= n && (n <= 0 ==> rest == n && buf == [])
      invariant n > 0 ==> 0 <= rest && NatDigits(n) == Printed(rest, buf)
    {
      PrintStep(rest, buf);
      buf := buf + [DigitChar(rest % 10)];
      rest := rest / 10;
    }
  }

  /** The reversal loop, swapping from both ends. */
  method Reverse(s: string) returns (buf: string)
    ensures buf == Reversed(s)
  {
    buf := s;
    var i, j := 0, |buf| - 1;
    while i < j
      invariant |buf| == |s| && 0 <= i && j == |buf| - 1 - i && i <= j + 1
      invariant forall k :: 0 <= k < i || j < k < |buf| ==> buf[k] == s[|buf| - 1 - k]
      invariant forall k :: i <= k <= j ==> buf[k] == s[k]
    {
      buf := buf[i := buf[j]][j := buf[i]];
      i, j := i + 1, j - 1;
    }
  }

  /** For the least 64-bit value the negation wraps, so only the sign is printed. */
  method IntToString(n: int64) returns (s: string)
    ensures n != INT64_MIN ==> s == Decimal(n)
    ensures n == INT64_MIN ==> s == "-"
  {
    if n == 0 {
      return "0";
    }
    var negative := n < 0;
    var buf := AppendDigits(if negative then Negate(n) else n);
    if negative {
      ReversedAppend(buf, '-');
      buf := buf + ['-'];
    }
    s := Reverse(buf);
  }

  lemma ThreeDigits(n: nat)
    requires 100 <= n < 1000
    ensures NatDigits(n) == [DigitChar(n / 100), DigitChar(n / 10 % 10), DigitChar(n % 10)]
  {
    assert n / 10 / 10 == n / 100;
    assert NatDigits(n / 100) == [DigitChar(n / 100)];
  }

  /** The switch over frequent codes agrees with IntToString on every code. */
  method StatusString(code: int64) returns (s: string)
    ensures s == if code != INT64_MIN then Decimal(code) else "-"
  {
    if 100 <= code < 1000 {
      ThreeDigits(code);
    }
    match code
    case 200 => s := "200";
    case 201 => s := "201";
    case 204 => s := "204";
    case 400 => s := "400";
    case 401 => s := "401";
    case 403 => s := "403";
    case 404 => s := "404";
    case 429 => s := "429";
    case 500 => s := "500";
    case 502 => s := "502";
    case 503 => s := "503";
    case _ => s := IntToString(code);
  }

  lemma {:induction false} NatValueBound(s: string)
    requires AllDigits(s)
    ensures NatValue(s) < Pow10(|s|)
  {
    if s != [] {
      NatValueBound(s[..|s| - 1]);
    }
  }

  function Pow10(k: nat): (p: nat)
    ensures p > 0
  {
    if k == 0 then 1 else 10 * Pow10(k - 1)
  }

  /** The epoch branch of parseTimestamp: exactly ten digits, read without overflow. */
  method ParseEpoch(s: string) returns (epoch: Option<int64>)
    ensures epoch.Some? <==> |s| == 10 && AllDigits(s)
    ensures epoch.Some? ==> epoch.value == NatValue(s)
  {
    if |s| != 10 {
      return None;
    }
    var sum: int64 := 0;
    var i := 0;
    while i < |s|
      invariant 0 <= i <= |s| && AllDigits(s[..i]) && sum == NatValue(s[..i])
    {
      if !IsDigit(s[i]) {
        return None;
      }
      assert s[..i + 1][..i] == s[..i];
      NatValueBound(s[..i]);
      assert Pow10(i) <= Pow10(9) by { Pow10Monotone(i, 9); }
      assert Pow10(9) == 1_000_000_000;
      sum := sum * 10 + DigitValue(s[i]);
      i := i + 1;
    }
    assert s[..i] == s;
    epoch := Some(sum);
  }

  lemma {:induction false} Pow10Monotone(a: nat, b: nat)
    requires a <= b
    ensures Pow10(a) <= Pow10(b)
  {
    if a < b {
      Pow10Monotone(a, b - 1);
    }
  }

  lemma {:induction false} NatDigitsLength(n: nat, k: nat)
    requires k > 0 && n < Pow10(k) && (k == 1 || Pow10(k - 1) <= n)
    ensures |NatDigits(n)| == k
  {
    if k > 1 {
      assert Pow10(k) == 10 * Pow10(k - 1) && Pow10(k - 1) == 10 * Pow10(k - 2);
      NatDigitsLength(n / 10, k - 1);
    }
  }

  /** Every printed ten-digit epoch is read back as the number it came from. */
  method PrintThenParseEpoch(n: int64) returns (epoch: Option<int64>)
    requires 1_000_000_000 <= n < 10_000_000_000
    ensures epoch == Some(n)
  {
    var s := IntToString(n);
    assert Pow10(9) == 1_000_000_000 && Pow10(10) == 10_000_000_000;
    NatDigitsLength(n, 10);
    NatDigitsCanonical(n);
    epoch := ParseEpoch(s);
  }
}
