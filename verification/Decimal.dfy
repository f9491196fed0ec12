/** Decimal texts of integers, as PHP reads and prints them. */
module Decimal {

  predicate Digit(c: char) {
    '0' <= c <= '9'
  }

  predicate Digits(s: string) {
    forall i :: 0 <= i < |s| ==> Digit(s[i])
  }

  function Pow10(n: nat): (p: nat)
    ensures p > 0
  {
    if n == 0 then 1 else 10 * Pow10(n - 1)
  }

  /** The number a run of digits denotes; none denotes zero. */
  function Val(s: string): (n: nat)
    requires Digits(s)
  {
    if s == [] then 0 else Val(s[..|s| - 1]) * 10 + (s[|s| - 1] as int - '0' as int)
  }

  /** The text sprintf gives for %u, %d and %.0f. */
  function Dec(n: nat): (s: string)
    ensures |s| > 0
  {
    if n < 10 then [('0' as int + n) as char] else Dec(n / 10) + [('0' as int + n % 10) as char]
  }

  /** The text sprintf gives for %0wd. */
  function Padded(n: nat, w: nat): (s: string) {
    if |Dec(n)| >= w then Dec(n) else seq(w - |Dec(n)|, _ => '0') + Dec(n)
  }

  /** The text of a signed number. */
  function Text(v: int): (s: string) {
    if v < 0 then "-" + Dec(-v) else Dec(v)
  }

  predicate Canonical(s: string) {
    Digits(s) && |s| > 0 && (s[0] == '0' ==> |s| == 1)
  }

  /** Digits after an optional minus sign. */
  predicate Numeric(s: string) {
    if |s| > 0 && s[0] == '-' then Digits(s[1..]) else Digits(s)
  }

  function Number(s: string): (v: int)
    requires Numeric(s)
  {
    if |s| > 0 && s[0] == '-' then -(Val(s[1..]) as int) else Val(s)
  }

  lemma OneMoreDigit(a: int, p: int, b: int)
    ensures (a * p + b) * 10 == a * (10 * p) + b * 10
  {
  }

  lemma {:induction false} ValConcat(a: string, b: string)
    requires Digits(a) && Digits(b)
    ensures Digits(a + b) && Val(a + b) == Val(a) * Pow10(|b|) + Val(b)
  {
    if b == [] {
      assert a + b == a;
    } else {
      var n := |b| - 1;
      ValConcat(a, b[..n]);
      assert (a + b)[..|a| + n] == a + b[..n];
      OneMoreDigit(Val(a), Pow10(n), Val(b[..n]));
    }
  }

  lemma {:induction false} ValBelow(s: string)
    requires Digits(s)
    ensures Val(s) < Pow10(|s|)
  {
    if s != [] {
      ValBelow(s[..|s| - 1]);
    }
  }

  lemma {:induction false} DecVal(n: nat)
    ensures Canonical(Dec(n)) && Val(Dec(n)) == n
    ensures n > 0 ==> Dec(n)[0] != '0'
  {
    if n >= 10 {
      DecVal(n / 10);
      assert Dec(n)[..|Dec(n)| - 1] == Dec(n / 10);
    } else {
      assert Dec(n)[..0] == "";
    }
  }

  lemma {:induction false} CanonicalPositive(s: string)
    requires Canonical(s) && s[0] != '0'
    ensures Val(s) > 0
  {
    if |s| > 1 {
      CanonicalPositive(s[..|s| - 1]);
    } else {
      assert s[..0] == "";
    }
  }

  /** A number has just one canonical text. */
  lemma {:induction false} CanonicalIsDec(s: string)
    requires Canonical(s)
    ensures s == Dec(Val(s))
  {
    var n := |s| - 1;
    assert s == s[..n] + [s[n]];
    if n > 0 {
      CanonicalPositive(s[..n]);
      CanonicalIsDec(s[..n]);
    } else {
      assert s[..0] == "";
    }
  }

  lemma {:induction false} DecLength(n: nat, w: nat)
    requires n < Pow10(w) && w > 0
    ensures |Dec(n)| <= w
  {
    if n >= 10 {
      DecLength(n / 10, w - 1);
    }
  }

  lemma {:induction false} ZerosVal(k: nat)
    ensures Digits(seq(k, _ => '0')) && Val(seq(k, _ => '0')) == 0
  {
    if k > 0 {
      ZerosVal(k - 1);
      assert seq(k, _ => '0')[..k - 1] == seq(k - 1, _ => '0');
    }
  }

  lemma PaddedVal(n: nat, w: nat)
    requires n < Pow10(w) && w > 0
    ensures Digits(Padded(n, w)) && |Padded(n, w)| == w && Val(Padded(n, w)) == n
  {
    hide Dec, Val, Pow10;
    DecLength(n, w);
    DecVal(n);
    if |Dec(n)| < w {
      ZerosVal(w - |Dec(n)|);
      ValConcat(seq(w - |Dec(n)|, _ => '0'), Dec(n));
    }
  }

  /** A number printed in two parts, the lower one padded, is the number printed whole. */
  lemma SplitText(h: nat, l: nat, w: nat)
    requires h > 0 && w > 0 && l < Pow10(w)
    ensures Dec(h) + Padded(l, w) == Dec(h * Pow10(w) + l)
  {
    hide Dec, Val, Pow10, Padded;
    DecVal(h);
    PaddedVal(l, w);
    ValConcat(Dec(h), Padded(l, w));
    CanonicalIsDec(Dec(h) + Padded(l, w));
  }
}
