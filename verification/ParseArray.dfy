/** CSphSEQuery::ParseArray of mysqlse/ha_sphinx.cc: the numbers in a text, counted in one pass and stored in
    a second. */
module ParseArrays {
  import opened Decimal

  /** The element types ParseArray is instantiated for. */
  datatype Element = Uint32 | Int64

  /** A number as an element holds it, its high bits lost. */
  function Fit(t: Element, v: int): (r: int) {
    match t
    case Uint32 => v % 0x1_0000_0000
    case Int64 => (v + 0x8000_0000_0000_0000) % 0x1_0000_0000_0000_0000 - 0x8000_0000_0000_0000
  }

  function Modulus(t: Element): (m: int) {
    if t == Uint32 then 0x1_0000_0000 else 0x1_0000_0000_0000_0000
  }

  lemma FitPeriod(t: Element, v: int, k: int)
    ensures Fit(t, v + k * Modulus(t)) == Fit(t, v)
  {
    if t == Uint32 {
      Period32(v, k);
    } else {
      Period64(v + 0x8000_0000_0000_0000, k);
    }
  }

  lemma Period32(v: int, k: int)
    ensures (v + k * 0x1_0000_0000) % 0x1_0000_0000 == v % 0x1_0000_0000
  {
  }

  lemma Period64(v: int, k: int)
    ensures (v + k * 0x1_0000_0000_0000_0000) % 0x1_0000_0000_0000_0000 == v % 0x1_0000_0000_0000_0000
  {
  }

  /** What an element holds is in its range and differs from the number by a multiple of its modulus. */
  lemma FitIs(t: Element, v: int) returns (k: int)
    ensures v == Fit(t, v) + k * Modulus(t)
    ensures t == Uint32 ==> 0 <= Fit(t, v) < Modulus(t) == 0x1_0000_0000
    ensures t == Int64 ==>
              && Modulus(t) == 0x1_0000_0000_0000_0000
              && -0x8000_0000_0000_0000 <= Fit(t, v) < 0x8000_0000_0000_0000
  {
    k := if t == Uint32 then v / 0x1_0000_0000
         else (v + 0x8000_0000_0000_0000) / 0x1_0000_0000_0000_0000;
  }

  /** Losing high bits commutes with adding a digit. */
  lemma FitStep(t: Element, v: int, digit: int)
    ensures Fit(t, Fit(t, v) * 10 + digit) == Fit(t, v * 10 + digit)
  {
    hide Fit, Modulus;
    var k := FitIs(t, v);
    Scaled(v, Fit(t, v), k, Modulus(t), 10);
    FitPeriod(t, Fit(t, v) * 10 + digit, k * 10);
  }

  /** And with taking a sign. */
  lemma FitSign(t: Element, v: int, sign: int)
    ensures Fit(t, Fit(t, v) * sign) == Fit(t, v * sign)
  {
    hide Fit, Modulus;
    var k := FitIs(t, v);
    Scaled(v, Fit(t, v), k, Modulus(t), sign);
    FitPeriod(t, Fit(t, v) * sign, k * sign);
  }

  lemma Scaled(v: int, f: int, k: int, m: int, s: int)
    requires v == f + k * m
    ensures v * s == f * s + k * s * m
  {
    assert v * s == (f + k * m) * s;
  }

  /** The length of the run of digits a text starts with. */
  function RunLength(s: string): (n: nat)
    ensures n <= |s| && Digits(s[..n]) && (n < |s| ==> !Digit(s[n]))
  {
    if s == [] || !Digit(s[0]) then 0
    else
      var n := RunLength(s[1..]);
      assert s[..n + 1] == [s[0]] + s[1..][..n];
      n + 1
  }

  /** The numbers of a text: its runs of digits, negative after a minus sign that comes later than the
      character just past the number before. */
  function Numbers(s: string, sign: int): (ns: seq<int>)
    decreases |s|
  {
    if s == [] then []
    else if Digit(s[0]) then
      var n := RunLength(s);
      [sign * Val(s[..n])] + if n == |s| then [] else Numbers(s[n + 1..], 1)
    else Numbers(s[1..], if s[0] == '-' then -1 else sign)
  }

  lemma {:induction false} CountIgnoresSign(s: string, sign: int)
    ensures |Numbers(s, sign)| == |Numbers(s, 1)|
    decreases |s|
  {
    if s != [] && !Digit(s[0]) {
      CountIgnoresSign(s[1..], if s[0] == '-' then -1 else sign);
      CountIgnoresSign(s[1..], if s[0] == '-' then -1 else 1);
    }
  }

  /** A run of digits that ends at i. */
  lemma {:induction false} RunEnds(s: string, j: nat, i: nat)
    requires j <= i <= |s| && Digits(s[j..i]) && (i < |s| ==> !Digit(s[i]))
    ensures RunLength(s[j..]) == i - j
    decreases i - j
  {
    if j < i {
      assert Digit(s[j..i][0]);
      assert s[j..][1..] == s[j + 1..];
      assert s[j + 1..i] == s[j..i][1..];
      RunEnds(s, j + 1, i);
    }
  }

  /** What a run of digits from j to i contributes. */
  lemma RunNumber(s: string, j: nat, i: nat, sign: int)
    requires j < i <= |s| && Digits(s[j..i]) && (i < |s| ==> !Digit(s[i]))
    ensures Numbers(s[j..], sign) == [sign * Val(s[j..i])] + if i == |s| then [] else Numbers(s[i + 1..], 1)
  {
    hide RunLength, Val;
    RunEnds(s, j, i);
    assert s[j] == s[j..i][0];
    assert s[j..][..i - j] == s[j..i];
    if i < |s| {
      assert s[j..][i - j + 1..] == s[i + 1..];
    }
  }

  lemma SkipOther(s: string, i: nat, sign: int)
    requires i < |s| && !Digit(s[i])
    ensures Numbers(s[i..], sign) == Numbers(s[i + 1..], if s[i] == '-' then -1 else sign)
  {
    assert s[i..][1..] == s[i + 1..];
  }

  lemma ValSnoc(s: string, j: nat, i: nat)
    requires j <= i < |s| && Digits(s[j..i]) && Digit(s[i])
    ensures Digits(s[j..i + 1]) && Val(s[j..i + 1]) == Val(s[j..i]) * 10 + (s[i] as int - '0' as int)
  {
    assert s[j..i + 1][..i - j] == s[j..i];
  }

  /** The ordinary reading of a text: as Numbers, but the character just past a number is looked at too. */
  function PlainNumbers(s: string, sign: int): (ns: seq<int>)
    decreases |s|
  {
    if s == [] then []
    else if Digit(s[0]) then
      var n := RunLength(s);
      [sign * Val(s[..n])] + PlainNumbers(s[n..], 1)
    else PlainNumbers(s[1..], if s[0] == '-' then -1 else sign)
  }

  /** A minus sign before the text means nothing: there is no number, or another sign comes before it, or it is
      zero. */
  predicate SignIdle(s: string) {
    s != [] && s[0] != '-' ==> if Digit(s[0]) then Val(s[..RunLength(s)]) == 0 else SignIdle(s[1..])
  }

  /** No minus sign directly after a digit means anything. */
  ghost predicate SignsIdle(s: string) {
    forall i :: 0 < i < |s| ==> IdleAt(s, i)
  }

  predicate IdleAt(s: string, i: int)
    requires 0 < i < |s|
  {
    Digit(s[i - 1]) && s[i] == '-' ==> SignIdle(s[i + 1..])
  }

  /** The code reads a text as it is written iff no minus sign directly after a digit means anything. */
  lemma ReadPlainly(s: string)
    ensures Numbers(s, 1) == PlainNumbers(s, 1) <==> SignsIdle(s)
  {
    ReadWithSigns(s, 1, 1);
  }

  /** The same when the two readings come to the text with signs of their own. */
  lemma {:induction false} ReadWithSigns(s: string, a: int, b: int)
    requires (a == 1 || a == -1) && (b == 1 || b == -1)
    ensures Numbers(s, a) == PlainNumbers(s, b) <==> (a == b || SignIdle(s)) && SignsIdle(s)
    decreases |s|
  {
    hide Val, SignsIdle;
    if s == [] {
      NoSigns(s);
    } else if Digit(s[0]) {
      ReadRun(s, a, b);
    } else {
      ReadWithSigns(s[1..], if s[0] == '-' then -1 else a, if s[0] == '-' then -1 else b);
      SignsAfter(s, 0);
    }
  }

  lemma ReadRun(s: string, a: int, b: int)
    requires (a == 1 || a == -1) && (b == 1 || b == -1) && s != [] && Digit(s[0])
    ensures Numbers(s, a) == PlainNumbers(s, b) <==> (a == b || SignIdle(s)) && SignsIdle(s)
    decreases |s|, 0
  {
    hide Val, SignsIdle;
    var n := RunLength(s);
    var v := Val(s[..n]);
    assert a * v == b * v <==> a == b || v == 0;
    if n == |s| {
      assert s[..n] == s && s[n..] == "";
      NoSigns(s);
      SameCons(a * v, b * v, [], []);
    } else {
      var rest, sign := s[n + 1..], if s[n] == '-' then -1 else 1;
      assert s[n..][0] == s[n] && s[n..][1..] == rest;
      assert PlainNumbers(s, b) == [b * v] + PlainNumbers(rest, sign);
      ReadWithSigns(rest, 1, sign);
      SignsAfter(s, n);
      assert Numbers(s, a) == [a * v] + Numbers(rest, 1);
      SameCons(a * v, b * v, Numbers(rest, 1), PlainNumbers(rest, sign));
    }
  }

  lemma SameCons<X>(x: X, y: X, s: seq<X>, t: seq<X>)
    ensures [x] + s == [y] + t <==> x == y && s == t
  {
    assert ([x] + s)[0] == x && ([x] + s)[1..] == s && ([y] + t)[0] == y && ([y] + t)[1..] == t;
  }

  lemma NoSigns(s: string)
    requires Digits(s)
    ensures SignsIdle(s)
  {
  }

  /** The signs of a text are those of what follows a run of digits, and one that ends the run. */
  lemma SignsAfter(s: string, n: nat)
    requires n < |s| && Digits(s[..n]) && !Digit(s[n])
    ensures SignsIdle(s) <==> SignsIdle(s[n + 1..]) && (n > 0 && s[n] == '-' ==> SignIdle(s[n + 1..]))
  {
    hide SignIdle;
    var rest := s[n + 1..];
    assert forall i :: 0 <= i < n ==> Digit(s[..n][i]) && s[i] == s[..n][i];
    forall j | 0 < j < |rest| ensures IdleAt(rest, j) <==> IdleAt(s, n + 1 + j) {
      assert rest[j + 1..] == s[n + 1 + j + 1..] && rest[j] == s[n + 1 + j] && rest[j - 1] == s[n + 1 + j - 1];
    }
    if SignsIdle(s) {
      assert n > 0 ==> IdleAt(s, n);
    } else if SignsIdle(rest) && (n > 0 && s[n] == '-' ==> SignIdle(rest)) {
      forall i | 0 < i < |s| ensures IdleAt(s, i) {
        assert i > n + 1 ==> IdleAt(rest, i - n - 1);
      }
    }
  }

  lemma LostSign()
    ensures Numbers("1-2", 1) != PlainNumbers("1-2", 1)
  {
    hide Numbers, PlainNumbers, Val;
    ReadPlainly("1-2");
    OneDigit('2');
    RunEnds("2", 0, 1);
    assert "2"[0..] == "2" && "2"[..1] == "2";
    assert "1-2"[2..] == "2";
    assert !IdleAt("1-2", 1);
  }

  /** The character just past a number is not looked at, so that a minus sign there is no sign. */
  lemma MinusPastNumberIsLost()
    ensures Numbers("1-2", 1) == [1, 2] != PlainNumbers("1-2", 1) && Numbers("1 -2", 1) == [1, -2]
  {
    LostSign();
    hide Numbers, Val;
    OneDigit('1');
    OneDigit('2');
    NoNumbers();
    assert "1-2"[0..] == "1-2" && "1-2"[0..1] == "1" && "1-2"[2..] == "2";
    RunNumber("1-2", 0, 1, 1);
    assert "2"[0..] == "2" && "2"[0..1] == "2";
    RunNumber("2", 0, 1, 1);
    assert "1 -2"[0..] == "1 -2" && "1 -2"[0..1] == "1" && "1 -2"[2..] == "-2";
    RunNumber("1 -2", 0, 1, 1);
    assert "-2"[0..] == "-2" && "-2"[1..] == "2";
    SkipOther("-2", 0, 1);
    RunNumber("2", 0, 1, -1);
  }

  lemma OneDigit(c: char)
    requires Digit(c)
    ensures Val([c]) == c as int - '0' as int
  {
    assert [c][..0] == "";
  }

  /** The counting pass. */
  method CountValues(s: string) returns (values: nat)
    ensures values == |Numbers(s, 1)|
  {
    hide Numbers, RunLength, Val;
    var prevDigit := false;
    ghost var j: nat := 0;
    values := 0;
    assert s[0..] == s;
    for i := 0 to |s|
      invariant prevDigit ==> j < i && Digits(s[j..i]) && values > 0
      invariant |Numbers(s, 1)|
                == if prevDigit then values - 1 + |Numbers(s[j..], 1)| else values + |Numbers(s[i..], 1)|
    {
      var digit := '0' <= s[i] <= '9';
      if digit {
        if !prevDigit {
          j := i;
          values := values + 1;
        }
        ValSnoc(s, j, i);
      } else if prevDigit {
        RunNumber(s, j, i, 1);
      } else {
        SkipOther(s, i, 1);
        CountIgnoresSign(s[i + 1..], -1);
      }
      prevDigit := digit;
    }
    NoNumbers();
    assert s[|s|..] == "";
    if prevDigit {
      RunNumber(s, j, |s|, 1);
    }
  }

  lemma NoNumbers()
    ensures Numbers("", 1) == [] && Numbers("", -1) == [] && Val("") == 0
  {
  }

  lemma Uncons<T>(s: seq<T>, i: nat, x: T, rest: seq<T>)
    requires i <= |s| && s[i..] == [x] + rest
    ensures i < |s| && s[i] == x && s[i + 1..] == rest
  {
    assert s[i..][0] == s[i] && s[i..][1..] == s[i + 1..];
  }

  /** Every number of a text, none dropped and no slot left over: the second pass stores as many as the first
      counted. */
  method ParseArray(t: Element, s: string) returns (count: nat, values: array?<int>)
    ensures count == |Numbers(s, 1)|
    ensures if count == 0 then values == null else values != null && fresh(values) && values.Length == count
    ensures forall k :: 0 <= k < count ==> values[k] == Fit(t, Numbers(s, 1)[k])
  {
    hide Numbers, RunLength, Val, Fit;
    count := CountValues(s);
    if count == 0 {
      return 0, null;
    }
    values := new int[count];
    ghost var all := Numbers(s, 1);
    var index, sign, value := 0, 1, 0;
    var prevDigit := false;
    ghost var j: nat := 0;
    ghost var exact := 0;
    var i := 0;
    NoNumbers();
    assert s[0..] == s && s[|s|..] == "";
    while true
      invariant 0 <= i <= |s| && 0 <= index <= count && (sign == 1 || sign == -1)
      invariant prevDigit ==> j < i && Digits(s[j..i]) && exact == Val(s[j..i]) && value == Fit(t, exact)
      invariant all[index..] == Numbers(if prevDigit then s[j..] else s[i..], sign)
      invariant forall k :: 0 <= k < index ==> values[k] == Fit(t, all[k])
      decreases |s| - i
    {
      var digit := i < |s| && '0' <= s[i] <= '9';
      if digit {
        if !prevDigit {
          value := 0;
          j, exact := i, 0;
          assert s[j..i] == "";
        }
        ValSnoc(s, j, i);
        FitStep(t, exact, s[i] as int - '0' as int);
        value := Fit(t, value * 10 + (s[i] as int - '0' as int));
        exact := exact * 10 + (s[i] as int - '0' as int);
      } else if prevDigit {
        RunNumber(s, j, i, sign);
        FitSign(t, exact, sign);
        Uncons(all, index, sign * exact, if i == |s| then [] else Numbers(s[i + 1..], 1));
        values[index] := Fit(t, value * sign);
        index := index + 1;
        sign := 1;
      } else if i < |s| {
        SkipOther(s, i, sign);
        if s[i] == '-' {
          sign := -1;
        }
      }
      prevDigit := digit;
      if i == |s| {
        assert all[index..] == [];
        break;
      }
      i := i + 1;
    }
  }
}
