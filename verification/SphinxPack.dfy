/** The 64-bit packing of api/sphinxapi.php, in its branches without bcmath, on 64-bit and on 32-bit PHP. */
module SphinxPack {
  import opened Decimal
  import opened Integers

  const TWO53 := 0x20_0000_0000_0000

  datatype Platform = X64 | X32

  /** A PHP number: an integer where it fits one, or else its text. */
  datatype Num = Int(i: int) | Str(s: string)

  /** The two 32-bit words packed, high word first. */
  datatype Words = Words(hi: int, lo: int)

  predicate IsWords(w: Words) {
    0 <= w.hi < U32 && 0 <= w.lo < U32
  }

  function Bits(w: Words): (n: int) {
    w.hi * U32 + w.lo
  }

  /** The number of a 64-bit two's complement pattern. */
  function Signed(w: Words): (v: int)
    requires IsWords(w)
  {
    if w.hi < 0x8000_0000 then Bits(w) else Bits(w) - U64
  }

  /** What a number prints as. */
  function Show(v: Num): (s: string) {
    if v.Int? then Text(v.i) else v.s
  }

  predicate FitsInt(platform: Platform, i: int) {
    if platform == X64 then -I64 <= i < I64 else -0x8000_0000 <= i < 0x8000_0000
  }

  /** An integer of the platform, or a decimal text. */
  predicate IsNum(platform: Platform, v: Num) {
    if v.Int? then FitsInt(platform, v.i) else Numeric(v.s)
  }

  function Value(v: Num): (n: int)
    requires v.Str? ==> Numeric(v.s)
  {
    if v.Int? then v.i else Number(v.s)
  }

  function Abs(v: int): (n: nat) {
    if v < 0 then -v else v
  }

  /** Where the last thirteen characters of a text begin. */
  function Cut(s: string): (p: nat) {
    if |s| > 13 then |s| - 13 else 0
  }

  /** The words of hi * 10^13 + lo, with 10^13 taken as 2328 * 2^32 + 1316134912. */
  function Factor(hi: nat, lo: nat): (w: Words) {
    var m := lo + hi * 1316134912;
    var q := m / 4294967296;
    Words(hi * 2328 + q, m - q * 4294967296)
  }

  function PackI64(platform: Platform, v: Num): (w: Words)
    requires IsNum(platform, v)
  {
    if platform == X64 then
      var n := Value(v);
      Words(n / U32 % U32, n % U32)
    else if v.Int? then
      Words(if v.i < 0 then 0xffff_ffff else 0, v.i % U32)
    else
      var p := Cut(v.s);
      NumericCut(v.s);
      var w := Factor(Abs(Number(v.s[..p])), Abs(Number(v.s[p..])));
      if Number(v.s) >= 0 then w
      else if w.lo == 0 then Words(4294967296 - w.hi, 0)
      else Words(4294967295 - w.hi, 4294967296 - w.lo)
  }

  function PackU64(platform: Platform, v: Num): (w: Words)
    requires IsNum(platform, v)
  {
    if v.Int? then
      if platform == X64 then Words(v.i / U32 % U32, v.i % U32) else Words(0, v.i % U32)
    else
      var p := Cut(v.s);
      NumericCut(v.s);
      Factor(Abs(Number(v.s[..p])), Abs(Number(v.s[p..])))
  }

  /** A 32-bit word as a signed integer. */
  function AsInt(word: int): (i: int) {
    if word < 0x8000_0000 then word else word - U32
  }

  /** The number of hi * 2^32 + lo + c in two decimal parts, with 2^32 taken as 429 * 10^7 + 4967296. */
  function Split7(hi: nat, lo: nat, c: nat): (p: (nat, nat)) {
    var q := hi / 10000000;
    var r := hi - q * 10000000;
    var m := lo + r * 4967296;
    var mq := m / 10000000;
    var l := m - mq * 10000000 + c;
    var h := q * 4294967296 + r * 429 + mq;
    if l == 10000000 then (h + 1, 0) else (h, l)
  }

  /** The same in parts of five low digits; the low part is carried over only where it exceeds 100000. */
  function Split5(hi: nat, lo: nat): (p: (nat, nat)) {
    var h := hi / 100000 * U32 + lo / 100000;
    var l := hi % 100000 * U32 + lo % 100000;
    if l > 100000 then (h + l / 100000, l % 100000) else (h, l)
  }

  function UnpackU64(platform: Platform, w: Words): (v: Num)
    requires IsWords(w)
  {
    if platform == X64 then
      if w.hi <= 2147483647 then Int(w.hi * U32 + w.lo)
      else
        var (h, l) := Split5(w.hi, w.lo);
        if h == 0 then Int(l) else Str(Dec(h) + Padded(l, 5))
    else if w.hi == 0 then
      if AsInt(w.lo) > 0 then Int(w.lo) else Str(Dec(w.lo))
    else
      var (h, l) := Split7(w.hi, w.lo, 0);
      Str(if h == 0 then Dec(l) else Dec(h) + Padded(l, 7))
  }

  function UnpackI64(platform: Platform, w: Words): (v: Num)
    requires IsWords(w)
  {
    if platform == X64 then Int(Signed(w))
    else if w.hi == 0 then
      if AsInt(w.lo) > 0 then Int(w.lo) else Str(Dec(w.lo))
    else if AsInt(w.hi) == -1 then
      if AsInt(w.lo) < 0 then Int(AsInt(w.lo)) else Str(Text(w.lo - 4294967296))
    else
      var negative := AsInt(w.hi) < 0;
      var (h, l) := if negative then Split7(U32 - 1 - w.hi, U32 - 1 - w.lo, 1) else Split7(w.hi, w.lo, 0);
      Str((if negative then "-" else "") + if h == 0 then Dec(l) else Dec(h) + Padded(l, 7))
  }

  lemma NumericCut(s: string)
    requires Numeric(s)
    ensures Numeric(s[..Cut(s)]) && Numeric(s[Cut(s)..])
  {
  }

  lemma Pow13()
    ensures Pow10(13) == 10000000000000 && Pow10(7) == 10000000 && Pow10(5) == 100000
  {
    assert Pow10(4) == 10000;
    assert Pow10(8) == 100000000;
    assert Pow10(12) == 1000000000000;
  }

  /** The two parts of a text make up its number. */
  lemma CutValue(s: string)
    requires Numeric(s)
    ensures Numeric(s[..Cut(s)]) && Numeric(s[Cut(s)..])
    ensures Abs(Number(s)) == Abs(Number(s[..Cut(s)])) * 10000000000000 + Abs(Number(s[Cut(s)..]))
    ensures Abs(Number(s[Cut(s)..])) < 10000000000000
  {
    hide Val, Pow10;
    NumericCut(s);
    Pow13();
    var p := Cut(s);
    if |s| > 0 && s[0] == '-' {
      if p > 0 {
        assert s[1..] == s[..p][1..] + s[p..];
        ValConcat(s[..p][1..], s[p..]);
        ValBelow(s[p..]);
      } else {
        assert s[p..] == s;
        NoDigits();
        ShortBelow(s[1..]);
      }
    } else {
      assert s == s[..p] + s[p..];
      ValConcat(s[..p], s[p..]);
      ShortBelow(s[p..]);
    }
  }

  lemma NoDigits()
    ensures Val("") == 0
  {
  }

  lemma {:induction false} PowGrows(n: nat, m: nat)
    requires n <= m
    ensures Pow10(n) <= Pow10(m)
  {
    if n < m {
      PowGrows(n, m - 1);
    }
  }

  lemma ShortBelow(s: string)
    requires Digits(s) && |s| <= 13
    ensures Val(s) < 10000000000000
  {
    hide Val, Pow10;
    ValBelow(s);
    PowGrows(|s|, 13);
    Pow13();
  }

  lemma FactorBits(hi: nat, lo: nat)
    ensures Bits(Factor(hi, lo)) == hi * 10000000000000 + lo
    ensures 0 <= Factor(hi, lo).lo < U32 && 0 <= Factor(hi, lo).hi
    ensures hi * 10000000000000 + lo < U64 ==> IsWords(Factor(hi, lo))
  {
  }

  /** Packing signed: the words are the number's 64-bit two's complement pattern. */
  lemma PackI64Exact(platform: Platform, v: Num)
    requires IsNum(platform, v) && -I64 <= Value(v) < I64
    ensures IsWords(PackI64(platform, v)) && Signed(PackI64(platform, v)) == Value(v)
  {
    hide Val, Number, Factor, Numeric;
    if platform == X32 && v.Str? {
      CutValue(v.s);
      FactorBits(Abs(Number(v.s[..Cut(v.s)])), Abs(Number(v.s[Cut(v.s)..])));
    }
  }

  /** Packing unsigned: the words are the number. */
  lemma PackU64Exact(platform: Platform, v: Num)
    requires IsNum(platform, v) && 0 <= Value(v) < U64
    ensures IsWords(PackU64(platform, v)) && Bits(PackU64(platform, v)) == Value(v)
  {
    hide Val, Number, Factor, Numeric;
    if v.Str? {
      CutValue(v.s);
      FactorBits(Abs(Number(v.s[..Cut(v.s)])), Abs(Number(v.s[Cut(v.s)..])));
    }
  }

  /** Splitting by 10^7 is exact, and the carry is taken when the low part reaches 10^7. */
  lemma Split7Exact(hi: nat, lo: nat, c: nat)
    requires hi < U32 && lo < U32 && c <= 1
    ensures Split7(hi, lo, c).1 < 10000000
    ensures Split7(hi, lo, c).0 * 10000000 + Split7(hi, lo, c).1 == hi * U32 + lo + c
  {
  }

  /** Splitting by 10^5 is exact although the code tests for more than 100000: the low part is never
      100000 before the carry. */
  lemma Split5Exact(hi: nat, lo: nat)
    requires lo < U32
    ensures hi % 100000 * U32 + lo % 100000 != 100000
    ensures Split5(hi, lo).1 < 100000
    ensures Split5(hi, lo).0 * 100000 + Split5(hi, lo).1 == hi * U32 + lo
  {
  }

  /** The text of a number from its two decimal parts. */
  lemma PartsText(h: nat, l: nat, w: nat, n: nat)
    requires (w == 5 || w == 7) && l < Pow10(w) && n == h * Pow10(w) + l
    ensures (if h == 0 then Dec(l) else Dec(h) + Padded(l, w)) == Dec(n)
  {
    hide Dec, Padded, Pow10;
    if h > 0 {
      SplitText(h, l, w);
    }
  }

  /** Unpacking unsigned gives the number the words hold, in its canonical text. */
  lemma UnpackU64Text(platform: Platform, w: Words)
    requires IsWords(w)
    ensures Show(UnpackU64(platform, w)) == Dec(Bits(w))
  {
    hide Dec, Padded, Pow10, Split5, Split7;
    Pow13();
    if platform == X64 && w.hi > 2147483647 {
      Split5Exact(w.hi, w.lo);
      var (h, l) := Split5(w.hi, w.lo);
      PartsText(h, l, 5, Bits(w));
    } else if platform == X32 && w.hi != 0 {
      Split7Exact(w.hi, w.lo, 0);
      var (h, l) := Split7(w.hi, w.lo, 0);
      PartsText(h, l, 7, Bits(w));
    }
  }

  /** Unpacking signed gives the number whose two's complement pattern the words hold. */
  lemma UnpackI64Text(platform: Platform, w: Words)
    requires IsWords(w)
    ensures Show(UnpackI64(platform, w)) == Text(Signed(w))
  {
    hide Dec, Padded, Pow10, Split7;
    Pow13();
    if platform == X32 && w.hi != 0 && AsInt(w.hi) != -1 {
      if AsInt(w.hi) < 0 {
        Split7Exact(U32 - 1 - w.hi, U32 - 1 - w.lo, 1);
        var (h, l) := Split7(U32 - 1 - w.hi, U32 - 1 - w.lo, 1);
        PartsText(h, l, 7, -Signed(w));
      } else {
        Split7Exact(w.hi, w.lo, 0);
        var (h, l) := Split7(w.hi, w.lo, 0);
        PartsText(h, l, 7, Signed(w));
      }
    }
  }

  /** The text a number is usually written as. */
  predicate Plain(s: string) {
    Canonical(s) || (|s| > 0 && s[0] == '-' && Canonical(s[1..]) && s[1] != '0')
  }

  lemma PlainText(s: string)
    requires Plain(s)
    ensures Numeric(s) && s == Text(Number(s))
  {
    hide Dec, Val;
    if Canonical(s) {
      CanonicalIsDec(s);
    } else {
      CanonicalPositive(s[1..]);
      CanonicalIsDec(s[1..]);
    }
  }

  /** Unpacking what was packed gives the number back, and any number's plain text back to the letter,
      whichever platforms pack and unpack. */
  lemma RoundTripI64(packer: Platform, unpacker: Platform, v: Num)
    requires IsNum(packer, v) && -I64 <= Value(v) < I64
    ensures IsWords(PackI64(packer, v)) && Show(UnpackI64(unpacker, PackI64(packer, v))) == Text(Value(v))
    ensures v.Str? && Plain(v.s) ==> Show(UnpackI64(unpacker, PackI64(packer, v))) == v.s
  {
    hide PackI64, UnpackI64, Dec, Val;
    PackI64Exact(packer, v);
    UnpackI64Text(unpacker, PackI64(packer, v));
    if v.Str? && Plain(v.s) {
      PlainText(v.s);
    }
  }

  lemma RoundTripU64(packer: Platform, unpacker: Platform, v: Num)
    requires IsNum(packer, v) && 0 <= Value(v) < U64
    ensures IsWords(PackU64(packer, v)) && Show(UnpackU64(unpacker, PackU64(packer, v))) == Text(Value(v))
    ensures v.Str? && Plain(v.s) ==> Show(UnpackU64(unpacker, PackU64(packer, v))) == v.s
  {
    hide PackU64, UnpackU64, Dec, Val;
    PackU64Exact(packer, v);
    UnpackU64Text(unpacker, PackU64(packer, v));
    if v.Str? && Plain(v.s) {
      PlainText(v.s);
    }
  }

  /** An integer a double holds exactly. */
  predicate Exact(n: int) {
    -TWO53 <= n <= TWO53
  }

  /** Every product, sum and difference of the packing stays exact in doubles. */
  lemma PackFloats(s: string)
    requires Numeric(s) && Abs(Number(s)) < U64
    ensures Numeric(s[..Cut(s)]) && Numeric(s[Cut(s)..])
    ensures
      var hi, lo := Abs(Number(s[..Cut(s)])), Abs(Number(s[Cut(s)..]));
      var m := lo + hi * 1316134912;
      var q := m / 4294967296;
      && Exact(hi) && Exact(lo) && Exact(hi * 1316134912) && Exact(m) && Exact(q * 4294967296)
      && Exact(hi * 2328) && Exact(hi * 2328 + q) && Exact(m - q * 4294967296)
  {
    hide Val, Number, Numeric;
    CutValue(s);
  }

  /** And every one of the unpacking. */
  lemma Split7Floats(hi: nat, lo: nat)
    requires hi < U32 && lo < U32
    ensures
      var q := hi / 10000000;
      var r := hi - q * 10000000;
      var m := lo + r * 4967296;
      var mq := m / 10000000;
      && Exact(q * 10000000) && Exact(r * 4967296) && Exact(m) && Exact(mq * 10000000)
      && Exact(q * 4294967296) && Exact(r * 429) && Exact(q * 4294967296 + r * 429)
      && Exact(q * 4294967296 + r * 429 + mq + 1)
  {
  }

  /** A quotient of integers below 2^53, rounded to a double, keeps its integer part: rounding never goes
      below an integer that the quotient reaches, and is off by no more than one part in 2^53. */
  lemma FloorSurvivesRounding(a: nat, b: nat, x: real)
    requires 0 < b && a < TWO53
    requires (a / b) as real <= x <= a as real / b as real * (1.0 + 1.0 / TWO53 as real)
    ensures x.Floor == a / b
  {
    var k := a / b;
    assert a <= k * b + b - 1;
    assert (k * b + b - 1) as real == k as real * b as real + b as real - 1.0;
    StaysBelow(a as real, k as real, b as real, TWO53 as real, x);
  }

  lemma StaysBelow(a: real, k: real, b: real, m: real, x: real)
    requires b > 0.0 && m > 0.0 && a < m && a <= k * b + b - 1.0
    requires x <= a / b * (1.0 + 1.0 / m)
    ensures x < k + 1.0
  {
    var q := a / b;
    QuotientBelow(a, b, m);
    QuotientBound(a, k, b);
    Spread(q, m);
  }

  lemma Spread(q: real, m: real)
    requires m > 0.0
    ensures q * (1.0 + 1.0 / m) == q + q / m
  {
  }

  lemma QuotientBelow(a: real, b: real, m: real)
    requires b > 0.0 && m > 0.0 && a < m
    ensures a / b / m < 1.0 / b
  {
    assert a / b / m == a / m / b;
    assert a / m < 1.0;
  }

  lemma QuotientBound(a: real, k: real, b: real)
    requires b > 0.0 && a <= k * b + b - 1.0
    ensures a / b <= k + 1.0 - 1.0 / b
  {
    var c := k + 1.0 - 1.0 / b;
    assert c * b == k * b + b - 1.0;
    DivideBoth(a, c, b);
  }

  lemma DivideBoth(a: real, c: real, b: real)
    requires b > 0.0 && a <= c * b
    ensures a / b <= c
  {
    var q := a / b;
    assert q * b == a;
    assert (q - c) * b <= 0.0;
  }
}
