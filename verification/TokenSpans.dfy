/** The sliding window of the passage extractor: TokenSpan_t, a ring buffer over a
    power-of-two array with cached counters, and ShrinkSpanHead
    (src/sphinxexcerpt.cpp). A keyword mask is the set of its bit numbers. */
module TokenSpans {
  import opened Vectors

  datatype SpanToken = SpanToken(mask: set<nat>, lengthCp: int, isWord: bool)

  function Codes(t: SpanToken): int { t.lengthCp }

  function Words(t: SpanToken): int { if t.isWord then 1 else 0 }

  function Keys(t: SpanToken): int { if t.mask != {} then 1 else 0 }

  /** sphLog2: how many bits the value takes. */
  function Log2(v: nat): nat {
    if v == 0 then 0 else 1 + Log2(v / 2)
  }

  function Pow2(bits: nat): (p: nat)
    ensures p >= 1
  {
    if bits == 0 then 1 else 2 * Pow2(bits - 1)
  }

  /** The preallocated buffer holds at least the requested number of tokens. */
  lemma {:induction false} Log2Covers(v: nat)
    ensures v < Pow2(Log2(v)) && (v > 0 ==> Pow2(Log2(v)) <= 2 * v)
  {
    if v > 0 {
      Log2Covers(v / 2);
    }
  }

  /** Masking with 2^bits - 1, that is, the remainder. */
  function Masked(x: nat, capacity: nat): nat
    requires capacity > 0
  {
    x % capacity
  }

  /** A ring index wraps at most once. */
  lemma MaskedWraps(start: nat, i: nat, capacity: nat)
    requires start < capacity && i <= capacity
    ensures Masked(start + i, capacity) == if start + i < capacity then start + i else start + i - capacity
  {
    if start + i >= capacity {
      assert (start + i) / capacity == 1 by {
        assert start + i == capacity * 1 + (start + i - capacity);
      }
    }
  }

  /** GetWordsLimit; zero means that no limit was set. */
  function WordsLimit(limitWords: int, around: int, qwords: int): int {
    if limitWords != 0 then limitWords else 2 * around + qwords
  }

  /** The window fits the codepoint and word limits; the word limit follows the number
      of query words, which strays inflate. */
  ghost predicate LimitsHold(w: seq<SpanToken>, strays: int, limit: int, limitWords: int, around: int) {
    && (limit == 0 || SumBy(w, Codes) <= limit)
    && (limitWords != 0 ==> SumBy(w, Words) <= limitWords)
    && (limitWords == 0 ==> SumBy(w, Words) <= 2 * around + SumBy(w, Keys) + strays)
  }

  /** The cached counters are the sums over the window; the number of query words
      also counts, for good, those that had no term index. */
  ghost predicate Counted(w: seq<SpanToken>, codes: int, words: int, qwords: int, strays: int) {
    && codes == SumBy(w, Codes)
    && words == SumBy(w, Words)
    && qwords == SumBy(w, Keys) + strays
  }

  /** Adding a token; a query word without a mask is a stray. */
  lemma CountedSnoc(w: seq<SpanToken>, t: SpanToken, isKey: bool, codes: int, words: int, qwords: int, strays: int)
    requires Counted(w, codes, words, qwords, strays) && (t.mask != {} ==> isKey)
    ensures Counted(w + [t], codes + t.lengthCp, words + if t.isWord then 1 else 0,
              qwords + if isKey then 1 else 0, strays + if isKey && t.mask == {} then 1 else 0)
  {
    SumSnoc(w, t, Codes);
    SumSnoc(w, t, Words);
    SumSnoc(w, t, Keys);
  }

  lemma CountedTail(w: seq<SpanToken>, k: nat, codes: int, words: int, qwords: int, strays: int)
    requires k < |w| && Counted(w[k..], codes, words, qwords, strays)
    ensures Counted(w[k + 1..], codes - Codes(w[k]), words - Words(w[k]), qwords - Keys(w[k]), strays)
  {
    assert w[k..][1..] == w[k + 1..];
  }

  /** The loop condition, in terms of the cached counters. */
  lemma LimitsBroken(w: seq<SpanToken>, codes: int, words: int, qwords: int, strays: int,
                     limit: int, limitWords: int, around: int)
    requires Counted(w, codes, words, qwords, strays)
    ensures LimitsHold(w, strays, limit, limitWords, around)
       <==> !((limit != 0 && codes > limit) || words > WordsLimit(limitWords, around, qwords))
  {
  }

  /** n consecutive cells of a ring, from start on. */
  function Ring(data: seq<SpanToken>, start: nat, n: nat): (w: seq<SpanToken>)
    requires start < |data| && n <= |data|
    ensures |w| == n
  {
    if start + n <= |data| then data[start..start + n] else data[start..] + data[..start + n - |data|]
  }

  lemma RingAt(data: seq<SpanToken>, start: nat, n: nat, i: nat)
    requires start < |data| && n <= |data| && i < n
    ensures Ring(data, start, n)[i] == data[Masked(start + i, |data|)]
  {
    MaskedWraps(start, i, |data|);
  }

  lemma RingPush(data: seq<SpanToken>, start: nat, n: nat, t: SpanToken)
    requires start < |data| && n < |data|
    ensures var end := Masked(start + n, |data|);
            end < |data| && Ring(data[end := t], start, n + 1) == Ring(data, start, n) + [t]
  {
    MaskedWraps(start, n, |data|);
  }

  lemma RingDrop(data: seq<SpanToken>, start: nat, n: nat, k: nat)
    requires start < |data| && n <= |data| && k < n
    ensures var at := Masked(start + k, |data|);
            at < |data| && Ring(data, at, n - k) == Ring(data, start, n)[k..]
  {
    MaskedWraps(start, k, |data|);
  }

  class TokenSpan {
    var start: int
    var words: int
    var qwords: int
    var codes: int
    var startIndex: nat
    var numTokens: nat
    var bufferBits: nat
    var tokens: array<SpanToken>
    /** Query words added since the last reset that had no term index. */
    ghost var strays: int

    /** The ring is well-formed. */
    ghost predicate BufferOk()
      reads this`startIndex, this`numTokens, this`bufferBits, this`tokens
    {
      && tokens.Length == Pow2(bufferBits)
      && startIndex < tokens.Length
      && numTokens <= tokens.Length
    }

    /** The tokens of the window, oldest first. */
    ghost function Window(): (w: seq<SpanToken>)
      requires BufferOk()
      reads this`startIndex, this`numTokens, this`bufferBits, this`tokens, tokens
      ensures |w| == numTokens
    {
      Ring(tokens[..], startIndex, numTokens)
    }

    ghost predicate Valid()
      reads this, tokens
    {
      BufferOk() && Counted(Window(), codes, words, qwords, strays)
    }

    constructor (storedTokens: int)
      requires storedTokens >= 1
      ensures Valid() && fresh(tokens) && Window() == [] && strays == 0
      ensures storedTokens <= tokens.Length && (storedTokens > 1 ==> tokens.Length <= 2 * (storedTokens - 1))
    {
      bufferBits := Log2(storedTokens - 1);
      Log2Covers(storedTokens - 1);
      tokens := new SpanToken[Pow2(Log2(storedTokens - 1))](_ => SpanToken({}, 0, false));
      start, words, qwords, codes := -1, 0, 0, 0;
      startIndex, numTokens := 0, 0;
      strays := 0;
    }

    method Reset()
      requires BufferOk()
      modifies this
      ensures Valid() && Window() == [] && strays == 0 && start == -1 && tokens == old(tokens)
    {
      start, words, qwords, codes := -1, 0, 0, 0;
      startIndex, numTokens := 0, 0;
      strays := 0;
    }

    method GetToken(i: nat) returns (t: SpanToken)
      requires BufferOk() && i < numTokens
      ensures t == Window()[i]
    {
      MaskedWraps(startIndex, i, tokens.Length);
      RingAt(tokens[..], startIndex, numTokens, i);
      t := tokens[Masked(startIndex + i, tokens.Length)];
    }

    /** Doubles the buffer and moves the window to its front. */
    method ScaleUp()
      requires BufferOk()
      modifies this`tokens, this`bufferBits, this`startIndex
      ensures BufferOk() && Window() == old(Window()) && tokens.Length == 2 * old(tokens.Length) && fresh(tokens)
    {
      var bigger := new SpanToken[tokens.Length * 2](_ => SpanToken({}, 0, false));
      for i := 0 to numTokens
        invariant forall k :: 0 <= k < i ==> bigger[k] == Window()[k]
        modifies bigger
      {
        bigger[i] := GetToken(i);
      }
      tokens := bigger;
      bufferBits := bufferBits + 1;
      startIndex := 0;
    }

    /** Stores one token behind the window, growing the buffer if it is full. */
    method Push(tok: SpanToken)
      requires BufferOk()
      modifies this`tokens, this`bufferBits, this`startIndex, this`numTokens, tokens
      ensures BufferOk() && (tokens == old(tokens) || fresh(tokens))
      ensures Window() == old(Window()) + [tok]
    {
      hide Ring, Masked;
      if numTokens == tokens.Length {
        ScaleUp();
      }
      RingPush(tokens[..], startIndex, numTokens, tok);
      var end := Masked(startIndex + numTokens, tokens.Length);
      ghost var cells := tokens[..];
      numTokens := numTokens + 1;
      tokens[end] := tok;
      assert tokens[..] == cells[end := tok];
    }

    method Add(token: int, wordFlag: bool, isQword: bool, termIndex: int, lengthCp: int)
      requires Valid() && termIndex < 32
      modifies this, tokens
      ensures Valid() && (tokens == old(tokens) || fresh(tokens))
      ensures var mask := if wordFlag && isQword && termIndex >= 0 then {termIndex} else {};
              Window() == old(Window()) + [SpanToken(mask, lengthCp, wordFlag)]
      ensures strays == old(strays) + if wordFlag && isQword && termIndex < 0 then 1 else 0
      ensures start == if old(start) < 0 then token else old(start)
    {
      hide SumBy, Ring, Counted;
      var isKey := isQword && wordFlag;
      var tok := SpanToken(if isKey && termIndex >= 0 then {termIndex} else {}, lengthCp, wordFlag);
      CountedSnoc(Window(), tok, isKey, codes, words, qwords, strays);
      Push(tok);
      codes := codes + lengthCp;
      words := words + if wordFlag then 1 else 0;
      qwords := qwords + if isKey then 1 else 0;
      strays := strays + if isKey && termIndex < 0 then 1 else 0;
      if start < 0 {
        start := token;
      }
    }

    method RemoveStartingTokens(n: nat)
      requires BufferOk() && n < numTokens
      modifies this`startIndex, this`numTokens
      ensures BufferOk() && Window() == old(Window())[n..]
    {
      hide Ring, Masked;
      RingDrop(tokens[..], startIndex, numTokens, n);
      startIndex := Masked(startIndex + n, tokens.Length);
      numTokens := numTokens - n;
    }

    /** Drops front tokens until the window fits both limits or one token is left. It
        drops no more than needed: every window before the last one broke a limit. */
    method ShrinkHead(limit: int, limitWords: int, around: int)
      returns (qwordsChanged: bool, dropped: nat)
      requires Valid()
      modifies this
      ensures Valid() && tokens == old(tokens) && dropped <= |old(Window())|
      ensures Window() == old(Window())[dropped..]
      ensures old(Window()) == [] ==> start == -1 && strays == 0
      ensures old(Window()) != [] ==>
                && start == old(start) + dropped && strays == old(strays)
                && (LimitsHold(Window(), strays, limit, limitWords, around) || |Window()| == 1)
      ensures |Window()| > 1 ==>
                && (limit != 0 ==> SumBy(Window(), Codes) <= limit)
                && (limitWords != 0 ==> SumBy(Window(), Words) <= limitWords)
                && (limitWords == 0 ==> SumBy(Window(), Words) <= 2 * around + SumBy(Window(), Keys) + strays)
      ensures forall j :: 0 <= j < dropped ==>
                !LimitsHold(old(Window())[j..], old(strays), limit, limitWords, around)
      ensures forall j :: 0 <= j < dropped ==>
                var w := old(Window())[j..];
                || (limit != 0 && SumBy(w, Codes) > limit)
                || (limitWords != 0 && SumBy(w, Words) > limitWords)
                || (limitWords == 0 && SumBy(w, Words) > 2 * around + SumBy(w, Keys) + old(strays))
      ensures qwordsChanged <==> exists j :: 0 <= j < dropped && old(Window())[j].mask != {}
    {
      hide SumBy, Ring;
      qwordsChanged, dropped := UncountHead(limit, limitWords, around);
      start := start + dropped;
      if dropped >= numTokens {
        Reset();
      } else if dropped > 0 {
        RemoveStartingTokens(dropped);
      }
    }

    /** The loop of ShrinkSpanHead: takes front tokens out of the counters. */
    method UncountHead(limit: int, limitWords: int, around: int)
      returns (qwordsChanged: bool, tokenStart: nat)
      requires Valid()
      modifies this`codes, this`words, this`qwords
      ensures numTokens > 0 ==> tokenStart < numTokens
      ensures numTokens == 0 ==> tokenStart == 0
      ensures Counted(Window()[tokenStart..], codes, words, qwords, strays)
      ensures tokenStart + 1 < numTokens ==> LimitsHold(Window()[tokenStart..], strays, limit, limitWords, around)
      ensures forall j :: 0 <= j < tokenStart ==> !LimitsHold(Window()[j..], strays, limit, limitWords, around)
      ensures qwordsChanged <==> exists j :: 0 <= j < tokenStart && Window()[j].mask != {}
    {
      hide SumBy, LimitsHold, Ring;
      ghost var w := Window();
      tokenStart := 0;
      var maxToken := numTokens - 1;
      qwordsChanged := false;
      assert w[0..] == w;
      while tokenStart < maxToken
            && ((limit != 0 && codes > limit) || words > WordsLimit(limitWords, around, qwords))
        invariant tokenStart == 0 || tokenStart <= maxToken
        invariant Counted(w[tokenStart..], codes, words, qwords, strays)
        invariant qwordsChanged <==> exists j :: 0 <= j < tokenStart && w[j].mask != {}
        invariant forall j :: 0 <= j < tokenStart ==> !LimitsHold(w[j..], strays, limit, limitWords, around)
        decreases maxToken - tokenStart
      {
        CountedTail(w, tokenStart, codes, words, qwords, strays);
        LimitsBroken(w[tokenStart..], codes, words, qwords, strays, limit, limitWords, around);
        var tok := GetToken(tokenStart);
        if tok.mask != {} {
          qwords := qwords - 1;
          qwordsChanged := true;
        }
        words := words - if tok.isWord then 1 else 0;
        codes := codes - tok.lengthCp;
        tokenStart := tokenStart + 1;
      }
      LimitsBroken(w[tokenStart..], codes, words, qwords, strays, limit, limitWords, around);
    }
  }

  /** A query word without a term index, shrunk away by the next word under a limit of one word: the window has no
      keyword, and its count still says one. */
  method StrayStaysCounted() returns (span: TokenSpan)
    ensures fresh(span) && span.Valid() && span.Window() == [SpanToken({}, 1, true)]
    ensures span.qwords == 1 && SumBy(span.Window(), Keys) == 0
  {
    hide SumBy, Ring;
    span := new TokenSpan(2);
    span.Add(0, true, true, -1, 1);
    span.Add(1, true, false, -1, 1);
    ghost var two := span.Window();
    var changed, dropped := span.ShrinkHead(0, 1, 0);
    OneOfTwo(two, dropped, span.strays);
  }

  /** Two words break a limit of one, and one does not. */
  lemma OneOfTwo(w: seq<SpanToken>, dropped: nat, strays: int)
    requires w == [SpanToken({}, 1, true), SpanToken({}, 1, true)] && dropped <= 2
    requires LimitsHold(w[dropped..], strays, 0, 1, 0) || |w[dropped..]| == 1
    requires forall j :: 0 <= j < dropped ==> !LimitsHold(w[j..], strays, 0, 1, 0)
    ensures dropped == 1 && w[1..] == [SpanToken({}, 1, true)] && SumBy(w[1..], Keys) == 0
  {
    assert w[0..] == w && w[1..][1..] == [];
    assert SumBy(w[1..], Words) == 1;
    assert LimitsHold(w[1..], strays, 0, 1, 0);
    assert SumBy(w, Words) == 2;
  }
}
