/** Weighing the window again and again as it moves (WeightAndSubmit of src/sphinxexcerpt.cpp): while no
    keyword enters or leaves it, only the gaps are computed anew. */
module PassageWeigher {
  import opened Passages
  import opened PassageWeights
  import opened Vectors
  import T = TokenSpans

  ghost predicate NoHits(tokens: seq<T.SpanToken>) {
    forall t <- tokens :: !IsHit(t)
  }

  ghost predicate Blanks(ms: seq<set<nat>>) {
    forall k :: 0 <= k < |ms| ==> ms[k] == {}
  }

  lemma {:induction false} NoHitsBlank(tokens: seq<T.SpanToken>)
    requires NoHits(tokens)
    ensures Blanks(WordMasks(tokens))
  {
    if tokens != [] {
      assert tokens[|tokens| - 1] in tokens;
      NoHitsBlank(tokens[..|tokens| - 1]);
    }
  }

  lemma {:induction false} UnionConcat(a: seq<set<nat>>, b: seq<set<nat>>)
    ensures Union(a + b) == Union(a) + Union(b) && Hits(a + b) == Hits(a) + Hits(b)
  {
    if b == [] {
      assert a + b == a;
    } else {
      UnionConcat(a, b[..|b| - 1]);
      assert (a + b)[..|a + b| - 1] == a + b[..|b| - 1];
    }
  }

  lemma {:induction false} BlankSums(ms: seq<set<nat>>)
    requires Blanks(ms)
    ensures Union(ms) == {} && Hits(ms) == 0
  {
    if ms != [] {
      BlankSums(ms[..|ms| - 1]);
    }
  }

  /** A run does not reach into the blank words before it ... */
  lemma {:induction false} ChainShifted(a: seq<set<nat>>, ms: seq<set<nat>>, j: int, b: int, n: int)
    requires Blanks(a)
    ensures Chain(a + ms, |a| + j, b, n) == Chain(ms, j, b, n)
    decreases n
  {
    if n > 1 {
      ChainShifted(a, ms, j - 1, b - 1, n - 1);
    }
  }

  /** ... nor into those after it. */
  lemma {:induction false} ChainExtended(ms: seq<set<nat>>, c: seq<set<nat>>, j: int, b: int, n: int)
    requires Blanks(c)
    ensures Chain(ms + c, j, b, n) == Chain(ms, j, b, n)
    decreases n
  {
    if n > 1 {
      ChainExtended(ms, c, j - 1, b - 1, n - 1);
    }
  }

  lemma RunDropped(a: seq<set<nat>>, ms: seq<set<nat>>, best: int)
    requires Blanks(a) && LongestRun(a + ms, best)
    ensures LongestRun(ms, best)
  {
    if best > 1 {
      var j, b :| Chain(a + ms, j, b, best);
      ChainShifted(a, ms, j - |a|, b, best);
    }
    if SingleTerms(ms) {
      SingleConcat(a, ms);
      forall j, b, n | Chain(ms, j, b, n) ensures n <= best {
        ChainShifted(a, ms, j, b, n);
      }
    }
  }

  lemma RunKept(ms: seq<set<nat>>, c: seq<set<nat>>, best: int)
    requires Blanks(c) && LongestRun(ms, best)
    ensures LongestRun(ms + c, best)
  {
    if best > 1 {
      var j, b :| Chain(ms, j, b, best);
      ChainExtended(ms, c, j, b, best);
    }
    if SingleTerms(ms + c) {
      assert forall k :: 0 <= k < |ms| ==> (ms + c)[k] == ms[k];
      forall j, b, n | Chain(ms + c, j, b, n) ensures n <= best {
        ChainExtended(ms, c, j, b, n);
      }
    }
  }

  lemma SingleConcat(a: seq<set<nat>>, ms: seq<set<nat>>)
    requires Blanks(a) && SingleTerms(ms)
    ensures SingleTerms(a + ms)
  {
  }

  lemma LimitsDropped(lead: seq<T.SpanToken>, tokens: seq<T.SpanToken>, start: int, lo: int, hi: int)
    requires NoHits(lead) && LimitsOf(lead + tokens, start, lo, hi)
    ensures LimitsOf(tokens, start + |lead|, lo, hi)
  {
    var all := lead + tokens;
    assert forall i :: 0 <= i < |tokens| ==> all[|lead| + i] == tokens[i];
    assert forall i :: 0 <= i < |lead| ==> all[i] == lead[i] && lead[i] in lead;
    assert HitAt(all, lo - start) ==> HitAt(tokens, lo - (start + |lead|));
    assert HitAt(all, hi - start) ==> HitAt(tokens, hi - (start + |lead|));
  }

  lemma LimitsKept(tokens: seq<T.SpanToken>, more: seq<T.SpanToken>, start: int, lo: int, hi: int)
    requires NoHits(more) && LimitsOf(tokens, start, lo, hi)
    ensures LimitsOf(tokens + more, start, lo, hi)
  {
    var all := tokens + more;
    assert forall i :: 0 <= i < |tokens| ==> all[i] == tokens[i];
    assert forall i :: |tokens| <= i < |all| ==> all[i] == more[i - |tokens|] && all[i] in more;
    assert HitAt(tokens, lo - start) ==> HitAt(all, lo - start);
    assert HitAt(tokens, hi - start) ==> HitAt(all, hi - start);
  }

  /** Tokens without a keyword may leave at the front ... */
  lemma KeysDropped(w: Weighing, lead: seq<T.SpanToken>, tokens: seq<T.SpanToken>, start: int, weights: seq<int>)
    requires |weights| == MASK_BITS && NoHits(lead) && KeysWeighed(w, lead + tokens, start, weights)
    ensures KeysWeighed(w, tokens, start + |lead|, weights)
  {
    hide WordMasks, Union, Hits, LongestRun, LimitsOf, CountBelow, WeightBelow, Blanks, NoHits;
    var a, ms := WordMasks(lead), WordMasks(tokens);
    WordMasksConcat(lead, tokens);
    NoHitsBlank(lead);
    UnionConcat(a, ms);
    BlankSums(a);
    RunDropped(a, ms, w.maxLcs);
    LimitsDropped(lead, tokens, start, w.startLimit, w.endLimit);
  }

  /** ... and come in at the end: the weight stays that of the window, but for the gaps. */
  lemma KeysKept(w: Weighing, tokens: seq<T.SpanToken>, more: seq<T.SpanToken>, start: int, weights: seq<int>)
    requires |weights| == MASK_BITS && NoHits(more) && KeysWeighed(w, tokens, start, weights)
    ensures KeysWeighed(w, tokens + more, start, weights)
  {
    hide WordMasks, Union, Hits, LongestRun, LimitsOf, CountBelow, WeightBelow, Blanks, NoHits;
    var ms, c := WordMasks(tokens), WordMasks(more);
    WordMasksConcat(tokens, more);
    NoHitsBlank(more);
    UnionConcat(ms, c);
    BlankSums(c);
    RunKept(ms, c, w.maxLcs);
    LimitsKept(tokens, more, start, w.startLimit, w.endLimit);
  }

  /** The two together, with the gaps of the new window. */
  lemma UpdateAgrees(w: Weighing, lead: seq<T.SpanToken>, mid: seq<T.SpanToken>, more: seq<T.SpanToken>, start: int,
                     oldWords: int, maxWords: int, weights: seq<int>, g: Gaps)
    requires |weights| == MASK_BITS && Weighs(w, lead + mid, start, oldWords, weights) && NoHits(lead) && NoHits(more)
    requires GapsOf(WordMasks(mid + more), |WordMasks(mid + more)|, maxWords, g)
    ensures Weighs(w.(gaps := g), mid + more, start + |lead|, maxWords, weights)
  {
    hide KeysWeighed, GapsOf, WordMasks, NoHits;
    KeysDropped(w, lead, mid, start, weights);
    KeysKept(w, mid, more, start + |lead|, weights);
    GapsApart(w, mid + more, start + |lead|, weights, g);
  }

  lemma GapsApart(w: Weighing, tokens: seq<T.SpanToken>, start: int, weights: seq<int>, g: Gaps)
    requires |weights| == MASK_BITS && KeysWeighed(w, tokens, start, weights)
    ensures KeysWeighed(w.(gaps := g), tokens, start, weights)
  {
  }

  /** Some token has a term. */
  ghost predicate Keyed(tokens: seq<T.SpanToken>) {
    exists t <- tokens :: t.mask != {}
  }

  lemma KeyedSnoc(tokens: seq<T.SpanToken>, k: nat)
    requires k < |tokens|
    ensures Keyed(tokens[..k + 1]) == (Keyed(tokens[..k]) || tokens[k].mask != {})
  {
    assert tokens[..k + 1] == tokens[..k] + [tokens[k]];
    assert tokens[k] in tokens[..k + 1];
  }

  // ---------- the outcome is determined ----------

  lemma RunUnique(ms: seq<set<nat>>, a: int, b: int)
    requires SingleTerms(ms) && LongestRun(ms, a) && LongestRun(ms, b)
    ensures a == b
  {
  }

  lemma LimitsUnique(tokens: seq<T.SpanToken>, start: int, lo: int, hi: int, lo': int, hi': int)
    requires start >= 0 && start + |tokens| <= INT_MAX
    requires LimitsOf(tokens, start, lo, hi) && LimitsOf(tokens, start, lo', hi')
    ensures lo == lo' && hi == hi'
  {
    if HitAt(tokens, lo - start) {
      assert lo' <= lo <= hi';
    }
    if HitAt(tokens, lo' - start) {
      assert lo <= lo' <= hi;
    }
  }

  /** Where every word is one term at most, a window has one weight. So updating the gaps gives to the letter what
      weighing in full would have given. */
  lemma WeighsUnique(v: Weighing, w: Weighing, tokens: seq<T.SpanToken>, start: int, maxWords: int, weights: seq<int>)
    requires |weights| == MASK_BITS && SingleTerms(WordMasks(tokens)) && start >= 0 && start + |tokens| <= INT_MAX
    requires Weighs(v, tokens, start, maxWords, weights) && Weighs(w, tokens, start, maxWords, weights)
    ensures v == w
  {
    hide WordMasks, SingleTerms, LongestRun, LimitsOf, GapsOf;
    GapsUnique(WordMasks(tokens), |WordMasks(tokens)|, maxWords, v.gaps, w.gaps);
    RunUnique(WordMasks(tokens), v.maxLcs, w.maxLcs);
    LimitsUnique(tokens, start, v.startLimit, v.endLimit, w.startLimit, w.endLimit);
  }

  /** The window with the weight last computed, which may be that of an earlier one. */
  class Weigher {
    var window: seq<T.SpanToken>        // m_tSpan
    var start: int                      // its m_iStart, -1 if it is empty
    var qwords: int                     // its m_iQwords
    var pass: Weighing                  // m_tPass
    var qwordsChanged: bool
    const weights: seq<int>

    /** Unless a keyword came or went, a window with query words has the weight computed last, but for the gaps. */
    ghost predicate Valid()
      reads this
    {
      && |weights| == MASK_BITS && (forall t <- window :: IsMask(t.mask))
      && (if window == [] then start == -1 && qwords == 0 else 0 <= start && start + |window| <= INT_MAX)
      && (!qwordsChanged && qwords != 0 ==> KeysWeighed(pass, window, start, weights))
    }

    constructor (weights: seq<int>)
      requires |weights| == MASK_BITS
      ensures Valid() && window == [] && qwordsChanged && this.weights == weights
    {
      this.weights := weights;
      window, start, qwords, qwordsChanged := [], -1, 0, true;
      pass := Weighing({}, 0, 0, 0, 1, Gaps(0, 0, 0), INT_MAX, INT_MIN);
    }

    /** Empties the window, at a boundary. The weight stays, and is not even marked as that of another window. */
    method Reset()
      requires Valid()
      modifies this`window, this`start, this`qwords
      ensures Valid() && window == [] && start == -1 && qwords == 0
    {
      window, start, qwords := [], -1, 0;
    }

    /** Asks for the next weighing to be in full. */
    method NoteChange()
      requires Valid()
      modifies this`qwordsChanged
      ensures Valid() && qwordsChanged
    {
      qwordsChanged := true;
    }

    /** The next token of the document comes into the window; a query word may also have no term. */
    method Add(token: int, t: T.SpanToken, isQword: bool)
      requires Valid() && IsMask(t.mask) && (t.mask != {} ==> isQword && t.isWord) && 0 <= token < INT_MAX
      requires window != [] ==> token == start + |window|
      modifies this`window, this`start, this`qwords, this`qwordsChanged
      ensures Valid() && window == old(window) + [t] && start == if old(window) == [] then token else old(start)
      ensures qwords == old(qwords) + if isQword && t.isWord then 1 else 0
      ensures qwordsChanged == (old(qwordsChanged) || (isQword && t.isWord))
    {
      hide KeysWeighed;
      if !qwordsChanged && qwords != 0 && !(isQword && t.isWord) {
        KeysKept(pass, window, [t], start, weights);
      }
      window := window + [t];
      if start < 0 {
        start := token;
      }
      if isQword && t.isWord {
        qwords := qwords + 1;
        qwordsChanged := true;
      }
    }

    /** The window loses its first n tokens, as ShrinkSpanHead takes them off. */
    method DropHead(n: nat)
      requires Valid() && (n < |window| || n == 0)
      modifies this`window, this`start, this`qwords, this`qwordsChanged
      ensures Valid() && window == old(window)[n..] && (window != [] ==> start == old(start) + n)
      ensures qwordsChanged == (old(qwordsChanged) || Keyed(old(window)[..n]))
      ensures window != [] ==> qwords == old(qwords) - SumBy(old(window)[..n], T.Keys)
    {
      hide KeysWeighed, SumBy, Keyed;
      ghost var was := qwordsChanged;
      ghost var lead := window[..n];
      assert window[..0] == [];
      NoneKeyed();
      for k := 0 to n
        modifies this`qwords, this`qwordsChanged
        invariant qwordsChanged == (was || Keyed(window[..k]))
        invariant qwords == old(qwords) - SumBy(window[..k], T.Keys) && (!qwordsChanged ==> qwords == old(qwords))
      {
        KeyedSnoc(window, k);
        KeysSnoc(window, k);
        if window[k].mask != {} {
          qwords := qwords - 1;
          qwordsChanged := true;
        }
      }
      if n >= |window| {
        Reset();
      } else {
        DropKeeps(n);
        window := window[n..];
        start := start + n;
      }
    }

    /** If no token dropped has a term, as many query words are left as before, and so is the weight. */
    lemma DropKeeps(n: nat)
      requires |weights| == MASK_BITS && n < |window|
      requires !qwordsChanged && qwords != 0 && !Keyed(window[..n]) ==> KeysWeighed(pass, window, start, weights)
      ensures !qwordsChanged && qwords != 0 && !Keyed(window[..n]) ==>
                KeysWeighed(pass, window[n..], start + n, weights)
    {
      hide KeysWeighed;
      var lead := window[..n];
      assert window == lead + window[n..];
      if !qwordsChanged && qwords != 0 && !Keyed(lead) {
        assert NoHits(lead);
        KeysDropped(pass, lead, window[n..], start, weights);
      }
    }

    /** Weighs a window that has query words: in full after a keyword came or went, and otherwise its gaps alone.
        Either way, and whatever window was weighed before, the outcome is the weight of the window as it is now. */
    method Weigh(maxWords: int)
      requires Valid() && maxWords >= 1
      modifies this`pass, this`qwordsChanged
      ensures Valid()
      ensures if qwords == 0 then pass == old(pass) && qwordsChanged == old(qwordsChanged) else
                !qwordsChanged && Weighs(pass, window, start, maxWords, weights) && pass.gaps.minGap >= 0
    {
      hide KeysWeighed, GapsOf, WordMasks;
      if qwords == 0 {
        return;
      }
      ghost var words := |WordMasks(window)|;
      if qwordsChanged {
        pass := CalcPassageWeight(window, start, CountWords(window), maxWords, weights);
        qwordsChanged := false;
      } else {
        var g := UpdateGaps(window, CountWords(window), maxWords);
        GapsApart(pass, window, start, weights, g);
        pass := pass.(gaps := g);
      }
    }
  }

  lemma NoneKeyed()
    ensures !Keyed([]) && SumBy([], T.Keys) == 0
  {
  }

  lemma KeysSnoc(tokens: seq<T.SpanToken>, k: nat)
    requires k < |tokens|
    ensures SumBy(tokens[..k + 1], T.Keys) == SumBy(tokens[..k], T.Keys) + T.Keys(tokens[k])
  {
    SumLast(tokens[..k + 1], T.Keys);
    assert tokens[..k + 1][..k] == tokens[..k];
  }

  /** The number of words of a window, which the span keeps as a counter. */
  function CountWords(tokens: seq<T.SpanToken>): (n: nat)
    ensures n == |WordMasks(tokens)|
  {
    if tokens == [] then 0 else CountWords(tokens[..|tokens| - 1]) + T.Words(tokens[|tokens| - 1])
  }
}
