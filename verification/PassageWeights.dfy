/** Weighing the passage under the window (CalcPassageWeight and UpdateGaps) and cutting the words around its
    keywords down to the limit (FlushPassage), of src/sphinxexcerpt.cpp. */
module PassageWeights {
  import opened Passages
  import opened Vectors
  import T = TokenSpans

  const INT_MAX := 0x7fff_ffff
  const INT_MIN := -0x8000_0000

  /** The masks of the words of a window; what is not a word has none. */
  ghost function WordMasks(tokens: seq<T.SpanToken>): (ms: seq<set<nat>>) {
    if tokens == [] then []
    else WordMasks(tokens[..|tokens| - 1]) + if tokens[|tokens| - 1].isWord then [tokens[|tokens| - 1].mask] else []
  }

  // ---------- the gaps ----------

  /** Words from a keyword to the nearer end, at the least, and words around all keywords. */
  datatype Gaps = Gaps(minGap: int, before: int, after: int)

  ghost predicate GapsOf(ms: seq<set<nat>>, total: int, maxWords: int, g: Gaps) {
    && LeastGap(ms, total, maxWords, g.minGap) && Leading(ms, g.before) && Trailing(ms, g.after)
  }

  ghost predicate LeastGap(ms: seq<set<nat>>, total: int, maxWords: int, gap: int) {
    && gap <= maxWords - 1
    && (forall k :: 0 <= k < |ms| && ms[k] != {} ==> gap <= k && gap <= total - 1 - k)
    && (gap == maxWords - 1 || exists k :: 0 <= k < |ms| && ms[k] != {} && (gap == k || gap == total - 1 - k))
  }

  /** So many words precede the first keyword. */
  ghost predicate Leading(ms: seq<set<nat>>, n: int) {
    && 0 <= n <= |ms| && (forall k :: 0 <= k < n ==> ms[k] == {}) && (n < |ms| ==> ms[n] != {})
  }

  /** So many words follow the last keyword. */
  ghost predicate Trailing(ms: seq<set<nat>>, n: int) {
    && 0 <= n <= |ms| && (forall k :: |ms| - n <= k < |ms| ==> Blank(ms, k)) && !Blank(ms, |ms| - n - 1)
  }

  ghost predicate Blank(ms: seq<set<nat>>, k: int) {
    0 <= k < |ms| && ms[k] == {}
  }

  function Min(a: int, b: int): int { if a < b then a else b }

  function Max(a: int, b: int): int { if a > b then a else b }

  /** One more word; `seen` says whether there is a keyword up to it. */
  function NextGaps(g: Gaps, word: int, total: int, mask: set<nat>, seen: bool): (r: Gaps) {
    Gaps(if mask != {} then Min(Min(g.minGap, word), total - 1 - word) else g.minGap,
         if seen then g.before else g.before + 1,
         if mask != {} then 0 else g.after + 1)
  }

  lemma GapsSnoc(ms: seq<set<nat>>, m: set<nat>, total: int, maxWords: int, g: Gaps, seen: bool)
    requires GapsOf(ms, total, maxWords, g)
    requires seen <==> m != {} || exists k :: 0 <= k < |ms| && ms[k] != {}
    ensures GapsOf(ms + [m], total, maxWords, NextGaps(g, |ms|, total, m, seen))
  {
    var more := ms + [m];
    var r := NextGaps(g, |ms|, total, m, seen);
    assert LeastGap(more, total, maxWords, r.minGap) by {
      if r.minGap == g.minGap && g.minGap != maxWords - 1 {
        var k :| 0 <= k < |ms| && ms[k] != {} && (g.minGap == k || g.minGap == total - 1 - k);
        assert more[k] != {};
      } else if m != {} {
        assert more[|ms|] != {};
      }
    }
    assert Leading(more, r.before);
    assert Trailing(more, r.after) by {
      assert forall k :: 0 <= k < |ms| ==> (Blank(more, k) <==> Blank(ms, k));
      if m == {} && g.after < |ms| {
        assert !Blank(ms, |ms| - g.after - 1);
      }
    }
  }

  /** The gaps are determined by the words and the limit alone. */
  lemma GapsUnique(ms: seq<set<nat>>, total: int, maxWords: int, g: Gaps, h: Gaps)
    requires GapsOf(ms, total, maxWords, g) && GapsOf(ms, total, maxWords, h)
    ensures g == h
  {
    hide Trailing, Leading, LeastGap;
    LeastUnique(ms, total, maxWords, g.minGap, h.minGap);
    LeadingUnique(ms, g.before, h.before);
    TrailingUnique(ms, g.after, h.after);
  }

  lemma LeastUnique(ms: seq<set<nat>>, total: int, maxWords: int, a: int, b: int)
    requires LeastGap(ms, total, maxWords, a) && LeastGap(ms, total, maxWords, b)
    ensures a == b
  {
  }

  lemma LeadingUnique(ms: seq<set<nat>>, a: int, b: int)
    requires Leading(ms, a) && Leading(ms, b)
    ensures a == b
  {
  }

  lemma TrailingUnique(ms: seq<set<nat>>, a: int, b: int)
    requires Trailing(ms, a) && Trailing(ms, b)
    ensures a == b
  {
    assert Blank(ms, |ms| - a - 1) ==> b <= a;
    assert Blank(ms, |ms| - b - 1) ==> a <= b;
  }

  // ---------- the longest run ----------

  /** The n words that end at word j hold the n successive terms that end at term b. */
  ghost predicate Chain(ms: seq<set<nat>>, j: int, b: int, n: int)
    decreases n
  {
    && 0 <= j < |ms| && b >= 0 && b in ms[j]
    && (n == 1 || (n > 1 && Chain(ms, j - 1, b - 1, n - 1)))
  }

  ghost predicate EndsRun(ms: seq<set<nat>>, b: int, n: int) {
    Chain(ms, |ms| - 1, b, n)
  }

  ghost predicate SingleTerms(ms: seq<set<nat>>) {
    forall k :: 0 <= k < |ms| ==> |ms[k]| <= 1
  }

  /** The terms that end a run of the current length at the last word; where every word is one term at most,
      no other or longer run ends there. */
  ghost predicate RunEnds(ms: seq<set<nat>>, last: set<nat>, length: int) {
    && length >= 1
    && (forall b <- last :: EndsRun(ms, b, length))
    && (SingleTerms(ms) ==> forall b, n :: EndsRun(ms, b, n) ==> b in last && n <= length)
  }

  /** The longest run so far, or 1 if there is none; where every word is one term at most, no run is longer. */
  ghost predicate LongestRun(ms: seq<set<nat>>, best: int) {
    && best >= 1
    && (best > 1 ==> exists j, b :: Chain(ms, j, b, best))
    && (SingleTerms(ms) ==> forall j, b, n :: Chain(ms, j, b, n) ==> n <= best)
  }

  /** Each term one bit higher, as far as the mask has bits. */
  function Shifted(mask: set<nat>): (r: set<nat>) {
    set b | b in mask && b + 1 < MASK_BITS :: b + 1
  }

  lemma ShiftedHolds(mask: set<nat>, b: nat)
    ensures b in Shifted(mask) <==> b < MASK_BITS && b > 0 && b - 1 in mask
  {
    if b > 0 {
      assert b == (b - 1) + 1;
    }
  }

  lemma {:induction false} ChainKept(ms: seq<set<nat>>, m: set<nat>, j: int, b: int, n: int)
    requires j < |ms|
    ensures Chain(ms + [m], j, b, n) == Chain(ms, j, b, n)
    decreases n
  {
    if n > 1 {
      ChainKept(ms, m, j - 1, b - 1, n - 1);
    }
  }

  /** The terms a new word continues a run with, or else starts one with. */
  lemma RunSnoc(ms: seq<set<nat>>, last: set<nat>, length: int, m: set<nat>)
    requires RunEnds(ms, last, length) && IsMask(m)
    ensures var common := m * Shifted(last);
      if common != {} then RunEnds(ms + [m], common, length + 1) else RunEnds(ms + [m], m, 1)
  {
    hide Shifted;
    var common := m * Shifted(last);
    var more := ms + [m];
    forall b | b in common ensures EndsRun(more, b, length + 1) {
      ShiftedHolds(last, b);
      ChainKept(ms, m, |ms| - 1, b - 1, length);
      assert EndsRun(ms, b - 1, length);
    }
    if SingleTerms(more) {
      assert forall k :: 0 <= k < |ms| ==> more[k] == ms[k];
      forall b, n | EndsRun(more, b, n)
        ensures b in (if common != {} then common else m) && n <= (if common != {} then length + 1 else 1)
      {
        if n > 1 {
          ChainKept(ms, m, |ms| - 1, b - 1, n - 1);
          assert EndsRun(ms, b - 1, n - 1);
          assert b - 1 in last && n - 1 <= length;
          ShiftedHolds(last, b);
          assert b in common;
        }
        if common != {} {
          OnlyTerm(m, b, common);
        }
      }
    }
  }

  lemma OnlyTerm(m: set<nat>, b: nat, part: set<nat>)
    requires |m| <= 1 && b in m && part <= m && part != {}
    ensures b in part
  {
    var c :| c in part;
    assert m == {b} by {
      assert |m - {b}| == 0;
    }
  }

  lemma LongestSnoc(ms: seq<set<nat>>, best: int, last: set<nat>, length: int, m: set<nat>)
    requires LongestRun(ms, best) && RunEnds(ms + [m], last, length)
    requires length > 1 ==> last != {}
    ensures LongestRun(ms + [m], Max(best, length))
  {
    var more := ms + [m];
    if length > best {
      var b :| b in last;
      assert Chain(more, |ms|, b, length);
    } else if best > 1 {
      var j, b :| Chain(ms, j, b, best);
      ChainKept(ms, m, j, b, best);
    }
    if SingleTerms(more) {
      assert forall k :: 0 <= k < |ms| ==> more[k] == ms[k];
      forall j, b, n | Chain(more, j, b, n) ensures n <= Max(best, length) {
        if j < |ms| {
          ChainKept(ms, m, j, b, n);
        } else {
          assert EndsRun(more, b, n);
        }
      }
    }
  }

  // ---------- the whole weight ----------

  ghost function Union(ms: seq<set<nat>>): (u: set<nat>) {
    if ms == [] then {} else Union(ms[..|ms| - 1]) + ms[|ms| - 1]
  }

  /** The words that are keywords. */
  ghost function Hits(ms: seq<set<nat>>): (n: nat) {
    if ms == [] then 0 else Hits(ms[..|ms| - 1]) + if ms[|ms| - 1] != {} then 1 else 0
  }

  predicate IsHit(t: T.SpanToken) {
    t.isWord && t.mask != {}
  }

  /** The positions of the first and the last keyword of a window, or INT_MAX and INT_MIN if it has none. */
  ghost predicate LimitsOf(tokens: seq<T.SpanToken>, start: int, lo: int, hi: int) {
    && (forall i :: 0 <= i < |tokens| && IsHit(tokens[i]) ==> lo <= start + i <= hi)
    && ((lo == INT_MAX && hi == INT_MIN) || (HitAt(tokens, lo - start) && HitAt(tokens, hi - start)))
  }

  ghost predicate HitAt(tokens: seq<T.SpanToken>, i: int) {
    0 <= i < |tokens| && IsHit(tokens[i])
  }

  datatype Weighing = Weighing(
    mask: set<nat>, qwordCount: int, uniqQwords: int, qwordsWeight: int, maxLcs: int, gaps: Gaps,
    startLimit: int, endLimit: int)

  /** What weighing a window finds, the gaps aside: it depends on the keywords alone. */
  ghost predicate KeysWeighed(w: Weighing, tokens: seq<T.SpanToken>, start: int, weights: seq<int>)
    requires |weights| == MASK_BITS
  {
    var ms := WordMasks(tokens);
    && w.mask == Union(ms) && w.qwordCount == 2 * Hits(ms)
    && w.uniqQwords == CountBelow(w.mask, MASK_BITS) && w.qwordsWeight == WeightBelow(w.mask, weights, MASK_BITS)
    && LongestRun(ms, w.maxLcs) && LimitsOf(tokens, start, w.startLimit, w.endLimit)
  }

  /** What weighing a window finds. */
  ghost predicate Weighs(w: Weighing, tokens: seq<T.SpanToken>, start: int, maxWords: int, weights: seq<int>)
    requires |weights| == MASK_BITS
  {
    KeysWeighed(w, tokens, start, weights) && GapsOf(WordMasks(tokens), |WordMasks(tokens)|, maxWords, w.gaps)
  }

  lemma {:induction false} WordMasksConcat(a: seq<T.SpanToken>, b: seq<T.SpanToken>)
    ensures WordMasks(a + b) == WordMasks(a) + WordMasks(b)
  {
    if b == [] {
      assert a + b == a;
    } else {
      WordMasksConcat(a, b[..|b| - 1]);
      assert (a + b)[..|a + b| - 1] == a + b[..|b| - 1];
    }
  }

  lemma WordMasksSnoc(tokens: seq<T.SpanToken>, i: nat)
    requires i < |tokens|
    ensures WordMasks(tokens[..i + 1]) == WordMasks(tokens[..i]) + if tokens[i].isWord then [tokens[i].mask] else []
  {
    assert tokens[..i + 1][..i] == tokens[..i];
  }

  lemma UnionSnoc(ms: seq<set<nat>>, m: set<nat>)
    ensures Union(ms + [m]) == Union(ms) + m && Hits(ms + [m]) == Hits(ms) + if m != {} then 1 else 0
  {
    assert (ms + [m])[..|ms|] == ms;
  }

  lemma {:induction false} UnionEmpty(ms: seq<set<nat>>)
    ensures Union(ms) == {} <==> forall k :: 0 <= k < |ms| ==> ms[k] == {}
  {
    if ms != [] {
      UnionEmpty(ms[..|ms| - 1]);
    }
  }

  /** The last word of a window, if its last token is one. */
  lemma LastWord(tokens: seq<T.SpanToken>)
    requires tokens != []
    ensures
      var front, last := tokens[..|tokens| - 1], tokens[|tokens| - 1];
      var masks := WordMasks(front);
      && WordMasks(tokens) == masks + (if last.isWord then [last.mask] else [])
      && Union(WordMasks(tokens)) == Union(masks) + (if last.isWord then last.mask else {})
      && Hits(WordMasks(tokens)) == Hits(masks) + (if IsHit(last) then 1 else 0)
  {
    hide Union, Hits;
    var masks := WordMasks(tokens[..|tokens| - 1]);
    UnionSnoc(masks, tokens[|tokens| - 1].mask);
    assert masks + [] == masks;
  }

  /** The terms of the words together. */
  lemma {:induction false} UnionIs(tokens: seq<T.SpanToken>, t: nat)
    ensures t in Union(WordMasks(tokens)) <==> exists x <- tokens :: x.isWord && t in x.mask
  {
    hide WordMasks, Union;
    if tokens == [] {
      NoWords(0, 1);
    } else {
      var front, last := tokens[..|tokens| - 1], tokens[|tokens| - 1];
      UnionIs(front, t);
      LastWord(tokens);
      assert forall x :: x in tokens <==> x in front || x == last by {
        assert tokens == front + [last];
      }
    }
  }

  ghost function HitsAmong(tokens: seq<T.SpanToken>): (s: set<int>) {
    set i | 0 <= i < |tokens| && IsHit(tokens[i])
  }

  lemma AmongSnoc(front: seq<T.SpanToken>, last: T.SpanToken)
    ensures |HitsAmong(front + [last])| == |HitsAmong(front)| + if IsHit(last) then 1 else 0
  {
    hide IsHit;
    var was, now := HitsAmong(front), HitsAmong(front + [last]);
    forall i ensures i in now <==> i in was || (i == |front| && IsHit(last)) {
      if 0 <= i < |front| {
        assert (front + [last])[i] == front[i];
      }
    }
    assert |front| !in was;
    assert now == if IsHit(last) then was + {|front|} else was;
  }

  /** The words that are keywords, counted. */
  lemma {:induction false} HitsAre(tokens: seq<T.SpanToken>)
    ensures Hits(WordMasks(tokens)) == |HitsAmong(tokens)|
  {
    hide WordMasks, Hits, IsHit;
    if tokens == [] {
      NoWords(0, 1);
      assert HitsAmong(tokens) == {};
    } else {
      hide HitsAmong;
      var front, last := tokens[..|tokens| - 1], tokens[|tokens| - 1];
      HitsAre(front);
      LastWord(tokens);
      AmongSnoc(front, last);
      assert tokens == front + [last];
    }
  }

  /** What the weight says about the keywords of a window, in plain terms: which terms they are, how many words
      match, how many terms do, and the sum of their weights. */
  lemma KeysMean(w: Weighing, tokens: seq<T.SpanToken>, start: int, weights: seq<int>)
    requires |weights| == MASK_BITS && KeysWeighed(w, tokens, start, weights) && IsMask(w.mask)
    ensures forall t: nat :: t in w.mask <==> exists x <- tokens :: x.isWord && t in x.mask
    ensures w.qwordCount == 2 * |set i | 0 <= i < |tokens| && IsHit(tokens[i])| && w.uniqQwords == |w.mask|
    ensures forall terms: seq<nat> :: Distinct(terms) && SetOf(terms) == w.mask ==>
              w.qwordsWeight == SumBy(terms, WeightOf(weights))
  {
    hide WordMasks, Union, Hits, LongestRun, LimitsOf, CountBelow, WeightBelow, WeightOf, SumBy;
    forall t: nat ensures t in w.mask <==> exists x <- tokens :: x.isWord && t in x.mask {
      UnionIs(tokens, t);
    }
    HitsAre(tokens);
    CountIsSize(w.mask, MASK_BITS);
    forall terms: seq<nat> | Distinct(terms) && SetOf(terms) == w.mask
      ensures w.qwordsWeight == SumBy(terms, WeightOf(weights))
    {
      WeightIsSum(terms, weights);
    }
  }

  /** A run, word by word. */
  lemma {:induction false} ChainIs(ms: seq<set<nat>>, j: int, b: int, n: int)
    ensures Chain(ms, j, b, n) <==>
              n >= 1 && n - 1 <= j < |ms| && n - 1 <= b && forall k :: j - n < k <= j ==> b - j + k in ms[k]
    decreases n
  {
    if n > 1 {
      ChainIs(ms, j - 1, b - 1, n - 1);
    }
  }

  /** Where every word is one term at most, there are at least as many hits as keywords. */
  lemma {:induction false} HitsCover(ms: seq<set<nat>>)
    requires SingleTerms(ms)
    ensures |Union(ms)| <= Hits(ms)
  {
    if ms != [] {
      var front, m := ms[..|ms| - 1], ms[|ms| - 1];
      HitsCover(front);
      assert |Union(front) + m| == |Union(front)| + |m| - |Union(front) * m|;
    }
  }

  /** A weighed window of such words is counted as the choice of passages takes it to be. */
  lemma WeighedIsCounted(w: Weighing, tokens: seq<T.SpanToken>, start: int, maxWords: int, weights: seq<int>,
                         p: Passage)
    requires |weights| == MASK_BITS && Weighs(w, tokens, start, maxWords, weights) && SingleTerms(WordMasks(tokens))
    requires p.mask == w.mask && p.qwordCount == w.qwordCount && p.maxLcs == w.maxLcs && p.minGap == w.gaps.minGap >= 0
    requires IsMask(w.mask)
    ensures Counted(p)
  {
    hide WordMasks, Union, Hits, CountBelow, LimitsOf, GapsOf;
    HitsCover(WordMasks(tokens));
    CountIsSize(w.mask, MASK_BITS);
  }

  lemma LimitsSnoc(tokens: seq<T.SpanToken>, start: int, lo: int, hi: int, i: nat)
    requires i < |tokens| && start >= 0 && start + |tokens| <= INT_MAX && LimitsOf(tokens[..i], start, lo, hi)
    ensures IsHit(tokens[i]) ==> LimitsOf(tokens[..i + 1], start, Min(lo, start + i), Max(hi, start + i))
    ensures !IsHit(tokens[i]) ==> LimitsOf(tokens[..i + 1], start, lo, hi)
  {
    var was, now := tokens[..i], tokens[..i + 1];
    assert forall k :: 0 <= k < i ==> now[k] == was[k];
    assert now[i] == tokens[i];
    assert HitAt(was, lo - start) ==> HitAt(now, lo - start);
    assert HitAt(was, hi - start) ==> HitAt(now, hi - start);
  }

  /** The gaps of a window, once more. */
  method UpdateGaps(tokens: seq<T.SpanToken>, words: int, maxWords: int) returns (g: Gaps)
    requires words == |WordMasks(tokens)| && maxWords >= 1
    ensures GapsOf(WordMasks(tokens), words, maxWords, g) && g.minGap >= 0
  {
    hide WordMasks, GapsOf, Union, Hits;
    g := Gaps(maxWords - 1, 0, 0);
    var qwords: set<nat> := {};
    var word := -1;
    ghost var ms: seq<set<nat>> := [];
    NoWords(words, maxWords);
    assert tokens[..0] == [];
    for i := 0 to |tokens|
      invariant ms == WordMasks(tokens[..i]) && word == |ms| - 1 && qwords == Union(ms)
      invariant GapsOf(ms, words, maxWords, g)
    {
      WordMasksSnoc(tokens, i);
      var t := tokens[i];
      if t.isWord {
        word := word + 1;
        ghost var was := g;
        if t.mask != {} {
          g := g.(minGap := Min(g.minGap, word));
          g := g.(minGap := Min(g.minGap, words - 1 - word));
        }
        qwords := qwords + t.mask;
        g := g.(before := g.before + if qwords == {} then 1 else 0);
        g := g.(after := if t.mask != {} then 0 else g.after + 1);
        UnionSnoc(ms, t.mask);
        SeenHit(ms, t.mask);
        GapsSnoc(ms, t.mask, words, maxWords, was, qwords != {});
        ms := ms + [t.mask];
      }
    }
    assert tokens[..|tokens|] == tokens;
    GapNonNegative(WordMasks(tokens), maxWords, g);
  }

  lemma NoWords(total: int, maxWords: int)
    ensures WordMasks([]) == [] && Union([]) == {} && Hits([]) == 0
            && GapsOf([], total, maxWords, Gaps(maxWords - 1, 0, 0))
  {
  }

  lemma SeenHit(ms: seq<set<nat>>, m: set<nat>)
    ensures Union(ms) + m != {} <==> m != {} || exists k :: 0 <= k < |ms| && ms[k] != {}
  {
    UnionEmpty(ms);
  }

  lemma GapNonNegative(ms: seq<set<nat>>, maxWords: int, g: Gaps)
    requires GapsOf(ms, |ms|, maxWords, g) && maxWords >= 1
    ensures g.minGap >= 0
  {
  }

  lemma NothingRun()
    ensures RunEnds([], {}, 1) && LongestRun([], 1)
  {
  }

  lemma NoLimits(start: int)
    ensures LimitsOf([], start, INT_MAX, INT_MIN)
  {
  }

  /** The run at the last word, and the longest run, as one more word continues or ends it. */
  method UpdateRun(ghost ms: seq<set<nat>>, last: set<nat>, lcs: int, maxLcs: int, m: set<nat>)
    returns (newLast: set<nat>, newLcs: int, newMax: int)
    requires RunEnds(ms, last, lcs) && LongestRun(ms, maxLcs) && IsMask(m)
    ensures RunEnds(ms + [m], newLast, newLcs) && LongestRun(ms + [m], newMax)
  {
    hide RunEnds, LongestRun, Shifted;
    RunSnoc(ms, last, lcs, m);
    newLast, newLcs, newMax := m * Shifted(last), lcs, maxLcs;
    if newLast != {} {
      RunLength(ms, last, lcs);
      newLcs := newLcs + 1;
      newMax := Max(newLcs, newMax);
    } else {
      newLcs := 1;
      newLast := m;
      BestLength(ms, maxLcs);
    }
    LongestSnoc(ms, maxLcs, newLast, newLcs, m);
  }

  lemma RunLength(ms: seq<set<nat>>, last: set<nat>, lcs: int)
    requires RunEnds(ms, last, lcs)
    ensures lcs >= 1
  {
  }

  lemma BestLength(ms: seq<set<nat>>, best: int)
    requires LongestRun(ms, best)
    ensures Max(best, 1) == best
  {
  }

  /** Weighs a window: its keywords, their weights, limits, longest run and gaps. */
  method CalcPassageWeight(tokens: seq<T.SpanToken>, start: int, words: int, maxWords: int, weights: seq<int>)
    returns (w: Weighing)
    requires start >= 0 && start + |tokens| <= INT_MAX && words == |WordMasks(tokens)| && maxWords >= 1
    requires |weights| == MASK_BITS && forall t <- tokens :: IsMask(t.mask)
    ensures Weighs(w, tokens, start, maxWords, weights) && w.gaps.minGap >= 0
    ensures forall t: nat :: t in w.mask <==> exists x <- tokens :: x.isWord && t in x.mask
    ensures w.qwordCount == 2 * |set i | 0 <= i < |tokens| && IsHit(tokens[i])| && w.uniqQwords == |w.mask|
    ensures forall terms: seq<nat> :: Distinct(terms) && SetOf(terms) == w.mask ==>
              w.qwordsWeight == SumBy(terms, WeightOf(weights))
  {
    hide WeightOf, SumBy;
    hide WordMasks, GapsOf, Union, Hits, RunEnds, LongestRun, LimitsOf, NextGaps;
    var last: set<nat> := {};
    var lcs, maxLcs := 1, 1;
    var mask: set<nat> := {};
    var g := Gaps(maxWords - 1, 0, 0);
    var startLimit, endLimit, qwordCount := INT_MAX, INT_MIN, 0;
    var word := -1;
    ghost var ms: seq<set<nat>> := [];
    NoWords(words, maxWords);
    NothingRun();
    NoLimits(start);
    assert tokens[..0] == [];
    for i := 0 to |tokens|
      invariant ms == WordMasks(tokens[..i]) && word == |ms| - 1
      invariant mask == Union(ms) && IsMask(mask) && qwordCount == Hits(ms)
      invariant GapsOf(ms, words, maxWords, g)
      invariant RunEnds(ms, last, lcs) && LongestRun(ms, maxLcs)
      invariant LimitsOf(tokens[..i], start, startLimit, endLimit)
    {
      WordMasksSnoc(tokens, i);
      LimitsSnoc(tokens, start, startLimit, endLimit, i);
      var t := tokens[i];
      if t.isWord {
        word := word + 1;
        mask := mask + t.mask;
        UnionSnoc(ms, t.mask);
        if t.mask != {} {
          startLimit := Min(startLimit, start + i);
          endLimit := Max(endLimit, start + i);
          qwordCount := qwordCount + 1;
        }
        last, lcs, maxLcs := UpdateRun(ms, last, lcs, maxLcs, t.mask);
        SeenHit(ms, t.mask);
        GapsSnoc(ms, t.mask, words, maxWords, g, mask != {});
        g := NextGaps(g, word, words, t.mask, mask != {});
        ms := ms + [t.mask];
      }
    }
    assert tokens[..|tokens|] == tokens;
    GapNonNegative(ms, maxWords, g);
    var qwordsWeight, uniqQwords := WeighTerms(mask, weights);
    w := Weighing(mask, 2 * qwordCount, uniqQwords, qwordsWeight, maxLcs, g, startLimit, endLimit);
    KeysMean(w, tokens, start, weights);
  }

  /** The terms of a mask, shifted out one by one. */
  method WeighTerms(mask: set<nat>, weights: seq<int>) returns (weight: int, count: int)
    requires |weights| == MASK_BITS && IsMask(mask)
    ensures weight == WeightBelow(mask, weights, MASK_BITS) && count == CountBelow(mask, MASK_BITS)
  {
    var rest := mask;
    var n: nat := 0;
    weight, count := 0, 0;
    while rest != {}
      invariant n <= MASK_BITS && forall b :: b in rest <==> b in mask && b >= n
      invariant weight == WeightBelow(mask, weights, n) && count == CountBelow(mask, n)
      decreases MASK_BITS - n
    {
      ghost var b :| b in rest;
      if n in rest {
        weight := weight + weights[n];
        count := count + 1;
      }
      rest := rest - {n};
      n := n + 1;
    }
    NoneBeyond(mask, weights, n, MASK_BITS);
  }

  lemma {:induction false} NoneBeyond(mask: set<nat>, weights: seq<int>, n: nat, m: nat)
    requires n <= m <= |weights| && forall b <- mask :: b < n
    ensures WeightBelow(mask, weights, m) == WeightBelow(mask, weights, n) && CountBelow(mask, m) == CountBelow(mask, n)
  {
    if n < m {
      NoneBeyond(mask, weights, n, m - 1);
    }
  }
}
