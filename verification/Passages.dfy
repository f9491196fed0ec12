/** Passages of the snippet engine: their weights, their order and the keyword masks
    (Passage_t of src/sphinxexcerpt.cpp). A keyword mask is the set of its bit numbers. */
module Passages {
  import opened Vectors

  const MASK_BITS := 32

  /** A token kept beside the keywords of a passage, so that it can be trimmed off. */
  datatype Stored = Stored(lengthCp: int, isWord: bool)

  datatype Passage = Passage(
    start: int, tokens: int, codes: int, words: int,
    mask: set<nat>, qwordsWeight: int, qwordCount: int, uniqQwords: int, maxLcs: int, minGap: int,
    codesBetween: int, wordsBetween: int,
    before: seq<Stored>, after: seq<Stored>)
  {
    function GetWeight(): int {
      qwordCount + qwordsWeight * maxLcs + minGap
    }
  }

  function Codes(p: Passage): int { p.codes }

  function Words(p: Passage): int { p.words }

  function CodesBetween(p: Passage): int { p.codesBetween }

  function WordsBetween(p: Passage): int { p.wordsBetween }

  function StoredCodes(t: Stored): int { t.lengthCp }

  function StoredWords(t: Stored): int { if t.isWord then 1 else 0 }

  /** The passage order: new keywords first, then weight, then length. */
  predicate Less(a: Passage, b: Passage) {
    if a.uniqQwords == b.uniqQwords then
      if a.GetWeight() == b.GetWeight() then a.codes < b.codes else a.GetWeight() < b.GetWeight()
    else a.uniqQwords < b.uniqQwords
  }

  /** Sum of the weights of the terms below n in a mask. */
  function WeightBelow(mask: set<nat>, weights: seq<int>, n: nat): int
    requires n <= |weights|
  {
    if n == 0 then 0
    else WeightBelow(mask, weights, n - 1) + if n - 1 in mask then weights[n - 1] else 0
  }

  function CountBelow(mask: set<nat>, n: nat): (c: nat)
    ensures c <= n
  {
    if n == 0 then 0 else CountBelow(mask, n - 1) + if n - 1 in mask then 1 else 0
  }

  predicate IsMask(mask: set<nat>) {
    forall t <- mask :: t < MASK_BITS
  }

  /** The popcount of a mask is its size. */
  lemma {:induction false} CountIsSize(mask: set<nat>, n: nat)
    requires forall t <- mask :: t < n
    ensures CountBelow(mask, n) == |mask|
  {
    if n == 0 {
      assert mask == {};
    } else if n - 1 in mask {
      CountIsSize(mask - {n - 1}, n - 1);
      CountAgree(mask, mask - {n - 1}, n - 1);
    } else {
      CountIsSize(mask, n - 1);
    }
  }

  lemma {:induction false} CountAgree(a: set<nat>, b: set<nat>, n: nat)
    requires forall t: nat :: t < n ==> (t in a <==> t in b)
    ensures CountBelow(a, n) == CountBelow(b, n)
  {
    if n > 0 {
      CountAgree(a, b, n - 1);
    }
  }

  /** Taking the shared terms out of a mask takes out their weights and their number. */
  lemma {:induction false} WithoutShared(a: set<nat>, b: set<nat>, weights: seq<int>, n: nat)
    requires n <= |weights|
    ensures WeightBelow(a - b, weights, n) == WeightBelow(a, weights, n) - WeightBelow(a * b, weights, n)
    ensures CountBelow(a - b, n) == CountBelow(a, n) - CountBelow(a * b, n)
  {
    if n > 0 {
      WithoutShared(a, b, weights, n - 1);
    }
  }

  /** One term more adds its own weight. */
  lemma {:induction false} WeightAdds(mask: set<nat>, t: nat, weights: seq<int>, n: nat)
    requires n <= |weights| && t !in mask
    ensures WeightBelow(mask + {t}, weights, n) == WeightBelow(mask, weights, n) + if t < n then weights[t] else 0
    ensures WeightBelow({}, weights, n) == 0
  {
    if n > 0 {
      WeightAdds(mask, t, weights, n - 1);
    }
  }

  /** The weight of one term. */
  function WeightOf(weights: seq<int>): nat -> int {
    (t: nat) => if t < |weights| then weights[t] else 0
  }

  ghost function SetOf(terms: seq<nat>): (mask: set<nat>)
    ensures forall t :: t in mask <==> t in terms
  {
    set t | t in terms
  }

  /** The weight of a mask is the sum of its terms' weights. */
  lemma {:induction false} WeightIsSum(terms: seq<nat>, weights: seq<int>)
    requires Distinct(terms)
    ensures WeightBelow(SetOf(terms), weights, |weights|) == SumBy(terms, WeightOf(weights))
  {
    hide WeightBelow, SumBy, SetOf;
    if terms == [] {
      WeightAdds({}, 0, weights, |weights|);
      assert SetOf(terms) == {};
      NoTerms(weights);
    } else {
      var front, last := terms[..|terms| - 1], terms[|terms| - 1];
      assert terms == front + [last];
      WeightIsSum(front, weights);
      WeightAdds(SetOf(front), last, weights, |weights|);
      assert SetOf(terms) == SetOf(front) + {last};
      SumLast(terms, WeightOf(weights));
    }
  }

  lemma NoTerms(weights: seq<int>)
    ensures SumBy<nat>([], WeightOf(weights)) == 0
  {
  }

  /** The weight of a passage: its hits, the weight of its keywords as often as its longest run is long, and its
      gap. */
  lemma WeightLaws(p: Passage, n: int)
    ensures p.(qwordCount := p.qwordCount + n).GetWeight() == p.GetWeight() + n
    ensures p.(minGap := p.minGap + n).GetWeight() == p.GetWeight() + n
    ensures p.(maxLcs := p.maxLcs + 1).GetWeight() == p.GetWeight() + p.qwordsWeight
    ensures p.(qwordCount := 0, minGap := 0, maxLcs := 0).GetWeight() == 0
  {
  }

  /** What CalcPassageWeight stores in a passage. */
  predicate Weighed(p: Passage, mask: set<nat>, weights: seq<int>)
    requires |weights| == MASK_BITS
  {
    && p.mask == mask
    && p.qwordsWeight == WeightBelow(mask, weights, MASK_BITS)
    && p.uniqQwords == CountBelow(mask, MASK_BITS)
  }

  /** Keyword occurrences counted beyond one for each keyword of the mask. */
  function Surplus(p: Passage): (n: int) {
    p.qwordCount - CountBelow(p.mask, MASK_BITS)
  }

  /** As CalcPassageWeight counts: every keyword at least once, and a run and a gap that are not negative. */
  predicate Counted(p: Passage) {
    Surplus(p) >= 0 && p.maxLcs >= 0 && p.minGap >= 0
  }

  predicate NonNegative(weights: seq<int>) {
    forall k :: 0 <= k < |weights| ==> weights[k] >= 0
  }

  lemma {:induction false} WeightNonNegative(mask: set<nat>, weights: seq<int>, n: nat)
    requires n <= |weights| && NonNegative(weights)
    ensures WeightBelow(mask, weights, n) >= 0
  {
    if n > 0 {
      WeightNonNegative(mask, weights, n - 1);
    }
  }

  /** A passage so counted does not weigh less than nothing. */
  lemma CountedWeight(p: Passage)
    requires Counted(p) && p.qwordsWeight >= 0
    ensures p.GetWeight() >= 0
  {
    assert p.qwordsWeight * p.maxLcs >= 0;
  }

  predicate Indexes(picks: seq<nat>, n: nat) {
    forall k :: 0 <= k < |picks| ==> picks[k] < n
  }

  /** The masks of the passages at some indexes, together. */
  function Shown(passages: seq<Passage>, picks: seq<nat>): set<nat>
    requires Indexes(picks, |passages|)
  {
    if picks == [] then {}
    else Shown(passages, picks[..|picks| - 1]) + passages[picks[|picks| - 1]].mask
  }

  lemma ShownSnoc(passages: seq<Passage>, picks: seq<nat>, k: nat)
    requires Indexes(picks, |passages|) && k < |passages|
    ensures Indexes(picks + [k], |passages|)
    ensures Shown(passages, picks + [k]) == Shown(passages, picks) + passages[k].mask
  {
    assert (picks + [k])[..|picks|] == picks;
  }

  // ---------- trimming ----------

  /** Tokens, codepoints and words that can still be trimmed off a passage. */
  function Left(p: Passage): int { |p.before| + |p.after| }

  function SpareCodes(p: Passage): int { SumBy(p.before, StoredCodes) + SumBy(p.after, StoredCodes) }

  function SpareWords(p: Passage): int { SumBy(p.before, StoredWords) + SumBy(p.after, StoredWords) }

  /** The counts between the keywords leave out just the stored tokens. */
  ghost predicate Whole(p: Passage) {
    p.codes == p.codesBetween + SpareCodes(p) && p.words == p.wordsBetween + SpareWords(p)
  }

  /** Every stored token has some length. */
  ghost predicate Solid(p: Passage) {
    (forall t <- p.before :: t.lengthCp > 0) && forall t <- p.after :: t.lengthCp > 0
  }

  /** Which end loses its outermost stored token: the longer side; of two equal sides the
      one with a space at the end; otherwise the sides take turns. */
  predicate DropsFirst(p: Passage, turn: bool)
    requires Left(p) > 0
  {
    if |p.before| > |p.after| then true
    else if |p.before| < |p.after| then false
    else
      var b, a := p.before[|p.before| - 1], p.after[|p.after| - 1];
      if !b.isWord && a.isWord then true
      else if b.isWord && !a.isWord then false
      else turn
  }

  /** The passage with one token trimmed off, and that token. */
  function TrimOne(p: Passage, turn: bool): (r: (Passage, Stored))
    requires Left(p) > 0
  {
    if DropsFirst(p, turn) then
      var t := p.before[|p.before| - 1];
      (p.(before := p.before[..|p.before| - 1], start := p.start + 1, tokens := p.tokens - 1,
          codes := p.codes - t.lengthCp), t)
    else
      var t := p.after[|p.after| - 1];
      (p.(after := p.after[..|p.after| - 1], tokens := p.tokens - 1, codes := p.codes - t.lengthCp), t)
  }

  /** p is o with some of its outermost stored tokens cut off at either end: they leave
      its span and its codepoint count, and nothing else changes. */
  ghost predicate Trimmed(o: Passage, p: Passage) {
    && p.before <= o.before && p.after <= o.after
    && p.start == o.start + (|o.before| - |p.before|)
    && p.tokens == o.tokens - (Left(o) - Left(p))
    && p.codes == o.codes - (SpareCodes(o) - SpareCodes(p))
    && p == o.(start := p.start, tokens := p.tokens, codes := p.codes, before := p.before, after := p.after)
  }

  lemma TrimOneTrims(p: Passage, turn: bool)
    requires Left(p) > 0
    ensures var (r, t) := TrimOne(p, turn);
            && Trimmed(p, r) && Left(r) == Left(p) - 1
            && r.codes == p.codes - t.lengthCp
            && SpareWords(r) == SpareWords(p) - StoredWords(t)
            && (t in p.before || t in p.after)
  {
    if DropsFirst(p, turn) {
      SumLast(p.before, StoredCodes);
      SumLast(p.before, StoredWords);
    } else {
      SumLast(p.after, StoredCodes);
      SumLast(p.after, StoredWords);
    }
  }

  /** Which side loses a token, and that it is its outermost one. */
  lemma TrimOneEnds(p: Passage, turn: bool)
    requires Left(p) > 0
    ensures
      var (r, t) := TrimOne(p, turn);
      && ((r.before + [t] == p.before && r.after == p.after) || (r.before == p.before && r.after + [t] == p.after))
      && (|p.before| > |p.after| ==> |r.before| < |p.before|)
      && (|p.before| < |p.after| ==> |r.after| < |p.after|)
      && (|p.before| == |p.after| && p.before[|p.before| - 1].isWord != p.after[|p.after| - 1].isWord ==> !t.isWord)
      && (|p.before| == |p.after| && p.before[|p.before| - 1].isWord == p.after[|p.after| - 1].isWord ==>
            (turn <==> |r.before| < |p.before|))
  {
  }

  /** A passage after some rounds, each with one token off as long as there are any, by turns. */
  function TrimTimes(p: Passage, n: nat): (q: Passage)
    ensures Left(q) == if n < Left(p) then Left(p) - n else 0
  {
    if n == 0 then p
    else
      var q := TrimTimes(p, n - 1);
      if Left(q) == 0 then q else TrimOne(q, n % 2 == 1).0
  }

  /** The longer side is cut down to the length of the other one before that loses any, and then both are cut
      evenly. */
  lemma {:induction false} TrimEvenly(p: Passage, n: nat)
    ensures
      var q := TrimTimes(p, n);
      && (n <= |p.before| - |p.after| ==> q.after == p.after)
      && (n <= |p.after| - |p.before| ==> q.before == p.before)
      && (n >= |p.before| - |p.after| && n >= |p.after| - |p.before| ==> -1 <= |q.before| - |q.after| <= 1)
  {
    if n > 0 {
      TrimEvenly(p, n - 1);
    }
  }

  lemma TrimmedTransitive(a: Passage, b: Passage, c: Passage)
    requires Trimmed(a, b) && Trimmed(b, c)
    ensures Trimmed(a, c)
  {
  }
}
