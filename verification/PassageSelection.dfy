/** SelectBestPassages of src/sphinxexcerpt.cpp: greedy choice under budgets with
    re-weighting, trimming of the tokens around the keywords, and dropping. */
module PassageSelection {
  import opened Vectors
  import opened Passages

  /** A limit of zero means no limit (INT_MAX). */
  predicate Within(x: int, limit: int) {
    limit == 0 || x <= limit
  }

  /** Once t passages are picked, some keyword found in the document is still unshown. */
  ghost predicate Open(orig: seq<Passage>, picks: seq<nat>, t: nat, found: set<nat>)
    requires Indexes(picks, |orig|) && t <= |picks|
  {
    Shown(orig, picks[..t]) != found
  }

  /** How many keywords of passage j are still unshown after t picks. */
  ghost function NewKeywords(orig: seq<Passage>, picks: seq<nat>, t: nat, j: nat): nat
    requires Indexes(picks, |orig|) && t <= |picks| && j < |orig|
  {
    CountBelow(orig[j].mask - Shown(orig, picks[..t]), MASK_BITS)
  }

  /** Every pick is a new passage, and while keywords are unshown it covers at least as
      many of them as any passage not picked yet. */
  ghost predicate Greedy(orig: seq<Passage>, picks: seq<nat>, found: set<nat>) {
    && Indexes(picks, |orig|) && Distinct(picks)
    && forall t :: 0 <= t < |picks| ==> GreedyAt(orig, picks, t, found)
  }

  ghost predicate GreedyAt(orig: seq<Passage>, picks: seq<nat>, t: nat, found: set<nat>)
    requires Indexes(picks, |orig|) && t < |picks|
  {
    Open(orig, picks, t, found) ==>
      forall j: nat :: j < |orig| && orig[j].codes != 0 && j !in picks[..t] ==>
        NewKeywords(orig, picks, t, j) <= NewKeywords(orig, picks, t, picks[t])
  }

  /** Some passages are picked and show all the keywords found. */
  ghost predicate AllShown(orig: seq<Passage>, picks: seq<nat>, found: set<nat>)
    requires Indexes(picks, |orig|)
  {
    picks != [] && Shown(orig, picks) == found
  }

  /** The keywords taken out of the passages not picked: those shown, but for the last that were missing. */
  ghost function TakenOut(orig: seq<Passage>, picks: seq<nat>, found: set<nat>): (mask: set<nat>)
    requires Indexes(picks, |orig|)
  {
    if picks == [] then {}
    else if Shown(orig, picks) == found then TakenOut(orig, picks[..|picks| - 1], found)
    else Shown(orig, picks)
  }

  /** What a passage is rated as with some keywords taken out: by those it has left; and once all are shown, by
      the weight it came with. */
  ghost function Rated(o: Passage, taken: set<nat>, all: bool, weights: seq<int>): (p: Passage)
    requires |weights| == MASK_BITS
  {
    var left := o.mask - taken;
    o.(mask := left, uniqQwords := CountBelow(left, MASK_BITS),
       qwordCount := Surplus(o) + CountBelow(left, MASK_BITS),
       qwordsWeight := if all then o.qwordsWeight else WeightBelow(left, weights, MASK_BITS))
  }

  ghost function RatedAfter(orig: seq<Passage>, picks: seq<nat>, j: nat, found: set<nat>, weights: seq<int>)
    : (p: Passage)
    requires |weights| == MASK_BITS && Indexes(picks, |orig|) && j < |orig|
  {
    Rated(orig[j], TakenOut(orig, picks, found), AllShown(orig, picks, found), weights)
  }

  /** The passage not picked yet that rates best; the first one of several. */
  ghost predicate IsBest(orig: seq<Passage>, picks: seq<nat>, best: nat, found: set<nat>, weights: seq<int>)
    requires |weights| == MASK_BITS && Indexes(picks, |orig|)
  {
    && best < |orig| && best !in picks && orig[best].codes != 0
    && forall j: nat :: j < |orig| && j !in picks && orig[j].codes != 0 && j != best ==>
         Beats(RatedAfter(orig, picks, best, found, weights), best, RatedAfter(orig, picks, j, found, weights), j)
  }

  ghost predicate Beats(p: Passage, i: nat, q: Passage, j: nat) {
    if j < i then Less(q, p) else !Less(p, q)
  }

  /** More keywords win; of as many the heavier, of as heavy the longer, and of as long the earlier passage. */
  lemma BeatsMeans(p: Passage, i: nat, q: Passage, j: nat)
    requires i != j
    ensures Beats(p, i, q, j) <==>
              || q.uniqQwords < p.uniqQwords
              || (q.uniqQwords == p.uniqQwords && q.GetWeight() < p.GetWeight())
              || (q.uniqQwords == p.uniqQwords && q.GetWeight() == p.GetWeight() && q.codes < p.codes)
              || (q.uniqQwords == p.uniqQwords && q.GetWeight() == p.GetWeight() && q.codes == p.codes && i < j)
  {
    hide Passage.GetWeight;
  }

  /** Every pick is the best passage left, and is shown as it was rated then. */
  ghost predicate Chosen(orig: seq<Passage>, picks: seq<nat>, show: seq<Passage>, found: set<nat>, weights: seq<int>)
    requires |weights| == MASK_BITS
  {
    && Indexes(picks, |orig|) && |show| == |picks|
    && forall t :: 0 <= t < |picks| ==> ChosenAt(orig, picks, show, t, found, weights)
  }

  ghost predicate ChosenAt(orig: seq<Passage>, picks: seq<nat>, show: seq<Passage>, t: nat, found: set<nat>,
                           weights: seq<int>)
    requires |weights| == MASK_BITS && Indexes(picks, |orig|) && t < |picks| == |show|
  {
    && IsBest(orig, picks[..t], picks[t], found, weights)
    && show[t] == RatedAfter(orig, picks[..t], picks[t], found, weights)
  }

  /** While keywords are missing, a pick counts for those that are not shown yet: their number, their weights, and
      one occurrence less for each that is. */
  lemma RatedWhileOpen(orig: seq<Passage>, picks: seq<nat>, show: seq<Passage>, t: nat, found: set<nat>,
                       weights: seq<int>)
    requires |weights| == MASK_BITS && Chosen(orig, picks, show, found, weights) && t < |picks|
    requires t == 0 || Open(orig, picks, t, found)
    requires IsMask(orig[picks[t]].mask)
    ensures
      var o, p, before := orig[picks[t]], show[t], Shown(orig, picks[..t]);
      && p.mask == o.mask - before && p.uniqQwords == |o.mask - before|
      && p.qwordsWeight == WeightBelow(o.mask - before, weights, MASK_BITS)
      && p.qwordCount == o.qwordCount - |o.mask * before|
  {
    hide IsBest, Shown, WeightBelow;
    assert ChosenAt(orig, picks, show, t, found, weights);
    var o, before := orig[picks[t]], Shown(orig, picks[..t]);
    TakenIsShown(orig, picks[..t], found);
    CountIsSize(o.mask - before, MASK_BITS);
    CountIsSize(o.mask * before, MASK_BITS);
    WithoutShared(o.mask, before, weights, MASK_BITS);
  }

  /** Once all keywords are shown, a pick has the weight it came with, and the keywords not shown before the pick
      that completed them. */
  lemma RatedSince(orig: seq<Passage>, picks: seq<nat>, show: seq<Passage>, u: nat, t: nat, found: set<nat>,
                   weights: seq<int>)
    requires |weights| == MASK_BITS && Chosen(orig, picks, show, found, weights) && u < t < |picks|
    requires u == 0 || Open(orig, picks, u, found)
    requires forall v :: u < v <= t ==> !Open(orig, picks, v, found)
    ensures
      var o, p := orig[picks[t]], show[t];
      p.qwordsWeight == o.qwordsWeight && p.mask == o.mask - Shown(orig, picks[..u])
  {
    hide IsBest, Shown, WeightBelow, TakenOut;
    assert ChosenAt(orig, picks, show, t, found, weights) && !Open(orig, picks, t, found);
    TakenSince(orig, picks, u, t, found);
  }

  lemma {:induction false} TakenSince(orig: seq<Passage>, picks: seq<nat>, u: nat, t: nat, found: set<nat>)
    requires Indexes(picks, |orig|) && u <= t <= |picks|
    requires u == 0 || Open(orig, picks, u, found)
    requires forall v :: u < v <= t ==> !Open(orig, picks, v, found)
    ensures TakenOut(orig, picks[..t], found) == Shown(orig, picks[..u])
  {
    hide Shown;
    if t == u {
      TakenIsShown(orig, picks[..t], found);
    } else {
      assert !Open(orig, picks, t, found) && picks[..t][..t - 1] == picks[..t - 1];
      TakenSince(orig, picks, u, t - 1, found);
    }
  }

  /** The working copy during the choice: picked passages are marked by zero codes, and the others are as rated. */
  ghost predicate Working(orig: seq<Passage>, now: seq<Passage>, picks: seq<nat>, all: bool, found: set<nat>,
                          weights: seq<int>)
    requires |weights| == MASK_BITS && Indexes(picks, |orig|)
  {
    && |now| == |orig|
    && all == AllShown(orig, picks, found)
    && forall j :: 0 <= j < |orig| ==>
         && (j in picks ==> now[j].codes == 0)
         && (j !in picks ==> WorkingAt(orig[j], now[j], TakenOut(orig, picks, found), all, weights))
  }

  ghost predicate WorkingAt(o: Passage, p: Passage, taken: set<nat>, all: bool, weights: seq<int>)
    requires |weights| == MASK_BITS
  {
    SameText(o, p) && (o.codes != 0 ==> p == Rated(o, taken, all, weights))
  }

  /** The rating is all there is to know of a passage's text and keywords. */
  lemma RatedIs(o: Passage, p: Passage, taken: set<nat>, weights: seq<int>)
    requires |weights| == MASK_BITS && SameText(o, p) && Weighed(p, o.mask - taken, weights)
    ensures p == Rated(o, taken, false, weights)
  {
  }

  lemma RatedText(o: Passage, taken: set<nat>, all: bool, weights: seq<int>)
    requires |weights| == MASK_BITS
    ensures
      var p := Rated(o, taken, all, weights);
      SameText(o, p) && p.mask == o.mask - taken && (!all ==> Weighed(p, o.mask - taken, weights))
  {
  }

  /** Until all keywords are shown, those taken out are those shown. */
  lemma TakenIsShown(orig: seq<Passage>, picks: seq<nat>, found: set<nat>)
    requires Indexes(picks, |orig|) && !AllShown(orig, picks, found)
    ensures TakenOut(orig, picks, found) == Shown(orig, picks)
  {
  }

  lemma TakenSnoc(orig: seq<Passage>, picks: seq<nat>, best: nat, found: set<nat>)
    requires Indexes(picks, |orig|) && best < |orig|
    ensures Indexes(picks + [best], |orig|)
    ensures TakenOut(orig, picks + [best], found)
         == if Shown(orig, picks) + orig[best].mask == found then TakenOut(orig, picks, found)
            else Shown(orig, picks) + orig[best].mask
    ensures AllShown(orig, picks + [best], found) <==> Shown(orig, picks) + orig[best].mask == found
  {
    ShownSnoc(orig, picks, best);
    assert (picks + [best])[..|picks|] == picks;
  }

  /** Selection changes only the keyword bookkeeping of a passage. */
  ghost predicate SameText(o: Passage, p: Passage) {
    && p.start == o.start && p.tokens == o.tokens && p.codes == o.codes && p.words == o.words
    && p.codesBetween == o.codesBetween && p.wordsBetween == o.wordsBetween
    && p.before == o.before && p.after == o.after
    && p.maxLcs == o.maxLcs && p.minGap == o.minGap && Surplus(p) == Surplus(o)
  }

  ghost predicate WeightsNonNegative(ps: seq<Passage>) {
    forall j :: 0 <= j < |ps| ==> ps[j].qwordsWeight >= 0
  }

  /** What the caller hands over: weighed passages over keywords found in the document. */
  ghost predicate Fresh(orig: seq<Passage>, found: set<nat>, weights: seq<int>)
    requires |weights| == MASK_BITS
  {
    && orig != [] && IsMask(found)
    && forall j :: 0 <= j < |orig| ==> orig[j].mask <= found && Weighed(orig[j], orig[j].mask, weights)
  }

  /** The shown passages are copies of the greedy picks. */
  ghost predicate Collected(orig: seq<Passage>, picks: seq<nat>, show: seq<Passage>, found: set<nat>) {
    && Greedy(orig, picks, found)
    && |show| == |picks|
    && forall k :: 0 <= k < |show| ==> SameText(orig[picks[k]], show[k])
  }

  lemma CollectedSnoc(orig: seq<Passage>, picks: seq<nat>, show: seq<Passage>, found: set<nat>, best: nat, p: Passage)
    requires Collected(orig, picks, show, found) && best < |orig| && best !in picks
    requires SameText(orig[best], p)
    requires Shown(orig, picks) != found ==>
               forall j: nat :: j < |orig| && orig[j].codes != 0 && j !in picks ==>
                 CountBelow(orig[j].mask - Shown(orig, picks), MASK_BITS)
                 <= CountBelow(orig[best].mask - Shown(orig, picks), MASK_BITS)
    ensures Collected(orig, picks + [best], show + [p], found)
  {
    hide CountBelow, Shown;
    var more := picks + [best];
    assert Indexes(more, |orig|) && Distinct(more);
    forall t | 0 <= t < |more| ensures GreedyAt(orig, more, t, found) {
      if t < |picks| {
        assert more[..t] == picks[..t];
        assert GreedyAt(orig, picks, t, found);
      } else {
        assert more[..t] == picks;
      }
    }
  }

  lemma ChosenSnoc(orig: seq<Passage>, picks: seq<nat>, show: seq<Passage>, found: set<nat>, weights: seq<int>,
                   best: nat, p: Passage)
    requires |weights| == MASK_BITS && Chosen(orig, picks, show, found, weights) && best < |orig|
    requires IsBest(orig, picks, best, found, weights) && p == RatedAfter(orig, picks, best, found, weights)
    ensures Chosen(orig, picks + [best], show + [p], found, weights)
  {
    hide IsBest, RatedAfter;
    var more := picks + [best];
    forall t | 0 <= t < |more| ensures ChosenAt(orig, more, show + [p], t, found, weights) {
      if t < |picks| {
        assert more[..t] == picks[..t];
        assert ChosenAt(orig, picks, show, t, found, weights);
      } else {
        assert more[..t] == picks;
      }
    }
  }

  /** One passage marked as shown and the others re-weighted: the working copy is in
      step with one more pick. */
  ghost predicate Reweighted(was: seq<Passage>, now: seq<Passage>, best: nat, orig: seq<Passage>,
                             shown: set<nat>, weights: seq<int>)
    requires |weights| == MASK_BITS && |orig| == |was|
  {
    && |now| == |was| && best < |now| && now[best].codes == 0
    && forall j :: 0 <= j < |now| && j != best ==>
         && SameText(was[j], now[j])
         && (was[j].codes != 0 ==> Weighed(now[j], orig[j].mask - shown, weights))
  }

  lemma WorkingSnoc(orig: seq<Passage>, was: seq<Passage>, now: seq<Passage>, picks: seq<nat>, best: nat,
                    found: set<nat>, weights: seq<int>)
    requires |weights| == MASK_BITS && Indexes(picks, |orig|) && best < |orig|
    requires Working(orig, was, picks, false, found, weights) && Shown(orig, picks) + orig[best].mask != found
    requires Reweighted(was, now, best, orig, Shown(orig, picks) + orig[best].mask, weights)
    ensures Indexes(picks + [best], |orig|) && Working(orig, now, picks + [best], false, found, weights)
  {
    TakenSnoc(orig, picks, best, found);
    hide Shown, Weighed, Rated, TakenOut, AllShown;
    var shown := Shown(orig, picks) + orig[best].mask;
    forall j | 0 <= j < |orig| && j !in picks + [best] ensures WorkingAt(orig[j], now[j], shown, false, weights) {
      assert WorkingAt(orig[j], was[j], TakenOut(orig, picks, found), false, weights);
      if orig[j].codes != 0 {
        RatedIs(orig[j], now[j], shown, weights);
      }
    }
  }

  /** Keywords all shown: the weights are the original ones, and nothing more is taken out from now on. */
  lemma WorkingAll(orig: seq<Passage>, was: seq<Passage>, now: seq<Passage>, picks: seq<nat>, all: bool, best: nat,
                   found: set<nat>, weights: seq<int>)
    requires |weights| == MASK_BITS && Indexes(picks, |orig|) && best < |orig|
    requires Working(orig, was, picks, all, found, weights)
    requires Shown(orig, picks) + orig[best].mask == found
    requires |now| == |was| && now[best].codes == 0
    requires forall j :: 0 <= j < |now| && j != best ==>
               now[j] == if all then was[j] else was[j].(qwordsWeight := orig[j].qwordsWeight)
    ensures Indexes(picks + [best], |orig|) && Working(orig, now, picks + [best], true, found, weights)
  {
    TakenSnoc(orig, picks, best, found);
    hide Shown, WeightBelow, CountBelow, TakenOut, AllShown;
  }

  class Selector {
    var passages: seq<Passage>
    const foundWords: set<nat>
    const limitPassages: int
    const limitWords: int
    const limit: int
    const forceAllWords: bool
    const useBoundaries: bool
    const weights: seq<int>

    constructor (passages: seq<Passage>, foundWords: set<nat>, limitPassages: int, limitWords: int, limit: int,
                 forceAllWords: bool, useBoundaries: bool, weights: seq<int>)
      ensures this.passages == passages && this.foundWords == foundWords
      ensures this.limitPassages == limitPassages && this.limitWords == limitWords && this.limit == limit
      ensures this.forceAllWords == forceAllWords && this.useBoundaries == useBoundaries && this.weights == weights
    {
      this.passages := passages;
      this.foundWords := foundWords;
      this.limitPassages := limitPassages;
      this.limitWords := limitWords;
      this.limit := limit;
      this.forceAllWords := forceAllWords;
      this.useBoundaries := useBoundaries;
      this.weights := weights;
    }

    /** The next best passage that is not marked as shown; -1 if there is none. */
    method PickBest() returns (best: int)
      ensures best == -1 ==> forall j :: 0 <= j < |passages| ==> passages[j].codes == 0
      ensures best != -1 ==>
                && 0 <= best < |passages| && passages[best].codes != 0
                && forall j :: 0 <= j < |passages| && passages[j].codes != 0 && j != best ==>
                     Beats(passages[best], best, passages[j], j)
    {
      best := -1;
      for i := 0 to |passages|
        invariant best == -1 || (0 <= best < i && passages[best].codes != 0)
        invariant best == -1 ==> forall j :: 0 <= j < i ==> passages[j].codes == 0
        invariant best != -1 ==>
                    forall j :: 0 <= j < i && passages[j].codes != 0 && j != best ==>
                      Beats(passages[best], best, passages[j], j)
      {
        if passages[i].codes != 0 && (best == -1 || Less(passages[best], passages[i])) {
          forall j | best != -1 && 0 <= j < i && passages[j].codes != 0 ensures Less(passages[j], passages[i]) {
            LessIsOrder(passages[best], passages[i], passages[j]);
          }
          best := i;
        }
      }
    }

    /** What is no better than another is worse than all that the other is worse than. */
    lemma LessIsOrder(a: Passage, b: Passage, c: Passage)
      requires Less(a, b) && (a == c || Less(c, a) || !Less(a, c))
      ensures Less(c, b)
    {
    }

    /** Takes the keywords of the passage just shown out of one other passage. */
    method TakeOut(p: Passage, best: set<nat>, shown: set<nat>) returns (r: Passage)
      requires |weights| == MASK_BITS && IsMask(best)
      requires Weighed(p, p.mask, weights)
      requires p.mask * best == p.mask * shown
      ensures SameText(p, r)
      ensures Weighed(r, p.mask - shown, weights)
    {
      r := p;
      var rest := best;
      var word: nat := 0;
      while rest != {}
        invariant word <= MASK_BITS && rest == set t | t in best && t >= word
        invariant r == p.(qwordsWeight := r.qwordsWeight, qwordCount := r.qwordCount, uniqQwords := r.uniqQwords)
        invariant r.qwordCount == p.qwordCount - CountBelow(p.mask * best, word)
        invariant r.qwordsWeight == p.qwordsWeight - WeightBelow(p.mask * best, weights, word)
        invariant r.uniqQwords == p.uniqQwords - CountBelow(p.mask * best, word)
        decreases MASK_BITS - word
      {
        SomeBit(best, word);
        if word in rest && word in r.mask {
          r := r.(qwordsWeight := r.qwordsWeight - weights[word],
                  qwordCount := r.qwordCount - 1, uniqQwords := r.uniqQwords - 1);
        }
        rest := rest - {word};
        word := word + 1;
      }
      assert forall t <- best :: t in rest || t < word;
      NoneAbove(p.mask * best, word, MASK_BITS);
      WithoutShared(p.mask, best, weights, MASK_BITS);
      SameRest(p.mask, best, shown);
      r := r.(mask := r.mask - shown);
    }

    lemma SomeBit(mask: set<nat>, word: nat)
      requires IsMask(mask) && (set t | t in mask && t >= word) != {}
      ensures word < MASK_BITS
    {
      var t :| t in mask && t >= word;
    }

    lemma SameRest(mask: set<nat>, a: set<nat>, b: set<nat>)
      requires mask * a == mask * b
      ensures mask - a == mask - b
    {
      assert forall t <- mask :: (t in a <==> t in mask * a) && (t in b <==> t in mask * b);
    }

    lemma {:induction false} NoneAbove(mask: set<nat>, lo: nat, hi: nat)
      requires lo <= hi <= |weights| && forall t <- mask :: t < lo
      ensures WeightBelow(mask, weights, hi) == WeightBelow(mask, weights, lo)
      ensures CountBelow(mask, hi) == CountBelow(mask, lo)
    {
      if lo < hi {
        NoneAbove(mask, lo, hi - 1);
      }
    }

    /** Re-weights all passages that are not marked as shown. */
    method ReweightAll(best: set<nat>, shown: set<nat>, ghost orig: seq<Passage>, ghost before: set<nat>)
      requires |weights| == MASK_BITS && |orig| == |passages| && IsMask(best)
      requires best !! before && shown == before + best
      requires forall j :: 0 <= j < |passages| && passages[j].codes != 0 ==>
                 Weighed(passages[j], orig[j].mask - before, weights)
      modifies this
      ensures |passages| == |old(passages)|
      ensures forall j :: 0 <= j < |passages| && old(passages)[j].codes == 0 ==> passages[j] == old(passages)[j]
      ensures forall j :: 0 <= j < |passages| && old(passages)[j].codes != 0 ==>
                && SameText(old(passages)[j], passages[j]) && passages[j].mask <= old(passages)[j].mask
                && Weighed(passages[j], orig[j].mask - shown, weights)
      ensures NonNegative(weights) && WeightsNonNegative(old(passages)) ==> WeightsNonNegative(passages)
    {
      hide WeightBelow, CountBelow;
      for i := 0 to |passages|
        invariant |passages| == |old(passages)|
        invariant forall j :: i <= j < |passages| ==> passages[j] == old(passages)[j]
        invariant forall j :: 0 <= j < i && old(passages)[j].codes == 0 ==> passages[j] == old(passages)[j]
        invariant forall j :: 0 <= j < i && old(passages)[j].codes != 0 ==>
                    && SameText(old(passages)[j], passages[j]) && passages[j].mask <= old(passages)[j].mask
                    && Weighed(passages[j], orig[j].mask - shown, weights)
        invariant NonNegative(weights) && WeightsNonNegative(old(passages)) ==> WeightsNonNegative(passages)
      {
        if passages[i].codes != 0 {
          var p := passages[i];
          assert p.mask * best == p.mask * shown;
          assert p.mask - shown == orig[i].mask - shown;
          p := TakeOut(p, best, shown);
          if NonNegative(weights) {
            WeightNonNegative(orig[i].mask - shown, weights, MASK_BITS);
          }
          passages := passages[i := p];
        }
      }
    }

    /** Puts the original weights back once all keywords are shown. */
    method RestoreWeights(originals: seq<int>)
      requires |originals| == |passages|
      modifies this
      ensures |passages| == |old(passages)|
      ensures forall j :: 0 <= j < |passages| ==> passages[j] == old(passages)[j].(qwordsWeight := originals[j])
    {
      for i := 0 to |passages|
        invariant |passages| == |old(passages)|
        invariant forall j :: i <= j < |passages| ==> passages[j] == old(passages)[j]
        invariant forall j :: 0 <= j < i ==> passages[j] == old(passages)[j].(qwordsWeight := originals[j])
      {
        passages := passages[i := passages[i].(qwordsWeight := originals[i])];
      }
    }

    /** Marks a passage as shown and re-weights, or restores the weights for good. */
    method AfterPick(best: nat, shown: set<nat>, all: bool, originals: seq<int>,
                     ghost orig: seq<Passage>, ghost picks: seq<nat>)
      returns (nowAll: bool)
      requires |weights| == MASK_BITS && Fresh(orig, foundWords, weights) && Indexes(picks, |orig|)
      requires Working(orig, passages, picks, all, foundWords, weights)
      requires best < |orig| && best !in picks && passages[best].codes != 0 && OriginalWeights(orig, originals)
      requires shown == Shown(orig, picks) + orig[best].mask <= foundWords
      modifies this
      ensures |passages| == |old(passages)| && Indexes(picks + [best], |orig|)
      ensures Working(orig, passages, picks + [best], nowAll, foundWords, weights)
      ensures NonNegative(weights) && WeightsNonNegative(old(passages)) && NonNegative(originals) ==>
                WeightsNonNegative(passages)
    {
      hide Shown, WeightBelow, CountBelow, Rated, TakenOut;
      ghost var was := passages;
      var bestMask := passages[best].mask;
      passages := passages[best := passages[best].(codes := 0)];
      nowAll := all;
      if !all && shown == foundWords {
        nowAll := true;
        RestoreWeights(originals);
      }
      if nowAll {
        StaysShown(orig, picks, best);
        WorkingAll(orig, was, passages, picks, all, best, foundWords, weights);
      } else {
        TakenIsShown(orig, picks, foundWords);
        WorkingWeighed(orig, was, picks);
        assert bestMask == orig[best].mask - Shown(orig, picks);
        ReweightAll(bestMask, shown, orig, Shown(orig, picks));
        WorkingSnoc(orig, was, passages, picks, best, foundWords, weights);
      }
    }

    ghost predicate OriginalWeights(orig: seq<Passage>, originals: seq<int>) {
      |originals| == |orig| && forall j :: 0 <= j < |orig| ==> originals[j] == orig[j].qwordsWeight
    }

    lemma StaysShown(orig: seq<Passage>, picks: seq<nat>, best: nat)
      requires Indexes(picks, |orig|) && best < |orig| && Shown(orig, picks) + orig[best].mask <= foundWords
      ensures AllShown(orig, picks, foundWords) ==> Shown(orig, picks) + orig[best].mask == foundWords
    {
    }

    /** Until all keywords are shown, the passages left are weighed over those they have left. */
    lemma WorkingWeighed(orig: seq<Passage>, now: seq<Passage>, picks: seq<nat>)
      requires |weights| == MASK_BITS && Indexes(picks, |orig|) && Working(orig, now, picks, false, foundWords, weights)
      ensures forall j: nat :: j < |orig| && j !in picks && orig[j].codes != 0 ==>
                && SameText(orig[j], now[j]) && now[j].mask == orig[j].mask - TakenOut(orig, picks, foundWords)
                && Weighed(now[j], orig[j].mask - TakenOut(orig, picks, foundWords), weights)
      ensures forall j: nat :: j < |orig| && now[j].codes != 0 ==> j !in picks && orig[j].codes != 0
    {
      hide Rated, TakenOut, AllShown, Weighed;
      forall j: nat | j < |orig| && j !in picks
        ensures orig[j].codes != 0 ==>
                  && SameText(orig[j], now[j]) && now[j].mask == orig[j].mask - TakenOut(orig, picks, foundWords)
                  && Weighed(now[j], orig[j].mask - TakenOut(orig, picks, foundWords), weights)
        ensures now[j].codes != 0 ==> orig[j].codes != 0
      {
        assert WorkingAt(orig[j], now[j], TakenOut(orig, picks, foundWords), false, weights);
        RatedText(orig[j], TakenOut(orig, picks, foundWords), false, weights);
      }
    }

    /** What PickBest finds in the working copy is the best passage left. */
    lemma BestIsBest(best: nat, all: bool, orig: seq<Passage>, picks: seq<nat>)
      requires |weights| == MASK_BITS && Indexes(picks, |orig|)
      requires Working(orig, passages, picks, all, foundWords, weights)
      requires best < |passages| && passages[best].codes != 0
      requires forall j :: 0 <= j < |passages| && passages[j].codes != 0 && j != best ==>
                 Beats(passages[best], best, passages[j], j)
      ensures IsBest(orig, picks, best, foundWords, weights)
      ensures passages[best] == RatedAfter(orig, picks, best, foundWords, weights)
      ensures SameText(orig[best], passages[best])
    {
      hide Shown, Rated, TakenOut, AllShown, Less;
      var taken := TakenOut(orig, picks, foundWords);
      assert WorkingAt(orig[best], passages[best], taken, all, weights);
      forall j: nat | j < |orig| && j !in picks && orig[j].codes != 0 && j != best
        ensures passages[j] == RatedAfter(orig, picks, j, foundWords, weights) && passages[j].codes != 0
      {
        assert WorkingAt(orig[j], passages[j], taken, all, weights);
        RatedText(orig[j], taken, all, weights);
      }
    }

    /** No passage is left when none is unmarked. */
    lemma NoneLeft(all: bool, orig: seq<Passage>, picks: seq<nat>)
      requires |weights| == MASK_BITS && Indexes(picks, |orig|)
      requires Working(orig, passages, picks, all, foundWords, weights)
      requires forall j :: 0 <= j < |passages| ==> passages[j].codes == 0
      ensures forall j: nat :: j < |orig| && orig[j].codes != 0 ==> j in picks
      ensures forall show :: Stopped(orig, picks, show)
    {
      hide Shown, TakenOut, AllShown, Rated;
      forall j: nat | j < |orig| && j !in picks ensures orig[j].codes == 0 {
        assert WorkingAt(orig[j], passages[j], TakenOut(orig, picks, foundWords), all, weights);
      }
    }

    /** The best candidate has most unshown keywords, as long as some are unshown. */
    lemma BestIsGreedy(best: nat, orig: seq<Passage>, picks: seq<nat>)
      requires |weights| == MASK_BITS && Fresh(orig, foundWords, weights) && Indexes(picks, |orig|)
      requires IsBest(orig, picks, best, foundWords, weights)
      ensures Shown(orig, picks) != foundWords ==>
                forall j: nat :: j < |orig| && orig[j].codes != 0 && j !in picks ==>
                  CountBelow(orig[j].mask - Shown(orig, picks), MASK_BITS)
                  <= CountBelow(orig[best].mask - Shown(orig, picks), MASK_BITS)
    {
      hide Shown, WeightBelow, CountBelow, TakenOut;
      if Shown(orig, picks) != foundWords {
        TakenIsShown(orig, picks, foundWords);
      }
    }

    /** Picking by what a passage has left shows what it has. */
    lemma SameShown(best: nat, orig: seq<Passage>, picks: seq<nat>)
      requires |weights| == MASK_BITS && Fresh(orig, foundWords, weights) && Indexes(picks, |orig|) && best < |orig|
      ensures
        var p := RatedAfter(orig, picks, best, foundWords, weights);
        Shown(orig, picks) + p.mask == Shown(orig, picks) + orig[best].mask <= foundWords
    {
      hide Shown, WeightBelow, CountBelow, TakenOut, AllShown;
      TakenShown(orig, picks);
      ShownFound(orig, picks);
    }

    lemma {:induction false} TakenShown(orig: seq<Passage>, picks: seq<nat>)
      requires Indexes(picks, |orig|)
      ensures TakenOut(orig, picks, foundWords) <= Shown(orig, picks)
    {
      if picks != [] {
        TakenShown(orig, picks[..|picks| - 1]);
      }
    }

    lemma {:induction false} ShownFound(orig: seq<Passage>, picks: seq<nat>)
      requires |weights| == MASK_BITS && Fresh(orig, foundWords, weights) && Indexes(picks, |orig|)
      ensures Shown(orig, picks) <= foundWords
    {
      hide Weighed;
      if picks != [] {
        ShownFound(orig, picks[..|picks| - 1]);
      }
    }

    // ---------- when picking goes on, and when it stops ----------

    function MaxPassages(n: nat): (m: int) {
      if limitPassages != 0 && limitPassages < n then limitPassages else n
    }

    predicate FitsIn(codes: int, words: int) {
      Within(codes, limit) && Within(words, limitWords)
    }

    /** After others, a passage may be shown if what is between the keywords of all of them fits; only the first one
        need not when all words are forced. Once all keywords are shown, it must fit, or the last one in part. */
    predicate MayTake(others: seq<Passage>, p: Passage, allShown: bool, last: bool) {
      && ((forceAllWords && others == [])
          || FitsIn(SumBy(others, CodesBetween) + p.codesBetween, SumBy(others, WordsBetween) + p.wordsBetween))
      && (allShown ==>
            || FitsIn(SumBy(others, Codes) + p.codes, SumBy(others, Words) + p.words)
            || (last && FitsIn(SumBy(others, Codes) + p.codesBetween, SumBy(others, Words) + p.wordsBetween)))
    }

    ghost predicate Took(orig: seq<Passage>, picks: seq<nat>, show: seq<Passage>, t: nat)
      requires Indexes(picks, |orig|) && t < |picks| == |show|
    {
      MayTake(show[..t], show[t], Shown(orig, picks[..t]) == foundWords, t == |picks| - 1)
    }

    ghost predicate TookAll(orig: seq<Passage>, picks: seq<nat>, show: seq<Passage>)
      requires Indexes(picks, |orig|) && |picks| == |show|
    {
      forall t :: 0 <= t < |picks| ==> Took(orig, picks, show, t)
    }

    /** The last passage does not fit, but all keywords were shown before it. */
    ghost predicate LastInPart(orig: seq<Passage>, picks: seq<nat>, show: seq<Passage>)
      requires Indexes(picks, |orig|)
    {
      && picks != [] && Shown(orig, picks[..|picks| - 1]) == foundWords
      && !FitsIn(SumBy(show, Codes), SumBy(show, Words))
    }

    /** There is no room for one more passage. */
    ghost predicate NoRoom(orig: seq<Passage>, picks: seq<nat>, show: seq<Passage>, p: Passage)
      requires Indexes(picks, |orig|)
    {
      || ((!forceAllWords || show != [])
          && !FitsIn(SumBy(show, CodesBetween) + p.codesBetween, SumBy(show, WordsBetween) + p.wordsBetween))
      || (Shown(orig, picks) == foundWords
          && !FitsIn(SumBy(show, Codes) + p.codes, SumBy(show, Words) + p.words)
          && !FitsIn(SumBy(show, Codes) + p.codesBetween, SumBy(show, Words) + p.wordsBetween))
    }

    /** Picking stops only with as many passages as allowed, or all of them, or no room for the best one left, or
        one shown in part. */
    ghost predicate Stopped(orig: seq<Passage>, picks: seq<nat>, show: seq<Passage>)
      requires |weights| == MASK_BITS && Indexes(picks, |orig|)
    {
      || |picks| >= MaxPassages(|orig|)
      || (forall j: nat :: j < |orig| && orig[j].codes != 0 ==> j in picks)
      || (exists j: nat :: IsBest(orig, picks, j, foundWords, weights) && NoRoom(orig, picks, show, orig[j]))
      || LastInPart(orig, picks, show)
    }

    /** The whole outcome of the choice. */
    ghost predicate Selected(orig: seq<Passage>, picks: seq<nat>, show: seq<Passage>)
      requires |weights| == MASK_BITS
    {
      && Chosen(orig, picks, show, foundWords, weights)
      && TookAll(orig, picks, show) && Stopped(orig, picks, show)
    }

    /** Without limits picking goes on as long as more passages are allowed and there are any. */
    lemma UnlimitedShowsAll(orig: seq<Passage>, picks: seq<nat>, show: seq<Passage>)
      requires |weights| == MASK_BITS && Selected(orig, picks, show) && limit == 0 && limitWords == 0
      ensures |show| >= MaxPassages(|orig|) || forall j: nat :: j < |orig| && orig[j].codes != 0 ==> j in picks
    {
      hide IsBest, Shown, SumBy;
    }

    /** One more passage, that fits, may be shown. */
    lemma TookSnoc(orig: seq<Passage>, picks: seq<nat>, show: seq<Passage>, best: nat, p: Passage)
      requires Indexes(picks, |orig|) && |picks| == |show| && best < |orig| && TookAll(orig, picks, show)
      requires !LastInPart(orig, picks, show)
      requires MayTake(show, p, Shown(orig, picks) == foundWords, true)
      ensures Indexes(picks + [best], |orig|) && TookAll(orig, picks + [best], show + [p])
      ensures LastInPart(orig, picks + [best], show + [p]) <==>
                && Shown(orig, picks) == foundWords
                && !FitsIn(SumBy(show, Codes) + p.codes, SumBy(show, Words) + p.words)
    {
      hide Shown, SumBy, TookAll, Took, LastInPart, FitsIn, MayTake;
      forall t | 0 <= t < |picks| ensures Took(orig, picks + [best], show + [p], t) {
        TookStays(orig, picks, show, best, p, t);
      }
      TookLast(orig, picks, show, best, p);
      LastSnoc(orig, picks, show, best, p);
      TookEach(orig, picks + [best], show + [p]);
    }

    lemma TookEach(orig: seq<Passage>, picks: seq<nat>, show: seq<Passage>)
      requires Indexes(picks, |orig|) && |picks| == |show|
      requires forall t :: 0 <= t < |picks| ==> Took(orig, picks, show, t)
      ensures TookAll(orig, picks, show)
    {
    }

    lemma TookStays(orig: seq<Passage>, picks: seq<nat>, show: seq<Passage>, best: nat, p: Passage, t: nat)
      requires Indexes(picks, |orig|) && t < |picks| == |show| && best < |orig| && TookAll(orig, picks, show)
      requires !LastInPart(orig, picks, show)
      ensures Indexes(picks + [best], |orig|) && Took(orig, picks + [best], show + [p], t)
    {
      hide Shown, SumBy, FitsIn;
      var more, shown := picks + [best], show + [p];
      assert Took(orig, picks, show, t);
      assert more[..t] == picks[..t] && shown[..t] == show[..t] && shown[t] == show[t];
      if t == |picks| - 1 {
        assert show == show[..t] + [show[t]];
        SumsMore(show[..t], show[t]);
      }
    }

    lemma TookLast(orig: seq<Passage>, picks: seq<nat>, show: seq<Passage>, best: nat, p: Passage)
      requires Indexes(picks, |orig|) && |picks| == |show| && best < |orig|
      requires MayTake(show, p, Shown(orig, picks) == foundWords, true)
      ensures Indexes(picks + [best], |orig|) && Took(orig, picks + [best], show + [p], |picks|)
    {
      hide Shown, MayTake;
      AtEnd(picks, best);
      AtEnd(show, p);
    }

    lemma LastSnoc(orig: seq<Passage>, picks: seq<nat>, show: seq<Passage>, best: nat, p: Passage)
      requires Indexes(picks, |orig|) && best < |orig|
      ensures Indexes(picks + [best], |orig|)
      ensures LastInPart(orig, picks + [best], show + [p]) <==>
                && Shown(orig, picks) == foundWords
                && !FitsIn(SumBy(show, Codes) + p.codes, SumBy(show, Words) + p.words)
    {
      hide Shown, SumBy, FitsIn;
      AtEnd(picks, best);
      SumsMore(show, p);
    }

    lemma AtEnd<X>(s: seq<X>, x: X)
      ensures (s + [x])[..|s|] == s && (s + [x])[..|s| + 1] == s + [x] && (s + [x])[|s|] == x
    {
    }

    lemma SumsMore(show: seq<Passage>, p: Passage)
      ensures SumBy(show + [p], Codes) == SumBy(show, Codes) + p.codes
      ensures SumBy(show + [p], Words) == SumBy(show, Words) + p.words
      ensures SumBy(show + [p], CodesBetween) == SumBy(show, CodesBetween) + p.codesBetween
      ensures SumBy(show + [p], WordsBetween) == SumBy(show, WordsBetween) + p.wordsBetween
    {
      SumSnoc(show, p, Codes);
      SumSnoc(show, p, Words);
      SumSnoc(show, p, CodesBetween);
      SumSnoc(show, p, WordsBetween);
    }

    /** The choice itself. */
    method CollectBest()
      returns (show: seq<Passage>, totalCodes: int, totalWords: int, ghost picks: seq<nat>)
      requires |weights| == MASK_BITS && Fresh(passages, foundWords, weights)
      requires limit >= 0 && limitWords >= 0
      modifies this
      ensures Collected(old(passages), picks, show, foundWords) && Selected(old(passages), picks, show)
      ensures limitPassages > 0 ==> |show| <= limitPassages
      ensures totalCodes == SumBy(show, Codes) && totalWords == SumBy(show, Words)
      ensures !forceAllWords ==>
                Within(SumBy(show, CodesBetween), limit) && Within(SumBy(show, WordsBetween), limitWords)
      ensures NonNegative(weights) ==> WeightsNonNegative(show)
    {
      hide Shown, Less, SumBy, Choice, Working, Fresh, Weighed, IsBest, RatedAfter, LastInPart, Stopped, Sums, Totalled;
      hide NonNegative, WeightsNonNegative, OriginalWeights, SameText, Within;
      ghost var orig := passages;
      var originals := seq(|passages|, k requires 0 <= k < |passages| reads this => passages[k].qwordsWeight);
      var maxPassages := if limitPassages != 0 && limitPassages < |passages| then limitPassages else |passages|;
      var all, shown := false, {};
      var keywordCodes, keywordWords := 0, 0;
      show, totalCodes, totalWords, picks := [], 0, 0, [];
      Started(orig, originals);
      FreshWeights(orig, originals);
      while |show| < maxPassages
        invariant |passages| == |orig| && OriginalWeights(orig, originals) && Indexes(picks, |orig|)
        invariant |picks| == |show| && Working(orig, passages, picks, all, foundWords, weights)
        invariant shown == Shown(orig, picks)
        invariant Choice(orig, picks, show) && !LastInPart(orig, picks, show)
        invariant |show| == 0 || |show| <= maxPassages
        invariant Sums(show, totalCodes, totalWords, keywordCodes, keywordWords)
        invariant NonNegative(weights) ==>
                    NonNegative(originals) && WeightsNonNegative(passages) && WeightsNonNegative(show)
        invariant Totalled(show, totalCodes, totalWords)
        decreases maxPassages - |show|
      {
        var best := PickBest();
        if best < 0 {
          NoneLeft(all, orig, picks);
          break;
        }
        var p := passages[best];
        BestIsBest(best, all, orig, picks);
        NoRoomStops(orig, picks, show, best, p, totalCodes, totalWords, keywordCodes, keywordWords);
        // a passage that forces all keywords may be very big, so one of them is let through
        if !forceAllWords || |show| > 0 {
          if !Within(keywordCodes + p.codesBetween, limit) || !Within(keywordWords + p.wordsBetween, limitWords) {
            break;
          }
        }
        OneMoreWeight(show, best);
        var fits := Within(totalCodes + p.codes, limit) && Within(totalWords + p.words, limitWords);
        if shown == foundWords && !fits {
          // there might be just enough space to show this passage partially
          if Within(totalCodes + p.codesBetween, limit) && Within(totalWords + p.wordsBetween, limitWords) {
            ShowOne(orig, picks, show, best, p, totalCodes, totalWords, keywordCodes, keywordWords);
            totalWords := totalWords + p.words;
            totalCodes := totalCodes + p.codes;
            show := show + [p];
            picks := picks + [best];
          }
          break;
        }
        ShowOne(orig, picks, show, best, p, totalCodes, totalWords, keywordCodes, keywordWords);
        show := show + [p];
        shown := shown + p.mask;
        keywordWords := keywordWords + p.wordsBetween;
        keywordCodes := keywordCodes + p.codesBetween;
        totalWords := totalWords + p.words;
        totalCodes := totalCodes + p.codes;
        all := AfterPick(best, shown, all, originals, orig, picks);
        picks := picks + [best];
      }
      Ended(orig, picks, show, totalCodes, totalWords);
    }

    /** Everything about the choice but why it ends. */
    ghost predicate Choice(orig: seq<Passage>, picks: seq<nat>, show: seq<Passage>)
      requires |weights| == MASK_BITS
    {
      && Collected(orig, picks, show, foundWords)
      && Chosen(orig, picks, show, foundWords, weights) && TookAll(orig, picks, show)
    }

    /** What is said of the totals in the end. */
    ghost predicate Totalled(show: seq<Passage>, codes: int, words: int) {
      && codes == SumBy(show, Codes) && words == SumBy(show, Words)
      && (!forceAllWords ==> FitsIn(SumBy(show, CodesBetween), SumBy(show, WordsBetween)))
    }

    lemma Ended(orig: seq<Passage>, picks: seq<nat>, show: seq<Passage>, codes: int, words: int)
      requires |weights| == MASK_BITS && Choice(orig, picks, show) && |picks| == |show| && Totalled(show, codes, words)
      requires Indexes(picks, |orig|)
      requires |picks| >= MaxPassages(|orig|) || LastInPart(orig, picks, show) || Stopped(orig, picks, show)
      ensures Collected(orig, picks, show, foundWords) && Selected(orig, picks, show)
      ensures codes == SumBy(show, Codes) && words == SumBy(show, Words)
      ensures !forceAllWords ==>
                Within(SumBy(show, CodesBetween), limit) && Within(SumBy(show, WordsBetween), limitWords)
    {
      hide SumBy, LastInPart, Collected, Chosen, TookAll;
    }

    /** The best passage left is shown, if it may be. */
    lemma ShowOne(orig: seq<Passage>, picks: seq<nat>, show: seq<Passage>, best: nat, p: Passage,
                  codes: int, words: int, keyCodes: int, keyWords: int)
      requires |weights| == MASK_BITS && Fresh(orig, foundWords, weights) && Indexes(picks, |orig|)
      requires Choice(orig, picks, show) && |picks| == |show| && !LastInPart(orig, picks, show)
      requires IsBest(orig, picks, best, foundWords, weights)
      requires p == RatedAfter(orig, picks, best, foundWords, weights) && SameText(orig[best], p)
      requires Sums(show, codes, words, keyCodes, keyWords)
      requires (forceAllWords && show == []) || FitsIn(keyCodes + p.codesBetween, keyWords + p.wordsBetween)
      requires Shown(orig, picks) == foundWords ==>
                 FitsIn(codes + p.codes, words + p.words) || FitsIn(codes + p.codesBetween, words + p.wordsBetween)
      ensures Indexes(picks + [best], |orig|) && Choice(orig, picks + [best], show + [p])
      ensures LastInPart(orig, picks + [best], show + [p]) <==>
                Shown(orig, picks) == foundWords && !FitsIn(codes + p.codes, words + p.words)
      ensures Shown(orig, picks + [best]) == Shown(orig, picks) + p.mask == Shown(orig, picks) + orig[best].mask
              <= foundWords
      ensures best !in picks
      ensures Sums(show + [p], codes + p.codes, words + p.words, keyCodes + p.codesBetween, keyWords + p.wordsBetween)
      ensures Totalled(show + [p], codes + p.codes, words + p.words)
    {
      hide Shown, Less, SumBy, Collected, Fresh, Chosen, TookAll, IsBest, RatedAfter, LastInPart, SameText, FitsIn;
      SumsSnoc(show, p, codes, words, keyCodes, keyWords);
      assert MayTake(show, p, Shown(orig, picks) == foundWords, true);
      hide MayTake;
      BestIndex(orig, picks, best);
      BestIsGreedy(best, orig, picks);
      CollectedSnoc(orig, picks, show, foundWords, best, p);
      ChosenSnoc(orig, picks, show, foundWords, weights, best, p);
      ShownSnoc(orig, picks, best);
      SameShown(best, orig, picks);
      TookSnoc(orig, picks, show, best, p);
    }

    /** Picking may stop at a passage that does not fit. */
    lemma NoRoomStops(orig: seq<Passage>, picks: seq<nat>, show: seq<Passage>, best: nat, p: Passage,
                      codes: int, words: int, keyCodes: int, keyWords: int)
      requires |weights| == MASK_BITS && Indexes(picks, |orig|) && IsBest(orig, picks, best, foundWords, weights)
      requires best < |orig| && SameText(orig[best], p) && Sums(show, codes, words, keyCodes, keyWords)
      ensures (!forceAllWords || show != []) && !FitsIn(keyCodes + p.codesBetween, keyWords + p.wordsBetween) ==>
                Stopped(orig, picks, show)
      ensures && Shown(orig, picks) == foundWords && !FitsIn(codes + p.codes, words + p.words)
              && !FitsIn(codes + p.codesBetween, words + p.wordsBetween) ==>
                Stopped(orig, picks, show)
    {
      hide Shown, SumBy, FitsIn, IsBest, LastInPart;
      if NoRoom(orig, picks, show, orig[best]) {
        assert Stopped(orig, picks, show);
      }
    }

    lemma BestIndex(orig: seq<Passage>, picks: seq<nat>, best: nat)
      requires |weights| == MASK_BITS && Indexes(picks, |orig|) && IsBest(orig, picks, best, foundWords, weights)
      ensures best < |orig| && best !in picks && orig[best].codes != 0
    {
    }

    lemma OneMoreWeight(show: seq<Passage>, best: nat)
      requires best < |passages|
      ensures WeightsNonNegative(passages) && WeightsNonNegative(show) ==> WeightsNonNegative(show + [passages[best]])
    {
    }

    ghost predicate Sums(show: seq<Passage>, codes: int, words: int, keywordCodes: int, keywordWords: int) {
      && codes == SumBy(show, Codes) && words == SumBy(show, Words)
      && keywordCodes == SumBy(show, CodesBetween) && keywordWords == SumBy(show, WordsBetween)
    }

    lemma SumsSnoc(show: seq<Passage>, p: Passage, codes: int, words: int, keywordCodes: int, keywordWords: int)
      requires Sums(show, codes, words, keywordCodes, keywordWords)
      ensures Sums(show + [p], codes + p.codes, words + p.words,
                   keywordCodes + p.codesBetween, keywordWords + p.wordsBetween)
    {
      SumSnoc(show, p, Codes);
      SumSnoc(show, p, Words);
      SumSnoc(show, p, CodesBetween);
      SumSnoc(show, p, WordsBetween);
    }

    lemma Started(orig: seq<Passage>, originals: seq<int>)
      requires |weights| == MASK_BITS && Fresh(orig, foundWords, weights)
      ensures Working(orig, orig, [], false, foundWords, weights)
      ensures Shown(orig, []) == {} && Choice(orig, [], []) && !LastInPart(orig, [], [])
      ensures Sums([], 0, 0, 0, 0) && (limit >= 0 && limitWords >= 0 ==> Totalled([], 0, 0))
      ensures (|originals| == |orig| && forall j :: 0 <= j < |orig| ==> originals[j] == orig[j].qwordsWeight) ==>
                OriginalWeights(orig, originals)
    {
      hide WeightBelow, CountBelow;
      forall j | 0 <= j < |orig| ensures WorkingAt(orig[j], orig[j], {}, false, weights) {
        assert orig[j].mask - {} == orig[j].mask;
        RatedIs(orig[j], orig[j], {}, weights);
      }
    }

    lemma FreshWeights(orig: seq<Passage>, originals: seq<int>)
      requires |weights| == MASK_BITS && Fresh(orig, foundWords, weights) && OriginalWeights(orig, originals)
      ensures NonNegative(weights) ==> WeightsNonNegative(orig) && NonNegative(originals)
      ensures WeightsNonNegative([])
    {
      if NonNegative(weights) {
        forall j | 0 <= j < |orig| ensures orig[j].qwordsWeight >= 0 {
          WeightNonNegative(orig[j].mask, weights, MASK_BITS);
        }
      }
    }
  }
}
