/** The end of SelectBestPassages (src/sphinxexcerpt.cpp): the passages chosen and trimmed are put in document
    order, and show no more than the limits allow. */
module PassageChoice {
  import opened Vectors
  import opened Passages
  import opened PassageSelection
  import opened PassageTrimming
  import opened PassageDisplay
  import T = TokenSpans

  // ---------- the document order ----------

  ghost predicate InDocumentOrder(show: seq<Passage>) {
    forall i, j :: 0 <= i < j < |show| ==> show[i].start <= show[j].start
  }

  /** Where a passage goes among sorted ones. */
  method InsertByStart(show: seq<Passage>, p: Passage) returns (r: seq<Passage>)
    requires InDocumentOrder(show)
    ensures InDocumentOrder(r) && multiset(r) == multiset(show) + multiset{p}
  {
    hide InDocumentOrder;
    var i := |show|;
    while i > 0 && show[i - 1].start > p.start
      invariant 0 <= i <= |show| && forall k :: i <= k < |show| ==> show[k].start > p.start
    {
      i := i - 1;
    }
    r := show[..i] + [p] + show[i..];
    InsertedOrder(show, i, p);
    InsertedElements(show[..i], p, show[i..]);
    assert show == show[..i] + show[i..];
  }

  lemma InsertedOrder(show: seq<Passage>, i: nat, p: Passage)
    requires InDocumentOrder(show) && i <= |show| && (i > 0 ==> show[i - 1].start <= p.start)
    requires forall k :: i <= k < |show| ==> show[k].start > p.start
    ensures InDocumentOrder(show[..i] + [p] + show[i..])
  {
    var r := show[..i] + [p] + show[i..];
    assert forall k :: 0 <= k < i ==> r[k] == show[k];
    assert forall k :: i < k < |r| ==> r[k] == show[k - 1];
  }

  /** Sorting by position; only this contract is relied on. */
  method SortByStart(show: seq<Passage>) returns (r: seq<Passage>)
    ensures InDocumentOrder(r) && multiset(r) == multiset(show)
  {
    r := [];
    for i := 0 to |show|
      invariant InDocumentOrder(r) && multiset(r) == multiset(show[..i])
    {
      r := InsertByStart(r, show[i]);
      assert show[..i + 1] == show[..i] + [show[i]];
    }
    assert show[..|show|] == show;
  }

  /** Puts the passages in document order, unless they are to be shown by weight and are in document order
      already; then the weight order needs no fixing. */
  method OrderPassages(show: seq<Passage>, weightOrder: bool) returns (r: seq<Passage>, fixedWeightOrder: bool)
    ensures InDocumentOrder(r) && multiset(r) == multiset(show)
    ensures weightOrder && InDocumentOrder(show) ==> r == show
    ensures fixedWeightOrder <==> weightOrder && !InDocumentOrder(show)
  {
    fixedWeightOrder := weightOrder;
    var preSorted := false;
    if weightOrder {
      var positionOrder := true;
      var i := 1;
      while i < |show| && positionOrder
        invariant i == 1 || 1 < i <= |show|
        invariant positionOrder ==> InDocumentOrder(show[..if i < |show| then i else |show|])
        invariant !positionOrder ==> !InDocumentOrder(show)
      {
        if show[i - 1].start > show[i].start {
          positionOrder := false;
        } else {
          assert show[..i][i - 1] == show[i - 1];
          assert forall k :: 0 <= k < i ==> show[..i + 1][k] == show[..i][k];
        }
        i := i + 1;
      }
      assert show[..|show|] == show;
      preSorted := positionOrder;
      if positionOrder {
        fixedWeightOrder := false;
      }
    }
    r := show;
    if !preSorted {
      r := SortByStart(show);
    }
  }

  // ---------- the weights ----------

  ghost predicate AllCounted(ps: seq<Passage>) {
    forall j :: 0 <= j < |ps| ==> Counted(ps[j])
  }

  /** The passages to show weigh no less than nothing, re-weighting and trimming notwithstanding. */
  lemma ShownWeigh(orig: seq<Passage>, picks: seq<nat>, collected: seq<Passage>, trimmed: seq<Passage>, found: set<nat>)
    requires Collected(orig, picks, collected, found) && AllTrimmed(collected, trimmed)
    ensures WeightsNonNegative(collected) && AllCounted(orig) ==> forall p <- trimmed :: p.GetWeight() >= 0
  {
    hide Passage.GetWeight, Greedy;
    if WeightsNonNegative(collected) && AllCounted(orig) {
      AtIndexes(orig, picks, found);
      forall p <- trimmed ensures p.GetWeight() >= 0 {
        var k :| 0 <= k < |trimmed| && trimmed[k] == p;
        assert Trimmed(collected[k], p) && SameText(orig[picks[k]], collected[k]) && Counted(orig[picks[k]]);
        assert Surplus(p) == Surplus(collected[k]);
        CountedWeight(p);
      }
    }
  }

  lemma AtIndexes(orig: seq<Passage>, picks: seq<nat>, found: set<nat>)
    requires Greedy(orig, picks, found)
    ensures Indexes(picks, |orig|)
  {
  }

  // ---------- what is shown ----------

  /** The passages kept of such as are counted right show just what their counters count. */
  lemma KeptShows(doc: seq<T.SpanToken>, collected: seq<Passage>, trimmed: seq<Passage>, n: nat, show: seq<Passage>)
    requires AllTrimmed(collected, trimmed) && n <= |trimmed| && multiset(show) == multiset(trimmed[..n])
    ensures AllFaithful(doc, collected) ==>
              && SumBy(show, ShownBy(doc, T.Codes)) == SumBy(trimmed[..n], Codes)
              && SumBy(show, ShownBy(doc, T.Words)) == CountedWords(collected[..n], trimmed[..n])
  {
    hide SumBy, ShownBy, Faithful, CountedWords;
    if AllFaithful(doc, collected) {
      TotalsShown(doc, collected[..n], trimmed[..n]);
      SumPermuted(show, trimmed[..n], ShownBy(doc, T.Codes));
      SumPermuted(show, trimmed[..n], ShownBy(doc, T.Words));
    }
  }

  // ---------- the whole ----------

  /** The whole of the selection: the passages that fit, in document order, or false if none is left. The limits
      hold for the counters; they hold for what is shown of a document as far as the counters are right about it. */
  method SelectBestPassages(sel: Selector, weightOrder: bool, ghost doc: seq<T.SpanToken>)
    returns (some: bool, show: seq<Passage>, fixedWeightOrder: bool,
             ghost picks: seq<nat>, ghost collected: seq<Passage>, ghost trimmed: seq<Passage>, ghost kept: nat)
    requires |sel.weights| == MASK_BITS && Fresh(sel.passages, sel.foundWords, sel.weights)
    requires sel.limit >= 0 && sel.limitWords >= 0
    modifies sel
    ensures Collected(old(sel.passages), picks, collected, sel.foundWords) && AllTrimmed(collected, trimmed)
    ensures sel.Selected(old(sel.passages), picks, collected)
    ensures sel.limitPassages > 0 ==> |collected| <= sel.limitPassages
    ensures if sel.useBoundaries || Fits(SumBy(collected, Codes), SumBy(collected, Words), sel.limit, sel.limitWords)
            then trimmed == collected else RightlyTrimmed(collected, trimmed, sel.limit, sel.limitWords)
    ensures kept < |trimmed| ==>
              !Fits(CodesOfFirst(trimmed, kept + 1), WordsOfFirst(collected, trimmed, kept + 1),
                    sel.limit, sel.limitWords)
    ensures kept <= |trimmed| && multiset(show) == multiset(trimmed[..kept]) && InDocumentOrder(show)
    ensures some <==> show != []
    ensures sel.forceAllWords ==> kept == |trimmed|
    ensures !sel.forceAllWords ==> Within(SumBy(trimmed[..kept], Codes), sel.limit)
    ensures !sel.forceAllWords && (sel.useBoundaries || Filled(collected)) ==>
              Within(CountedWords(collected[..kept], trimmed[..kept]), sel.limitWords)
    ensures !sel.forceAllWords && AllFaithful(doc, collected) ==> Within(SumBy(show, ShownBy(doc, T.Codes)), sel.limit)
    ensures !sel.forceAllWords && AllFaithful(doc, collected) && (sel.useBoundaries || Filled(collected)) ==>
              Within(SumBy(show, ShownBy(doc, T.Words)), sel.limitWords)
    ensures !sel.forceAllWords && !sel.useBoundaries && AllSolid(collected) && AllWhole(collected) ==> kept == |trimmed|
    ensures NonNegative(sel.weights) && AllCounted(old(sel.passages)) ==> forall p <- show :: p.GetWeight() >= 0
    ensures some ==> (fixedWeightOrder <==> weightOrder && !InDocumentOrder(trimmed[..kept]))
  {
    hide SumBy, Collected, Fresh, AllSolid, AllWhole, AllBare, AllTrimmed, CountedWords, InDocumentOrder, AllCounted;
    hide NonNegative, WeightsNonNegative, Passage.GetWeight, AllFaithful, ShownBy, Selector.Selected;
    hide RightlyTrimmed, Fits, CodesOfFirst, WordsOfFirst;
    show, picks, collected, trimmed := FitPassages(sel);
    kept := |show|;
    fixedWeightOrder := weightOrder;
    if |show| == 0 {
      EmptyOrder();
      KeptShows(doc, collected, trimmed, kept, show);
      return false, show, fixedWeightOrder, picks, collected, trimmed, kept;
    }
    ghost var chosen := show;
    ShownWeigh(old(sel.passages), picks, collected, trimmed, sel.foundWords);
    show, fixedWeightOrder := OrderPassages(show, weightOrder);
    assert |multiset(show)| == kept;
    KeptShows(doc, collected, trimmed, kept, show);
    forall p <- show ensures p in trimmed {
      assert p in multiset(show);
      assert p in chosen;
    }
    some := true;
  }

  lemma EmptyOrder()
    ensures InDocumentOrder([])
  {
  }
}
