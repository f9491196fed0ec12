/** The second half of SelectBestPassages (src/sphinxexcerpt.cpp): passages that do not
    fit the limits are trimmed at their ends, then dropped from the least relevant on. */
module PassageTrimming {
  import opened Vectors
  import opened Passages
  import opened PassageSelection

  ghost predicate AllTrimmed(was: seq<Passage>, now: seq<Passage>) {
    |now| == |was| && forall k :: 0 <= k < |was| ==> Trimmed(was[k], now[k])
  }

  /** The running totals during trimming: codepoints are exact, and the word total has
      lost exactly the words trimmed off. */
  ghost predicate InStep(was: seq<Passage>, now: seq<Passage>, codes: int, words: int) {
    && AllTrimmed(was, now)
    && codes == SumBy(now, Codes)
    && words == CountedWords(was, now)
  }

  /** Words that are left by the counters: m_iWords is not lowered when tokens are trimmed off,
      so what was trimmed has to be taken off its sum. */
  ghost function CountedWords(was: seq<Passage>, now: seq<Passage>): int {
    SumBy(now, Words) - (SumBy(was, SpareWords) - SumBy(now, SpareWords))
  }

  lemma Untrimmed(show: seq<Passage>, codes: int, words: int)
    requires codes == SumBy(show, Codes) && words == SumBy(show, Words)
    ensures InStep(show, show, codes, words)
  {
  }

  lemma TrimStep(was: seq<Passage>, now: seq<Passage>, codes: int, words: int, i: nat, turn: bool)
    requires InStep(was, now, codes, words) && i < |now| && Left(now[i]) > 0
    ensures var (p, t) := TrimOne(now[i], turn);
            && InStep(was, now[i := p], codes - t.lengthCp, words - StoredWords(t))
            && SumBy(now[i := p], Left) == SumBy(now, Left) - 1
            && (t in now[i].before || t in now[i].after)
  {
    hide SumBy, TrimOne;
    var (p, t) := TrimOne(now[i], turn);
    TrimOneTrims(now[i], turn);
    SumUpdate(now, i, p, Codes);
    SumUpdate(now, i, p, Words);
    SumUpdate(now, i, p, SpareWords);
    SumUpdate(now, i, p, Left);
    TrimmedTransitive(was[i], now[i], p);
  }

  ghost predicate AllSolid(show: seq<Passage>) {
    forall k :: 0 <= k < |show| ==> Solid(show[k])
  }

  /** No tokens are stored around any of the passages. */
  ghost predicate AllBare(show: seq<Passage>) {
    forall k :: 0 <= k < |show| ==> Left(show[k]) == 0
  }

  /** Trimming only removes stored tokens. */
  lemma TrimmedSolid(was: seq<Passage>, now: seq<Passage>)
    requires AllTrimmed(was, now) && AllSolid(was)
    ensures AllSolid(now)
  {
    forall k | 0 <= k < |now| ensures Solid(now[k]) {
      assert Trimmed(was[k], now[k]) && Solid(was[k]);
      forall t <- now[k].before ensures t in was[k].before {
        var n :| 0 <= n < |now[k].before| && now[k].before[n] == t;
        assert was[k].before[n] == t;
      }
      forall t <- now[k].after ensures t in was[k].after {
        var n :| 0 <= n < |now[k].after| && now[k].after[n] == t;
        assert was[k].after[n] == t;
      }
    }
  }

  predicate Fits(codes: int, words: int, limit: int, limitWords: int) {
    Within(codes, limit) && Within(words, limitWords)
  }

  /** In round r, counted from 0, the passages have been visited from the last one down to passage i. */
  ghost function TrimmedTo(was: seq<Passage>, r: nat, i: nat): (now: seq<Passage>)
    requires i <= |was|
    ensures |now| == |was|
    ensures forall k :: 0 <= k < |was| ==> now[k] == TrimTimes(was[k], if k >= i then r + 1 else r)
  {
    seq(|was|, k requires 0 <= k < |was| => TrimTimes(was[k], if k >= i then r + 1 else r))
  }

  /** The visit of passage i in round r takes a token off it, and then all fits. */
  ghost predicate FitsAt(was: seq<Passage>, r: nat, i: nat, limit: int, limitWords: int) {
    && i < |was| && Left(TrimTimes(was[i], r)) > 0
    && Fits(SumBy(TrimmedTo(was, r, i), Codes), CountedWords(was, TrimmedTo(was, r, i)), limit, limitWords)
  }

  /** The codepoints after r whole rounds. */
  ghost function CodesAfter(was: seq<Passage>, r: nat): int {
    SumBy(TrimmedTo(was, r, |was|), Codes)
  }

  /** Each of the first r rounds changed the codepoints. */
  ghost predicate Productive(was: seq<Passage>, r: nat) {
    forall s: nat :: s < r ==> CodesAfter(was, s + 1) != CodesAfter(was, s)
  }

  predicate Before(s: nat, j: nat, r: nat, i: nat) {
    s < r || (s == r && j > i)
  }

  /** Trimming stops at the first token after which all fits, or after the first round that leaves the codepoints
      as they are. */
  ghost predicate StopsAt(was: seq<Passage>, r: nat, i: nat, limit: int, limitWords: int) {
    && NoneFits(was, r, i, limit, limitWords)
    && Productive(was, r)
    && (FitsAt(was, r, i, limit, limitWords) || (i == 0 && CodesAfter(was, r + 1) == CodesAfter(was, r)))
  }

  /** No visit before that of passage i in round r made all fit. */
  ghost predicate NoneFits(was: seq<Passage>, r: nat, i: nat, limit: int, limitWords: int) {
    forall s: nat, j: nat :: Before(s, j, r, i) ==> !FitsAt(was, s, j, limit, limitWords)
  }

  ghost predicate RightlyTrimmed(was: seq<Passage>, now: seq<Passage>, limit: int, limitWords: int) {
    exists r: nat, i: nat :: i <= |was| && now == TrimmedTo(was, r, i) && StopsAt(was, r, i, limit, limitWords)
  }

  lemma NextVisit(was: seq<Passage>, r: nat, i: nat)
    requires i < |was|
    ensures
      var now := TrimmedTo(was, r, i + 1);
      && now[i] == TrimTimes(was[i], r)
      && TrimmedTo(was, r, i) == if Left(now[i]) == 0 then now else now[i := TrimOne(now[i], r % 2 == 0).0]
  {
    hide TrimOne;
  }

  lemma NextRound(was: seq<Passage>, r: nat)
    ensures TrimmedTo(was, r, 0) == TrimmedTo(was, r + 1, |was|) && TrimmedTo(was, 0, |was|) == was
  {
  }

  lemma NoneFitsYet(was: seq<Passage>, r: nat, i: nat, limit: int, limitWords: int)
    requires NoneFits(was, r, i, limit, limitWords) && !FitsAt(was, r, i, limit, limitWords)
    ensures i > 0 ==> NoneFits(was, r, i - 1, limit, limitWords)
    ensures i == 0 ==> NoneFits(was, r + 1, |was|, limit, limitWords)
  {
    hide Fits, SumBy, CountedWords, TrimmedTo, TrimTimes;
    forall s: nat, j: nat | (if i > 0 then Before(s, j, r, i - 1) else Before(s, j, r + 1, |was|))
      ensures !FitsAt(was, s, j, limit, limitWords) {
      assert Before(s, j, r, i) || (s == r && j == i) || j > |was|;
    }
  }

  /** One round: one token off each passage, least relevant first, until all fits. */
  method TrimRound(ghost was: seq<Passage>, show: seq<Passage>, codes: int, words: int, turn: bool,
                   limit: int, limitWords: int, ghost r: nat)
    returns (now: seq<Passage>, nowCodes: int, nowWords: int, done: bool, ghost at: nat)
    requires InStep(was, show, codes, words)
    requires show == TrimmedTo(was, r, |was|) && turn == (r % 2 == 0) && NoneFits(was, r, |was|, limit, limitWords)
    ensures InStep(was, now, nowCodes, nowWords)
    ensures done ==> Fits(nowCodes, nowWords, limit, limitWords)
    ensures SumBy(now, Left) <= SumBy(show, Left)
    ensures nowCodes != codes ==> SumBy(now, Left) < SumBy(show, Left)
    ensures AllSolid(was) && !done && nowCodes == codes ==> AllBare(now)
    ensures at <= |was| && now == TrimmedTo(was, r, at) && NoneFits(was, r, at, limit, limitWords)
    ensures if done then FitsAt(was, r, at, limit, limitWords)
            else at == 0 && NoneFits(was, r + 1, |was|, limit, limitWords)
  {
    hide SumBy, InStep, TrimOne, AllSolid, AllTrimmed, FitsAt, NoneFits, TrimmedTo;
    now, nowCodes, nowWords, done := show, codes, words, false;
    at := |was|;
    NothingBelow(was, r, limit, limitWords);
    var i := |now|;
    while i > 0
      invariant 0 <= i <= |now| && InStep(was, now, nowCodes, nowWords)
      invariant SumBy(now, Left) <= SumBy(show, Left)
      invariant nowCodes != codes ==> SumBy(now, Left) < SumBy(show, Left)
      invariant AllSolid(was) ==> nowCodes <= codes
      invariant AllSolid(was) && nowCodes == codes ==> forall k :: i <= k < |now| ==> Left(now[k]) == 0
      invariant |now| == |was| && at == i && now == TrimmedTo(was, r, at)
      invariant NoneFits(was, r, at, limit, limitWords) && !FitsAt(was, r, at, limit, limitWords)
      decreases i
    {
      NoneFitsYet(was, r, at, limit, limitWords);
      i := i - 1;
      at := i;
      NextVisit(was, r, at);
      if Left(now[i]) == 0 {
        NoVisit(was, r, at, limit, limitWords);
        continue;
      }
      TrimStep(was, now, nowCodes, nowWords, i, turn);
      SolidToken(was, now, nowCodes, nowWords, i, turn);
      var one := TrimOne(now[i], turn);
      now := now[i := one.0];
      nowCodes := nowCodes - one.1.lengthCp;
      nowWords := nowWords - StoredWords(one.1);
      VisitFits(was, now, nowCodes, nowWords, r, at, limit, limitWords);
      if Within(nowCodes, limit) && Within(nowWords, limitWords) {
        done := true;
        return;
      }
    }
    NoneFitsYet(was, r, at, limit, limitWords);
  }

  lemma NothingBelow(was: seq<Passage>, r: nat, limit: int, limitWords: int)
    ensures !FitsAt(was, r, |was|, limit, limitWords)
  {
  }

  lemma NoVisit(was: seq<Passage>, r: nat, i: nat, limit: int, limitWords: int)
    requires i < |was| && Left(TrimTimes(was[i], r)) == 0
    ensures !FitsAt(was, r, i, limit, limitWords)
  {
  }

  lemma VisitFits(was: seq<Passage>, now: seq<Passage>, codes: int, words: int, r: nat, i: nat,
                  limit: int, limitWords: int)
    requires InStep(was, now, codes, words) && i < |was| && now == TrimmedTo(was, r, i)
    requires Left(TrimTimes(was[i], r)) > 0
    ensures FitsAt(was, r, i, limit, limitWords) <==> Fits(codes, words, limit, limitWords)
  {
    hide SumBy, TrimmedTo, AllTrimmed, CountedWords;
  }

  lemma SolidToken(was: seq<Passage>, now: seq<Passage>, codes: int, words: int, i: nat, turn: bool)
    requires InStep(was, now, codes, words) && i < |now| && Left(now[i]) > 0
    ensures AllSolid(was) ==> TrimOne(now[i], turn).1.lengthCp > 0
  {
    if AllSolid(was) {
      TrimmedSolid(was, now);
      assert Solid(now[i]);
      TrimOneTrims(now[i], turn);
    }
  }

  /** Rounds of trimming until all fits or a round changes nothing. With tokens of some
      length it gives up only when there is nothing left to trim. */
  method TrimPassages(show: seq<Passage>, codes: int, words: int, limit: int, limitWords: int)
    returns (now: seq<Passage>, nowCodes: int, nowWords: int)
    requires codes == SumBy(show, Codes) && words == SumBy(show, Words)
    ensures InStep(show, now, nowCodes, nowWords)
    ensures RightlyTrimmed(show, now, limit, limitWords)
    ensures AllSolid(show) && !Fits(nowCodes, nowWords, limit, limitWords) ==> AllBare(now)
  {
    hide SumBy, InStep, AllSolid, NoneFits, FitsAt, TrimmedTo, CodesAfter, RightlyTrimmed, StopsAt;
    Untrimmed(show, codes, words);
    now, nowCodes, nowWords := show, codes, words;
    var turn, done := true, false;
    ghost var r: nat, at: nat := 0, |show|;
    LeftNonNegative(now);
    NextRound(show, 0);
    NoneFitsFirst(show, limit, limitWords);
    while !done
      invariant InStep(show, now, nowCodes, nowWords)
      invariant done ==> Fits(nowCodes, nowWords, limit, limitWords)
      invariant SumBy(now, Left) >= 0
      invariant done ==> RightlyTrimmed(show, now, limit, limitWords)
      invariant !done ==> now == TrimmedTo(show, r, |show|) && NoneFits(show, r, |show|, limit, limitWords)
      invariant !done ==> turn == (r % 2 == 0) && Productive(show, r)
      decreases SumBy(now, Left), !done
    {
      var before := nowCodes;
      CodesInStep(show, now, nowCodes, nowWords, r);
      now, nowCodes, nowWords, done, at := TrimRound(show, now, nowCodes, nowWords, turn, limit, limitWords, r);
      LeftNonNegative(now);
      NextRound(show, r);
      if !done {
        CodesInStep(show, now, nowCodes, nowWords, r + 1);
      }
      if done || nowCodes == before {
        Stopped(show, now, r, at, limit, limitWords);
      }
      if nowCodes == before {
        break; // could not reduce anything
      }
      turn := !turn;
      if !done {
        MoreProductive(show, r);
      }
      r := r + 1;
    }
  }

  lemma NoneFitsFirst(was: seq<Passage>, limit: int, limitWords: int)
    ensures NoneFits(was, 0, |was|, limit, limitWords)
  {
  }

  lemma CodesInStep(was: seq<Passage>, now: seq<Passage>, codes: int, words: int, r: nat)
    requires InStep(was, now, codes, words) && now == TrimmedTo(was, r, |was|)
    ensures codes == CodesAfter(was, r)
  {
    hide TrimmedTo, AllTrimmed, CountedWords, SumBy;
  }

  lemma MoreProductive(was: seq<Passage>, r: nat)
    requires Productive(was, r) && CodesAfter(was, r + 1) != CodesAfter(was, r)
    ensures Productive(was, r + 1)
  {
    hide CodesAfter;
  }

  lemma Stopped(was: seq<Passage>, now: seq<Passage>, r: nat, i: nat, limit: int, limitWords: int)
    requires i <= |was| && now == TrimmedTo(was, r, i) && NoneFits(was, r, i, limit, limitWords) && Productive(was, r)
    requires FitsAt(was, r, i, limit, limitWords) || (i == 0 && CodesAfter(was, r + 1) == CodesAfter(was, r))
    ensures RightlyTrimmed(was, now, limit, limitWords)
  {
    hide NoneFits, FitsAt, CodesAfter, TrimmedTo, Productive;
    assert StopsAt(was, r, i, limit, limitWords);
  }

  lemma LeftNonNegative(show: seq<Passage>)
    ensures SumBy(show, Left) >= 0
  {
    SumNonNegative(show, Left);
  }

  // ---------- dropping ----------

  /** The totals the code holds when only the first n trimmed passages are left. */
  ghost function CodesOfFirst(trimmed: seq<Passage>, n: nat): int
    requires n <= |trimmed|
  {
    SumBy(trimmed[..n], Codes)
  }

  ghost function WordsOfFirst(collected: seq<Passage>, trimmed: seq<Passage>, n: nat): int
    requires n <= |trimmed|
  {
    CountedWords(collected, trimmed) - SumBy(trimmed[n..], Words)
  }

  lemma DropLast(collected: seq<Passage>, trimmed: seq<Passage>, n: nat)
    requires 0 < n <= |trimmed|
    ensures CodesOfFirst(trimmed, n - 1) == CodesOfFirst(trimmed, n) - trimmed[n - 1].codes
    ensures WordsOfFirst(collected, trimmed, n - 1) == WordsOfFirst(collected, trimmed, n) - trimmed[n - 1].words
  {
    SumLast(trimmed[..n], Codes);
    assert trimmed[..n][..n - 1] == trimmed[..n - 1];
    assert trimmed[n - 1..] == [trimmed[n - 1]] + trimmed[n..];
  }

  /** With everything dropped both totals are within any limit. */
  lemma NothingLeft(collected: seq<Passage>, trimmed: seq<Passage>)
    requires AllTrimmed(collected, trimmed)
    ensures CodesOfFirst(trimmed, 0) == 0
    ensures WordsOfFirst(collected, trimmed, 0) <= 0
  {
    hide SumBy;
    assert trimmed[0..] == trimmed && trimmed[..0] == [];
    MoreTrimmed(collected, trimmed);
    assert SumBy<Passage>([], Codes) == 0 by { EmptySum(Codes); }
  }

  lemma EmptySum(f: Passage -> int)
    ensures SumBy([], f) == 0
  {
  }

  lemma {:induction false} MoreTrimmed(collected: seq<Passage>, trimmed: seq<Passage>)
    requires AllTrimmed(collected, trimmed)
    ensures SumBy(trimmed, SpareWords) <= SumBy(collected, SpareWords)
    decreases |collected|
  {
    if collected != [] {
      MoreTrimmed(collected[1..], trimmed[1..]);
      var o, p := collected[0], trimmed[0];
      assert Trimmed(o, p);
      assert o.before == p.before + o.before[|p.before|..] && o.after == p.after + o.after[|p.after|..];
      SumConcat(p.before, o.before[|p.before|..], StoredWords);
      SumConcat(p.after, o.after[|p.after|..], StoredWords);
      SumNonNegative(o.before[|p.before|..], StoredWords);
      SumNonNegative(o.after[|p.after|..], StoredWords);
    }
  }

  // ---------- when the limits hold ----------

  ghost predicate AllWhole(show: seq<Passage>) {
    forall k :: 0 <= k < |show| ==> Whole(show[k])
  }

  /** Passages as they are filled: with tokens stored around the keywords of all, or of none. */
  ghost predicate Filled(show: seq<Passage>) {
    AllBare(show) || (AllSolid(show) && AllWhole(show))
  }

  /** The counters of trimmed passages count what is between their keywords and what is still stored around them. */
  lemma {:induction false} WholeTotals(collected: seq<Passage>, trimmed: seq<Passage>)
    requires AllTrimmed(collected, trimmed) && AllWhole(collected)
    ensures SumBy(trimmed, Codes) == SumBy(collected, CodesBetween) + SumBy(trimmed, SpareCodes)
    ensures CountedWords(collected, trimmed) == SumBy(collected, WordsBetween) + SumBy(trimmed, SpareWords)
    decreases |collected|
  {
    hide SpareCodes, SpareWords;
    if collected != [] {
      assert Trimmed(collected[0], trimmed[0]) && Whole(collected[0]);
      WholeTotals(collected[1..], trimmed[1..]);
    }
  }

  lemma SolidSpares(show: seq<Passage>)
    requires AllSolid(show)
    ensures SumBy(show, SpareCodes) >= 0 && SumBy(show, SpareWords) >= 0
  {
    forall p <- show ensures SpareCodes(p) >= 0 && SpareWords(p) >= 0 {
      var k :| 0 <= k < |show| && show[k] == p;
      assert Solid(show[k]);
      SumNonNegative(p.before, StoredCodes);
      SumNonNegative(p.after, StoredCodes);
      SumNonNegative(p.before, StoredWords);
      SumNonNegative(p.after, StoredWords);
    }
    SumNonNegative(show, SpareCodes);
    SumNonNegative(show, SpareWords);
  }

  lemma {:induction false} BareSpares(show: seq<Passage>)
    requires AllBare(show)
    ensures SumBy(show, SpareCodes) == 0 && SumBy(show, SpareWords) == 0
  {
    if show != [] {
      assert Left(show[0]) == 0;
      BareSpares(show[1..]);
    }
  }

  /** Trimming makes passages fit just when what is between their keywords fits. */
  lemma TrimmingFits(collected: seq<Passage>, trimmed: seq<Passage>, limit: int, limitWords: int)
    requires AllTrimmed(collected, trimmed) && AllSolid(collected) && AllWhole(collected)
    requires Fits(SumBy(trimmed, Codes), CountedWords(collected, trimmed), limit, limitWords) || AllBare(trimmed)
    ensures Fits(SumBy(trimmed, Codes), CountedWords(collected, trimmed), limit, limitWords)
       <==> Fits(SumBy(collected, CodesBetween), SumBy(collected, WordsBetween), limit, limitWords)
  {
    hide SumBy, AllSolid, AllWhole, AllTrimmed, CountedWords;
    WholeTotals(collected, trimmed);
    TrimmedSolid(collected, trimmed);
    SolidSpares(trimmed);
    if AllBare(trimmed) {
      BareSpares(trimmed);
    }
  }

  /** Bare passages have nothing to lose. */
  lemma BareStays(collected: seq<Passage>, trimmed: seq<Passage>)
    requires AllTrimmed(collected, trimmed) && AllBare(collected)
    ensures trimmed == collected
  {
    forall k | 0 <= k < |collected| ensures trimmed[k] == collected[k] {
      assert Trimmed(collected[k], trimmed[k]) && Left(collected[k]) == 0;
    }
  }

  // ---------- the whole ----------

  /** Chooses passages, trims them if the choice does not fit, and then drops the least relevant ones, but no
      more than needed. Passages as the extractor fills them are never dropped after being trimmed: trimming
      makes them fit whenever what is between their keywords fits, and without force_all_words only such
      passages are chosen. So the counters, of codepoints
      and of words, keep the limits; PassageDisplay tells how far they are right about what is shown. */
  method FitPassages(sel: Selector)
    returns (result: seq<Passage>, ghost picks: seq<nat>, ghost collected: seq<Passage>, ghost trimmed: seq<Passage>)
    requires |sel.weights| == MASK_BITS && Fresh(sel.passages, sel.foundWords, sel.weights)
    requires sel.limit >= 0 && sel.limitWords >= 0
    modifies sel
    ensures Collected(old(sel.passages), picks, collected, sel.foundWords)
    ensures sel.Selected(old(sel.passages), picks, collected)
    ensures sel.limitPassages > 0 ==> |collected| <= sel.limitPassages
    ensures AllTrimmed(collected, trimmed)
    ensures Fits(SumBy(collected, Codes), SumBy(collected, Words), sel.limit, sel.limitWords) || sel.useBoundaries ==>
              trimmed == collected
    ensures Fits(SumBy(collected, Codes), SumBy(collected, Words), sel.limit, sel.limitWords) || sel.useBoundaries ||
            RightlyTrimmed(collected, trimmed, sel.limit, sel.limitWords)
    ensures AllSolid(collected) && AllWhole(collected) && !sel.useBoundaries ==>
              (Fits(SumBy(trimmed, Codes), CountedWords(collected, trimmed), sel.limit, sel.limitWords)
               <==> Fits(SumBy(collected, CodesBetween), SumBy(collected, WordsBetween), sel.limit, sel.limitWords))
    ensures |result| <= |trimmed| && result == trimmed[..|result|]
    ensures sel.forceAllWords ==> result == trimmed
    ensures !sel.forceAllWords ==> Within(SumBy(result, Codes), sel.limit)
    ensures !sel.forceAllWords && (sel.useBoundaries || Filled(collected)) ==>
              Within(CountedWords(collected[..|result|], result), sel.limitWords)
    ensures !sel.forceAllWords && !sel.useBoundaries && AllSolid(collected) && AllWhole(collected) ==> result == trimmed
    ensures |result| < |trimmed| ==>
              !Fits(CodesOfFirst(trimmed, |result| + 1), WordsOfFirst(collected, trimmed, |result| + 1),
                    sel.limit, sel.limitWords)
    ensures NonNegative(sel.weights) ==> WeightsNonNegative(collected)
  {
    hide SumBy, Collected, Fresh, AllSolid, AllWhole, AllBare, CodesOfFirst, WordsOfFirst, AllTrimmed, CountedWords;
    hide Selector.Selected, RightlyTrimmed;
    var codes, words;
    result, codes, words, picks := sel.CollectBest();
    collected := result;
    if !Fits(codes, words, sel.limit, sel.limitWords) && !sel.useBoundaries {
      result, codes, words := TrimPassages(result, codes, words, sel.limit, sel.limitWords);
    } else {
      Untrimmed(result, codes, words);
    }
    trimmed := result;
    AllLeft(collected, trimmed);
    ghost var fits := Fits(codes, words, sel.limit, sel.limitWords);
    if AllSolid(collected) && AllWhole(collected) && !sel.useBoundaries {
      TrimmingFits(collected, trimmed, sel.limit, sel.limitWords);
    }
    while !Fits(codes, words, sel.limit, sel.limitWords) && !sel.forceAllWords
      invariant |result| <= |trimmed| && result == trimmed[..|result|]
      invariant codes == CodesOfFirst(trimmed, |result|)
      invariant words == WordsOfFirst(collected, trimmed, |result|)
      invariant sel.forceAllWords || fits ==> result == trimmed
      invariant |result| < |trimmed| ==>
                  !Fits(CodesOfFirst(trimmed, |result| + 1), WordsOfFirst(collected, trimmed, |result| + 1),
                        sel.limit, sel.limitWords)
      decreases |result|
    {
      NothingLeft(collected, trimmed);
      DropLast(collected, trimmed, |result|);
      codes := codes - result[|result| - 1].codes;
      words := words - result[|result| - 1].words;
      result := result[..|result| - 1];
    }
    SumOfFirst(trimmed, |result|);
    ResultWords(collected, trimmed, |result|, sel.useBoundaries);
  }

  /** The word total at the end is that of the passages left: nothing was dropped or nothing trimmed. */
  lemma ResultWords(collected: seq<Passage>, trimmed: seq<Passage>, n: nat, useBoundaries: bool)
    requires AllTrimmed(collected, trimmed) && n <= |trimmed|
    ensures n == |trimmed| || trimmed == collected || AllBare(collected) ==>
              WordsOfFirst(collected, trimmed, n) == CountedWords(collected[..n], trimmed[..n])
  {
    hide SumBy, AllTrimmed, CountedWords, WordsOfFirst, AllBare;
    WordsCounted(collected, trimmed, n);
    if AllBare(collected) {
      BareStays(collected, trimmed);
    }
  }

  lemma AllLeft(collected: seq<Passage>, trimmed: seq<Passage>)
    ensures trimmed[..|trimmed|] == trimmed
    ensures CodesOfFirst(trimmed, |trimmed|) == SumBy(trimmed, Codes)
    ensures WordsOfFirst(collected, trimmed, |trimmed|) == CountedWords(collected, trimmed)
  {
    assert trimmed[..|trimmed|] == trimmed;
  }

  lemma SumOfFirst(trimmed: seq<Passage>, n: nat)
    requires n <= |trimmed|
    ensures SumBy(trimmed[..n], Codes) == CodesOfFirst(trimmed, n)
  {
  }

  /** What the words counted for a prefix mean: they are the words its passages count, less those that were
      trimmed off the passages dropped after it. So they are its own if nothing was dropped, or nothing trimmed. */
  lemma WordsCounted(collected: seq<Passage>, trimmed: seq<Passage>, n: nat)
    requires AllTrimmed(collected, trimmed) && n <= |trimmed|
    ensures WordsOfFirst(collected, trimmed, n)
         == CountedWords(collected[..n], trimmed[..n])
            - (SumBy(collected[n..], SpareWords) - SumBy(trimmed[n..], SpareWords))
    ensures SumBy(trimmed[n..], SpareWords) <= SumBy(collected[n..], SpareWords)
    ensures n == |trimmed| || trimmed == collected ==>
              WordsOfFirst(collected, trimmed, n) == CountedWords(collected[..n], trimmed[..n])
  {
    assert collected == collected[..n] + collected[n..] && trimmed == trimmed[..n] + trimmed[n..];
    SumConcat(trimmed[..n], trimmed[n..], Words);
    SumConcat(collected[..n], collected[n..], SpareWords);
    SumConcat(trimmed[..n], trimmed[n..], SpareWords);
    MoreTrimmed(collected[n..], trimmed[n..]);
  }
}
