/** Cutting a weighed window down to the words allowed around its keywords, as FlushPassage of
    src/sphinxexcerpt.cpp begins. */
module PassageFlush {
  import opened Passages
  import opened Vectors
  import opened PassageWeights
  import T = TokenSpans

  /** What is not a word is no keyword. */
  ghost predicate WordsOnly(tokens: seq<T.SpanToken>) {
    forall t <- tokens :: !t.isWord ==> t.mask == {}
  }

  /** While fewer words are cut than precede the first keyword, the next token is no keyword. */
  lemma FrontIsFree(tokens: seq<T.SpanToken>, lead: nat, before: int)
    requires lead <= |tokens| && Leading(WordMasks(tokens), before) && |WordMasks(tokens[..lead])| < before
    ensures lead < |tokens| && !IsHit(tokens[lead])
  {
    hide WordMasks, Leading;
    assert tokens[..|tokens|] == tokens;
    LeadingFits(WordMasks(tokens), before);
    if lead < |tokens| && IsHit(tokens[lead]) {
      assert tokens == tokens[..lead] + [tokens[lead]] + tokens[lead + 1..];
      MiddleMasks(tokens[..lead], tokens[lead], tokens[lead + 1..]);
      LeadingUpTo(WordMasks(tokens[..lead]), tokens[lead].mask, WordMasks(tokens[lead + 1..]), before);
    }
  }

  lemma LeadingFits(ms: seq<set<nat>>, n: int)
    requires Leading(ms, n)
    ensures n <= |ms|
  {
  }

  lemma LeadingUpTo(a: seq<set<nat>>, m: set<nat>, b: seq<set<nat>>, n: int)
    requires m != {} && Leading(a + [m] + b, n)
    ensures n <= |a|
  {
    assert (a + [m] + b)[|a|] == m;
  }

  lemma BackIsFree(tokens: seq<T.SpanToken>, end: nat, after: int)
    requires end <= |tokens| && Trailing(WordMasks(tokens), after) && |WordMasks(tokens[end..])| < after
    ensures end > 0 && !IsHit(tokens[end - 1])
  {
    var ms, cut := WordMasks(tokens), |WordMasks(tokens[end..])|;
    WordMasksConcat(tokens[..end], tokens[end..]);
    assert tokens == tokens[..end] + tokens[end..];
    if end > 0 {
      WordMasksSnoc(tokens, end - 1);
      assert Blank(ms, |ms| - cut - 1);
    }
  }

  /** One token more cut off the front. */
  lemma FrontCut(tokens: seq<T.SpanToken>, lead: nat)
    requires lead < |tokens|
    ensures |WordMasks(tokens[..lead + 1])| == |WordMasks(tokens[..lead])| + T.Words(tokens[lead])
  {
    WordMasksSnoc(tokens, lead);
  }

  lemma BackCut(tokens: seq<T.SpanToken>, end: nat)
    requires 0 < end <= |tokens|
    ensures |WordMasks(tokens[end - 1..])| == |WordMasks(tokens[end..])| + T.Words(tokens[end - 1])
  {
    assert tokens[end - 1..] == [tokens[end - 1]] + tokens[end..];
    WordMasksConcat([tokens[end - 1]], tokens[end..]);
    assert [tokens[end - 1]][..0] == [];
  }

  /** The words around the keywords of what is left are those that were there and were not cut. */
  lemma CutGaps(tokens: seq<T.SpanToken>, lead: nat, end: nat, before: int, after: int)
    requires lead <= end <= |tokens|
    requires Leading(WordMasks(tokens), before) && Trailing(WordMasks(tokens), after)
    requires |WordMasks(tokens[..lead])| <= before < |WordMasks(tokens)|
    requires |WordMasks(tokens[end..])| <= after < |WordMasks(tokens)|
    ensures Leading(WordMasks(tokens[lead..end]), before - |WordMasks(tokens[..lead])|)
    ensures Trailing(WordMasks(tokens[lead..end]), after - |WordMasks(tokens[end..])|)
  {
    hide WordMasks;
    var a, b, c := tokens[..lead], tokens[lead..end], tokens[end..];
    assert tokens == (a + b) + c;
    WordMasksConcat(a, b);
    WordMasksConcat(a + b, c);
    MiddleGaps(WordMasks(a), WordMasks(b), WordMasks(c), before, after);
  }

  lemma MiddleGaps(a: seq<set<nat>>, b: seq<set<nat>>, c: seq<set<nat>>, before: int, after: int)
    requires Leading(a + b + c, before) && Trailing(a + b + c, after)
    requires |a| <= before < |a + b + c| && |c| <= after < |a + b + c|
    ensures Leading(b, before - |a|) && Trailing(b, after - |c|)
  {
    var ms := a + b + c;
    assert forall k :: 0 <= k < |b| ==> b[k] == ms[|a| + k];
    assert !Blank(ms, |ms| - after - 1) && ms[before] != {};
    assert before <= |ms| - after - 1;
    assert forall k :: 0 <= k < |b| ==> (Blank(b, k) <==> Blank(ms, |a| + k));
  }

  /** A window with a keyword has its limits at the first and the last of them. */
  lemma SomeHit(tokens: seq<T.SpanToken>, start: int, lo: int, hi: int, before: int, after: int)
    requires Union(WordMasks(tokens)) != {} && LimitsOf(tokens, start, lo, hi)
    requires start >= 0 && start + |tokens| <= INT_MAX
    requires Leading(WordMasks(tokens), before) && Trailing(WordMasks(tokens), after)
    ensures HitAt(tokens, lo - start) && HitAt(tokens, hi - start) && lo <= hi
    ensures forall i :: 0 <= i < |tokens| && IsHit(tokens[i]) ==> lo <= start + i <= hi
    ensures 0 <= before < |WordMasks(tokens)| && 0 <= after < |WordMasks(tokens)|
  {
    hide WordMasks, Union;
    UnionEmpty(WordMasks(tokens));
    var k :| 0 <= k < |WordMasks(tokens)| && WordMasks(tokens)[k] != {};
    assert !Blank(WordMasks(tokens), k);
    var i := MaskIsToken(tokens, k);
    assert HitAt(tokens, i);
  }

  /** Every word's mask is some token's. */
  lemma {:induction false} MaskIsToken(tokens: seq<T.SpanToken>, k: nat) returns (i: nat)
    requires k < |WordMasks(tokens)|
    ensures i < |tokens| && tokens[i].isWord && tokens[i].mask == WordMasks(tokens)[k]
  {
    var front := tokens[..|tokens| - 1];
    if k < |WordMasks(front)| {
      i := MaskIsToken(front, k);
    } else {
      i := |tokens| - 1;
    }
  }

  /** The window a passage keeps. */
  datatype Cut = Cut(start: int, tokens: int, codes: int, words: int, before: int, after: int)

  /** A cut keeps some of the middle of a window, and its counters count just that: its start and length, its
      codepoints and words, and as many words around its keywords as allowed. No more is cut than the words beyond
      that and what lies outside of them. */
  ghost predicate CutOf(c: Cut, tokens: seq<T.SpanToken>, start: int, w: Weighing, around: int) {
    var lead := c.start - start;
    && 0 <= lead <= lead + c.tokens <= |tokens|
    && c.codes == SumBy(tokens[lead..lead + c.tokens], T.Codes)
    && c.words == SumBy(tokens[lead..lead + c.tokens], T.Words)
    && c.start <= w.startLimit <= w.endLimit < c.start + c.tokens
    && c.before == Min(w.gaps.before, around) && c.after == Min(w.gaps.after, around)
    && Leading(WordMasks(tokens[lead..lead + c.tokens]), c.before)
    && Trailing(WordMasks(tokens[lead..lead + c.tokens]), c.after)
    && (lead == 0 || tokens[lead - 1].isWord)
    && (lead + c.tokens == |tokens| || tokens[lead + c.tokens].isWord)
  }

  /** Cuts words off the front and then off the back while more than allowed lie around the keywords. No
      keyword is ever cut. */
  method CutAround(tokens: seq<T.SpanToken>, start: int, w: Weighing, around: int) returns (c: Cut)
    requires around >= 0 && WordsOnly(tokens) && w.mask != {}
    requires start >= 0 && start + |tokens| <= INT_MAX
    requires w.mask == Union(WordMasks(tokens)) && LimitsOf(tokens, start, w.startLimit, w.endLimit)
    requires Leading(WordMasks(tokens), w.gaps.before) && Trailing(WordMasks(tokens), w.gaps.after)
    ensures CutOf(c, tokens, start, w, around)
  {
    hide WordMasks, Leading, Trailing, Union, SumBy, LimitsOf;
    SomeHit(tokens, start, w.startLimit, w.endLimit, w.gaps.before, w.gaps.after);
    var codes, words := SumBy(tokens, T.Codes), SumBy(tokens, T.Words);
    var before := w.gaps.before;
    var lead := 0;
    assert tokens[..0] == [] && tokens[0..] == tokens && tokens[|tokens|..] == [];
    NoMasks();
    while before > around
      invariant 0 <= lead <= |tokens| && before == w.gaps.before - |WordMasks(tokens[..lead])|
      invariant before == w.gaps.before || before >= around
      invariant codes == SumBy(tokens[lead..], T.Codes) && words == SumBy(tokens[lead..], T.Words)
      invariant start + lead <= w.startLimit
      invariant lead == 0 || before > around || tokens[lead - 1].isWord
      decreases |tokens| - lead
    {
      FrontIsFree(tokens, lead, w.gaps.before);
      assert start + lead < w.startLimit;
      assert tokens[lead].mask == {};
      FrontCut(tokens, lead);
      SumFirst(tokens, lead, T.Codes);
      SumFirst(tokens, lead, T.Words);
      codes := codes - tokens[lead].lengthCp;
      before := before - T.Words(tokens[lead]);
      words := words - T.Words(tokens[lead]);
      lead := lead + 1;
    }
    var after := w.gaps.after;
    var end := |tokens|;
    assert tokens[lead..end] == tokens[lead..];
    while after > around
      invariant lead <= end <= |tokens| && after == w.gaps.after - |WordMasks(tokens[end..])|
      invariant after == w.gaps.after || after >= around
      invariant codes == SumBy(tokens[lead..end], T.Codes) && words == SumBy(tokens[lead..end], T.Words)
      invariant w.endLimit < start + end
      invariant end == |tokens| || after > around || tokens[end].isWord
      decreases end
    {
      BackIsFree(tokens, end, w.gaps.after);
      assert w.endLimit < start + end - 1;
      assert tokens[end - 1].mask == {};
      BackCut(tokens, end);
      SumBack(tokens, lead, end);
      codes := codes - tokens[end - 1].lengthCp;
      after := after - T.Words(tokens[end - 1]);
      words := words - T.Words(tokens[end - 1]);
      end := end - 1;
    }
    CutGaps(tokens, lead, end, w.gaps.before, w.gaps.after);
    return Cut(start + lead, end - lead, codes, words, before, after);
  }

  lemma NoMasks()
    ensures WordMasks([]) == []
  {
  }

  lemma SumBack(tokens: seq<T.SpanToken>, lead: nat, end: nat)
    requires lead < end <= |tokens|
    ensures SumBy(tokens[lead..end], T.Codes) == SumBy(tokens[lead..end - 1], T.Codes) + tokens[end - 1].lengthCp
    ensures SumBy(tokens[lead..end], T.Words) == SumBy(tokens[lead..end - 1], T.Words) + T.Words(tokens[end - 1])
  {
    assert tokens[lead..end] == tokens[lead..end - 1] + [tokens[end - 1]];
    SumSnoc(tokens[lead..end - 1], tokens[end - 1], T.Codes);
    SumSnoc(tokens[lead..end - 1], tokens[end - 1], T.Words);
  }

  // ---------- the tokens around the keywords ----------

  function AsStored(t: T.SpanToken): (r: Stored) {
    Stored(t.lengthCp, t.isWord)
  }

  lemma {:induction false} WordsCounted(tokens: seq<T.SpanToken>)
    ensures |WordMasks(tokens)| == SumBy(tokens, T.Words)
  {
    if tokens != [] {
      WordsCounted(tokens[..|tokens| - 1]);
      SumLast(tokens, T.Words);
    }
  }

  /** Part of a stretch of tokens has no more words than all of it. */
  lemma PartHasFewer(a: seq<T.SpanToken>, b: seq<T.SpanToken>)
    ensures SumBy(a, T.Words) <= SumBy(a + b, T.Words) && SumBy(b, T.Words) <= SumBy(a + b, T.Words)
  {
    SumConcat(a, b, T.Words);
    SumNonNegative(a, T.Words);
    SumNonNegative(b, T.Words);
  }

  /** Blank words up to the first that is not are those counted before it ... */
  lemma LeadingIs(a: seq<set<nat>>, m: set<nat>, b: seq<set<nat>>, n: int)
    requires (forall k :: 0 <= k < |a| ==> a[k] == {}) && m != {} && Leading(a + [m] + b, n)
    ensures n == |a|
  {
    assert (a + [m] + b)[|a|] == m;
    assert forall k :: 0 <= k < |a| ==> (a + [m] + b)[k] == a[k];
  }

  /** ... and so for those after the last. */
  lemma TrailingIs(a: seq<set<nat>>, m: set<nat>, b: seq<set<nat>>, n: int)
    requires (forall k :: 0 <= k < |b| ==> b[k] == {}) && m != {} && Trailing(a + [m] + b, n)
    ensures n == |b|
  {
    var ms := a + [m] + b;
    assert !Blank(ms, |a|);
    assert forall k :: |a| < k < |ms| ==> Blank(ms, k);
    assert !Blank(ms, |ms| - n - 1);
  }

  lemma MiddleMasks(front: seq<T.SpanToken>, t: T.SpanToken, back: seq<T.SpanToken>)
    requires IsHit(t)
    ensures WordMasks(front + [t] + back) == WordMasks(front) + [t.mask] + WordMasks(back)
  {
    WordMasksConcat(front + [t], back);
    assert (front + [t])[..|front|] == front;
  }

  lemma WordsBefore(front: seq<T.SpanToken>, t: T.SpanToken, back: seq<T.SpanToken>, before: int)
    requires Leading(WordMasks(front + [t] + back), before) && IsHit(t) && forall x <- front :: !IsHit(x)
    ensures SumBy(front, T.Words) == before
  {
    hide WordMasks, Leading, SumBy;
    WordsCounted(front);
    BlankWords(front);
    MiddleMasks(front, t, back);
    LeadingIs(WordMasks(front), t.mask, WordMasks(back), before);
  }

  lemma WordsAfter(front: seq<T.SpanToken>, t: T.SpanToken, back: seq<T.SpanToken>, after: int)
    requires Trailing(WordMasks(front + [t] + back), after) && IsHit(t) && forall x <- back :: !IsHit(x)
    ensures SumBy(back, T.Words) == after
  {
    hide WordMasks, Trailing, SumBy;
    WordsCounted(back);
    BlankWords(back);
    MiddleMasks(front, t, back);
    TrailingIs(WordMasks(front), t.mask, WordMasks(back), after);
  }

  lemma {:induction false} BlankWords(tokens: seq<T.SpanToken>)
    requires forall t <- tokens :: !IsHit(t)
    ensures forall k :: 0 <= k < |WordMasks(tokens)| ==> WordMasks(tokens)[k] == {}
  {
    if tokens != [] {
      assert tokens[|tokens| - 1] in tokens;
      BlankWords(tokens[..|tokens| - 1]);
    }
  }

  /** A cut window has just the words counted before its first keyword and after its last. */
  lemma AroundKeywords(tokens: seq<T.SpanToken>, start: int, w: Weighing, around: int, c: Cut)
    requires CutOf(c, tokens, start, w, around) && LimitsOf(tokens, start, w.startLimit, w.endLimit)
    requires start >= 0 && start + |tokens| <= INT_MAX
    ensures
      var lead, first, last := c.start - start, w.startLimit - start, w.endLimit - start;
      && 0 <= lead <= first <= last < lead + c.tokens <= |tokens| && IsHit(tokens[first]) && IsHit(tokens[last])
      && SumBy(tokens[lead..first], T.Words) == c.before
      && SumBy(tokens[last + 1..lead + c.tokens], T.Words) == c.after
  {
    hide SumBy, WordMasks, Leading, Trailing;
    var lead, first, last := c.start - start, w.startLimit - start, w.endLimit - start;
    assert HitAt(tokens, first) && HitAt(tokens, last);
    BeforeFirst(tokens, lead, first, lead + c.tokens, c.before);
    AfterLast(tokens, lead, last, lead + c.tokens, c.after);
  }

  lemma BeforeFirst(tokens: seq<T.SpanToken>, lead: nat, first: nat, end: nat, before: int)
    requires lead <= first < end <= |tokens| && IsHit(tokens[first])
    requires forall i :: lead <= i < first ==> !IsHit(tokens[i])
    requires Leading(WordMasks(tokens[lead..end]), before)
    ensures SumBy(tokens[lead..first], T.Words) == before
  {
    hide SumBy, WordMasks, Leading, IsHit;
    var front, back := tokens[lead..first], tokens[first + 1..end];
    assert tokens[lead..end] == front + [tokens[first]] + back;
    assert forall k :: 0 <= k < |front| ==> front[k] == tokens[lead + k];
    WordsBefore(front, tokens[first], back, before);
  }

  lemma AfterLast(tokens: seq<T.SpanToken>, lead: nat, last: nat, end: nat, after: int)
    requires lead <= last < end <= |tokens| && IsHit(tokens[last])
    requires forall i :: last < i < end ==> !IsHit(tokens[i])
    requires Trailing(WordMasks(tokens[lead..end]), after)
    ensures SumBy(tokens[last + 1..end], T.Words) == after
  {
    hide SumBy, WordMasks, Trailing, IsHit;
    var front, back := tokens[lead..last], tokens[last + 1..end];
    assert tokens[lead..end] == front + [tokens[last]] + back;
    assert forall k :: 0 <= k < |back| ==> back[k] == tokens[last + 1 + k];
    WordsAfter(front, tokens[last], back, after);
  }

  /** The tokens stored before the keywords: those up to one of the window, nearest first. */
  ghost predicate StoredBefore(stored: seq<Stored>, tokens: seq<T.SpanToken>, first: int) {
    && |stored| <= first <= |tokens|
    && forall k :: 0 <= k < |stored| ==> stored[k] == AsStored(tokens[first - 1 - k])
  }

  /** And after them: those from one of the window on. */
  ghost predicate StoredAfter(stored: seq<Stored>, tokens: seq<T.SpanToken>, at: int) {
    && 0 <= at <= at + |stored| <= |tokens|
    && forall k :: 0 <= k < |stored| ==> stored[k] == AsStored(tokens[at + k])
  }

  lemma StoredBeforeSnoc(stored: seq<Stored>, tokens: seq<T.SpanToken>, first: int)
    requires StoredBefore(stored, tokens, first) && |stored| < first
    ensures StoredBefore(stored + [AsStored(tokens[first - 1 - |stored|])], tokens, first)
  {
  }

  lemma StoredAfterSnoc(stored: seq<Stored>, tokens: seq<T.SpanToken>, at: int)
    requires StoredAfter(stored, tokens, at) && at + |stored| < |tokens|
    ensures StoredAfter(stored + [AsStored(tokens[at + |stored|])], tokens, at)
  {
  }

  lemma NoneStoredAt(tokens: seq<T.SpanToken>, at: nat)
    requires at <= |tokens|
    ensures StoredBefore([], tokens, at) && StoredAfter([], tokens, at)
  {
  }

  /** Stores the tokens before the first keyword, nearest first, as long as they have no more words than counted. */
  method StoreBefore(tokens: seq<T.SpanToken>, lead: nat, first: nat, limit: int, codes: int, words: int)
    returns (before: seq<Stored>, codesLeft: int, wordsLeft: int)
    requires lead <= first <= |tokens| && SumBy(tokens[lead..first], T.Words) == limit
    ensures |before| == first - lead && StoredBefore(before, tokens, first)
    ensures codesLeft == codes - SumBy(before, StoredCodes) && wordsLeft == words - SumBy(before, StoredWords)
  {
    hide SumBy, StoredBefore;
    codesLeft, wordsLeft, before := codes, words, [];
    NoneStored();
    NoneStoredAt(tokens, first);
    var count := 0;
    var i := first - 1;
    assert tokens[i + 1..first] == [];
    while i >= lead
      invariant lead - 1 <= i < first && |before| == first - 1 - i && StoredBefore(before, tokens, first)
      invariant count == SumBy(tokens[i + 1..first], T.Words)
      invariant codesLeft == codes - SumBy(before, StoredCodes)
      invariant wordsLeft == words - SumBy(before, StoredWords)
    {
      var t := tokens[i];
      codesLeft := codesLeft - t.lengthCp;
      wordsLeft := wordsLeft - T.Words(t);
      NextBefore(tokens, lead, i, first);
      if count + T.Words(t) > limit {
        assert false;
        break;
      }
      SumSnoc(before, AsStored(t), StoredCodes);
      SumSnoc(before, AsStored(t), StoredWords);
      StoredBeforeSnoc(before, tokens, first);
      before := before + [AsStored(t)];
      count := count + T.Words(t);
      i := i - 1;
    }
  }

  /** Stores the tokens after the last keyword likewise, up to a given one. */
  method StoreAfter(tokens: seq<T.SpanToken>, at: nat, upTo: int, ghost end: nat, limit: int, codes: int, words: int)
    returns (after: seq<Stored>, codesLeft: int, wordsLeft: int)
    requires at <= end <= |tokens| && upTo <= end && SumBy(tokens[at..end], T.Words) == limit
    ensures |after| == Max(0, upTo - at) && StoredAfter(after, tokens, at)
    ensures codesLeft == codes - SumBy(after, StoredCodes) && wordsLeft == words - SumBy(after, StoredWords)
  {
    hide SumBy, StoredAfter;
    codesLeft, wordsLeft, after := codes, words, [];
    NoneStored();
    NoneStoredAt(tokens, at);
    var count := 0;
    var i := at;
    assert tokens[at..i] == [];
    while i < upTo
      invariant at <= i <= Max(at, upTo) && |after| == i - at && StoredAfter(after, tokens, at)
      invariant count == SumBy(tokens[at..i], T.Words)
      invariant codesLeft == codes - SumBy(after, StoredCodes)
      invariant wordsLeft == words - SumBy(after, StoredWords)
    {
      var t := tokens[i];
      codesLeft := codesLeft - t.lengthCp;
      wordsLeft := wordsLeft - T.Words(t);
      NextAfter(tokens, at, i, end);
      if count + T.Words(t) > limit {
        assert false;
        break;
      }
      SumSnoc(after, AsStored(t), StoredCodes);
      SumSnoc(after, AsStored(t), StoredWords);
      StoredAfterSnoc(after, tokens, at);
      after := after + [AsStored(t)];
      count := count + T.Words(t);
      i := i + 1;
    }
  }

  /** A passage with its first and last keywords at some tokens of the window it was cut from: its counters
      count the tokens it spans, and it keeps the tokens before the first keyword, nearest first, and those
      after the last one up to the window's p.tokens-th, wherever the passage itself ends. */
  ghost predicate FilledFrom(p: Passage, tokens: seq<T.SpanToken>, start: int, first: int, last: int) {
    var lead := p.start - start;
    && 0 <= lead <= first <= last < lead + p.tokens <= |tokens|
    && p.codes == SumBy(tokens[lead..lead + p.tokens], T.Codes)
    && p.words == SumBy(tokens[lead..lead + p.tokens], T.Words)
    && |p.before| == first - lead && StoredBefore(p.before, tokens, first)
    && |p.after| == Max(0, p.tokens - (last + 1)) && StoredAfter(p.after, tokens, last + 1)
  }

  /** What a passage keeps of the tokens around its keywords, to be trimmed off from the outermost on. The
      counts between the keywords leave out just these. */
  method AppendBeforeAfterTokens(p: Passage, tokens: seq<T.SpanToken>, start: int, w: Weighing, c: Cut,
                                 ghost around: int)
    returns (r: Passage)
    requires p.start == c.start && p.tokens == c.tokens && p.codes == c.codes && p.words == c.words
    requires CutOf(c, tokens, start, w, around) && LimitsOf(tokens, start, w.startLimit, w.endLimit)
    requires start >= 0 && start + |tokens| <= INT_MAX
    ensures Whole(r) && ((forall t <- tokens :: t.lengthCp > 0) ==> Solid(r))
    ensures FilledFrom(r, tokens, start, w.startLimit - start, w.endLimit - start)
    ensures r.wordsBetween > 0 && ((forall t <- tokens :: t.lengthCp > 0) ==> r.codesBetween > 0)
    ensures r == p.(codesBetween := r.codesBetween, wordsBetween := r.wordsBetween,
                    before := r.before, after := r.after)
  {
    hide SumBy, LimitsOf, Leading, Trailing, WordMasks, StoredBefore, StoredAfter;
    AroundKeywords(tokens, start, w, around, c);
    var first, last := w.startLimit - start, w.endLimit - start;
    var before, after, codesBetween, wordsBetween;
    before, codesBetween, wordsBetween := StoreBefore(tokens, p.start - start, first, c.before, p.codes, p.words);
    after, codesBetween, wordsBetween :=
      StoreAfter(tokens, last + 1, p.tokens, c.start - start + c.tokens, c.after, codesBetween, wordsBetween);
    StoredSolid(before, after, tokens, first, last + 1);
    BothPositive(tokens, start, w, c, around, before, after, codesBetween, wordsBetween);
    r := p.(codesBetween := codesBetween, wordsBetween := wordsBetween, before := before, after := after);
  }

  lemma StoredSolid(before: seq<Stored>, after: seq<Stored>, tokens: seq<T.SpanToken>, first: int, at: int)
    requires StoredBefore(before, tokens, first) && StoredAfter(after, tokens, at)
    ensures (forall t <- tokens :: t.lengthCp > 0) ==>
              (forall t <- before :: t.lengthCp > 0) && forall t <- after :: t.lengthCp > 0
  {
  }

  lemma NoneStored()
    ensures SumBy<Stored>([], StoredCodes) == 0 && SumBy<Stored>([], StoredWords) == 0
    ensures SumBy<T.SpanToken>([], T.Words) == 0
  {
  }

  lemma NextBefore(tokens: seq<T.SpanToken>, lead: nat, i: nat, first: nat)
    requires lead <= i < first <= |tokens|
    ensures SumBy(tokens[i..first], T.Words) == T.Words(tokens[i]) + SumBy(tokens[i + 1..first], T.Words)
    ensures SumBy(tokens[i..first], T.Words) <= SumBy(tokens[lead..first], T.Words)
  {
    assert tokens[i..first][1..] == tokens[i + 1..first];
    assert tokens[lead..first] == tokens[lead..i] + tokens[i..first];
    PartHasFewer(tokens[lead..i], tokens[i..first]);
  }

  lemma NextAfter(tokens: seq<T.SpanToken>, last: nat, i: nat, end: nat)
    requires last <= i < end <= |tokens|
    ensures SumBy(tokens[last..i + 1], T.Words) == SumBy(tokens[last..i], T.Words) + T.Words(tokens[i])
    ensures SumBy(tokens[last..i + 1], T.Words) <= SumBy(tokens[last..end], T.Words)
  {
    assert tokens[last..i + 1] == tokens[last..i] + [tokens[i]];
    SumSnoc(tokens[last..i], tokens[i], T.Words);
    assert tokens[last..end] == tokens[last..i + 1] + tokens[i + 1..end];
    PartHasFewer(tokens[last..i + 1], tokens[i + 1..end]);
  }

  /** The stored tokens before the keywords sum up to the stretch they come from ... */
  lemma {:induction false} SumBefore(stored: seq<Stored>, tokens: seq<T.SpanToken>, first: int,
                                   f: T.SpanToken -> int, g: Stored -> int)
    requires StoredBefore(stored, tokens, first) && forall t <- tokens :: g(AsStored(t)) == f(t)
    ensures SumBy(stored, g) == SumBy(tokens[first - |stored|..first], f)
    decreases |stored|
  {
    if stored == [] {
      assert tokens[first..first] == [];
    } else {
      var n := |stored| - 1;
      SumBefore(stored[..n], tokens, first, f, g);
      SumLast(stored, g);
      assert tokens[first - 1 - n] in tokens;
      assert tokens[first - 1 - n..first][1..] == tokens[first - n..first];
    }
  }

  /** ... and so do those after. */
  lemma {:induction false} SumAfter(stored: seq<Stored>, tokens: seq<T.SpanToken>, at: int,
                                  f: T.SpanToken -> int, g: Stored -> int)
    requires StoredAfter(stored, tokens, at) && forall t <- tokens :: g(AsStored(t)) == f(t)
    ensures SumBy(stored, g) == SumBy(tokens[at..at + |stored|], f)
    decreases |stored|
  {
    if stored == [] {
      assert tokens[at..at] == [];
    } else {
      var n := |stored| - 1;
      SumAfter(stored[..n], tokens, at, f, g);
      SumLast(stored, g);
      assert tokens[at + n] in tokens;
      assert tokens[at..at + n + 1] == tokens[at..at + n] + [tokens[at + n]];
      SumSnoc(tokens[at..at + n], tokens[at + n], f);
    }
  }

  /** What is between the keywords is never nothing: the keywords themselves are. */
  lemma BetweenPositive(tokens: seq<T.SpanToken>, lead: nat, first: nat, last: nat, end: nat,
                        before: seq<Stored>, after: seq<Stored>, f: T.SpanToken -> int, g: Stored -> int, between: int)
    requires lead <= first <= last < end <= |tokens| && |before| == first - lead && last + 1 + |after| <= end
    requires StoredBefore(before, tokens, first) && StoredAfter(after, tokens, last + 1)
    requires (forall t <- tokens :: g(AsStored(t)) == f(t) >= 0) && f(tokens[first]) > 0
    requires SumBy(tokens[lead..end], f) == between + SumBy(before, g) + SumBy(after, g)
    ensures between > 0
  {
    hide SumBy, StoredBefore, StoredAfter;
    var mid, rest := tokens[first..last + 1], tokens[last + 1 + |after|..end];
    var a, b := tokens[lead..first], tokens[last + 1..last + 1 + |after|];
    SumBefore(before, tokens, first, f, g);
    SumAfter(after, tokens, last + 1, f, g);
    FourParts(tokens, lead, first, last + 1, last + 1 + |after|, end);
    SumConcat(a + mid + b, rest, f);
    SumConcat(a + mid, b, f);
    SumConcat(a, mid, f);
    assert mid == [tokens[first]] + tokens[first + 1..last + 1];
    SumConcat([tokens[first]], tokens[first + 1..last + 1], f);
    OneSum(tokens[first], f);
    SumNonNegative(tokens[first + 1..last + 1], f);
    SumNonNegative(rest, f);
  }

  lemma FourParts<X>(s: seq<X>, i: nat, j: nat, k: nat, l: nat, m: nat)
    requires i <= j <= k <= l <= m <= |s|
    ensures s[i..m] == s[i..j] + s[j..k] + s[k..l] + s[l..m]
  {
    assert s[i..k] == s[i..j] + s[j..k];
    assert s[i..l] == s[i..k] + s[k..l];
  }

  lemma OneSum<X>(x: X, f: X -> int)
    ensures SumBy([x], f) == f(x)
  {
    assert [x][1..] == [];
  }

  lemma BothPositive(tokens: seq<T.SpanToken>, start: int, w: Weighing, c: Cut, around: int,
                     before: seq<Stored>, after: seq<Stored>, codesBetween: int, wordsBetween: int)
    requires CutOf(c, tokens, start, w, around) && LimitsOf(tokens, start, w.startLimit, w.endLimit)
    requires start >= 0 && start + |tokens| <= INT_MAX
    requires |before| == w.startLimit - c.start && StoredBefore(before, tokens, w.startLimit - start)
    requires |after| == Max(0, c.tokens - (w.endLimit - start + 1))
             && StoredAfter(after, tokens, w.endLimit - start + 1)
    requires c.codes == codesBetween + SumBy(before, StoredCodes) + SumBy(after, StoredCodes)
    requires c.words == wordsBetween + SumBy(before, StoredWords) + SumBy(after, StoredWords)
    ensures wordsBetween > 0 && ((forall t <- tokens :: t.lengthCp > 0) ==> codesBetween > 0)
  {
    hide SumBy, StoredBefore, StoredAfter, WordMasks, Leading, Trailing;
    var lead, first, last := c.start - start, w.startLimit - start, w.endLimit - start;
    assert HitAt(tokens, first);
    BetweenPositive(tokens, lead, first, last, lead + c.tokens, before, after, T.Words, StoredWords, wordsBetween);
    if forall t <- tokens :: t.lengthCp > 0 {
      BetweenPositive(tokens, lead, first, last, lead + c.tokens, before, after, T.Codes, StoredCodes, codesBetween);
    }
  }
}
