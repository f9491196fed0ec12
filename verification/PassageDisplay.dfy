/** What a passage shows against what its counters count. The highlighter shows the tokens a passage spans
    (UpdatePassage of src/sphinxexcerpt.cpp), while trimming takes the lengths of the tokens stored beside its
    keywords off the counters; the two may differ once the front of the passage was cut off. */
module PassageDisplay {
  import opened Passages
  import opened Vectors
  import opened PassageFlush
  import opened PassageTrimming
  import opened PassageWeights
  import T = TokenSpans

  // ---------- one passage ----------

  /** The counter of a passage's words: m_iWords less what was trimmed off it. */
  function WordsLeft(o: Passage, p: Passage): int {
    p.words - (SpareWords(o) - SpareWords(p))
  }

  function Spare(p: Passage, g: Stored -> int): int {
    SumBy(p.before, g) + SumBy(p.after, g)
  }

  /** What was trimmed off the front is what the passage does not span any more ... */
  lemma FrontTrimmed(o: Passage, p: Passage, tokens: seq<T.SpanToken>, start: int, first: int, last: int,
                     f: T.SpanToken -> int, g: Stored -> int)
    requires FilledFrom(o, tokens, start, first, last) && Trimmed(o, p)
    requires forall t <- tokens :: g(AsStored(t)) == f(t)
    ensures o.start - start <= p.start - start <= first
    ensures SumBy(o.before, g) - SumBy(p.before, g) == SumBy(tokens[o.start - start..p.start - start], f)
  {
    hide SumBy;
    var n := |p.before|;
    assert o.before == p.before + o.before[n..];
    SumConcat(p.before, o.before[n..], g);
    SumBefore(o.before[n..], tokens, first - n, f, g);
  }

  /** ... but what was trimmed off the back are the last tokens before the window's o.tokens-th. */
  lemma BackTrimmed(o: Passage, p: Passage, tokens: seq<T.SpanToken>, start: int, first: int, last: int,
                    f: T.SpanToken -> int, g: Stored -> int)
    requires FilledFrom(o, tokens, start, first, last) && Trimmed(o, p)
    requires forall t <- tokens :: g(AsStored(t)) == f(t)
    ensures var k := |o.after| - |p.after|;
            && 0 <= k && (k == 0 || last < o.tokens - k)
            && SumBy(o.after, g) - SumBy(p.after, g) == SumBy(tokens[o.tokens - k..o.tokens], f)
  {
    hide SumBy;
    var n := |p.after|;
    assert o.after == p.after + o.after[n..];
    SumConcat(p.after, o.after[n..], g);
    if n < |o.after| {
      SumAfter(o.after[n..], tokens, last + 1 + n, f, g);
    } else {
      assert o.after[n..] == [] && tokens[o.tokens..o.tokens] == [];
      NoTokens(f, g);
    }
  }

  lemma NoTokens(f: T.SpanToken -> int, g: Stored -> int)
    ensures SumBy([], f) == 0 && SumBy([], g) == 0
  {
  }

  /** However a passage was trimmed, it still shows its keywords; and it shows more than is counted by what the
      tokens counted as trimmed off its back have more than those that left it there. */
  lemma ShownLessCounted(o: Passage, p: Passage, tokens: seq<T.SpanToken>, start: int, first: int, last: int,
                         f: T.SpanToken -> int, g: Stored -> int)
    requires FilledFrom(o, tokens, start, first, last) && Trimmed(o, p)
    requires forall t <- tokens :: g(AsStored(t)) == f(t)
    ensures
      var lead, a, k := o.start - start, p.start - start, |o.after| - |p.after|;
      && 0 <= lead <= a <= first <= last < a + p.tokens <= |tokens| && 0 <= k <= o.tokens
      && SumBy(tokens[a..a + p.tokens], f)
         == SumBy(tokens[lead..lead + o.tokens], f) - (Spare(o, g) - Spare(p, g))
            + SumBy(tokens[o.tokens - k..o.tokens], f) - SumBy(tokens[lead + o.tokens - k..lead + o.tokens], f)
  {
    hide SumBy, StoredBefore, StoredAfter;
    var lead, a, k := o.start - start, p.start - start, |o.after| - |p.after|;
    FrontTrimmed(o, p, tokens, start, first, last, f, g);
    BackTrimmed(o, p, tokens, start, first, last, f, g);
    var end := lead + o.tokens - k;
    assert tokens[lead..lead + o.tokens] == tokens[lead..a] + tokens[a..end] + tokens[end..lead + o.tokens];
    SumConcat(tokens[lead..a] + tokens[a..end], tokens[end..lead + o.tokens], f);
    SumConcat(tokens[lead..a], tokens[a..end], f);
  }

  /** Exactly when the counters of a trimmed passage are those of the tokens it shows. */
  lemma CountedIsShown(o: Passage, p: Passage, tokens: seq<T.SpanToken>, start: int, first: int, last: int)
    requires FilledFrom(o, tokens, start, first, last) && Trimmed(o, p)
    ensures
      var lead, a, k := o.start - start, p.start - start, |o.after| - |p.after|;
      && 0 <= lead <= a <= first <= last < a + p.tokens <= |tokens| && 0 <= k <= o.tokens
      && (p.codes == SumBy(tokens[a..a + p.tokens], T.Codes)
          <==> SumBy(tokens[o.tokens - k..o.tokens], T.Codes)
               == SumBy(tokens[lead + o.tokens - k..lead + o.tokens], T.Codes))
      && (WordsLeft(o, p) == SumBy(tokens[a..a + p.tokens], T.Words)
          <==> SumBy(tokens[o.tokens - k..o.tokens], T.Words)
               == SumBy(tokens[lead + o.tokens - k..lead + o.tokens], T.Words))
  {
    hide SumBy, StoredBefore, StoredAfter;
    ShownLessCounted(o, p, tokens, start, first, last, T.Codes, StoredCodes);
    ShownLessCounted(o, p, tokens, start, first, last, T.Words, StoredWords);
  }

  // ---------- one passage, however it is trimmed ----------

  ghost predicate CountsShown(o: Passage, p: Passage, tokens: seq<T.SpanToken>, start: int) {
    var a := p.start - start;
    && 0 <= a <= a + p.tokens <= |tokens|
    && p.codes == SumBy(tokens[a..a + p.tokens], T.Codes)
    && WordsLeft(o, p) == SumBy(tokens[a..a + p.tokens], T.Words)
  }

  /** Every token stored after the last keyword is as long as the one that leaves the passage in its stead, and
      a word if that is one: the one as many tokens later as were cut off the window's front. */
  ghost predicate Aligned(o: Passage, tokens: seq<T.SpanToken>, start: int, last: int) {
    var lead := o.start - start;
    && 0 <= lead <= lead + o.tokens <= |tokens| && last >= 0
    && forall j :: last < j < o.tokens ==> Alike(tokens[j], tokens[lead + j])
  }

  ghost predicate Alike(t: T.SpanToken, u: T.SpanToken) {
    t.lengthCp == u.lengthCp && t.isWord == u.isWord
  }

  /** A passage with some tokens trimmed off its back. */
  function BackOff(o: Passage, k: nat): (p: Passage)
    requires k <= |o.after|
    ensures Trimmed(o, p)
  {
    var left := o.after[..|o.after| - k];
    o.(after := left, tokens := o.tokens - k,
       codes := o.codes - (SumBy(o.after, StoredCodes) - SumBy(left, StoredCodes)))
  }

  lemma {:induction false} AlikeSums(a: seq<T.SpanToken>, b: seq<T.SpanToken>)
    requires |a| == |b| && forall k :: 0 <= k < |a| ==> Alike(a[k], b[k])
    ensures SumBy(a, T.Codes) == SumBy(b, T.Codes) && SumBy(a, T.Words) == SumBy(b, T.Words)
  {
    if a != [] {
      AlikeSums(a[1..], b[1..]);
    }
  }

  lemma AlignedSums(tokens: seq<T.SpanToken>, i: nat, end: nat, lead: nat)
    requires i <= end && lead + end <= |tokens| && forall j :: i <= j < end ==> Alike(tokens[j], tokens[lead + j])
    ensures SumBy(tokens[i..end], T.Codes) == SumBy(tokens[lead + i..lead + end], T.Codes)
    ensures SumBy(tokens[i..end], T.Words) == SumBy(tokens[lead + i..lead + end], T.Words)
  {
    var a, b := tokens[i..end], tokens[lead + i..lead + end];
    forall k | 0 <= k < |a| ensures Alike(a[k], b[k]) {
      assert a[k] == tokens[i + k] && b[k] == tokens[lead + (i + k)];
    }
    AlikeSums(a, b);
  }

  lemma AlignedCounts(o: Passage, p: Passage, tokens: seq<T.SpanToken>, start: int, first: int, last: int)
    requires FilledFrom(o, tokens, start, first, last) && Trimmed(o, p) && Aligned(o, tokens, start, last)
    ensures CountsShown(o, p, tokens, start)
  {
    hide SumBy, FilledFrom, Trimmed, Alike;
    var lead, k := o.start - start, |o.after| - |p.after|;
    CountedIsShown(o, p, tokens, start, first, last);
    BackTrimmed(o, p, tokens, start, first, last, T.Codes, StoredCodes);
    AlignedSums(tokens, o.tokens - k, o.tokens, lead);
  }

  /** If the counters are right with the token at j still there and right with it trimmed off, it is like the one
      that leaves. */
  lemma OneAligned(o: Passage, tokens: seq<T.SpanToken>, start: int, first: int, last: int, j: int)
    requires FilledFrom(o, tokens, start, first, last) && last < j < o.tokens
    requires CountsShown(o, BackOff(o, o.tokens - j), tokens, start)
    requires CountsShown(o, BackOff(o, o.tokens - j - 1), tokens, start)
    ensures Alike(tokens[j], tokens[o.start - start + j])
  {
    hide SumBy, FilledFrom, Trimmed;
    FilledSizes(o, tokens, start, first, last);
    var lead := o.start - start;
    CountedIsShown(o, BackOff(o, o.tokens - j), tokens, start, first, last);
    CountedIsShown(o, BackOff(o, o.tokens - j - 1), tokens, start, first, last);
    SumsFrom(tokens, j, o.tokens);
    SumsFrom(tokens, lead + j, lead + o.tokens);
  }

  lemma SumsFrom(tokens: seq<T.SpanToken>, i: nat, end: nat)
    requires i < end <= |tokens|
    ensures SumBy(tokens[i..end], T.Codes) == tokens[i].lengthCp + SumBy(tokens[i + 1..end], T.Codes)
    ensures SumBy(tokens[i..end], T.Words) == T.Words(tokens[i]) + SumBy(tokens[i + 1..end], T.Words)
  {
    assert tokens[i..end][1..] == tokens[i + 1..end];
  }

  lemma FilledSizes(o: Passage, tokens: seq<T.SpanToken>, start: int, first: int, last: int)
    requires FilledFrom(o, tokens, start, first, last)
    ensures 0 <= last && 0 <= o.start - start <= o.start - start + o.tokens <= |tokens|
    ensures |o.after| == Max(0, o.tokens - (last + 1))
  {
  }

  lemma CountsAligned(o: Passage, tokens: seq<T.SpanToken>, start: int, first: int, last: int)
    requires FilledFrom(o, tokens, start, first, last)
    requires forall p :: Trimmed(o, p) ==> CountsShown(o, p, tokens, start)
    ensures Aligned(o, tokens, start, last)
  {
    hide FilledFrom, CountsShown, Trimmed, BackOff, Alike;
    FilledSizes(o, tokens, start, first, last);
    forall j | last < j < o.tokens ensures Alike(tokens[j], tokens[o.start - start + j]) {
      assert Trimmed(o, BackOff(o, o.tokens - j)) && Trimmed(o, BackOff(o, o.tokens - j - 1));
      OneAligned(o, tokens, start, first, last, j);
    }
  }

  /** So the counters count what is shown, however the passage is trimmed, iff its tokens are aligned. They are if
      nothing had been cut off the window's front, or if nothing is stored after the keywords. */
  lemma CountsEveryTrimming(o: Passage, tokens: seq<T.SpanToken>, start: int, first: int, last: int)
    requires FilledFrom(o, tokens, start, first, last)
    ensures (forall p :: Trimmed(o, p) ==> CountsShown(o, p, tokens, start)) <==> Aligned(o, tokens, start, last)
    ensures o.start == start || o.after == [] ==> Aligned(o, tokens, start, last)
  {
    hide FilledFrom, CountsShown, Trimmed;
    FilledSizes(o, tokens, start, first, last);
    if Aligned(o, tokens, start, last) {
      forall p | Trimmed(o, p) ensures CountsShown(o, p, tokens, start) {
        AlignedCounts(o, p, tokens, start, first, last);
      }
    } else if forall p :: Trimmed(o, p) ==> CountsShown(o, p, tokens, start) {
      CountsAligned(o, tokens, start, first, last);
    }
  }

  // ---------- a failing input ----------

  /** Words of 1, 1, 1, 3, 10 and 1 codepoints, the fourth one a keyword. */
  function OverrunText(): (s: seq<T.SpanToken>) {
    [T.SpanToken({}, 1, true), T.SpanToken({}, 1, true), T.SpanToken({}, 1, true),
     T.SpanToken({0}, 3, true), T.SpanToken({}, 10, true), T.SpanToken({}, 1, true)]
  }

  /** With two words allowed on either side, the window's first word is cut off. */
  function OverrunWeighing(start: int): Weighing {
    Weighing({0}, 2, 1, 0, 1, Gaps(2, 3, 2), start + 3, start + 3)
  }

  function OverrunPassage(start: int): Passage {
    Passage(start + 1, 5, 16, 5, {0}, 0, 2, 1, 1, 2, 4, 2,
            [Stored(1, true), Stored(1, true)], [Stored(10, true)])
  }

  lemma SumOfTwo<X>(a: X, b: X, f: X -> int)
    ensures SumBy([a, b], f) == f(a) + f(b)
  {
    OneSum(a, f);
    SumSnoc([a], b, f);
    assert [a, b] == [a] + [b];
  }

  lemma SumOfThree<X>(a: X, b: X, c: X, f: X -> int)
    ensures SumBy([a, b, c], f) == f(a) + f(b) + f(c)
  {
    SumOfTwo(a, b, f);
    SumSnoc([a, b], c, f);
    assert [a, b, c] == [a, b] + [c];
  }

  lemma SumOfFive<X>(a: X, b: X, c: X, d: X, e: X, f: X -> int)
    ensures SumBy([a, b, c, d, e], f) == f(a) + f(b) + f(c) + f(d) + f(e)
  {
    assert [a, b, c, d, e] == [a, b] + [c, d, e];
    SumOfTwo(a, b, f);
    SumConcat([a, b], [c, d, e], f);
    SumOfThree(c, d, e, f);
  }

  /** The words of five tokens. */
  lemma MasksOfFive(s: seq<T.SpanToken>)
    requires |s| == 5 && forall t <- s :: t.isWord
    ensures WordMasks(s) == [s[0].mask, s[1].mask, s[2].mask, s[3].mask, s[4].mask]
  {
    hide WordMasks;
    assert s[..0] == [] && s[..5] == s;
    NoMasks();
    WordMasksSnoc(s, 0);
    WordMasksSnoc(s, 1);
    WordMasksSnoc(s, 2);
    WordMasksSnoc(s, 3);
    WordMasksSnoc(s, 4);
  }

  /** So cut, the passage is left as it says: the last word is not stored, though the passage spans it. */
  lemma OverrunFilled(start: int)
    ensures CutOf(Cut(start + 1, 5, 16, 5, 2, 2), OverrunText(), start, OverrunWeighing(start), 2)
    ensures FilledFrom(OverrunPassage(start), OverrunText(), start, 3, 3)
    ensures Whole(OverrunPassage(start)) && Solid(OverrunPassage(start))
  {
    hide SumBy, WordMasks;
    var s := OverrunText();
    assert s[1..6] == [s[1], s[2], s[3], s[4], s[5]];
    SumOfFive(s[1], s[2], s[3], s[4], s[5], T.Codes);
    SumOfFive(s[1], s[2], s[3], s[4], s[5], T.Words);
    MasksOfFive(s[1..6]);
    assert Blank(WordMasks(s[1..6]), 3) && Blank(WordMasks(s[1..6]), 4);
    OverrunStored();
  }

  lemma OverrunStored()
    ensures Whole(OverrunPassage(0)) && forall start :: SpareCodes(OverrunPassage(start)) == 12
    ensures forall start :: SpareWords(OverrunPassage(start)) == 3
  {
  }

  /** Two such passages, on end, trimmed to a limit of twenty codepoints as rounds of trimming do, the last
      passage first: their counters stop at twenty, and they show twenty-nine. */
  lemma FrontCutOverruns()
    ensures
      var p, q := OverrunPassage(0), OverrunPassage(6);
      && FromWindow(OverrunText() + OverrunText(), p, 0, 6, 3, 3)
      && FromWindow(OverrunText() + OverrunText(), q, 6, 12, 3, 3)
    ensures
      var p, q := OverrunPassage(0), OverrunPassage(6);
      var p1, q1 := TrimOne(p, true).0, TrimOne(q, true).0;
      var q2 := TrimOne(q1, false).0;
      && p.codes + q.codes > p.codes + q1.codes > p1.codes + q1.codes > 20 == p1.codes + q2.codes
      && SumBy([p1, q2], ShownBy(OverrunText() + OverrunText(), T.Codes)) == 29
  {
    hide SumBy, FilledFrom, CutOf;
    var s := OverrunText();
    var doc := s + s;
    OverrunFilled(0);
    OverrunFilled(6);
    assert doc[0..6] == s && doc[6..12] == s;
    var p1, q1 := TrimOne(OverrunPassage(0), true).0, TrimOne(OverrunPassage(6), true).0;
    var q2 := TrimOne(q1, false).0;
    assert Span(doc, p1) == [s[2], s[3], s[4], s[5]] && Span(doc, q2) == [s[2], s[3], s[4]];
    SumOfThree(s[2], s[3], s[4], T.Codes);
    SumSnoc([s[2], s[3], s[4]], s[5], T.Codes);
    assert [s[2], s[3], s[4]] + [s[5]] == [s[2], s[3], s[4], s[5]];
    SumOfTwo(p1, q2, ShownBy(doc, T.Codes));
  }

  // ---------- all passages ----------

  /** The tokens of a document that a passage spans. */
  function Span(doc: seq<T.SpanToken>, p: Passage): (s: seq<T.SpanToken>) {
    if 0 <= p.start <= p.start + p.tokens <= |doc| then doc[p.start..p.start + p.tokens] else []
  }

  function ShownBy(doc: seq<T.SpanToken>, f: T.SpanToken -> int): Passage -> int {
    (p: Passage) => SumBy(Span(doc, p), f)
  }

  /** The window was that part of the document. */
  ghost predicate FromWindow(doc: seq<T.SpanToken>, p: Passage, start: int, end: int, first: int, last: int) {
    0 <= start <= end <= |doc| && FilledFrom(p, doc[start..end], start, first, last)
  }

  /** A passage whose counters stay right: one with its tokens aligned; or any, when no tokens are stored. */
  ghost predicate Faithful(doc: seq<T.SpanToken>, p: Passage) {
    || (exists start, end, first, last ::
          FromWindow(doc, p, start, end, first, last) && Aligned(p, doc[start..end], start, last))
    || (Left(p) == 0 && p.codes == ShownBy(doc, T.Codes)(p) && p.words == ShownBy(doc, T.Words)(p))
  }

  ghost predicate AllFaithful(doc: seq<T.SpanToken>, show: seq<Passage>) {
    forall k :: 0 <= k < |show| ==> Faithful(doc, show[k])
  }

  lemma SliceOfSlice<X>(s: seq<X>, i: nat, j: nat, a: nat, b: nat)
    requires i <= j <= |s| && a <= b <= j - i
    ensures s[i..j][a..b] == s[i + a..i + b]
  {
    assert forall k :: 0 <= k < b - a ==> s[i..j][a..b][k] == s[i..j][a + k] == s[i + (a + k)];
  }

  /** The counters of such a passage count what it shows, however it was trimmed. */
  lemma FaithfulShows(doc: seq<T.SpanToken>, o: Passage, p: Passage)
    requires Faithful(doc, o) && Trimmed(o, p)
    ensures p.codes == ShownBy(doc, T.Codes)(p) && WordsLeft(o, p) == ShownBy(doc, T.Words)(p)
  {
    hide SumBy, FilledFrom, Aligned;
    if Left(o) == 0 && o.codes == ShownBy(doc, T.Codes)(o) && o.words == ShownBy(doc, T.Words)(o) {
      assert p == o;
    } else {
      var start, end, first, last :|
        FromWindow(doc, o, start, end, first, last) && Aligned(o, doc[start..end], start, last);
      var tokens, a := doc[start..end], p.start - start;
      AlignedCounts(o, p, tokens, start, first, last);
      SliceOfSlice(doc, start, end, a, a + p.tokens);
    }
  }

  /** And so the totals are those of what all of them show. */
  lemma {:induction false} TotalsShown(doc: seq<T.SpanToken>, was: seq<Passage>, now: seq<Passage>)
    requires AllFaithful(doc, was) && AllTrimmed(was, now)
    ensures SumBy(now, Codes) == SumBy(now, ShownBy(doc, T.Codes))
    ensures CountedWords(was, now) == SumBy(now, ShownBy(doc, T.Words))
    decreases |was|
  {
    hide Faithful, SpareWords, Trimmed, ShownBy;
    if was != [] {
      assert Faithful(doc, was[0]) && Trimmed(was[0], now[0]);
      FaithfulShows(doc, was[0], now[0]);
      TotalsShown(doc, was[1..], now[1..]);
    }
  }
}
