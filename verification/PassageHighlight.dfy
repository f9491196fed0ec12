/** The third pass over a document (HighlightPassages_c of src/sphinxexcerpt.cpp) when passages are shown by weight:
    it emits the passages one after the other into a text, noting where each begins, and EmitPassagesOrdered cuts the
    text up again. */
module PassageHighlighting {
  import opened Vectors
  import opened Passages
  import opened PassageChoice
  import opened PassageEmission

  /** What showing a token emits, and the zone's tag if a passage begins with it. */
  datatype Piece = Piece(text: Bytes, zone: Bytes)

  function End(p: Passage): int { p.start + p.tokens }

  predicate Spans(p: Passage, tok: int) {
    p.start <= tok < End(p)
  }

  /** The first passage from i on that spans a token, or -1. */
  function Find(ps: seq<Passage>, i: nat, tok: int): (j: int)
    requires i <= |ps|
    ensures j == -1 || (i <= j < |ps| && Spans(ps[j], tok))
    ensures forall k :: i <= k < (if j == -1 then |ps| else j) ==> !Spans(ps[k], tok)
    decreases |ps| - i
  {
    if i == |ps| then -1 else if Spans(ps[i], tok) then i else Find(ps, i + 1, tok)
  }

  /** The passage a token is shown in, after the passage of the token before. */
  function Next(ps: seq<Passage>, cur: int, tok: int): (next: int)
    requires -1 <= cur < |ps|
    ensures -1 <= next < |ps| && (next != -1 ==> Spans(ps[next], tok))
  {
    if cur != -1 && Spans(ps[cur], tok) then cur
    else Find(ps, if cur != -1 && tok >= End(ps[cur]) then cur + 1 else 0, tok)
  }

  /** The passage shown, what was emitted, and where in it which passages began. */
  datatype Output = Output(cur: int, text: Bytes, heads: seq<int>, headed: seq<nat>)

  ghost function Updated(ps: seq<Passage>, o: Output, tok: int, zone: Bytes): (r: Output)
    requires -1 <= o.cur < |ps|
    ensures r.cur == Next(ps, o.cur, tok)
  {
    var cur := Next(ps, o.cur, tok);
    if cur != -1 && ps[cur].start == tok then
      Output(cur, o.text + zone, o.heads + [|o.text|], o.headed + [cur])
    else o.(cur := cur)
  }

  ghost function Emit(ps: seq<Passage>, o: Output, tok: int, piece: Piece): (r: Output)
    requires -1 <= o.cur < |ps|
    ensures r.cur == Next(ps, o.cur, tok)
  {
    var u := Updated(ps, o, tok, piece.zone);
    if u.cur != -1 then u.(text := u.text + piece.text) else u
  }

  /** After the first n tokens. */
  ghost function After(doc: seq<Piece>, ps: seq<Passage>, n: nat): (o: Output)
    requires n <= |doc|
    ensures -1 <= o.cur < |ps|
  {
    if n == 0 then Output(-1, [], [], []) else Emit(ps, After(doc, ps, n - 1), n - 1, doc[n - 1])
  }

  class Highlighter {
    const passages: seq<Passage>
    var curToken: nat
    var curPassage: int
    var result: Bytes
    var heads: seq<int>
    /** The passages that have a head. */
    ghost var headed: seq<nat>

    ghost function State(): (o: Output)
      reads this
    {
      Output(curPassage, result, heads, headed)
    }

    constructor (passages: seq<Passage>)
      ensures this.passages == passages && curToken == 0 && State() == Output(-1, [], [], [])
    {
      this.passages := passages;
      curToken, curPassage, result, heads, headed := 0, -1, [], [], [];
    }

    /** The loop of UpdatePassage. */
    method FindPassage(from: nat) returns (found: int)
      requires from <= |passages|
      ensures found == Find(passages, from, curToken)
    {
      var i := from;
      while i < |passages|
        invariant from <= i <= |passages| && Find(passages, from, curToken) == Find(passages, i, curToken)
      {
        if Spans(passages[i], curToken) {
          return i;
        }
        i := i + 1;
      }
      found := -1;
    }

    /** The current passage is the first one from some passage on that spans the current token, or none is. */
    ghost predicate FirstFrom(i: nat)
      requires -1 <= curPassage < |passages|
      reads this
    {
      if curPassage == -1 then forall k :: i <= k < |passages| ==> !Spans(passages[k], curToken)
      else
        && i <= curPassage && Spans(passages[curPassage], curToken)
        && forall k :: i <= k < curPassage ==> !Spans(passages[k], curToken)
    }

    /** The passage the current token belongs to, with a head if it begins here. */
    method UpdatePassage(zone: Bytes)
      requires -1 <= curPassage < |passages|
      modifies this
      ensures State() == Updated(passages, old(State()), curToken, zone) && curToken == old(curToken)
      ensures var cur := old(curPassage);
              if cur != -1 && Spans(passages[cur], curToken) then curPassage == cur
              else FirstFrom(if cur != -1 && curToken >= End(passages[cur]) then cur + 1 else 0)
      ensures if curPassage != -1 && passages[curPassage].start == curToken
              then result == old(result) + zone && heads == old(heads) + [|old(result)|]
              else result == old(result) && heads == old(heads)
    {
      hide Find;
      if curPassage == -1 || curToken < passages[curPassage].start || curToken >= End(passages[curPassage]) {
        var next := 0;
        if curPassage != -1 && curToken >= End(passages[curPassage]) {
          next := curPassage + 1;
        }
        curPassage := FindPassage(next);
      }
      if curPassage != -1 && curToken == passages[curPassage].start {
        heads := heads + [|result|];
        headed := headed + [curPassage];
        result := result + zone;
      }
    }

    /** A token, or a piece of what is between tokens. */
    method OnToken(piece: Piece)
      requires -1 <= curPassage < |passages|
      modifies this
      ensures State() == Emit(passages, old(State()), old(curToken), piece) && curToken == old(curToken) + 1
      ensures curPassage == -1 ==> result == old(result) && heads == old(heads)
      ensures curPassage != -1 ==>
                if passages[curPassage].start == old(curToken)
                then result == old(result) + piece.zone + piece.text && heads == old(heads) + [|old(result)|]
                else result == old(result) + piece.text && heads == old(heads)
    {
      UpdatePassage(piece.zone);
      if curPassage != -1 {
        result := result + piece.text;
      }
      curToken := curToken + 1;
    }
  }

  // ---------- one head for each passage ----------

  /** Passages are not empty, lie in the document and come in its order. */
  ghost predicate Laid(doc: seq<Piece>, ps: seq<Passage>) {
    && InDocumentOrder(ps)
    && forall i :: 0 <= i < |ps| ==> 0 <= ps[i].start < End(ps[i]) <= |doc|
  }

  /** Each passage starts after the end of the one before. */
  ghost predicate Apart(ps: seq<Passage>) {
    forall i :: 0 < i < |ps| ==> End(ps[i - 1]) <= ps[i].start
  }

  /** Heads mark the passages that were being shown where they start; no two of them are the same, and they are
      in the order of the text. */
  ghost predicate HeadsOk(doc: seq<Piece>, ps: seq<Passage>, n: nat)
    requires n <= |doc|
  {
    var o := After(doc, ps, n);
    && |o.heads| == |o.headed| && Indexes(o.headed, |ps|) && Distinct(o.headed) && GoodHeads(o.text, o.heads)
    && forall i :: 0 <= i < |o.headed| ==> Headed(doc, ps, n, o.headed[i])
  }

  ghost predicate Headed(doc: seq<Piece>, ps: seq<Passage>, n: nat, k: nat)
    requires n <= |doc| && k < |ps|
  {
    0 <= ps[k].start < n && After(doc, ps, ps[k].start + 1).cur == k
  }

  lemma GoodHeadsGrow(text: Bytes, heads: seq<int>, more: Bytes)
    requires GoodHeads(text, heads)
    ensures GoodHeads(text + more, heads) && GoodHeads(text + more, heads + [|text|])
  {
    var all, now := text + more, heads + [|text|];
    forall i | 0 <= i < |now| ensures now[i] <= EndOf(all, now, i) <= |all| {
      assert i < |heads| ==> heads[i] <= EndOf(text, heads, i);
    }
    forall i | 0 <= i < |heads| ensures heads[i] <= EndOf(all, heads, i) <= |all| {
      assert heads[i] <= EndOf(text, heads, i);
    }
  }

  lemma {:induction false} HeadsAreOk(doc: seq<Piece>, ps: seq<Passage>, n: nat)
    requires n <= |doc|
    ensures HeadsOk(doc, ps, n)
  {
    hide GoodHeads, Next;
    if n == 0 {
      NoHeads();
    } else {
      HeadsAreOk(doc, ps, n - 1);
      var was, o := After(doc, ps, n - 1), After(doc, ps, n);
      var u := Updated(ps, was, n - 1, doc[n - 1].zone);
      GoodHeadsGrow(was.text, was.heads, doc[n - 1].zone);
      GoodHeadsGrow(was.text, was.heads, []);
      assert was.text + [] == was.text;
      assert GoodHeads(u.text, u.heads);
      GoodHeadsGrow(u.text, u.heads, doc[n - 1].text);
      forall i | 0 <= i < |was.headed| ensures Headed(doc, ps, n, was.headed[i]) {
        assert Headed(doc, ps, n - 1, was.headed[i]);
      }
      if o.headed != was.headed {
        assert ps[o.cur].start == n - 1;
      }
    }
  }

  lemma NoHeads()
    ensures GoodHeads([], [])
  {
  }

  /** Once a passage is shown, it is as long as it spans the tokens. */
  lemma {:induction false} StaysShown(doc: seq<Piece>, ps: seq<Passage>, k: nat, from: nat, to: nat)
    requires k < |ps| && from <= to < |doc| && ps[k].start <= from && to < End(ps[k])
    requires After(doc, ps, from + 1).cur == k
    ensures After(doc, ps, to + 1).cur == k
  {
    hide Emit, Find;
    if from < to {
      StaysShown(doc, ps, k, from, to - 1);
    }
  }

  /** If every passage has a head, none starts within the one before. */
  lemma AllHeadedApart(doc: seq<Piece>, ps: seq<Passage>)
    requires Laid(doc, ps) && |After(doc, ps, |doc|).heads| == |ps|
    ensures Apart(ps)
  {
    hide After;
    HeadsAreOk(doc, ps, |doc|);
    var headed := After(doc, ps, |doc|).headed;
    forall i | 0 < i < |ps| ensures End(ps[i - 1]) <= ps[i].start {
      AllIn(|ps|, headed, i - 1);
      AllIn(|ps|, headed, i);
      assert Headed(doc, ps, |doc|, i - 1) && Headed(doc, ps, |doc|, i);
      if ps[i].start < End(ps[i - 1]) {
        StaysShown(doc, ps, i - 1, ps[i - 1].start, ps[i].start);
      }
    }
  }

  lemma {:induction false} ApartFar(ps: seq<Passage>, i: nat, j: nat)
    requires Apart(ps) && i < j < |ps| && forall k :: 0 <= k < |ps| ==> ps[k].start < End(ps[k])
    ensures End(ps[i]) <= ps[j].start
  {
    if i < j - 1 {
      ApartFar(ps, i, j - 1);
      assert End(ps[j - 1]) <= ps[j].start;
    }
  }

  /** Of passages apart at most one spans a token. */
  lemma OneSpans(ps: seq<Passage>, i: nat, j: nat, tok: int)
    requires Apart(ps) && i < |ps| && j < |ps| && Spans(ps[j], tok)
    requires forall k :: 0 <= k < |ps| ==> ps[k].start < End(ps[k])
    ensures i < j ==> End(ps[i]) <= ps[j].start
    ensures i > j ==> tok < ps[i].start
    ensures Spans(ps[i], tok) ==> i == j
  {
    if i < j {
      ApartFar(ps, i, j);
    } else if j < i {
      ApartFar(ps, j, i);
    }
  }

  // ---------- what is emitted ----------

  ghost function Texts(doc: seq<Piece>, i: int, j: int): Bytes
    requires 0 <= i && j <= |doc|
    decreases j - i
  {
    if i >= j then [] else Texts(doc, i, j - 1) + doc[j - 1].text
  }

  /** A passage's text: its zone's tag and its tokens. */
  ghost function PassageText(doc: seq<Piece>, p: Passage): Bytes
    requires 0 <= p.start < End(p) <= |doc|
  {
    doc[p.start].zone + Texts(doc, p.start, End(p))
  }

  /** The texts of the first k passages. */
  ghost function Total(doc: seq<Piece>, ps: seq<Passage>, k: nat): Bytes
    requires Laid(doc, ps) && k <= |ps|
  {
    if k == 0 then [] else Total(doc, ps, k - 1) + PassageText(doc, ps[k - 1])
  }

  function Least(a: int, b: int): int { if a < b then a else b }

  /** Of passages apart, those that have started have their heads, and the last of them is shown or has ended. */
  ghost predicate Started(doc: seq<Piece>, ps: seq<Passage>, n: nat)
    requires Laid(doc, ps) && n <= |doc|
  {
    var o := After(doc, ps, n);
    var m := |o.headed|;
    && m <= |ps| && |o.heads| == m
    && (forall i :: 0 <= i < |ps| ==> (ps[i].start < n <==> i < m))
    && (forall i :: 0 <= i < m ==> o.heads[i] == |Total(doc, ps, i)|)
    && (o.cur != -1 ==> o.cur == m - 1 && Spans(ps[o.cur], n - 1))
    && (o.cur == -1 && m > 0 ==> End(ps[m - 1]) < n)
  }

  /** All of them but the last are shown in full, and the last one as far as its tokens came. */
  ghost predicate Showing(doc: seq<Piece>, ps: seq<Passage>, n: nat)
    requires Laid(doc, ps) && n <= |doc|
  {
    var o := After(doc, ps, n);
    var m := |o.headed|;
    Started(doc, ps, n) &&
      o.text == if m == 0 then [] else
         Total(doc, ps, m - 1) + doc[ps[m - 1].start].zone + Texts(doc, ps[m - 1].start, Least(n, End(ps[m - 1])))
  }

  /** Which passage comes next: the one that spans the token, if any. */
  lemma NextShown(doc: seq<Piece>, ps: seq<Passage>, n: nat)
    requires Laid(doc, ps) && Apart(ps) && n < |doc| && Showing(doc, ps, n)
    ensures
      var o := After(doc, ps, n);
      var m, cur := |o.headed|, Next(ps, o.cur, n);
      && (cur == -1 ==> (m > 0 ==> End(ps[m - 1]) <= n) && (m < |ps| ==> n < ps[m].start))
      && (cur != -1 && ps[cur].start < n ==> cur == m - 1 && (m < |ps| ==> n < ps[m].start))
      && (cur != -1 && ps[cur].start == n ==> cur == m && (m > 0 ==> End(ps[m - 1]) <= n))
      && (cur != -1 ==> ps[cur].start <= n)
  {
    hide Total, Texts;
    var o := After(doc, ps, n);
    var m, cur := |o.headed|, Next(ps, o.cur, n);
    if cur != -1 {
      if m > 0 {
        OneSpans(ps, m - 1, cur, n);
      }
      if m < |ps| {
        OneSpans(ps, m, cur, n);
      }
    } else {
      assert m > 0 ==> !Spans(ps[m - 1], n);
      assert m < |ps| ==> !Spans(ps[m], n);
    }
  }

  lemma TextsSnoc(doc: seq<Piece>, i: int, j: int)
    requires 0 <= i <= j < |doc|
    ensures Texts(doc, i, j + 1) == Texts(doc, i, j) + doc[j].text && Texts(doc, i, i) == []
  {
  }

  /** When the last passage started has ended, those started are shown in full. */
  lemma ShownInFull(doc: seq<Piece>, ps: seq<Passage>, n: nat)
    requires Laid(doc, ps) && n <= |doc| && Showing(doc, ps, n)
    requires var m := |After(doc, ps, n).headed|; m > 0 ==> End(ps[m - 1]) <= n
    ensures After(doc, ps, n).text == Total(doc, ps, |After(doc, ps, n).headed|)
  {
    hide Texts, Total, After;
    var m := |After(doc, ps, n).headed|;
    if m > 0 {
      TotalSnoc(doc, ps, m - 1);
    } else {
      NoTotal(doc, ps);
    }
  }

  /** The passage that comes next starts with the token: it is the first one that had not started. */
  lemma StartsNow(doc: seq<Piece>, ps: seq<Passage>, n: nat)
    requires Laid(doc, ps) && Apart(ps) && n < |doc| && Showing(doc, ps, n)
    requires var cur := Next(ps, After(doc, ps, n).cur, n); cur != -1 && ps[cur].start == n
    ensures Showing(doc, ps, n + 1)
  {
    hide Next, Texts, Total, After, Apart, Laid;
    ShownInFullNow(doc, ps, n);
    HeadNow(doc, ps, n);
    OneMore(doc, ps, n);
    TextsSnoc(doc, n, n);
    var text := doc[n].text;
    assert [] + text == text;
  }

  /** It gets its head. */
  lemma HeadNow(doc: seq<Piece>, ps: seq<Passage>, n: nat)
    requires Laid(doc, ps) && Apart(ps) && n < |doc| && Showing(doc, ps, n)
    requires var cur := Next(ps, After(doc, ps, n).cur, n); cur != -1 && ps[cur].start == n
    ensures
      var o, r := After(doc, ps, n), After(doc, ps, n + 1);
      var m := |o.headed|;
      && Started(doc, ps, n + 1) && m < |ps| && ps[m].start == n < End(ps[m])
      && |r.headed| == m + 1 && r.text == o.text + doc[n].zone + doc[n].text
  {
    hide Next, Texts, Total, After;
    NextShown(doc, ps, n);
    ShownInFullNow(doc, ps, n);
    OneMore(doc, ps, n);
    var m := |After(doc, ps, n).headed|;
    if m + 1 < |ps| {
      ApartFar(ps, m, m + 1);
    }
    NotStarted(doc, ps, n, m + 1);
  }

  lemma ShownInFullNow(doc: seq<Piece>, ps: seq<Passage>, n: nat)
    requires Laid(doc, ps) && Apart(ps) && n < |doc| && Showing(doc, ps, n)
    requires var cur := Next(ps, After(doc, ps, n).cur, n); cur != -1 && ps[cur].start == n
    ensures After(doc, ps, n).text == Total(doc, ps, |After(doc, ps, n).headed|)
  {
    hide Next, Texts, Total, After, Laid, Apart, Showing;
    NextShown(doc, ps, n);
    ShownInFull(doc, ps, n);
  }

  /** The passage that was shown, or had just ended, spans the token: it goes on. */
  lemma GoesOn(doc: seq<Piece>, ps: seq<Passage>, n: nat)
    requires Laid(doc, ps) && Apart(ps) && n < |doc| && Showing(doc, ps, n)
    requires var cur := Next(ps, After(doc, ps, n).cur, n); cur != -1 && ps[cur].start != n
    ensures Showing(doc, ps, n + 1)
  {
    hide Next, Texts, Total, After;
    NextShown(doc, ps, n);
    var m := |After(doc, ps, n).headed|;
    OneMore(doc, ps, n);
    TextsSnoc(doc, ps[m - 1].start, n);
    NotStarted(doc, ps, n, m);
  }

  /** No passage spans the token. */
  lemma NoneShown(doc: seq<Piece>, ps: seq<Passage>, n: nat)
    requires Laid(doc, ps) && Apart(ps) && n < |doc| && Showing(doc, ps, n)
    requires Next(ps, After(doc, ps, n).cur, n) == -1
    ensures Showing(doc, ps, n + 1)
  {
    hide Next, Texts, Total, After;
    NextShown(doc, ps, n);
    OneMore(doc, ps, n);
    NotStarted(doc, ps, n, |After(doc, ps, n).headed|);
  }

  lemma NotStarted(doc: seq<Piece>, ps: seq<Passage>, n: nat, m: nat)
    requires Laid(doc, ps) && (m < |ps| ==> n < ps[m].start)
    ensures forall i :: m <= i < |ps| ==> n < ps[i].start
  {
  }

  lemma TotalSnoc(doc: seq<Piece>, ps: seq<Passage>, k: nat)
    requires Laid(doc, ps) && k < |ps|
    ensures Total(doc, ps, k + 1)
         == Total(doc, ps, k) + doc[ps[k].start].zone + Texts(doc, ps[k].start, End(ps[k]))
  {
    hide Texts;
    var head, zone, rest := Total(doc, ps, k), doc[ps[k].start].zone, Texts(doc, ps[k].start, End(ps[k]));
    assert head + (zone + rest) == head + zone + rest;
  }

  lemma NoTotal(doc: seq<Piece>, ps: seq<Passage>)
    requires Laid(doc, ps)
    ensures Total(doc, ps, 0) == []
  {
  }

  lemma {:induction false} AllShowing(doc: seq<Piece>, ps: seq<Passage>, n: nat)
    requires Laid(doc, ps) && Apart(ps) && n <= |doc|
    ensures Showing(doc, ps, n)
  {
    hide After, Showing, Apart;
    if n == 0 {
      NothingShown(doc, ps);
    } else {
      AllShowing(doc, ps, n - 1);
      var cur := Next(ps, After(doc, ps, n - 1).cur, n - 1);
      if cur != -1 && ps[cur].start == n - 1 {
        StartsNow(doc, ps, n - 1);
      } else if cur == -1 {
        NoneShown(doc, ps, n - 1);
      } else {
        GoesOn(doc, ps, n - 1);
      }
    }
  }

  lemma NothingShown(doc: seq<Piece>, ps: seq<Passage>)
    requires Laid(doc, ps)
    ensures Showing(doc, ps, 0)
  {
  }

  /** At the end the text is that of all passages, and the slices between the heads are their texts. */
  lemma SlicesAreTexts(doc: seq<Piece>, ps: seq<Passage>)
    requires Laid(doc, ps) && Apart(ps)
    ensures var o := After(doc, ps, |doc|);
            && |o.heads| == |ps| && GoodHeads(o.text, o.heads) && o.text == Total(doc, ps, |ps|)
            && forall i :: 0 <= i < |ps| ==> Slice(o.text, o.heads, i) == PassageText(doc, ps[i])
  {
    hide After, Texts, Total, Apart;
    AllShowing(doc, ps, |doc|);
    HeadsAreOk(doc, ps, |doc|);
    var o := After(doc, ps, |doc|);
    if ps == [] {
      NoTotal(doc, ps);
    } else {
      assert ps[|ps| - 1].start < |doc|;
      TotalSnoc(doc, ps, |ps| - 1);
    }
    hide PassageText, Laid, Showing;
    forall i | 0 <= i < |ps| ensures Slice(o.text, o.heads, i) == PassageText(doc, ps[i]) {
      OneSlice(doc, ps, i);
    }
  }

  /** Where the text of a passage lies among those of all. */
  lemma OneSlice(doc: seq<Piece>, ps: seq<Passage>, i: nat)
    requires Laid(doc, ps) && i < |ps|
    ensures |Total(doc, ps, i)| <= |Total(doc, ps, i + 1)| <= |Total(doc, ps, |ps|)|
    ensures Total(doc, ps, |ps|)[|Total(doc, ps, i)|..|Total(doc, ps, i + 1)|] == PassageText(doc, ps[i])
  {
    TotalPrefix(doc, ps, i + 1, |ps|);
    hide PassageText;
    assert Total(doc, ps, i + 1) == Total(doc, ps, i) + PassageText(doc, ps[i]);
    Between(Total(doc, ps, |ps|), Total(doc, ps, i), PassageText(doc, ps[i]));
  }

  lemma Between(text: Bytes, front: Bytes, part: Bytes)
    requires front + part <= text
    ensures |front| + |part| <= |text| && text[|front|..|front| + |part|] == part
  {
    assert text[..|front| + |part|] == front + part;
  }

  lemma {:induction false} TotalPrefix(doc: seq<Piece>, ps: seq<Passage>, i: nat, j: nat)
    requires Laid(doc, ps) && i <= j <= |ps|
    ensures Total(doc, ps, i) <= Total(doc, ps, j)
  {
    hide PassageText;
    if i < j {
      TotalPrefix(doc, ps, i, j - 1);
    }
  }

  /** There is a head for each passage iff each starts after the end of the one before. */
  lemma OneHeadEach(doc: seq<Piece>, ps: seq<Passage>)
    requires Laid(doc, ps)
    ensures |After(doc, ps, |doc|).heads| <= |ps|
    ensures |After(doc, ps, |doc|).heads| == |ps| <==> Apart(ps)
  {
    hide After;
    HeadsAreOk(doc, ps, |doc|);
    AtMost(|ps|, After(doc, ps, |doc|).headed);
    if Apart(ps) {
      SlicesAreTexts(doc, ps);
    } else if |After(doc, ps, |doc|).heads| == |ps| {
      AllHeadedApart(doc, ps);
    }
  }

  /** Keywords six words apart, with five words shown around them: passages with the first two and with the last
      two overlap, and the second one gets no head. */
  lemma OverlapLosesHead(doc: seq<Piece>, p: Passage, q: Passage)
    requires |doc| >= 23 && p.start == 0 && p.tokens == 17 && q.start == 6 && q.tokens == 17
    ensures |After(doc, [p, q], |doc|).heads| < 2
  {
    OneHeadEach(doc, [p, q]);
    assert !Apart([p, q]) by {
      assert End([p, q][1 - 1]) > [p, q][1].start;
    }
  }

  // ---------- passages by weight ----------

  /** Separator, then each passage's text followed by a separator. */
  ghost function Joined(doc: seq<Piece>, ps: seq<Passage>, sep: Bytes, order: seq<nat>): Bytes
    requires Laid(doc, ps) && Indexes(order, |ps|)
  {
    if order == [] then sep
    else Joined(doc, ps, sep, order[..|order| - 1]) + PassageText(doc, ps[order[|order| - 1]]) + sep
  }

  lemma {:induction false} EmittedIsJoined(doc: seq<Piece>, ps: seq<Passage>, text: Bytes, heads: seq<int>, sep: Bytes,
                                           order: seq<nat>)
    requires Laid(doc, ps) && Indexes(order, |ps|) && GoodHeads(text, heads) && |heads| == |ps|
    requires forall i :: 0 <= i < |ps| ==> Slice(text, heads, i) == PassageText(doc, ps[i])
    ensures Emitted(text, heads, sep, order) == Joined(doc, ps, sep, order)
  {
    if order != [] {
      EmittedIsJoined(doc, ps, text, heads, sep, order[..|order| - 1]);
    }
  }

  /** The passages of a document shown by weight: the code gets through iff no passage starts within the one before,
      and then gives their texts in that order. */
  method HighlightPassages(doc: seq<Piece>, passages: seq<Passage>, sep: Bytes)
    returns (ok: bool, result: Bytes, ghost order: seq<nat>)
    requires Laid(doc, passages) && forall i :: 0 <= i < |passages| ==> passages[i].GetWeight() >= 0
    ensures ok <==> Apart(passages)
    ensures ok ==> |order| == |passages| && ByWeight(passages, order) && result == Joined(doc, passages, sep, order)
  {
    hide Laid, Apart, After, Emit, GoodHeads, Emitted, Joined, Slice, Passage.GetWeight;
    var h := new Highlighter(passages);
    Start(doc, passages);
    for n := 0 to |doc|
      invariant h.State() == After(doc, passages, n) && h.curToken == n
    {
      h.OnToken(doc[n]);
      OneMore(doc, passages, n);
    }
    OneHeadEach(doc, passages);
    HeadsAreOk(doc, passages, |doc|);
    ok, result, order := EmitPassagesOrdered(h.result, h.heads, passages, sep);
    if ok {
      SlicesAreTexts(doc, passages);
      EmittedIsJoined(doc, passages, h.result, h.heads, sep, order);
    }
  }

  lemma Start(doc: seq<Piece>, ps: seq<Passage>)
    ensures After(doc, ps, 0) == Output(-1, [], [], [])
  {
  }

  lemma OneMore(doc: seq<Piece>, ps: seq<Passage>, n: nat)
    requires n < |doc|
    ensures After(doc, ps, n + 1) == Emit(ps, After(doc, ps, n), n, doc[n])
  {
  }
}
