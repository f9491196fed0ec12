/** MergeIDF of src/indextool.cpp: a k-way merge of binary word statistics with
    aggregation, read through hand-filled buffers. A file is the sequence of its entries. */
module IdfMerge {
  import opened Integers
  import opened Vectors

  const BUFFER_ENTRIES := 256

  datatype Word = Word(id: int, docs: int)

  /** Entries are sorted by word id, and ids are not zero. */
  ghost predicate GoodFile(file: seq<Word>) {
    && (forall k :: 0 <= k < |file| ==> file[k].id > 0 && 0 <= file[k].docs < U32)
    && forall i, j :: 0 <= i < j < |file| ==> file[i].id <= file[j].id
  }

  ghost predicate GoodFiles(files: seq<seq<Word>>) {
    files != [] && forall i :: 0 <= i < |files| ==> GoodFile(files[i])
  }

  // ---------- what the merge computes ----------

  function DocsIn(w: Word, id: int): int {
    if w.id == id then w.docs else 0
  }

  /** Documents counted for a word in a list of entries. */
  ghost function DocsOf(entries: seq<Word>, id: int): int {
    if entries == [] then 0
    else DocsOf(entries[..|entries| - 1], id) + DocsIn(entries[|entries| - 1], id)
  }

  ghost predicate Has(entries: seq<Word>, id: int) {
    exists k :: 0 <= k < |entries| && entries[k].id == id
  }

  /** ... and over all files. */
  ghost function TotalDocs(files: seq<seq<Word>>, id: int): int {
    if files == [] then 0 else TotalDocs(files[..|files| - 1], id) + DocsOf(files[|files| - 1], id)
  }

  ghost predicate HasAny(files: seq<seq<Word>>, id: int) {
    exists i :: 0 <= i < |files| && Has(files[i], id)
  }

  function TotalEntries(files: seq<seq<Word>>): nat {
    if files == [] then 0 else TotalEntries(files[..|files| - 1]) + |files[|files| - 1]|
  }

  /** A word is left out iff unique words are skipped and its 32-bit count is at most one. */
  ghost predicate Kept(docs: int, skipUnique: bool) {
    !skipUnique || docs % U32 > 1
  }

  /** The merged file: ids strictly increase, and exactly the kept words are there, each
      with its count over all files. */
  ghost predicate MergedFile(files: seq<seq<Word>>, skipUnique: bool, out: seq<Word>) {
    && (forall i, j :: 0 <= i < j < |out| ==> out[i].id < out[j].id)
    && (forall k :: 0 <= k < |out| ==> out[k].docs == TotalDocs(files, out[k].id) % U32)
    && forall id :: Has(out, id) <==> HasAny(files, id) && Kept(TotalDocs(files, id), skipUnique)
  }

  function WordDocs(id: int): Word -> int {
    (w: Word) => if w.id == id then w.docs else 0
  }

  function FileDocs(id: int): seq<Word> -> int {
    (f: seq<Word>) => SumBy(f, WordDocs(id))
  }

  lemma {:induction false} DocsIsSum(entries: seq<Word>, id: int)
    ensures DocsOf(entries, id) == SumBy(entries, WordDocs(id))
  {
    if entries != [] {
      DocsIsSum(entries[..|entries| - 1], id);
      SumLast(entries, WordDocs(id));
    }
  }

  lemma {:induction false} TotalIsSum(files: seq<seq<Word>>, id: int)
    ensures TotalDocs(files, id) == SumBy(files, FileDocs(id))
  {
    hide DocsOf;
    if files != [] {
      TotalIsSum(files[..|files| - 1], id);
      DocsIsSum(files[|files| - 1], id);
      SumLast(files, FileDocs(id));
    }
  }

  /** The merged file in plain words: the ids strictly increase, a word is there iff some file has it and, when
      unique words are skipped, its 32-bit count is more than one, and its count is that of all entries. */
  lemma MergedMeans(files: seq<seq<Word>>, skipUnique: bool, out: seq<Word>)
    requires MergedFile(files, skipUnique, out)
    ensures forall i, j :: 0 <= i < j < |out| ==> out[i].id < out[j].id
    ensures forall w <- out :: w.docs == SumBy(files, FileDocs(w.id)) % U32
    ensures forall id :: Has(out, id) <==>
              HasAny(files, id) && (skipUnique ==> SumBy(files, FileDocs(id)) % U32 > 1)
  {
    hide TotalDocs, SumBy, FileDocs, HasAny;
    forall w <- out ensures w.docs == SumBy(files, FileDocs(w.id)) % U32 {
      TotalIsSum(files, w.id);
    }
    forall id ensures Has(out, id) <==>
              HasAny(files, id) && (skipUnique ==> SumBy(files, FileDocs(id)) % U32 > 1) {
      TotalIsSum(files, id);
    }
  }

  // ---------- entries taken so far ----------

  /** The parts of the files already merged. */
  ghost function Parts(files: seq<seq<Word>>, taken: seq<nat>): (ps: seq<seq<Word>>)
    requires Taken(files, taken)
    ensures |ps| == |files| && forall i :: 0 <= i < |files| ==> ps[i] == files[i][..taken[i]]
  {
    seq(|files|, i requires 0 <= i < |files| => files[i][..taken[i]])
  }

  ghost predicate Taken(files: seq<seq<Word>>, taken: seq<nat>) {
    |taken| == |files| && forall i :: 0 <= i < |files| ==> taken[i] <= |files[i]|
  }

  lemma DocsSnoc(entries: seq<Word>, w: Word, id: int)
    ensures DocsOf(entries + [w], id) == DocsOf(entries, id) + DocsIn(w, id)
    ensures Has(entries + [w], id) <==> Has(entries, id) || w.id == id
  {
    assert (entries + [w])[..|entries|] == entries;
    assert (entries + [w])[|entries|] == w;
    if Has(entries, id) {
      var k :| 0 <= k < |entries| && entries[k].id == id;
      assert (entries + [w])[k].id == id;
    }
  }

  lemma {:induction false} TotalUpdate(ps: seq<seq<Word>>, i: nat, w: Word, id: int)
    requires i < |ps|
    ensures TotalDocs(ps[i := ps[i] + [w]], id) == TotalDocs(ps, id) + DocsIn(w, id)
    ensures TotalEntries(ps[i := ps[i] + [w]]) == TotalEntries(ps) + 1
    decreases |ps|
  {
    var ps' := ps[i := ps[i] + [w]];
    var n := |ps| - 1;
    if i == n {
      assert ps'[..n] == ps[..n];
      DocsSnoc(ps[i], w, id);
    } else {
      assert ps'[..n] == ps[..n][i := ps[i] + [w]];
      TotalUpdate(ps[..n], i, w, id);
    }
  }

  lemma HasAnyUpdate(ps: seq<seq<Word>>, i: nat, w: Word, id: int)
    requires i < |ps|
    ensures HasAny(ps[i := ps[i] + [w]], id) <==> HasAny(ps, id) || w.id == id
  {
    var ps' := ps[i := ps[i] + [w]];
    DocsSnoc(ps[i], w, id);
    if HasAny(ps, id) {
      var j :| 0 <= j < |ps| && Has(ps[j], id);
      assert Has(ps'[j], id);
    }
    if w.id == id {
      assert Has(ps'[i], id);
    }
    if HasAny(ps', id) {
      var j :| 0 <= j < |ps'| && Has(ps'[j], id);
      assert j != i ==> Has(ps[j], id);
    }
  }

  /** What has been merged, as one list in the order of merging. */
  ghost predicate Consumed(ps: seq<seq<Word>>, consumed: seq<Word>) {
    && (forall i, j :: 0 <= i < j < |consumed| ==> consumed[i].id <= consumed[j].id)
    && (forall k :: 0 <= k < |consumed| ==> consumed[k].id > 0)
    && |consumed| == TotalEntries(ps)
    && forall id :: DocsOf(consumed, id) == TotalDocs(ps, id) && (Has(consumed, id) <==> HasAny(ps, id))
  }

  lemma ConsumeOne(files: seq<seq<Word>>, taken: seq<nat>, consumed: seq<Word>, i: nat)
    requires Taken(files, taken) && i < |files| && taken[i] < |files[i]|
    requires Consumed(Parts(files, taken), consumed) && files[i][taken[i]].id > 0
    requires consumed != [] ==> consumed[|consumed| - 1].id <= files[i][taken[i]].id
    ensures Taken(files, taken[i := taken[i] + 1])
    ensures Consumed(Parts(files, taken[i := taken[i] + 1]), consumed + [files[i][taken[i]]])
  {
    hide DocsOf, TotalDocs, Has, HasAny, TotalEntries;
    var w := files[i][taken[i]];
    var ps := Parts(files, taken);
    var ps' := Parts(files, taken[i := taken[i] + 1]);
    assert files[i][..taken[i] + 1] == files[i][..taken[i]] + [w];
    assert ps' == ps[i := ps[i] + [w]];
    TotalUpdate(ps, i, w, 0);
    forall id
      ensures DocsOf(consumed + [w], id) == TotalDocs(ps', id) && (Has(consumed + [w], id) <==> HasAny(ps', id)) {
      TotalUpdate(ps, i, w, id);
      HasAnyUpdate(ps, i, w, id);
      DocsSnoc(consumed, w, id);
    }
  }

  /** The words below the current one have been written out as they should. */
  ghost predicate Written(out: seq<Word>, consumed: seq<Word>, current: int, skipUnique: bool) {
    && (forall i, j :: 0 <= i < j < |out| ==> out[i].id < out[j].id)
    && (forall k :: 0 <= k < |out| ==> out[k].docs == DocsOf(consumed, out[k].id) % U32)
    && forall id :: Has(out, id) <==> id < current && Has(consumed, id) && Kept(DocsOf(consumed, id), skipUnique)
  }

  /** The word being aggregated, and the counters. */
  ghost predicate Current(word: Word, consumed: seq<Word>, merged: int, total: int, skipped: int) {
    && word.id == (if consumed == [] then 0 else consumed[|consumed| - 1].id)
    && word.docs == DocsOf(consumed, word.id) % U32
    && merged + total + skipped + (if consumed == [] then 0 else 1) == |consumed|
  }

  /** One more entry of the current word. */
  lemma SameWord(out: seq<Word>, consumed: seq<Word>, w: Word, word: Word,
                 merged: int, total: int, skipped: int, skipUnique: bool)
    requires Current(word, consumed, merged, total, skipped) && Written(out, consumed, word.id, skipUnique)
    requires w.id > 0 && w.id == word.id
    ensures Current(Word(word.id, (word.docs + w.docs) % U32), consumed + [w], merged + 1, total, skipped)
    ensures Written(out, consumed + [w], word.id, skipUnique)
  {
    hide DocsOf, Has;
    forall id ensures DocsOf(consumed + [w], id) == DocsOf(consumed, id) + DocsIn(w, id)
                      && (Has(consumed + [w], id) <==> Has(consumed, id) || w.id == id) {
      DocsSnoc(consumed, w, id);
    }
    OutBelow(out, consumed, word.id, skipUnique);
  }

  lemma OutBelow(out: seq<Word>, consumed: seq<Word>, current: int, skipUnique: bool)
    requires Written(out, consumed, current, skipUnique)
    ensures forall k :: 0 <= k < |out| ==> out[k].id < current
  {
    forall k | 0 <= k < |out| ensures out[k].id < current {
      assert Has(out, out[k].id);
    }
  }

  /** The current word is complete: it is written out, or skipped. */
  ghost function Flush(out: seq<Word>, word: Word, skipUnique: bool): seq<Word> {
    if word.id != 0 && (!skipUnique || word.docs > 1) then out + [word] else out
  }

  /** With a larger bound the current word is among the words to be written. */
  lemma Flushed(out: seq<Word>, consumed: seq<Word>, word: Word, bound: int,
                merged: int, total: int, skipped: int, skipUnique: bool)
    requires Current(word, consumed, merged, total, skipped) && Written(out, consumed, word.id, skipUnique)
    requires (forall i, j :: 0 <= i < j < |consumed| ==> consumed[i].id <= consumed[j].id)
             && (forall k :: 0 <= k < |consumed| ==> consumed[k].id > 0)
    requires bound > word.id
    ensures Written(Flush(out, word, skipUnique), consumed, bound, skipUnique)
  {
    OutBelow(out, consumed, word.id, skipUnique);
    hide DocsOf;
    var out' := Flush(out, word, skipUnique);
    forall id ensures Has(out', id) <==> id < bound && Has(consumed, id) && Kept(DocsOf(consumed, id), skipUnique) {
      DocsSnoc(out, word, id);
      if consumed != [] {
        assert Has(consumed, word.id);
      }
    }
  }

  /** The first entry of a new word starts a new count. */
  lemma NextWord(out: seq<Word>, consumed: seq<Word>, w: Word, merged: int, total: int, skipped: int, skipUnique: bool)
    requires Written(out, consumed, w.id, skipUnique) && w.id > 0 && 0 <= w.docs < U32
    requires merged + total + skipped == |consumed|
    requires forall k :: 0 <= k < |consumed| ==> consumed[k].id < w.id
    ensures Current(w, consumed + [w], merged, total, skipped) && Written(out, consumed + [w], w.id, skipUnique)
  {
    OutBelow(out, consumed, w.id, skipUnique);
    NotYet(consumed, w.id);
    hide DocsOf, Has;
    forall id ensures DocsOf(consumed + [w], id) == DocsOf(consumed, id) + DocsIn(w, id)
                      && (Has(consumed + [w], id) <==> Has(consumed, id) || w.id == id) {
      DocsSnoc(consumed, w, id);
    }
  }

  lemma {:induction false} NotYet(entries: seq<Word>, id: int)
    requires forall k :: 0 <= k < |entries| ==> entries[k].id < id
    ensures DocsOf(entries, id) == 0
  {
    if entries != [] {
      NotYet(entries[..|entries| - 1], id);
    }
  }

  /** With every file merged and the last word flushed, the output is the merged file. */
  lemma AllMerged(files: seq<seq<Word>>, taken: seq<nat>, consumed: seq<Word>, out: seq<Word>,
                  bound: int, skipUnique: bool)
    requires Taken(files, taken) && forall i :: 0 <= i < |files| ==> taken[i] == |files[i]|
    requires Consumed(Parts(files, taken), consumed) && Written(out, consumed, bound, skipUnique)
    requires forall k :: 0 <= k < |consumed| ==> consumed[k].id < bound
    ensures MergedFile(files, skipUnique, out) && |consumed| == TotalEntries(files)
  {
    hide DocsOf, TotalDocs, HasAny, TotalEntries;
    PartsAll(files, taken);
  }

  lemma PartsAll(files: seq<seq<Word>>, taken: seq<nat>)
    requires Taken(files, taken) && forall i :: 0 <= i < |files| ==> taken[i] == |files[i]|
    ensures Parts(files, taken) == files
  {
    forall i | 0 <= i < |files| ensures Parts(files, taken)[i] == files[i] {
      assert files[i][..|files[i]|] == files[i];
    }
  }

  function CountUnfinished(finished: seq<bool>): nat {
    if finished == [] then 0
    else CountUnfinished(finished[..|finished| - 1]) + if finished[|finished| - 1] then 0 else 1
  }

  lemma {:induction false} FinishOne(finished: seq<bool>, i: nat)
    requires i < |finished| && !finished[i]
    ensures CountUnfinished(finished[i := true]) == CountUnfinished(finished) - 1
  {
    var n := |finished| - 1;
    var f' := finished[i := true];
    if i == n {
      assert f'[..n] == finished[..n];
    } else {
      assert f'[..n] == finished[..n][i := true];
      FinishOne(finished[..n], i);
    }
  }

  function Id(n: nat): int { n }

  /** No more can be read than there is. */
  lemma {:induction false} ReadBound(files: seq<seq<Word>>, done: seq<nat>)
    requires Taken(files, done)
    ensures SumBy(done, Id) <= TotalEntries(files)
    ensures (forall i :: 0 <= i < |files| ==> done[i] == |files[i]|) ==> SumBy(done, Id) == TotalEntries(files)
  {
    if files != [] {
      SumLast(done, Id);
      ReadBound(files[..|files| - 1], done[..|files| - 1]);
    }
  }
}
