/** The merge loop of MergeIDF (src/indextool.cpp) with its per-file read state. */
module IdfMerging {
  import opened IdfMerge
  import opened Integers
  import opened Vectors

  /** After r entries, the buffer holds the block of the file the read position is in,
      and the reader stands behind that block. */
  ghost predicate BufferedAt(file: seq<Word>, buffer: seq<Word>, pos: nat, r: nat) {
    var base := r - r % BUFFER_ENTRIES;
    && r <= |file| && |buffer| == BUFFER_ENTRIES
    && pos == (if r == base then r else if base + BUFFER_ENTRIES < |file| then base + BUFFER_ENTRIES else |file|)
    && forall k :: base <= k < pos ==> buffer[k - base] == file[k]
  }

  function Smaller(x: int, y: int): int {
    if x < y then x else y
  }

  /** At a block boundary the next block is loaded; its first entry is the one due. */
  lemma Refill(file: seq<Word>, buffer: seq<Word>, pos: nat, r: nat)
    requires BufferedAt(file, buffer, pos, r) && r < |file| && r % BUFFER_ENTRIES == 0
    ensures var count := Smaller(|file| - r, BUFFER_ENTRIES);
            && pos + count <= |file|
            && |file[pos..pos + count] + buffer[count..]| == BUFFER_ENTRIES
            && (file[pos..pos + count] + buffer[count..])[0] == file[r]
            && BufferedAt(file, file[pos..pos + count] + buffer[count..], pos + count, r + 1)
  {
    assert (r + 1) % BUFFER_ENTRIES == 1;
  }

  /** Inside a block the buffer has the entry due. */
  lemma InBlock(file: seq<Word>, buffer: seq<Word>, pos: nat, r: nat)
    requires BufferedAt(file, buffer, pos, r) && r < |file| && r % BUFFER_ENTRIES != 0
    ensures buffer[r % BUFFER_ENTRIES] == file[r]
    ensures BufferedAt(file, buffer, pos, r + 1)
  {
  }

  class IdfMerger {
    const files: seq<seq<Word>>
    const skipUnique: bool
    var filePos: seq<nat>            // entries the readers have delivered
    var buffers: seq<seq<Word>>      // dBuffers
    var readSoFar: seq<nat>              // dRead, in entries
    var words: seq<Word>             // dWords
    var finished: seq<bool>          // dFinished
    var word: Word                   // tWord
    var out: seq<Word>               // the output file
    var readWords: int
    var mergedWords: int
    var totalWords: int
    var skippedWords: int
    ghost var taken: seq<nat>        // entries merged into word or out
    ghost var consumed: seq<Word>

    constructor (files: seq<seq<Word>>, skipUnique: bool)
      requires GoodFiles(files)
      ensures this.files == files && this.skipUnique == skipUnique
      ensures Sizes() && readWords == 0 && out == [] && word == Word(0, 0) && consumed == []
      ensures mergedWords == totalWords == skippedWords == 0
      ensures forall j :: 0 <= j < |files| ==> Untouched(j)
    {
      this.files := files;
      this.skipUnique := skipUnique;
      filePos := seq(|files|, _ => 0);
      buffers := seq(|files|, _ => seq(BUFFER_ENTRIES, _ => Word(0, 0)));
      readSoFar := seq(|files|, _ => 0);
      words := seq(|files|, _ => Word(0, 0));
      finished := seq(|files|, _ => false);
      word := Word(0, 0);
      out := [];
      readWords, mergedWords, totalWords, skippedWords := 0, 0, 0, 0;
      taken := seq(|files|, _ => 0);
      consumed := [];
    }

    ghost predicate Sizes()
      reads this
    {
      && |files| == |filePos| == |buffers| == |readSoFar| == |words| == |finished| == |taken|
    }

    ghost predicate Buffered(j: nat)
      requires Sizes() && j < |files|
      reads this
    {
      BufferedAt(files[j], buffers[j], filePos[j], readSoFar[j])
    }

    ghost predicate Untouched(j: nat)
      requires Sizes() && j < |files|
      reads this
    {
      Buffered(j) && readSoFar[j] == 0 && taken[j] == 0 && !finished[j]
    }

    /** The last entry read from the file is waiting, or all of it has been merged. */
    ghost predicate Waiting(j: nat)
      requires Sizes() && j < |files|
      reads this
    {
      && Buffered(j)
      && if finished[j] then taken[j] == readSoFar[j] == |files[j]|
         else readSoFar[j] > 0 && taken[j] == readSoFar[j] - 1 && words[j] == files[j][readSoFar[j] - 1]
    }

    /** Everything read from the file has been merged; the next entry is due. */
    ghost predicate Due(j: nat)
      requires Sizes() && j < |files|
      reads this
    {
      Buffered(j) && taken[j] == readSoFar[j] && !finished[j]
    }

    /** Loads the next block of one file into its buffer. */
    method GetBytes(i: nat)
      requires Sizes() && i < |files| && Buffered(i)
      requires readSoFar[i] < |files[i]| && readSoFar[i] % BUFFER_ENTRIES == 0
      modifies this`filePos, this`buffers
      ensures Sizes() && BufferedAt(files[i], buffers[i], filePos[i], readSoFar[i] + 1)
      ensures |buffers[i]| == BUFFER_ENTRIES && buffers[i][0] == files[i][readSoFar[i]]
      ensures buffers == old(buffers)[i := buffers[i]] && filePos == old(filePos)[i := filePos[i]]
    {
      hide BufferedAt;
      FileRange(i);
      Refill(files[i], buffers[i], filePos[i], readSoFar[i]);
      var count := Smaller(|files[i]| - readSoFar[i], BUFFER_ENTRIES);
      var block := files[i][filePos[i]..filePos[i] + count];
      buffers := buffers[i := block + buffers[i][count..]];
      filePos := filePos[i := filePos[i] + count];
    }

    /** Reads the next entry of one file through its buffer, or marks it finished. */
    method ReadNext(i: nat)
      requires Sizes() && i < |files| && Due(i)
      modifies this`filePos, this`buffers, this`readSoFar, this`words, this`finished, this`readWords
      ensures Sizes() && Waiting(i)
      ensures forall j :: 0 <= j < |files| && j != i ==>
                && readSoFar[j] == old(readSoFar)[j] && words[j] == old(words)[j] && finished[j] == old(finished)[j]
                && filePos[j] == old(filePos)[j] && buffers[j] == old(buffers)[j]
      ensures readSoFar == old(readSoFar)[i := readSoFar[i]]
      ensures if old(readSoFar)[i] < |files[i]| then
                readSoFar[i] == old(readSoFar)[i] + 1 && readWords == old(readWords) + 1 && finished == old(finished)
              else
                readSoFar == old(readSoFar) && readWords == old(readWords) && finished == old(finished)[i := true]
    {
      hide BufferedAt;
      FileRange(i);
      if readSoFar[i] < |files[i]| {
        var offset := readSoFar[i] % BUFFER_ENTRIES;
        if offset == 0 {
          GetBytes(i);
        } else {
          InBlock(files[i], buffers[i], filePos[i], readSoFar[i]);
        }
        words := words[i := buffers[i][offset]];
        readSoFar := readSoFar[i := readSoFar[i] + 1];
        readWords := readWords + 1;
      } else {
        finished := finished[i := true];
      }
    }

    lemma FileRange(i: nat)
      requires Sizes() && i < |files| && Buffered(i)
      ensures readSoFar[i] <= |files[i]| && |buffers[i]| == BUFFER_ENTRIES
    {
    }

    // ---------- merging ----------

    /** What has been merged so far is in the output, the current word and the counters. */
    ghost predicate Merged()
      reads this
    {
      && Sizes() && Taken(files, taken) && Consumed(Parts(files, taken), consumed)
      && Written(out, consumed, word.id, skipUnique)
      && Current(word, consumed, mergedWords, totalWords, skippedWords)
      && |out| == totalWords
    }

    /** No entry that is waiting comes before the current word. */
    ghost predicate Ahead(j: nat)
      requires Sizes() && j < |files|
      reads this
    {
      !finished[j] ==> word.id <= words[j].id
    }

    /** The next smallest input; any one if all are finished. */
    method PickSmallest() returns (i: nat)
      requires Sizes() && |files| > 0
      ensures i < |files|
      ensures (exists j :: 0 <= j < |files| && !finished[j]) ==>
                !finished[i] && forall j :: 0 <= j < |files| && !finished[j] ==> words[i].id <= words[j].id
    {
      i := 0;
      for j := 0 to |files|
        invariant i < |files|
        invariant (exists k :: 0 <= k < j && !finished[k]) ==> !finished[i]
        invariant !finished[i] ==> forall k :: 0 <= k < j && !finished[k] ==> words[i].id <= words[k].id
      {
        if !finished[j] && (finished[i] || words[i].id > words[j].id) {
          i := j;
        }
      }
    }

    /** The entry waiting in file i goes into the current word, or starts the next one. */
    method MergeOne(i: nat)
      requires GoodFiles(files) && Merged() && i < |files| && Waiting(i) && !finished[i] && Ahead(i)
      modifies this`word, this`out, this`mergedWords, this`totalWords, this`skippedWords, this`taken, this`consumed
      ensures Merged() && word.id == words[i].id && Due(i)
      ensures taken == old(taken)[i := readSoFar[i]]
      ensures forall j :: 0 <= j < |files| && j != i && old(Waiting(j)) ==> Waiting(j)
    {
      hide DocsOf, TotalDocs, Has, HasAny, TotalEntries, BufferedAt, Parts;
      WaitingEntry(i);
      ghost var w := files[i][taken[i]];
      ConsumeOne(files, taken, consumed, i);
      if word.id == words[i].id {
        SameWord(out, consumed, w, word, mergedWords, totalWords, skippedWords, skipUnique);
        word := Word(word.id, (word.docs + words[i].docs) % U32);
        mergedWords := mergedWords + 1;
      } else {
        WriteWord(words[i].id);
        NextWord(out, consumed, w, mergedWords, totalWords, skippedWords, skipUnique);
        word := words[i];
      }
      consumed := consumed + [w];
      taken := taken[i := taken[i] + 1];
    }

    lemma WaitingEntry(i: nat)
      requires GoodFiles(files) && Merged() && i < |files| && Waiting(i) && !finished[i] && Ahead(i)
      ensures taken[i] < |files[i]| && files[i][taken[i]] == words[i]
      ensures words[i].id > 0 && 0 <= words[i].docs < U32
      ensures consumed != [] ==> consumed[|consumed| - 1].id <= words[i].id
    {
      assert GoodFile(files[i]);
    }

    /** Writes the current word out, or skips it; later words have larger ids. */
    method WriteWord(bound: int)
      requires Merged() && bound > word.id
      modifies this`out, this`totalWords, this`skippedWords
      ensures Written(out, consumed, bound, skipUnique) && |out| == totalWords
      ensures mergedWords + totalWords + skippedWords == |consumed|
      ensures forall k :: 0 <= k < |consumed| ==> consumed[k].id <= word.id
    {
      hide DocsOf, TotalDocs, Has, HasAny, TotalEntries, Parts;
      Flushed(out, consumed, word, bound, mergedWords, totalWords, skippedWords, skipUnique);
      if word.id != 0 {
        if !skipUnique || word.docs > 1 {
          out := out + [word];
          totalWords := totalWords + 1;
        } else {
          skippedWords := skippedWords + 1;
        }
      }
    }

    // ---------- the loop ----------

    /** First each file gives its first entry, in turn. */
    ghost predicate Prereading(i: nat)
      reads this
    {
      && Sizes() && Merged() && consumed == [] && i < |files|
      && (forall j :: 0 <= j < i ==> Waiting(j))
      && forall j :: i <= j < |files| ==> Untouched(j)
    }

    /** Then the file just merged from gives its next one. */
    ghost predicate Running(i: nat)
      reads this
    {
      && Sizes() && Merged() && i < |files| && Due(i)
      && (forall j :: 0 <= j < |files| && j != i ==> Waiting(j) && Ahead(j))
      && readSoFar[i] > 0 && files[i][readSoFar[i] - 1].id == word.id
    }

    ghost predicate AllWaiting()
      reads this
    {
      && Sizes() && Merged()
      && forall j :: 0 <= j < |files| ==> Waiting(j) && Ahead(j)
    }

    /** How far the reading is from its end. */
    ghost predicate ReadCounted()
      reads this
    {
      Sizes() && Taken(files, readSoFar) && readWords == SumBy(readSoFar, Id)
    }

    /** One read: the file due gives an entry or finishes, and the others wait as before. */
    method ReadTurn(i: nat)
      requires GoodFiles(files) && ReadCounted() && i < |files| && Due(i) && Merged()
      modifies this`filePos, this`buffers, this`readSoFar, this`words, this`finished, this`readWords
      ensures ReadCounted() && Merged() && Waiting(i)
      ensures forall j :: 0 <= j < |files| && j != i && old(Waiting(j)) ==> Waiting(j)
      ensures forall j :: 0 <= j < |files| && j != i && old(Untouched(j)) ==> Untouched(j)
      ensures forall j :: 0 <= j < |files| && j != i && old(Ahead(j)) ==> Ahead(j)
      ensures finished[i] || readSoFar[i] == old(readSoFar)[i] + 1
      ensures readWords > old(readWords)
              || (readWords == old(readWords) && CountUnfinished(finished) < CountUnfinished(old(finished)))
    {
      hide DocsOf, TotalDocs, Has, HasAny, TotalEntries, BufferedAt, Parts, CountUnfinished,
           SumBy, Consumed, Written, Current;
      FileRange(i);
      ReadNext(i);
      FileRange(i);
      if readSoFar[i] != old(readSoFar)[i] {
        SumUpdate(old(readSoFar), i, readSoFar[i], Id);
      } else {
        FinishOne(old(finished), i);
      }
    }

    /** The entry now waiting does not come before the one merged from the same file. */
    lemma InOrder(i: nat)
      requires GoodFiles(files) && Sizes() && i < |files| && Waiting(i)
      requires finished[i] || (readSoFar[i] > 1 && files[i][readSoFar[i] - 2].id == word.id)
      ensures Ahead(i)
    {
      hide BufferedAt;
      assert GoodFile(files[i]);
      FileRange(i);
    }

    /** Merges the smallest entry waiting; once all files are finished, flushes the last
        word and ends. */
    method MergeSmallest() returns (i: nat, end: bool)
      requires GoodFiles(files) && ReadCounted() && AllWaiting()
      modifies this`word, this`out, this`mergedWords, this`totalWords, this`skippedWords, this`taken, this`consumed
      ensures i < |files|
      ensures !end ==> Running(i)
      ensures end ==>
                && MergedFile(files, skipUnique, out) && readWords == TotalEntries(files)
                && totalWords == |out| && readWords == mergedWords + totalWords + skippedWords
    {
      hide DocsOf, TotalDocs, Has, HasAny, TotalEntries, BufferedAt, Parts, SumBy, Consumed, Written,
           Current, MergedFile;
      end := false !in finished;
      i := PickSmallest();
      if end {
        AllTaken();
        WriteWord(word.id + 1);
        AllMerged(files, taken, consumed, out, word.id + 1, skipUnique);
        word := words[i];
      } else {
        assert exists j :: 0 <= j < |files| && !finished[j];
        MergeOne(i);
      }
    }

    lemma AllTaken()
      requires GoodFiles(files) && ReadCounted() && AllWaiting() && false !in finished
      ensures Taken(files, taken) && forall j :: 0 <= j < |files| ==> taken[j] == |files[j]|
      ensures readWords == TotalEntries(files)
    {
      hide TotalEntries, SumBy, BufferedAt, Consumed, Written, Current;
      forall j | 0 <= j < |files| ensures readSoFar[j] == taken[j] == |files[j]| {
        assert finished[j] in finished;
        assert Waiting(j);
      }
      ReadBound(files, readSoFar);
    }

    /** The whole merge, on a fresh state. */
    method Merge()
      requires GoodFiles(files) && Sizes() && out == [] && word == Word(0, 0) && consumed == []
      requires readWords == mergedWords == totalWords == skippedWords == 0
      requires forall j :: 0 <= j < |files| ==> Untouched(j)
      modifies this
      ensures MergedFile(files, skipUnique, out)
      ensures readWords == TotalEntries(files) && totalWords == |out|
      ensures readWords == mergedWords + totalWords + skippedWords
    {
      hide TotalEntries, BufferedAt, CountUnfinished, SumBy, Merged, GoodFiles, MergedFile;
      Fresh();
      var i: nat := 0;
      var preread := false;
      while true
        invariant ReadCounted() && i < |files|
        invariant if preread then Running(i) else Prereading(i)
        decreases TotalEntries(files) - readWords, CountUnfinished(finished)
      {
        DueNow(i);
        ReadTurn(i);
        ReadBound(files, readSoFar);
        if preread {
          InOrder(i);
        }
        i := i + 1;
        if !preread && i == |files| {
          preread := true;
          FirstAhead();
        }
        if preread {
          var end;
          i, end := MergeSmallest();
          if end {
            return;
          }
        }
      }
    }

    lemma DueNow(i: nat)
      requires Running(i) || Prereading(i)
      ensures Sizes() && i < |files| && Due(i)
    {
      hide BufferedAt;
      assert Prereading(i) ==> Untouched(i);
    }

    lemma Fresh()
      requires GoodFiles(files) && Sizes() && out == [] && word == Word(0, 0) && consumed == []
      requires readWords == mergedWords == totalWords == skippedWords == 0
      requires forall j :: 0 <= j < |files| ==> Untouched(j)
      ensures ReadCounted() && Prereading(0)
    {
      forall j | 0 <= j < |files| ensures taken[j] == readSoFar[j] == 0 && files[j][..0] == [] {
        assert Untouched(j);
      }
      NothingTaken(Parts(files, taken));
      NothingRead(readSoFar);
    }

    lemma {:induction false} NothingTaken(ps: seq<seq<Word>>)
      requires forall j :: 0 <= j < |ps| ==> ps[j] == []
      ensures Consumed(ps, [])
    {
      if ps != [] {
        NothingTaken(ps[..|ps| - 1]);
      }
    }

    lemma {:induction false} NothingRead(done: seq<nat>)
      requires forall j :: 0 <= j < |done| ==> done[j] == 0
      ensures SumBy(done, Id) == 0
    {
      if done != [] {
        NothingRead(done[1..]);
      }
    }

    /** Before anything is merged, every entry is ahead. */
    lemma FirstAhead()
      requires GoodFiles(files) && Sizes() && Merged() && consumed == []
      requires forall j :: 0 <= j < |files| ==> Waiting(j)
      ensures AllWaiting()
    {
      forall j | 0 <= j < |files| ensures Ahead(j) {
        assert Waiting(j) && GoodFile(files[j]);
        FileRange(j);
      }
    }
  }

  /** MergeIDF on the contents of its input files. */
  method MergeIDF(files: seq<seq<Word>>, skipUnique: bool)
    returns (out: seq<Word>, readWords: int, mergedWords: int, totalWords: int, skippedWords: int)
    requires GoodFiles(files)
    ensures MergedFile(files, skipUnique, out)
    ensures forall i, j :: 0 <= i < j < |out| ==> out[i].id < out[j].id
    ensures forall w <- out :: w.docs == SumBy(files, FileDocs(w.id)) % U32
    ensures forall id :: Has(out, id) <==>
              HasAny(files, id) && (skipUnique ==> SumBy(files, FileDocs(id)) % U32 > 1)
    ensures readWords == TotalEntries(files) && totalWords == |out|
    ensures readWords == mergedWords + totalWords + skippedWords
  {
    hide GoodFiles, MergedFile, TotalEntries, SumBy, Has, HasAny;
    var m := new IdfMerger(files, skipUnique);
    m.Merge();
    out := m.out;
    MergedMeans(files, skipUnique, out);
    readWords, mergedWords, totalWords, skippedWords := m.readWords, m.mergedWords, m.totalWords, m.skippedWords;
  }
}
