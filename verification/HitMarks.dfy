/** Post-processing of the spans the matching engine marked (DoHighlighting of
    src/sphinxexcerpt.cpp, without exact_phrase): spans are exploded into the keyword
    hits inside them, and the hits are folded back into contiguous spans. */
module HitMarks {
  import opened Vectors

  datatype Mark = Mark(pos: int, span: int)

  /** Some query word occurs at that position. */
  ghost predicate IsHit(hits: seq<seq<int>>, p: int) {
    exists k :: 0 <= k < |hits| && p in hits[k]
  }

  /** The positions one mark stands for. */
  ghost predicate Meant(m: Mark, hits: seq<seq<int>>, p: int) {
    if m.span == 1 then p == m.pos
    else m.pos <= p < m.pos + m.span && IsHit(hits, p)
  }

  ghost predicate AnyMeant(ms: seq<Mark>, hits: seq<seq<int>>, p: int) {
    exists m <- ms :: Meant(m, hits, p)
  }

  ghost predicate Covered(ms: seq<Mark>, p: int) {
    exists m <- ms :: m.pos <= p < m.pos + m.span
  }

  /** Sorted, non-empty, disjoint and non-adjacent spans. */
  ghost predicate Canonical(ms: seq<Mark>) {
    && (forall k :: 0 <= k < |ms| ==> ms[k].span >= 1)
    && forall i, j :: 0 <= i < j < |ms| ==> ms[i].pos + ms[i].span < ms[j].pos
  }

  function CountLong(ms: seq<Mark>): nat {
    if ms == [] then 0 else Long(ms[0]) + CountLong(ms[1..])
  }

  lemma {:induction false} CountLongConcat(a: seq<Mark>, b: seq<Mark>)
    ensures CountLong(a + b) == CountLong(a) + CountLong(b)
  {
    if a == [] {
      assert a + b == b;
    } else {
      assert (a + b)[1..] == a[1..] + b;
      CountLongConcat(a[1..], b);
    }
  }

  function Long(m: Mark): nat {
    if m.span == 1 then 0 else 1
  }

  lemma {:induction false} CountLongUpdate(s: seq<Mark>, i: nat, m: Mark)
    requires i < |s|
    ensures CountLong(s[i := m]) + Long(s[i]) == CountLong(s) + Long(m)
  {
    if i > 0 {
      assert s[i := m][1..] == s[1..][i - 1 := m];
      CountLongUpdate(s[1..], i - 1, m);
    } else {
      assert s[0 := m][1..] == s[1..];
    }
  }

  lemma CountLongLast(s: seq<Mark>)
    requires s != []
    ensures CountLong(s) == CountLong(s[..|s| - 1]) + Long(s[|s| - 1])
  {
    var last := |s| - 1;
    assert s == s[..last] + [s[last]];
    CountLongConcat(s[..last], [s[last]]);
    assert [s[last]][1..] == [];
  }

  lemma CountLongRemoved(s: seq<Mark>, i: nat)
    requires i < |s|
    ensures CountLong(RemoveFast(s, i)) + Long(s[i]) == CountLong(s)
  {
    hide CountLong, Long;
    CountLongMoved(s, i, s[|s| - 1]);
  }

  /** The last mark takes the place of another. */
  lemma CountLongMoved(s: seq<Mark>, i: nat, last: Mark)
    requires i < |s| && last == s[|s| - 1]
    ensures CountLong(s[i := last][..|s| - 1]) + Long(s[i]) == CountLong(s)
  {
    hide CountLong, Long;
    var moved := s[i := last];
    CountLongUpdate(s, i, last);
    CountLongLast(moved);
    assert moved[|s| - 1] == last;
  }

  // ---------- explosion ----------

  /** The keyword hits inside a mark. */
  method MatchedPositions(m: Mark, hits: seq<seq<int>>) returns (matched: seq<int>)
    requires m.span >= 0 && forall h <- hits :: Sorted(h)
    ensures forall p :: p in matched <==> m.pos <= p < m.pos + m.span && IsHit(hits, p)
    ensures forall p :: p in matched <==>
              m.pos <= p < m.pos + m.span && exists k :: 0 <= k < |hits| && p in hits[k]
  {
    matched := [];
    for j := 0 to m.span
      invariant forall p :: p in matched <==> m.pos <= p < m.pos + j && IsHit(hits, p)
    {
      var pos := m.pos + j;
      var k := 0;
      var found := false;
      while k < |hits| && !found
        invariant 0 <= k <= |hits|
        invariant found ==> IsHit(hits, pos)
        invariant !found ==> forall n :: 0 <= n < k ==> pos !in hits[n]
        decreases |hits| - k, !found
      {
        assert hits[k] in hits && hits[k][0..|hits[k]|] == hits[k];
        var at := BinarySearch(hits[k], 0, |hits[k]| - 1, pos);
        if at != -1 {
          found := true;
        } else {
          k := k + 1;
        }
      }
      if found {
        matched := matched + [pos];
      }
    }
  }

  function Singles(ps: seq<int>): (ms: seq<Mark>)
    ensures |ms| == |ps| && forall k :: 0 <= k < |ps| ==> ms[k] == Mark(ps[k], 1)
  {
    seq(|ps|, k requires 0 <= k < |ps| => Mark(ps[k], 1))
  }

  /** Appending the hits of a long mark and removing the mark loses no position. */
  lemma ExplodeStep(ms: seq<Mark>, i: nat, matched: seq<int>, hits: seq<seq<int>>, p: int)
    requires i < |ms| && ms[i].span != 1
    requires forall q :: q in matched <==> Meant(ms[i], hits, q)
    ensures AnyMeant(RemoveFast(ms + Singles(matched), i), hits, p) <==> AnyMeant(ms, hits, p)
  {
    var grown := ms + Singles(matched);
    var r := RemoveFast(grown, i);
    RemoveFastElements(grown, i);
    if AnyMeant(r, hits, p) {
      var m :| m in r && Meant(m, hits, p);
      assert m in grown;
      if m !in ms {
        assert m in Singles(matched);
        assert ms[i] in ms;
      }
    }
    if AnyMeant(ms, hits, p) {
      var m :| m in ms && Meant(m, hits, p);
      if m == ms[i] {
        var k :| 0 <= k < |matched| && matched[k] == p;
        assert grown[|ms| + k] == Mark(p, 1);
        assert Mark(p, 1) in grown && Mark(p, 1) in r;
      } else {
        assert m in grown && m in r;
      }
    }
  }

  /** The scan that appends to and removes from the vector it walks over. */
  method Explode(marks: seq<Mark>, hits: seq<seq<int>>) returns (r: seq<Mark>)
    requires forall m <- marks :: m.span >= 0
    requires forall h <- hits :: Sorted(h)
    ensures forall m <- r :: m.span == 1
    ensures forall p :: AnyMeant(r, hits, p) <==> AnyMeant(marks, hits, p)
  {
    r := marks;
    var i := 0;
    while i < |r|
      invariant 0 <= i <= |r| && forall m <- r :: m.span >= 0
      invariant forall k :: 0 <= k < i ==> r[k].span == 1
      invariant forall p :: AnyMeant(r, hits, p) <==> AnyMeant(marks, hits, p)
      decreases CountLong(r), |r| - i
    {
      if r[i].span == 1 {
        i := i + 1;
        continue;
      }
      assert r[i] in r;
      var matched := MatchedPositions(r[i], hits);
      ghost var was := r;
      forall p ensures AnyMeant(RemoveFast(r + Singles(matched), i), hits, p) <==> AnyMeant(r, hits, p) {
        ExplodeStep(r, i, matched, hits, p);
      }
      ExplodeCount(r, i, matched);
      if matched == [] {
        assert r + Singles(matched) == r;
        r := RemoveFast(r, i); // rescan the same place
        continue;
      }
      r := r + Singles(matched);
      r := RemoveFast(r, i);
      i := i + 1; // the mark swapped in is one of the new ones
    }
  }

  lemma ExplodeCount(ms: seq<Mark>, i: nat, matched: seq<int>)
    requires i < |ms| && ms[i].span != 1
    ensures CountLong(RemoveFast(ms + Singles(matched), i)) == CountLong(ms) - 1
  {
    CountLongConcat(ms, Singles(matched));
    NoLong(Singles(matched));
    CountLongRemoved(ms + Singles(matched), i);
  }

  lemma {:induction false} NoLong(ms: seq<Mark>)
    requires forall k :: 0 <= k < |ms| ==> ms[k].span == 1
    ensures CountLong(ms) == 0
  {
    if ms != [] {
      NoLong(ms[1..]);
    }
  }

  // ---------- folding ----------

  /** Uniq on 1-long marks: sort by position, then drop equal neighbours. */
  method UniqSingles(marks: seq<Mark>) returns (r: seq<Mark>)
    requires forall m <- marks :: m.span == 1
    ensures forall k :: 0 <= k < |r| ==> r[k].span == 1
    ensures forall i, j :: 0 <= i < j < |r| ==> r[i].pos < r[j].pos
    ensures forall m :: m in r <==> m in marks
  {
    var ps := seq(|marks|, k requires 0 <= k < |marks| => marks[k].pos);
    var sorted := Sort(ps);
    var uniq := Uniq(sorted);
    r := Singles(uniq);
    forall m ensures m in r <==> m in marks {
      SameSingles(marks, ps, m);
      SameSingles(r, uniq, m);
    }
  }

  lemma SameSingles(marks: seq<Mark>, ps: seq<int>, m: Mark)
    requires |ps| == |marks| && forall k :: 0 <= k < |ps| ==> ps[k] == marks[k].pos
    requires forall m <- marks :: m.span == 1
    ensures m in marks <==> m.span == 1 && m.pos in ps
  {
    if m.span == 1 && m.pos in ps {
      var k :| 0 <= k < |ps| && ps[k] == m.pos;
      assert marks[k] in marks;
    }
  }

  /** The state of the fold: the emitted prefix r[..out + 1] is canonical and covers
      the positions read so far; the unread marks are untouched. */
  ghost predicate FoldedUpTo(r: seq<Mark>, marks: seq<Mark>, out: int, inp: int) {
    && |r| == |marks| && 0 <= out < inp <= |r|
    && r[inp..] == marks[inp..]
    && r[out].pos + r[out].span == marks[inp - 1].pos + 1
    && Canonical(r[..out + 1])
    && forall p :: Covered(r[..out + 1], p) <==> Mark(p, 1) in marks[..inp]
  }

  ghost predicate AscendingSingles(marks: seq<Mark>) {
    && (forall k :: 0 <= k < |marks| ==> marks[k].span == 1)
    && forall i, j :: 0 <= i < j < |marks| ==> marks[i].pos < marks[j].pos
  }

  /** The in-place fold with an emitting and a reading pointer. */
  method Fold(marks: seq<Mark>) returns (r: seq<Mark>)
    requires AscendingSingles(marks)
    ensures Canonical(r)
    ensures forall p :: Covered(r, p) <==> Mark(p, 1) in marks
  {
    hide Canonical, Covered, FoldedUpTo;
    r := marks;
    var out, inp := 0, 1;
    if |marks| > 0 {
      FoldStart(marks);
    }
    while inp < |r|
      invariant |r| == |marks| && 0 <= out < inp
      invariant |r| > 0 ==> inp <= |r| && FoldedUpTo(r, marks, out, inp)
      decreases |r| - inp
    {
      if r[inp].pos == r[out].pos + r[out].span {
        FoldMerge(r, marks, out, inp);
        r := r[out := Mark(r[out].pos, r[out].span + r[inp].span)];
        inp := inp + 1;
      } else {
        FoldEmit(r, marks, out, inp);
        out := out + 1;
        r := r[out := r[inp]];
        inp := inp + 1;
      }
    }
    FoldEnd(r, marks, out, inp);
    if |r| > 1 {
      r := r[..out + 1];
    }
  }

  lemma FoldEnd(r: seq<Mark>, marks: seq<Mark>, out: nat, inp: int)
    requires |r| == |marks| && inp >= |r|
    requires |r| > 0 ==> inp <= |r| && FoldedUpTo(r, marks, out, inp)
    ensures var res := if |r| > 1 then r[..out + 1] else r;
            Canonical(res) && forall p :: Covered(res, p) <==> Mark(p, 1) in marks
  {
    assert marks[..|marks|] == marks;
    if |r| == 1 {
      assert r[..1] == r;
    }
  }

  lemma FoldStart(marks: seq<Mark>)
    requires AscendingSingles(marks) && |marks| > 0
    ensures FoldedUpTo(marks, marks, 0, 1)
  {
    assert marks[..1] == [] + [marks[0]];
    forall p ensures Covered(marks[..1], p) <==> Mark(p, 1) in marks[..1] {
      CoveredConcat([], marks[0], p);
    }
  }

  lemma FoldMerge(r: seq<Mark>, marks: seq<Mark>, out: int, inp: int)
    requires AscendingSingles(marks) && FoldedUpTo(r, marks, out, inp) && inp < |r|
    requires r[inp].pos == r[out].pos + r[out].span
    ensures FoldedUpTo(r[out := Mark(r[out].pos, r[out].span + r[inp].span)], marks, out, inp + 1)
  {
    hide Canonical, Covered;
    assert r[inp] == r[inp..][0] == marks[inp..][0];
    var r' := r[out := Mark(r[out].pos, r[out].span + 1)];
    GrowLast(r[..out + 1]);
    assert r'[..out + 1] == r[..out + 1][..out] + [r'[out]];
    assert marks[..inp + 1] == marks[..inp] + [marks[inp]];
    assert r'[inp + 1..] == r[inp..][1..] == marks[inp + 1..];
  }

  lemma FoldEmit(r: seq<Mark>, marks: seq<Mark>, out: int, inp: int)
    requires AscendingSingles(marks) && FoldedUpTo(r, marks, out, inp) && inp < |r|
    requires r[inp].pos != r[out].pos + r[out].span
    ensures FoldedUpTo(r[out + 1 := r[inp]], marks, out + 1, inp + 1)
  {
    hide Canonical, Covered;
    assert r[inp] == r[inp..][0] == marks[inp..][0];
    var r' := r[out + 1 := r[inp]];
    StartNew(r[..out + 1], marks[inp]);
    assert r'[..out + 2] == r[..out + 1] + [marks[inp]];
    assert marks[..inp + 1] == marks[..inp] + [marks[inp]];
    assert r'[inp + 1..] == r[inp..][1..] == marks[inp + 1..];
  }

  lemma GrowLast(ms: seq<Mark>)
    requires ms != [] && Canonical(ms)
    ensures var last := ms[|ms| - 1];
            var grown := ms[..|ms| - 1] + [Mark(last.pos, last.span + 1)];
            && Canonical(grown)
            && forall p :: Covered(grown, p) <==> Covered(ms, p) || p == last.pos + last.span
  {
    var n := |ms| - 1;
    var grown := ms[..n] + [Mark(ms[n].pos, ms[n].span + 1)];
    forall p ensures Covered(grown, p) <==> Covered(ms, p) || p == ms[n].pos + ms[n].span {
      CoveredConcat(ms[..n], grown[n], p);
      CoveredConcat(ms[..n], ms[n], p);
      assert ms == ms[..n] + [ms[n]];
    }
  }

  lemma StartNew(ms: seq<Mark>, m: Mark)
    requires ms != [] && Canonical(ms) && m.span == 1
    requires ms[|ms| - 1].pos + ms[|ms| - 1].span < m.pos
    ensures Canonical(ms + [m])
    ensures forall p :: Covered(ms + [m], p) <==> Covered(ms, p) || p == m.pos
  {
    forall p ensures Covered(ms + [m], p) <==> Covered(ms, p) || p == m.pos {
      CoveredConcat(ms, m, p);
    }
  }

  lemma CoveredConcat(ms: seq<Mark>, m: Mark, p: int)
    ensures Covered(ms + [m], p) <==> Covered(ms, p) || m.pos <= p < m.pos + m.span
  {
    var all := ms + [m];
    assert all[|ms|] == m && m in all;
    forall x <- ms ensures x in all {
    }
  }

  /** Explode, uniq and fold: the result is canonical and covers exactly what the marks mean. */
  method ExplodeAndFold(marks: seq<Mark>, hits: seq<seq<int>>) returns (r: seq<Mark>)
    requires forall m <- marks :: m.span >= 0
    requires forall h <- hits :: Sorted(h)
    ensures Canonical(r)
    ensures forall p :: Covered(r, p) <==> AnyMeant(marks, hits, p)
  {
    var exploded := Explode(marks, hits);
    var uniq := UniqSingles(exploded);
    r := Fold(uniq);
    forall p ensures Mark(p, 1) in exploded <==> AnyMeant(exploded, hits, p) {
      if Mark(p, 1) in exploded {
        assert Meant(Mark(p, 1), hits, p);
      }
      if AnyMeant(exploded, hits, p) {
        var m :| m in exploded && Meant(m, hits, p);
        assert m == Mark(p, 1);
      }
    }
  }

  /** There is only one canonical list of spans with a given cover, so the result does
      not depend on the order or the overlaps of the marks. */
  lemma {:induction false} CanonicalIsUnique(a: seq<Mark>, b: seq<Mark>)
    requires Canonical(a) && Canonical(b)
    requires forall p :: Covered(a, p) <==> Covered(b, p)
    ensures a == b
    decreases |a| + |b|
  {
    if a == [] && b == [] {
      return;
    }
    hide Covered, Canonical;
    FirstMark(a, b);
    CanonicalTail(a);
    CanonicalTail(b);
    forall p ensures Covered(a[1..], p) <==> Covered(b[1..], p) {
      TailCover(a, p);
      TailCover(b, p);
    }
    CanonicalIsUnique(a[1..], b[1..]);
    assert a == [a[0]] + a[1..] && b == [b[0]] + b[1..];
  }

  /** The least covered position and the first gap after it fix the first span. */
  lemma FirstMark(a: seq<Mark>, b: seq<Mark>)
    requires Canonical(a) && Canonical(b) && (a != [] || b != [])
    requires forall p :: Covered(a, p) <==> Covered(b, p)
    ensures a != [] && b != [] && a[0] == b[0]
  {
    BothNonEmpty(a, b);
    FirstCovered(a);
    FirstCovered(b);
    GapAfterFirst(a);
    GapAfterFirst(b);
    hide Covered, Canonical;
    assert Covered(b, a[0].pos) && Covered(a, b[0].pos);
    assert !Covered(b, a[0].pos + a[0].span) && !Covered(a, b[0].pos + b[0].span);
  }

  lemma BothNonEmpty(a: seq<Mark>, b: seq<Mark>)
    requires Canonical(a) && Canonical(b) && (a != [] || b != [])
    requires forall p :: Covered(a, p) <==> Covered(b, p)
    ensures a != [] && b != []
  {
    FirstCovered(a);
    FirstCovered(b);
  }

  lemma FirstCovered(a: seq<Mark>)
    requires Canonical(a)
    ensures a != [] ==> forall p :: a[0].pos <= p < a[0].pos + a[0].span ==> Covered(a, p)
    ensures a != [] ==> forall p :: Covered(a, p) ==> a[0].pos <= p
    ensures a != [] ==> Covered(a, a[0].pos)
  {
    if a != [] {
      assert a[0] in a;
    }
  }

  lemma GapAfterFirst(a: seq<Mark>)
    requires Canonical(a) && a != []
    ensures !Covered(a, a[0].pos + a[0].span)
  {
  }

  lemma CanonicalTail(a: seq<Mark>)
    requires Canonical(a) && a != []
    ensures Canonical(a[1..])
  {
  }

  lemma TailCover(a: seq<Mark>, p: int)
    requires Canonical(a) && a != []
    ensures Covered(a[1..], p) <==> Covered(a, p) && !(a[0].pos <= p < a[0].pos + a[0].span)
  {
    assert a == [a[0]] + a[1..];
    forall m <- a[1..] ensures m in a && a[0].pos + a[0].span < m.pos {
      var k :| 0 <= k < |a[1..]| && a[1..][k] == m;
      assert a[k + 1] == m;
    }
  }
}
