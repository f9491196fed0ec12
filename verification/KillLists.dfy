/** Kill-list optimisation of a real-time index (DoKlistsOptimization of
    src/indextool.cpp). Files are sequences: a chunk is its kill list and the document
    ids of its attribute rows. */
module KillLists {
  import opened Integers
  import opened Vectors

  /** Document ids are unsigned. A kill list is read into signed attribute values; ToSigned and ToUnsigned
      are the two readings of the same eight bytes. */
  datatype Chunk = Chunk(kills: seq<int>, docs: seq<int>)

  /** Ids are unique within a file, and no document has id zero. */
  ghost predicate WellFormed(chunks: seq<Chunk>) {
    forall c <- chunks ::
      && Distinct(c.kills) && Distinct(c.docs)
      && (forall id <- c.kills :: 0 <= id < U64) && forall id <- c.docs :: 0 < id < U64
  }

  /** Some chunk before k holds the document, and no chunk in between kills it. */
  ghost predicate LiveBefore(chunks: seq<Chunk>, k: nat, id: int)
    requires k <= |chunks|
  {
    exists j :: 0 <= j < k && Survives(chunks, j, k, id)
  }

  ghost predicate Survives(chunks: seq<Chunk>, j: nat, k: nat, id: int)
    requires j < k <= |chunks|
  {
    id in chunks[j].docs && forall i :: j < i < k ==> id !in chunks[i].kills
  }

  /** The kills of a chunk that hit live documents are all below 2^63, or all not. */
  ghost predicate OneSided(chunks: seq<Chunk>, k: nat)
    requires k < |chunks|
  {
    forall x, y | x in chunks[k].kills && y in chunks[k].kills
                  && LiveBefore(chunks, k, x) && LiveBefore(chunks, k, y) ::
      x < I64 <==> y < I64
  }

  /** Each rewritten list is sorted and keeps exactly the ids that kill a live document. */
  ghost predicate Rewritten(chunks: seq<Chunk>, out: seq<seq<int>>) {
    && |out| == |chunks|
    && forall k :: 0 <= k < |out| ==> RewrittenAt(chunks, k, out[k])
  }

  ghost predicate RewrittenAt(chunks: seq<Chunk>, k: nat, list: seq<int>)
    requires k < |chunks|
  {
    && Ascending(list)
    && forall id :: id in list <==> id in chunks[k].kills && LiveBefore(chunks, k, id)
  }

  // ---------- the steps ----------

  /** Step 1: drop the kills that are not live. */
  method FilterKills(kills: seq<int>, live: seq<int>) returns (r: seq<int>)
    requires Distinct(kills) && Sorted(live)
    ensures Distinct(r) && forall v :: v in r <==> v in kills && ToUnsigned(v) in live
  {
    r := kills;
    var i := 0;
    while i < |r|
      invariant 0 <= i <= |r| && Distinct(r)
      invariant forall v <- r :: v in kills
      invariant forall v <- kills :: ToUnsigned(v) in live ==> v in r
      invariant forall k :: 0 <= k < i ==> ToUnsigned(r[k]) in live
      decreases |r| - i
    {
      assert live[0..|live|] == live;
      var at := BinarySearch(live, 0, |live| - 1, ToUnsigned(r[i]));
      if at == -1 {
        RemoveFastElements(r, i);
        r := RemoveFast(r, i);
      } else {
        i := i + 1;
      }
    }
  }

  /** The ids of some signed values. */
  function Ids(vs: seq<int>): (ids: seq<int>)
    ensures |ids| == |vs| && forall k :: 0 <= k < |vs| ==> ids[k] == ToUnsigned(vs[k])
  {
    seq(|vs|, k requires 0 <= k < |vs| => ToUnsigned(vs[k]))
  }

  ghost predicate InRange(vs: seq<int>) {
    forall v <- vs :: -I64 <= v < I64
  }

  /** All values negative, or none. */
  ghost predicate OneSign(vs: seq<int>) {
    forall i, j :: 0 <= i < j < |vs| ==> (vs[i] < 0 <==> vs[j] < 0)
  }

  /** Values of one sign have the order of their ids. */
  lemma SameOrder(vs: seq<int>)
    requires Ascending(vs) && InRange(vs) && OneSign(vs)
    ensures Ascending(Ids(vs))
  {
    hide ToUnsigned;
    assert forall k :: 0 <= k < |vs| ==> vs[k] in vs;
  }

  ghost predicate KillsLive(klist: seq<int>, live: seq<int>) {
    forall v <- klist :: ToUnsigned(v) in live
  }

  /** Searches the live ids from the first one after the last kill. */
  method FindKill(live: seq<int>, klist: seq<int>, r: seq<int>, i: nat, first: nat) returns (at: int)
    requires Ascending(live) && Ascending(klist) && InRange(klist) && KillsLive(klist, live)
    requires i < |klist| && first <= |live| == |r| && r[first..] == live[first..] && OneSign(klist[..i])
    requires if i == 0 then first == 0 else first > 0 && live[first - 1] == ToUnsigned(klist[i - 1])
    ensures at == -1 ==> !OneSign(klist)
    ensures at != -1 ==> first <= at < |live| && live[at] == ToUnsigned(klist[i]) && OneSign(klist[..i + 1])
  {
    hide OneSign, InRange, ToUnsigned, KillsLive;
    assert r[first..|r|] == live[first..];
    at := BinarySearch(r, first, |r| - 1, ToUnsigned(klist[i]));
    NextKill(live, klist, i, first, at);
    assert at != -1 ==> r[at] == r[first..][at - first] == live[at];
  }

  /** Step 2: zero the killed ids; the search starts after the last one killed. It finds every kill just when
      the kills, sorted as signed values, do not pass from negative ones to others: those are the smaller ids. */
  method ZeroKilled(live: seq<int>, klist: seq<int>) returns (ok: bool, r: seq<int>)
    requires Ascending(live) && Ascending(klist) && InRange(klist) && KillsLive(klist, live)
    ensures ok <==> OneSign(klist)
    ensures ok ==> |r| == |live| && forall k :: 0 <= k < |r| ==> r[k] == if live[k] in Ids(klist) then 0 else live[k]
  {
    hide OneSign, InRange, Ids, ToUnsigned, ZeroedUpTo, Ascending, KillsLive;
    r := live;
    var first := 0;
    ghost var ids := Ids(klist);
    SignStart(klist);
    NoneZeroed(live, ids);
    for i := 0 to |klist|
      invariant 0 <= first <= |live| == |r| && r[first..] == live[first..]
      invariant if i == 0 then first == 0 else first > 0 && live[first - 1] == ids[i - 1]
      invariant OneSign(klist[..i])
      invariant OneSign(klist) ==> ZeroedUpTo(live, ids, r, first)
    {
      var at := FindKill(live, klist, r, i, first);
      if at == -1 {
        return false, r;
      }
      if OneSign(klist) {
        SameOrder(klist);
        NoKillBetween(live, ids, i, first, at);
        ZeroOne(live, ids, r, first, at);
      }
      first := at + 1;
      r := r[at := 0];
    }
    assert klist[..|klist|] == klist;
    SameOrder(klist);
    NoKillBetween(live, ids, |klist|, first, |live|);
    AllZeroed(live, ids, r, first);
    ok := true;
  }

  lemma SignStart(klist: seq<int>)
    ensures OneSign(klist[..0])
  {
  }

  /** After one kill, the next is found past it iff it has the same sign. */
  lemma NextKill(live: seq<int>, klist: seq<int>, i: nat, first: nat, at: int)
    requires Ascending(live) && Ascending(klist) && InRange(klist) && KillsLive(klist, live)
    requires i < |klist| && first <= |live| && OneSign(klist[..i])
    requires if i == 0 then first == 0 else first > 0 && live[first - 1] == ToUnsigned(klist[i - 1])
    requires at == -1 <==> ToUnsigned(klist[i]) !in live[first..]
    ensures at == -1 ==> !OneSign(klist)
    ensures at != -1 ==> OneSign(klist[..i + 1])
  {
    hide ToUnsigned;
    assert klist[i] in klist;
    var p :| 0 <= p < |live| && live[p] == ToUnsigned(klist[i]);
    if i > 0 {
      assert klist[i - 1] in klist && klist[i - 1] < klist[i];
    }
    if i > 0 && klist[i - 1] < 0 <= klist[i] {
      assert live[p] < live[first - 1];
      assert klist[i - 1] < 0 <= klist[i];
    } else {
      assert i > 0 ==> live[first - 1] < live[p];
      assert live[first..][p - first] == live[p];
      OneSignSnoc(klist, i);
    }
  }

  lemma OneSignSnoc(vs: seq<int>, i: nat)
    requires i < |vs| && OneSign(vs[..i]) && (i > 0 ==> (vs[i - 1] < 0 <==> vs[i] < 0))
    ensures OneSign(vs[..i + 1])
  {
    var was, now := vs[..i], vs[..i + 1];
    assert forall k :: 0 <= k < i ==> now[k] == was[k];
    assert now[i] == vs[i] && (i > 0 ==> was[i - 1] == vs[i - 1]);
  }

  lemma NoKillBetween(live: seq<int>, klist: seq<int>, i: nat, first: nat, at: nat)
    requires Ascending(live) && Ascending(klist) && i <= |klist| && first <= at <= |live|
    requires i == 0 || (first > 0 && live[first - 1] == klist[i - 1])
    requires i < |klist| ==> at < |live| && live[at] == klist[i]
    ensures forall k :: first <= k < at ==> live[k] !in klist
    ensures i == |klist| ==> forall k :: first <= k < |live| ==> live[k] !in klist
  {
    forall k | first <= k < if i == |klist| then |live| else at
      ensures live[k] !in klist
    {
      BetweenNeighbours(live, klist, i, k);
    }
  }

  ghost predicate ZeroedUpTo(live: seq<int>, klist: seq<int>, r: seq<int>, first: nat) {
    && |r| == |live|
    && forall k :: 0 <= k < |r| ==> r[k] == if k < first && live[k] in klist then 0 else live[k]
  }

  lemma NoneZeroed(live: seq<int>, ids: seq<int>)
    ensures ZeroedUpTo(live, ids, live, 0)
  {
  }

  lemma ZeroOne(live: seq<int>, ids: seq<int>, r: seq<int>, first: nat, at: nat)
    requires ZeroedUpTo(live, ids, r, first) && first <= at < |live| && live[at] in ids
    requires forall k :: first <= k < at ==> live[k] !in ids
    ensures ZeroedUpTo(live, ids, r[at := 0], at + 1)
  {
  }

  lemma AllZeroed(live: seq<int>, ids: seq<int>, r: seq<int>, first: nat)
    requires ZeroedUpTo(live, ids, r, first) && forall k :: first <= k < |live| ==> live[k] !in ids
    ensures |r| == |live| && forall k :: 0 <= k < |r| ==> r[k] == if live[k] in ids then 0 else live[k]
  {
  }

  /** An id after the last kill and before the next one is on no kill list. */
  lemma BetweenNeighbours(live: seq<int>, klist: seq<int>, i: nat, k: nat)
    requires Ascending(live) && Ascending(klist) && i <= |klist| && k < |live|
    requires i > 0 ==> klist[i - 1] < live[k]
    requires i < |klist| ==> live[k] < klist[i]
    ensures live[k] !in klist
  {
  }

  /** Removes the zeroed ids, swapping in the tail. */
  method DropZeros(ids: seq<int>) returns (r: seq<int>)
    ensures forall id :: id in r <==> id in ids && id != 0
    ensures (forall i, j :: 0 <= i < j < |ids| && ids[i] == ids[j] ==> ids[i] == 0) ==> Distinct(r)
  {
    r := ids;
    var i := 0;
    while i < |r|
      invariant 0 <= i <= |r|
      invariant forall id <- r :: id in ids
      invariant forall id <- ids :: id != 0 ==> id in r
      invariant forall k :: 0 <= k < i ==> r[k] != 0
      invariant (forall a, b :: 0 <= a < b < |ids| && ids[a] == ids[b] ==> ids[a] == 0) ==>
                  forall a, b :: 0 <= a < b < |r| && r[a] == r[b] ==> r[a] == 0
      decreases |r| - i
    {
      if r[i] == 0 {
        RemoveFastElements(r, i);
        r := RemoveFast(r, i);
      } else {
        i := i + 1;
      }
    }
  }

  /** Step 4: the rows of this chunk join the live ids. */
  method MergeRows(live: seq<int>, docs: seq<int>) returns (r: seq<int>)
    requires Ascending(live) && Distinct(docs)
    ensures Ascending(r) && forall id :: id in r <==> id in live || id in docs
  {
    r := live;
    var wasLive := if |live| - 1 > 0 then |live| - 1 else 0;
    for i := 0 to |docs|
      invariant |r| >= |live| && r[..|live|] == live && Distinct(r)
      invariant forall id :: id in r <==> id in live || id in docs[..i]
    {
      var at := -1;
      if |r| > 0 {
        assert live != [] ==> r[0..wasLive + 1] == live;
        at := BinarySearch(r, 0, wasLive, docs[i]);
      }
      assert docs[..i + 1] == docs[..i] + [docs[i]];
      assert docs[i] !in docs[..i];
      if at == -1 {
        assert docs[i] !in r;
        r := r + [docs[i]];
      }
    }
    assert docs[..|docs|] == docs;
    r := Sort(r);
  }

  /** Steps 1 and 2 on one chunk: its new kill list, and what it leaves alive; or that a kill was not found. */
  method ApplyKills(kills: seq<int>, live: seq<int>) returns (ok: bool, klist: seq<int>, left: seq<int>)
    requires Distinct(kills) && (forall id <- kills :: 0 <= id < U64) && Ascending(live)
    requires forall id <- live :: 0 < id < U64
    ensures ok <==> forall x, y | x in kills && y in kills && x in live && y in live :: x < I64 <==> y < I64
    ensures ok ==> Ascending(klist) && forall id :: id in klist <==> id in kills && id in live
    ensures ok ==> Ascending(left) && forall id :: id in left <==> id in live && id !in kills
  {
    ok, klist, left := true, [], live;
    if |live| > 0 {
      var signed := Signeds(kills);
      SignedDistinct(kills);
      signed := FilterKills(signed, live);
      signed := Sort(signed);
      SignedIds(kills, live, signed);
      ok, left := ZeroKilled(live, signed);
      klist := Ids(signed);
      if !ok {
        return;
      }
      SameOrder(signed);
      ghost var zeroed := left;
      assert forall id :: id in zeroed && id != 0 <==> id in live && id !in kills by {
        forall id | id in live && id !in kills ensures id in zeroed {
          var k :| 0 <= k < |live| && live[k] == id;
          assert zeroed[k] == id;
        }
      }
      if |klist| > 0 {
        left := DropZeros(left);
      } else {
        assert left == live;
      }
      left := Sort(left);
    }
  }

  /** A kill list as it is read. */
  function Signeds(ids: seq<int>): (vs: seq<int>)
    ensures |vs| == |ids| && forall k :: 0 <= k < |ids| ==> vs[k] == ToSigned(ids[k])
  {
    seq(|ids|, k requires 0 <= k < |ids| => ToSigned(ids[k]))
  }

  lemma SignedDistinct(ids: seq<int>)
    requires Distinct(ids) && forall id <- ids :: 0 <= id < U64
    ensures Distinct(Signeds(ids))
  {
    assert forall k :: 0 <= k < |ids| ==> ids[k] in ids;
  }

  /** A value kept is the value of a live kill. */
  ghost predicate KeptIs(kills: seq<int>, live: seq<int>, kept: seq<int>) {
    forall v :: v in kept <==> v in Signeds(kills) && ToUnsigned(v) in live
  }

  lemma KeptAt(kills: seq<int>, live: seq<int>, kept: seq<int>, v: int)
    requires (forall id <- kills :: 0 <= id < U64) && KeptIs(kills, live, kept) && v in kept
    ensures -I64 <= v < I64 && ToUnsigned(v) in kills && ToUnsigned(v) in live && ToUnsigned(v) in Ids(kept)
  {
    var k :| 0 <= k < |kills| && Signeds(kills)[k] == v;
    assert kills[k] in kills;
    var j :| 0 <= j < |kept| && kept[j] == v;
    assert Ids(kept)[j] == ToUnsigned(v);
  }

  lemma KillKept(kills: seq<int>, live: seq<int>, kept: seq<int>, id: int)
    requires (forall id <- kills :: 0 <= id < U64) && KeptIs(kills, live, kept) && id in kills && id in live
    ensures ToSigned(id) in kept && ToUnsigned(ToSigned(id)) == id
  {
    var k :| 0 <= k < |kills| && kills[k] == id;
    assert Signeds(kills)[k] == ToSigned(id);
  }

  /** The kept kills, as values and as ids. */
  lemma SignedIds(kills: seq<int>, live: seq<int>, kept: seq<int>)
    requires (forall id <- kills :: 0 <= id < U64) && KeptIs(kills, live, kept)
    ensures InRange(kept) && forall id :: id in Ids(kept) <==> id in kills && id in live
    ensures OneSign(kept) <==> forall x, y | x in kills && y in kills && x in live && y in live :: x < I64 <==> y < I64
  {
    hide KeptIs, ToSigned, ToUnsigned;
    forall v <- kept ensures -I64 <= v < I64 {
      KeptAt(kills, live, kept, v);
    }
    forall id ensures id in Ids(kept) <==> id in kills && id in live {
      if id in Ids(kept) {
        var k :| 0 <= k < |kept| && Ids(kept)[k] == id;
        KeptAt(kills, live, kept, kept[k]);
      }
      if id in kills && id in live {
        KillKept(kills, live, kept, id);
        KeptAt(kills, live, kept, ToSigned(id));
      }
    }
    if OneSign(kept) {
      forall x, y | x in kills && y in kills && x in live && y in live ensures x < I64 <==> y < I64 {
        KillKept(kills, live, kept, x);
        KillKept(kills, live, kept, y);
      }
    } else {
      var i, j :| 0 <= i < j < |kept| && (kept[i] < 0) != (kept[j] < 0);
      KeptAt(kills, live, kept, kept[i]);
      KeptAt(kills, live, kept, kept[j]);
    }
  }

  /** The whole pass over the chunks, up to the first whose kills are not all found. It gets through, and
      rewrites every list, iff no chunk's kills of live documents lie on both sides of 2^63. */
  method OptimizeKlists(chunks: seq<Chunk>) returns (ok: bool, out: seq<seq<int>>)
    requires WellFormed(chunks)
    ensures ok <==> forall k :: 0 <= k < |chunks| ==> OneSided(chunks, k)
    ensures ok ==> Rewritten(chunks, out)
    ensures !ok ==> |out| < |chunks| && !OneSided(chunks, |out|)
    ensures forall k :: 0 <= k < |out| ==> RewrittenAt(chunks, k, out[k])
  {
    var live: seq<int> := [];
    out := [];
    for c := 0 to |chunks|
      invariant |out| == c && forall k :: 0 <= k < c ==> RewrittenAt(chunks, k, out[k]) && OneSided(chunks, k)
      invariant Ascending(live) && forall id <- live :: 0 < id < U64
      invariant c < |chunks| ==> forall id :: id in live <==> LiveBefore(chunks, c, id)
    {
      assert chunks[c] in chunks;
      var klist, left;
      ok, klist, left := ApplyKills(chunks[c].kills, live);
      assert ok <==> OneSided(chunks, c);
      if !ok {
        return;
      }
      out := out + [klist];
      forall id ensures (id in left || id in chunks[c].docs) <==> LiveBefore(chunks, c + 1, id) {
        LiveStep(chunks, c, id);
      }
      live := left;
      if c != |chunks| - 1 {
        live := MergeRows(live, chunks[c].docs);
      }
    }
    ok := true;
  }

  /** Two documents on either side of 2^63, both killed by the next chunk: the pass does not get through. */
  lemma KillsOnBothSides()
    ensures
      var chunks := [Chunk([], [1, I64]), Chunk([1, I64], [])];
      WellFormed(chunks) && OneSided(chunks, 0) && !OneSided(chunks, 1)
  {
    var chunks := [Chunk([], [1, I64]), Chunk([1, I64], [])];
    assert Survives(chunks, 0, 1, 1) && Survives(chunks, 0, 1, I64);
    assert 1 in chunks[1].kills && I64 in chunks[1].kills;
  }

  lemma LiveStep(chunks: seq<Chunk>, c: nat, id: int)
    requires c < |chunks|
    ensures LiveBefore(chunks, c + 1, id)
       <==> id in chunks[c].docs || (LiveBefore(chunks, c, id) && id !in chunks[c].kills)
  {
    if LiveBefore(chunks, c + 1, id) {
      var j :| 0 <= j < c + 1 && Survives(chunks, j, c + 1, id);
      assert j < c ==> Survives(chunks, j, c, id);
    }
    if id in chunks[c].docs {
      assert Survives(chunks, c, c + 1, id);
    } else if LiveBefore(chunks, c, id) && id !in chunks[c].kills {
      var j :| 0 <= j < c && Survives(chunks, j, c, id);
      assert Survives(chunks, j, c + 1, id);
    }
  }

  // ---------- what the rewriting means ----------

  /** Some list after chunk j and before m kills the id. */
  ghost predicate KilledWithin(lists: seq<seq<int>>, j: nat, m: nat, id: int)
    requires m <= |lists|
  {
    exists k :: j < k < m && id in lists[k]
  }

  ghost function KillsOf(chunks: seq<Chunk>): (ls: seq<seq<int>>)
    ensures |ls| == |chunks| && forall k :: 0 <= k < |ls| ==> ls[k] == chunks[k].kills
  {
    seq(|chunks|, k requires 0 <= k < |chunks| => chunks[k].kills)
  }

  /** After any number m of chunks, the rewritten lists hide exactly the documents the
      original lists hide. */
  lemma SameVisibility(chunks: seq<Chunk>, out: seq<seq<int>>, j: nat, m: nat, id: int)
    requires Rewritten(chunks, out) && j < m <= |chunks| && id in chunks[j].docs
    ensures KilledWithin(KillsOf(chunks), j, m, id) <==> KilledWithin(out, j, m, id)
  {
    if KilledWithin(out, j, m, id) {
      var k :| j < k < m && id in out[k];
      assert RewrittenAt(chunks, k, out[k]);
      assert id in KillsOf(chunks)[k];
    }
    if KilledWithin(KillsOf(chunks), j, m, id) {
      var k := FirstKill(KillsOf(chunks), j, m, id);
      assert Survives(chunks, j, k, id);
      assert RewrittenAt(chunks, k, out[k]);
    }
  }

  lemma {:induction false} FirstKill(lists: seq<seq<int>>, j: nat, m: nat, id: int) returns (k: nat)
    requires m <= |lists| && KilledWithin(lists, j, m, id)
    ensures j < k < m && id in lists[k]
    ensures forall i :: j < i < k ==> id !in lists[i]
    decreases m
  {
    if KilledWithin(lists, j, m - 1, id) {
      k := FirstKill(lists, j, m - 1, id);
    } else {
      k := m - 1;
    }
  }

  /** The first list to kill a document is the same one before and after. */
  lemma SameFirstKill(chunks: seq<Chunk>, out: seq<seq<int>>, j: nat, k: nat, id: int)
    requires Rewritten(chunks, out) && j < k < |chunks| && id in chunks[j].docs
    requires !KilledWithin(KillsOf(chunks), j, k, id)
    ensures id in chunks[k].kills <==> id in out[k]
  {
    forall i | j < i < k ensures id !in chunks[i].kills {
      assert KillsOf(chunks)[i] == chunks[i].kills;
    }
    assert Survives(chunks, j, k, id);
    assert RewrittenAt(chunks, k, out[k]);
  }

  /** A second pass over rewritten lists finds nothing left to drop. */
  lemma SecondPassChangesNothing(chunks: seq<Chunk>, out: seq<seq<int>>, chunks': seq<Chunk>, out': seq<seq<int>>)
    requires Rewritten(chunks, out) && |chunks'| == |chunks|
    requires forall k :: 0 <= k < |chunks| ==> chunks'[k] == Chunk(out[k], chunks[k].docs)
    requires Rewritten(chunks', out')
    ensures out' == out
  {
    forall k | 0 <= k < |out| ensures out'[k] == out[k] {
      assert RewrittenAt(chunks, k, out[k]) && RewrittenAt(chunks', k, out'[k]);
      forall id ensures LiveBefore(chunks, k, id) <==> LiveBefore(chunks', k, id) {
        SameLive(chunks, out, chunks', k, id);
      }
      SameElements(out'[k], out[k]);
    }
  }

  /** And it gets through if the first did. */
  lemma SecondPassGetsThrough(chunks: seq<Chunk>, out: seq<seq<int>>, chunks': seq<Chunk>, k: nat)
    requires Rewritten(chunks, out) && |chunks'| == |chunks| && k < |chunks| && OneSided(chunks, k)
    requires chunks'[k] == Chunk(out[k], chunks[k].docs)
    ensures OneSided(chunks', k)
  {
    assert RewrittenAt(chunks, k, out[k]);
  }

  lemma SameLive(chunks: seq<Chunk>, out: seq<seq<int>>, chunks': seq<Chunk>, k: nat, id: int)
    requires Rewritten(chunks, out) && |chunks'| == |chunks| && k <= |chunks|
    requires forall k :: 0 <= k < |chunks| ==> chunks'[k] == Chunk(out[k], chunks[k].docs)
    ensures LiveBefore(chunks, k, id) <==> LiveBefore(chunks', k, id)
  {
    assert KillsOf(chunks') == out;
    forall j | 0 <= j < k ensures Survives(chunks, j, k, id) <==> Survives(chunks', j, k, id) {
      if id in chunks[j].docs {
        SameVisibility(chunks, out, j, k, id);
        assert Survives(chunks, j, k, id) <==> !KilledWithin(KillsOf(chunks), j, k, id);
        assert Survives(chunks', j, k, id) <==> !KilledWithin(out, j, k, id);
      }
    }
  }

  lemma {:induction false} SameElements(a: seq<int>, b: seq<int>)
    requires Ascending(a) && Ascending(b) && forall id :: id in a <==> id in b
    ensures a == b
    decreases |a|
  {
    assert a != [] ==> a[|a| - 1] in a;
    assert b != [] ==> b[|b| - 1] in b;
    if a == [] || b == [] {
      return;
    }
    var x := a[|a| - 1];
    assert x in b && b[|b| - 1] in a;
    var a', b' := a[..|a| - 1], b[..|b| - 1];
    forall id ensures id in a' <==> id in b' {
      if id in a' { assert id in a && id in b && id != x; }
      if id in b' { assert id in b && id in a && id != x; }
    }
    SameElements(a', b');
    assert a == a' + [x] && b == b' + [x];
  }
}
