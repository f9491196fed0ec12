/** EmitPassagesOrdered of src/sphinxexcerpt.cpp: the highlighted passages, cut out of
    one text at their heads, are emitted by weight with separators around them. */
module PassageEmission {
  import opened Vectors
  import opened Passages

  type Bytes = seq<int>

  /** Where passage i ends in the text. */
  function EndOf(text: Bytes, heads: seq<int>, i: nat): int
    requires i < |heads|
  {
    if i == |heads| - 1 then |text| else heads[i + 1]
  }

  /** Heads are in text order. */
  ghost predicate GoodHeads(text: Bytes, heads: seq<int>) {
    && (forall i :: 0 <= i < |heads| ==> 0 <= heads[i] <= |text|)
    && forall i :: 0 <= i < |heads| ==> heads[i] <= EndOf(text, heads, i) <= |text|
  }

  function Slice(text: Bytes, heads: seq<int>, i: nat): Bytes
    requires GoodHeads(text, heads) && i < |heads|
  {
    text[heads[i]..EndOf(text, heads, i)]
  }

  /** Separator, then each passage in the given order followed by a separator. */
  ghost function Emitted(text: Bytes, heads: seq<int>, sep: Bytes, order: seq<nat>): Bytes
    requires GoodHeads(text, heads) && Indexes(order, |heads|)
  {
    if order == [] then sep
    else Emitted(text, heads, sep, order[..|order| - 1]) + Slice(text, heads, order[|order| - 1]) + sep
  }

  lemma EmittedSnoc(text: Bytes, heads: seq<int>, sep: Bytes, order: seq<nat>, i: nat)
    requires GoodHeads(text, heads) && Indexes(order, |heads|) && i < |heads|
    ensures Indexes(order + [i], |heads|)
    ensures Emitted(text, heads, sep, order + [i]) == Emitted(text, heads, sep, order) + Slice(text, heads, i) + sep
  {
    assert (order + [i])[..|order|] == order;
  }

  /** A separator alone; one more passage at the end adds its text and a separator; one more at the front adds a
      separator and its text. */
  lemma {:induction false} EmittedFront(text: Bytes, heads: seq<int>, sep: Bytes, i: nat, order: seq<nat>)
    requires GoodHeads(text, heads) && Indexes(order, |heads|) && i < |heads|
    ensures Indexes([i] + order, |heads|) && Emitted(text, heads, sep, []) == sep
    ensures Emitted(text, heads, sep, [i] + order)
         == sep + text[heads[i]..EndOf(text, heads, i)] + Emitted(text, heads, sep, order)
  {
    hide GoodHeads;
    var all := [i] + order;
    if order == [] {
      EmittedSnoc(text, heads, sep, [], i);
      assert all == [] + [i];
    } else {
      var k := |order| - 1;
      assert all == ([i] + order[..k]) + [order[k]] && order == order[..k] + [order[k]];
      EmittedFront(text, heads, sep, i, order[..k]);
      EmittedSnoc(text, heads, sep, [i] + order[..k], order[k]);
      EmittedSnoc(text, heads, sep, order[..k], order[k]);
    }
  }

  /** The emission order: every passage once, by falling weight, later passages first
      among equals. */
  ghost predicate ByWeight(ps: seq<Passage>, order: seq<nat>) {
    && Indexes(order, |ps|) && Distinct(order)
    && forall a, b :: 0 <= a < b < |order| ==> Before(ps, order[a], order[b])
  }

  ghost predicate Before(ps: seq<Passage>, i: nat, j: nat)
    requires i < |ps| && j < |ps|
  {
    ps[i].GetWeight() > ps[j].GetWeight() || (ps[i].GetWeight() == ps[j].GetWeight() && i > j)
  }

  /** The mark put on an emitted passage gives it weight -1. */
  function Used(p: Passage): (r: Passage)
    ensures r.GetWeight() == -1
  {
    p.(qwordCount := 0, uniqQwords := 0, qwordsWeight := 0, minGap := -1)
  }

  /** The passages already emitted are marked, the others are as they came. */
  ghost predicate Marked(orig: seq<Passage>, now: seq<Passage>, order: seq<nat>) {
    && |now| == |orig|
    && forall i: nat :: i < |orig| ==> now[i] == if i in order then Used(orig[i]) else orig[i]
  }

  /** Some passage is left as long as fewer have been emitted than there are. */
  lemma {:induction false} SomeLeft(n: nat, order: seq<nat>) returns (i: nat)
    requires Indexes(order, n) && Distinct(order) && |order| < n
    ensures i < n && i !in order
    decreases n
  {
    if n - 1 in order {
      var k :| 0 <= k < |order| && order[k] == n - 1;
      var rest := RemoveFast(order, k);
      RemoveFastElements(order, k);
      i := SomeLeft(n - 1, rest);
      assert i != order[k];
    } else {
      i := n - 1;
    }
  }

  /** No more different passages than there are. */
  lemma {:induction false} AtMost(n: nat, order: seq<nat>)
    requires Indexes(order, n) && Distinct(order)
    ensures |order| <= n
  {
    if order == [] {
      return;
    }
    assert order[0] < n;
    if n - 1 in order {
      var k :| 0 <= k < |order| && order[k] == n - 1;
      RemoveFastElements(order, k);
      AtMost(n - 1, RemoveFast(order, k));
    } else {
      AtMost(n - 1, order);
    }
  }

  /** So if they are as many, they are all. */
  lemma AllIn(n: nat, order: seq<nat>, i: nat)
    requires Indexes(order, n) && Distinct(order) && |order| == n && i < n
    ensures i in order
  {
    if i !in order {
      AtMost(n, order + [i]);
    }
  }

  /** The passages by weight. The code gets through iff there is a head for each of them; with fewer it comes to a
      passage without one. */
  method EmitPassagesOrdered(text: Bytes, heads: seq<int>, passages: seq<Passage>, sep: Bytes)
    returns (ok: bool, result: Bytes, ghost order: seq<nat>)
    requires GoodHeads(text, heads)
    requires forall i :: 0 <= i < |passages| ==> passages[i].GetWeight() >= 0
    ensures ok <==> |passages| <= |heads|
    ensures ok ==> |order| == |passages| && ByWeight(passages, order) && result == Emitted(text, heads, sep, order)
    ensures ok ==> exists o :: |o| == |passages| && ByWeight(passages, o) && result == Emitted(text, heads, sep, o)
  {
    hide Passage.GetWeight, ByWeight, Marked, Leads, Emitted;
    Nothing(passages, text, heads, sep);
    var ps := passages;
    result := sep;
    order := [];
    for n := 0 to |ps|
      invariant |order| == n && |ps| == |passages| && Indexes(order, |ps|) && Indexes(order, |heads|)
      invariant ByWeight(passages, order) && Marked(passages, ps, order) && Leads(passages, order)
      invariant result == Emitted(text, heads, sep, order)
    {
      var best := BestOf(ps);
      PickNext(passages, ps, order, best);
      ps := ps[best := Used(ps[best])];
      if best >= |heads| {
        return false, result, order;
      }
      var end := if best == |heads| - 1 then |text| else heads[best + 1];
      result := result + text[heads[best]..end] + sep;
      EmittedSnoc(text, heads, sep, order, best);
      order := order + [best];
    }
    OrderFits(passages, order, |heads|);
    ok := true;
  }

  lemma OrderFits(ps: seq<Passage>, order: seq<nat>, n: nat)
    requires ByWeight(ps, order) && Indexes(order, n)
    ensures |order| <= n
  {
    AtMost(n, order);
  }

  lemma Nothing(ps: seq<Passage>, text: Bytes, heads: seq<int>, sep: Bytes)
    requires GoodHeads(text, heads)
    ensures Indexes([], |ps|) && ByWeight(ps, []) && Marked(ps, ps, []) && Leads(ps, [])
    ensures Emitted(text, heads, sep, []) == sep
  {
  }

  /** Whatever is not emitted yet comes after whatever is. */
  ghost predicate Leads(ps: seq<Passage>, order: seq<nat>)
    requires Indexes(order, |ps|)
  {
    forall a, j: nat :: 0 <= a < |order| && j < |ps| && j !in order ==> Before(ps, order[a], j)
  }

  /** The best of the working copy is the next in the order. */
  lemma PickNext(orig: seq<Passage>, now: seq<Passage>, order: seq<nat>, best: nat)
    requires ByWeight(orig, order) && Marked(orig, now, order) && Leads(orig, order) && |order| < |orig|
    requires forall i :: 0 <= i < |orig| ==> orig[i].GetWeight() >= 0
    requires best < |now| && forall j :: 0 <= j < |now| && j != best ==> Before(now, best, j)
    ensures best !in order && Indexes(order + [best], |orig|)
    ensures ByWeight(orig, order + [best]) && Leads(orig, order + [best])
    ensures Marked(orig, now[best := Used(now[best])], order + [best])
  {
    hide Passage.GetWeight;
    var left := SomeLeft(|orig|, order);
    Unmarked(orig, now, order, best, left);
    forall j: nat | j < |orig| && j !in order && j != best ensures Before(orig, best, j) {
      assert Before(now, best, j) && now[j] == orig[j] && now[best] == orig[best];
    }
  }

  /** A marked passage cannot be the best while an unmarked one is left. */
  lemma Unmarked(orig: seq<Passage>, now: seq<Passage>, order: seq<nat>, best: nat, left: nat)
    requires Marked(orig, now, order) && best < |now| && left < |now| && left !in order
    requires best == left || Before(now, best, left)
    requires orig[left].GetWeight() >= 0
    ensures best !in order
  {
    hide Passage.GetWeight;
    assert now[left] == orig[left];
    assert best in order ==> now[best] == Used(orig[best]);
  }

  /** The last passage of the greatest weight. */
  method BestOf(ps: seq<Passage>) returns (best: nat)
    requires ps != []
    ensures best < |ps|
    ensures forall j :: 0 <= j < |ps| && j != best ==> Before(ps, best, j)
  {
    hide Passage.GetWeight;
    var b := -1;
    for i := 0 to |ps|
      invariant -1 <= b < i && (i > 0 ==> b >= 0)
      invariant b >= 0 ==> forall j :: 0 <= j < i && j != b ==> Before(ps, b, j)
    {
      if b == -1 || (i != b && ps[i].GetWeight() >= ps[b].GetWeight()) {
        forall j | 0 <= j < i ensures Before(ps, i, j) {
          assert j == b || Before(ps, b, j);
        }
        b := i;
      }
    }
    best := b;
  }

  /** The slices, one after the other, are the text from the first head on: nothing is
      lost and nothing is shared. */
  lemma {:induction false} SlicesPartition(text: Bytes, heads: seq<int>, i: nat)
    requires GoodHeads(text, heads) && i < |heads|
    ensures SlicesFrom(text, heads, i) == text[heads[i]..]
    decreases |heads| - i
  {
    if i < |heads| - 1 {
      SlicesPartition(text, heads, i + 1);
    }
  }

  ghost function SlicesFrom(text: Bytes, heads: seq<int>, i: nat): Bytes
    requires GoodHeads(text, heads) && i <= |heads|
    decreases |heads| - i
  {
    if i == |heads| then [] else Slice(text, heads, i) + SlicesFrom(text, heads, i + 1)
  }
}
