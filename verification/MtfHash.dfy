/** The move-to-front counting hash of src/indexer.cpp (CSphMTFHash with
    CSphStopwordBuilderDict::GetWordID). */
module MtfHash {

  class Entry {
    const key: string
    const slot: nat
    var next: Entry?
    var value: int

    constructor (key: string, slot: nat, value: int)
      ensures this.key == key && this.slot == slot && this.value == value && next == null
    {
      this.key := key;
      this.slot := slot;
      this.next := null;
      this.value := value;
    }
  }

  /** A list linked from its head to null. */
  ghost predicate Linked(head: Entry?, chain: seq<Entry>)
    reads chain`next
  {
    && head == (if chain == [] then null else chain[0])
    && forall k :: 0 <= k < |chain| ==> LinkedAt(chain, k)
  }

  ghost predicate LinkedAt(chain: seq<Entry>, k: int)
    requires 0 <= k < |chain|
    reads chain`next
  {
    chain[k].next == if k + 1 < |chain| then chain[k + 1] else null
  }

  lemma NextOf(chain: seq<Entry>, k: nat)
    requires k < |chain| && LinkedAt(chain, k)
    ensures chain[k].next == if k + 1 < |chain| then chain[k + 1] else null
  {
  }

  /** Entries of one slot, with different keys that hash to it. */
  ghost predicate Keyed(hash: string -> nat, size: nat, b: nat, chain: seq<Entry>)
    requires size > 0
  {
    && (forall k :: 0 <= k < |chain| ==> chain[k].slot == b && hash(chain[k].key) % size == b)
    && forall i, j :: 0 <= i < j < |chain| ==> chain[i].key != chain[j].key
  }

  /** The entry at position k moves to the front. */
  ghost function ToFront<T>(s: seq<T>, k: nat): (r: seq<T>)
    requires k < |s|
    ensures |r| == |s| && r[0] == s[k]
    ensures forall j :: 1 <= j <= k ==> r[j] == s[j - 1]
    ensures forall j :: k < j < |s| ==> r[j] == s[j]
  {
    [s[k]] + s[..k] + s[k + 1..]
  }

  /** Moving to the front only permutes. */
  lemma ToFrontPermutes<T>(s: seq<T>, k: nat)
    requires k < |s|
    ensures multiset(ToFront(s, k)) == multiset(s)
    ensures forall x :: x in ToFront(s, k) <==> x in s
  {
    assert s == s[..k] + [s[k]] + s[k + 1..];
    assert forall x :: x in ToFront(s, k) <==> x in multiset(ToFront(s, k));
  }

  lemma FrontStays<T>(s: seq<T>)
    requires |s| > 0
    ensures ToFront(s, 0) == s
  {
  }

  lemma ToFrontKeyed(hash: string -> nat, size: nat, b: nat, chain: seq<Entry>, k: nat)
    requires size > 0 && k < |chain| && Keyed(hash, size, b, chain)
    ensures Keyed(hash, size, b, ToFront(chain, k))
  {
    var r := ToFront(chain, k);
    var from := seq(|r|, j => if j == 0 then k else if j <= k then j - 1 else j);
    assert forall j :: 0 <= j < |r| ==> r[j] == chain[from[j]];
  }

  lemma SlotOf(hash: string -> nat, size: nat, b: nat, chain: seq<Entry>, k: nat)
    requires size > 0 && Keyed(hash, size, b, chain) && k < |chain|
    ensures chain[k].slot == b
  {
  }

  lemma KeyedSnoc(hash: string -> nat, size: nat, b: nat, chain: seq<Entry>, entry: Entry)
    requires size > 0 && Keyed(hash, size, b, chain)
    requires entry.slot == b && hash(entry.key) % size == b
    requires forall j :: 0 <= j < |chain| ==> chain[j].key != entry.key
    ensures Keyed(hash, size, b, chain + [entry])
  {
  }

  lemma KeyedDistinct(hash: string -> nat, size: nat, b: nat, chain: seq<Entry>, i: nat, j: nat)
    requires size > 0 && Keyed(hash, size, b, chain) && i < |chain| && j < |chain| && i != j
    ensures chain[i] != chain[j]
  {
    assert chain[i].key != chain[j].key;
  }

  lemma KeyNamesEntry(hash: string -> nat, size: nat, a: nat, chain: seq<Entry>, e: Entry,
                      b: nat, other: seq<Entry>, f: Entry)
    requires size > 0 && Keyed(hash, size, a, chain) && Keyed(hash, size, b, other)
    requires e in chain && f in other && (a == b ==> chain == other) && e != f
    ensures e.key != f.key
  {
  }

  ghost predicate HasEntry(hash: string -> nat, chains: seq<seq<Entry>>, w: string)
    requires |chains| > 0
  {
    exists e <- chains[hash(w) % |chains|] :: e.key == w
  }

  /** What Add does to a chain keeps its entries, and the entry touched is the only other. */
  lemma TouchKeeps(hash: string -> nat, was: seq<seq<Entry>>, now: seq<seq<Entry>>, slot: nat, k: nat, entry: Entry)
    requires slot < |was| && k <= |was[slot]|
    requires k < |was[slot]| ==> entry == was[slot][k] && now == was[slot := ToFront(was[slot], k)]
    requires k == |was[slot]| ==> now == was[slot := was[slot] + [entry]]
    ensures |now| == |was| && entry in now[slot]
    ensures forall b, e | 0 <= b < |now| && e in now[b] && e != entry :: e in was[b]
    ensures forall w | HasEntry(hash, was, w) :: HasEntry(hash, now, w)
  {
    hide ToFront;
    if k < |was[slot]| {
      ToFrontPermutes(was[slot], k);
    }
    forall w | HasEntry(hash, was, w) ensures HasEntry(hash, now, w) {
      var e: Entry :| e in was[hash(w) % |was|] && e.key == w;
      assert e in now[hash(w) % |was|];
    }
  }

  /** Chains of two slots have no entry in common. */
  lemma ChainsApart(hash: string -> nat, size: nat, a: nat, chain: seq<Entry>, b: nat, other: seq<Entry>)
    requires size > 0 && a != b && Keyed(hash, size, a, chain) && Keyed(hash, size, b, other)
    ensures forall j :: 0 <= j < |chain| ==> chain[j] !in other
  {
  }

  /** The entries of the first n slots, in slot order. */
  ghost function Flat(chains: seq<seq<Entry>>, n: nat): (flat: seq<Entry>)
    requires n <= |chains|
  {
    if n == 0 then [] else Flat(chains, n - 1) + chains[n - 1]
  }

  lemma {:induction false} FlatSkip(chains: seq<seq<Entry>>, n: nat, m: nat)
    requires n <= m <= |chains| && forall b :: n <= b < m ==> chains[b] == []
    ensures Flat(chains, m) == Flat(chains, n)
    decreases m
  {
    if n < m {
      FlatSkip(chains, n, m - 1);
    }
  }

  lemma FlatNext(chains: seq<seq<Entry>>, b: nat)
    requires b < |chains|
    ensures Flat(chains, b + 1) == Flat(chains, b) + chains[b]
  {
  }

  /** The entries before position k of slot b. */
  ghost function Passed(chains: seq<seq<Entry>>, b: nat, k: nat): (passed: seq<Entry>)
    requires b <= |chains| && (b == |chains| || k <= |chains[b]|)
  {
    if b == |chains| then Flat(chains, b) else Flat(chains, b) + chains[b][..k]
  }

  lemma PassedFirst(chains: seq<seq<Entry>>, b: nat)
    requires b <= |chains| && forall a :: 0 <= a < b ==> chains[a] == []
    ensures Passed(chains, b, 0) == []
  {
    FlatSkip(chains, 0, b);
  }

  /** Stepping to the next position passes just one entry. */
  lemma PassedNext(chains: seq<seq<Entry>>, b: nat, k: nat, c: nat, j: nat)
    requires b < |chains| && k < |chains[b]| && c <= |chains| && (c == |chains| || j < |chains[c]|)
    requires k + 1 < |chains[b]| ==> c == b && j == k + 1
    requires k + 1 == |chains[b]| ==> b < c && j == 0 && forall a :: b < a < c ==> chains[a] == []
    ensures Passed(chains, c, j) == Passed(chains, b, k) + [chains[b][k]]
  {
    hide Flat;
    if c > b {
      FlatSkip(chains, b + 1, c);
      FlatNext(chains, b);
      assert chains[b] == chains[b][..k] + [chains[b][k]];
      assert Passed(chains, c, j) == Flat(chains, c);
    } else {
      assert chains[b][..k + 1] == chains[b][..k] + [chains[b][k]];
    }
  }

  ghost predicate AllKeyed(hash: string -> nat, size: nat, chains: seq<seq<Entry>>)
    requires size > 0
  {
    forall b :: 0 <= b < |chains| ==> Keyed(hash, size, b, chains[b])
  }

  /** No key occurs twice among the entries of all slots. */
  lemma {:induction false} FlatDistinct(hash: string -> nat, size: nat, chains: seq<seq<Entry>>, n: nat)
    requires size > 0 && n <= |chains| && AllKeyed(hash, size, chains)
    ensures forall i :: 0 <= i < |Flat(chains, n)| ==> hash(Flat(chains, n)[i].key) % size < n
    ensures forall i, j :: 0 <= i < j < |Flat(chains, n)| ==> Flat(chains, n)[i].key != Flat(chains, n)[j].key
  {
    if n > 0 {
      FlatDistinct(hash, size, chains, n - 1);
      var below, last := Flat(chains, n - 1), chains[n - 1];
      assert Keyed(hash, size, n - 1, last);
      forall i, j | 0 <= i < j < |below + last| ensures (below + last)[i].key != (below + last)[j].key {
        if j >= |below| {
          assert (below + last)[j] == last[j - |below|];
        }
      }
    }
  }

  /** An entry is among the first n slots just when one of them holds it. */
  lemma {:induction false} FlatHolds(chains: seq<seq<Entry>>, n: nat, e: Entry)
    requires n <= |chains|
    ensures e in Flat(chains, n) <==> exists b :: 0 <= b < n && e in chains[b]
  {
    if n > 0 {
      FlatHolds(chains, n - 1, e);
    }
  }

  class Hash {
    const hash: string -> nat
    const buckets: array<Entry?>
    ghost var chains: seq<seq<Entry>>
    ghost var repr: set<Entry>
    ghost var seen: multiset<string>

    ghost predicate Shape()
      reads this`chains, this`repr, buckets, repr`next
    {
      && buckets.Length > 0 && |chains| == buckets.Length
      && (forall b :: 0 <= b < |chains| ==> forall e <- chains[b] :: e in repr)
      && (forall b :: 0 <= b < |chains| ==> Linked(buckets[b], chains[b]))
      && (forall b :: 0 <= b < |chains| ==> Keyed(hash, buckets.Length, b, chains[b]))
    }

    constructor (hash: string -> nat, size: nat)
      requires size > 0
      ensures Valid() && this.hash == hash && buckets.Length == size && fresh(buckets) && repr == {}
      ensures seen == multiset{}
    {
      this.hash := hash;
      this.buckets := new Entry?[size](_ => null);
      this.chains := seq(size, _ => []);
      this.repr := {};
      this.seen := multiset{};
    }

    /** Walks the chain of the key's slot to the key or to the end. */
    method Locate(key: string) returns (slot: nat, entry: Entry?, prev: Entry?, ghost k: nat)
      requires Shape()
      ensures slot == hash(key) % buckets.Length && k <= |chains[slot]|
      ensures forall j :: 0 <= j < k ==> chains[slot][j].key != key
      ensures prev == if k == 0 then null else chains[slot][k - 1]
      ensures if k == |chains[slot]| then entry == null else entry == chains[slot][k] && entry.key == key
    {
      slot := hash(key) % buckets.Length;
      ghost var chain := chains[slot];
      assert Linked(buckets[slot], chain);
      entry := buckets[slot];
      prev := null;
      k := 0;
      while entry != null && key != entry.key
        invariant k <= |chain| && entry == if k == |chain| then null else chain[k]
        invariant prev == if k == 0 then null else chain[k - 1]
        invariant forall j :: 0 <= j < k ==> chain[j].key != key
        invariant Linked(buckets[slot], chain)
        decreases |chain| - k
      {
        prev := entry;
        assert LinkedAt(chain, k);
        entry := entry.next;
        k := k + 1;
      }
    }

    /** A new entry goes to the end of its chain. */
    method Append(key: string, value: int, slot: nat, prev: Entry?) returns (entry: Entry)
      requires Shape() && slot == hash(key) % buckets.Length
      requires forall j :: 0 <= j < |chains[slot]| ==> chains[slot][j].key != key
      requires prev == if chains[slot] == [] then null else chains[slot][|chains[slot]| - 1]
      modifies this`chains, this`repr, buckets, repr`next
      ensures Shape() && fresh(entry) && repr == old(repr) + {entry}
      ensures entry.key == key && entry.value == value
      ensures chains == old(chains)[slot := old(chains[slot]) + [entry]]
    {
      hide Keyed;
      entry := new Entry(key, slot, value);
      ghost var chain := chains[slot];
      assert Linked(buckets[slot], chain) && Keyed(hash, buckets.Length, slot, chain);
      KeyedSnoc(hash, buckets.Length, slot, chain, entry);
      if prev == null {
        buckets[slot] := entry;
      } else {
        prev.next := entry;
      }
      ghost var longer := chain + [entry];
      chains := chains[slot := longer];
      repr := repr + {entry};
      forall j | 0 <= j < |longer| ensures LinkedAt(longer, j) {
        if j < |chain| - 1 {
          KeyedDistinct(hash, buckets.Length, slot, chain, j, |chain| - 1);
          assert old(LinkedAt(chain, j));
        }
      }
      assert buckets[slot] == longer[0];
      assert Linked(buckets[slot], longer) by {
        hide LinkedAt;
      }
      forall b | 0 <= b < |chains| && b != slot
        ensures Linked(buckets[b], chains[b])
      {
        assert old(Linked(buckets[b], chains[b])) && Keyed(hash, buckets.Length, b, chains[b]);
        if prev != null {
          ChainsApart(hash, buckets.Length, b, chains[b], slot, chain);
        }
      }
    }

    /** A found entry that is not first in its chain moves to the front. */
    method MoveToFront(slot: nat, entry: Entry, prev: Entry, ghost k: nat)
      requires Shape() && slot < buckets.Length && 0 < k < |chains[slot]|
      requires entry == chains[slot][k] && prev == chains[slot][k - 1]
      modifies this`chains, buckets, entry`next, prev`next
      ensures Shape()
      ensures chains == old(chains)[slot := ToFront(old(chains[slot]), k)]
    {
      hide ToFront;
      ghost var chain := chains[slot];
      ToFrontKeyed(hash, buckets.Length, slot, chain, k);
      ToFrontPermutes(chain, k);
      assert Linked(buckets[slot], chain) && Keyed(hash, buckets.Length, slot, chain);
      prev.next := entry.next;
      entry.next := buckets[slot];
      buckets[slot] := entry;
      chains := chains[slot := ToFront(chain, k)];
      forall j | 0 <= j < |chain| && j != k - 1 && j != k
        ensures LinkedAt(chain, j)
      {
        assert chain[j].key != entry.key && chain[j].key != prev.key;
        assert old(LinkedAt(chain, j));
      }
      assert old(LinkedAt(chain, k)) && old(LinkedAt(chain, k - 1));
      ghost var moved := chains[slot];
      forall j | 0 <= j < |chain| ensures LinkedAt(moved, j) {
        if 1 <= j < k {
          assert LinkedAt(chain, j - 1);
        } else if j > k {
          assert LinkedAt(chain, j);
        }
      }
      assert Linked(buckets[slot], chains[slot]);
      forall b | 0 <= b < |chains| && b != slot
        ensures Linked(buckets[b], chains[b])
      {
        assert old(Linked(buckets[b], chains[b])) && Keyed(hash, buckets.Length, b, chains[b]);
      }
    }

    /** Every entry counts its key's calls, and every key called has one. */
    ghost predicate Counted()
      reads this, buckets, repr
      requires Shape()
    {
      && (forall b :: 0 <= b < |chains| ==> forall e <- chains[b] :: CountOf(e))
      && forall w <- seen :: HasEntry(hash, chains, w)
    }

    ghost predicate CountOf(e: Entry)
      reads this`seen, e`value
    {
      e.value == seen[e.key] > 0
    }

    ghost predicate Valid()
      reads this, buckets, repr
    {
      Shape() && Counted()
    }

    /** The key's entry, moved to the front of its chain if it is there and added at the end with
        the value given if it is not. */
    method Add(key: string, value: int) returns (entry: Entry, ghost slot: nat, ghost k: nat)
      requires Shape()
      modifies this`chains, this`repr, buckets, repr`next
      ensures Shape() && entry.key == key && slot == hash(key) % buckets.Length
      ensures k <= |old(chains[slot])| && forall j :: 0 <= j < k ==> old(chains[slot])[j].key != key
      ensures k < |old(chains[slot])| ==> entry == old(chains[slot])[k] && repr == old(repr)
      ensures k < |old(chains[slot])| ==> chains == old(chains)[slot := ToFront(old(chains[slot]), k)]
      ensures k == |old(chains[slot])| ==> fresh(entry) && entry.value == value && repr == old(repr) + {entry}
      ensures k == |old(chains[slot])| ==> chains == old(chains)[slot := old(chains[slot]) + [entry]]
    {
      hide ToFront, Keyed, Linked;
      var at, found, prev;
      at, found, prev, k := Locate(key);
      slot := at;
      if found == null {
        entry := Append(key, value, at, prev);
      } else {
        entry := found;
        if prev != null {
          MoveToFront(at, entry, prev, k);
        } else {
          FrontStays(chains[slot]);
        }
      }
    }

    /** Counts one more call on the entry of a key. */
    method Bump(entry: Entry, ghost slot: nat)
      requires Shape() && slot == hash(entry.key) % buckets.Length && entry in chains[slot]
      requires entry.value == seen[entry.key]
      requires forall b :: 0 <= b < |chains| ==> forall e <- chains[b] :: e != entry ==> CountOf(e)
      requires forall w <- seen :: HasEntry(hash, chains, w)
      modifies this`seen, entry`value
      ensures Valid() && seen == old(seen) + multiset{entry.key}
    {
      hide Keyed;
      entry.value := entry.value + 1;
      seen := seen + multiset{entry.key};
      assert Shape();
      forall b, e | 0 <= b < |chains| && e in chains[b] ensures CountOf(e) {
        if e != entry {
          assert Keyed(hash, buckets.Length, b, chains[b]) && Keyed(hash, buckets.Length, slot, chains[slot]);
          KeyNamesEntry(hash, buckets.Length, b, chains[b], e, slot, chains[slot], entry);
          assert old(CountOf(e));
        }
      }
      forall w | w in seen ensures HasEntry(hash, chains, w) {
        if w != entry.key {
          assert w in old(seen) && HasEntry(hash, old(chains), w);
        }
      }
    }

    /** The word's entry, touched; the counts are those before the call. */
    method Touch(word: string) returns (entry: Entry, ghost slot: nat)
      requires Valid()
      modifies this`chains, this`repr, buckets, repr`next
      ensures Shape() && fresh(repr - old(repr)) && (entry in old(repr) || fresh(entry))
      ensures entry.key == word && slot == hash(word) % buckets.Length && entry in chains[slot]
      ensures entry.value == seen[word]
      ensures forall b :: 0 <= b < |chains| ==> forall e <- chains[b] :: e != entry ==> CountOf(e)
      ensures forall w <- seen :: HasEntry(hash, chains, w)
    {
      hide ToFront, Keyed, Linked;
      ghost var k;
      entry, slot, k := Add(word, 0);
      ghost var was := old(chains);
      TouchKeeps(hash, was, chains, slot, k, entry);
      if k < |was[slot]| {
        assert old(CountOf(was[slot][k]));
      } else {
        assert !HasEntry(hash, was, word);
      }
      forall b, e | 0 <= b < |chains| && e in chains[b] && e != entry ensures CountOf(e) {
        assert e in was[b] && old(CountOf(e));
      }
    }

    /** One more call of a word. */
    method GetWordID(word: string)
      requires Valid()
      modifies this`chains, this`repr, this`seen, buckets, repr
      ensures Valid() && fresh(repr - old(repr)) && seen == old(seen) + multiset{word}
    {
      hide Shape, HasEntry, CountOf;
      var entry;
      ghost var slot;
      entry, slot := Touch(word);
      Bump(entry, slot);
    }

    /** The first entry of the first slot that has any. */
    method FindFirst() returns (it: Entry?, ghost b: nat)
      requires Shape()
      ensures b <= |chains| && forall a :: 0 <= a < b ==> chains[a] == []
      ensures b < |chains| ==> chains[b] != [] && it == chains[b][0]
      ensures b == |chains| ==> it == null
      ensures it == null <==> forall a :: 0 <= a < |chains| ==> chains[a] == []
    {
      hide Keyed, LinkedAt;
      var i := 0;
      while i < buckets.Length
        invariant 0 <= i <= buckets.Length && forall a :: 0 <= a < i ==> chains[a] == []
      {
        assert Linked(buckets[i], chains[i]);
        if buckets[i] != null {
          return buckets[i], i;
        }
        i := i + 1;
      }
      return null, i;
    }

    /** The entry that follows in its chain, or else the first entry of the next slot that has any. */
    method FindNext(entry: Entry, ghost b: nat, ghost k: nat) returns (it: Entry?, ghost c: nat, ghost j: nat)
      requires Shape() && b < |chains| && k < |chains[b]| && entry == chains[b][k]
      ensures k + 1 < |chains[b]| ==> c == b && j == k + 1
      ensures k + 1 == |chains[b]| ==> b < c <= |chains| && j == 0 && forall a :: b < a < c ==> chains[a] == []
      ensures if c == |chains| then it == null else j < |chains[c]| && it == chains[c][j]
    {
      hide Keyed, LinkedAt;
      assert Linked(buckets[b], chains[b]) && LinkedAt(chains[b], k) && Keyed(hash, buckets.Length, b, chains[b]);
      NextOf(chains[b], k);
      SlotOf(hash, buckets.Length, b, chains[b], k);
      if entry.next != null {
        return entry.next, b, k + 1;
      }
      var i := 1 + entry.slot;
      while i < buckets.Length
        invariant b < i <= buckets.Length && forall a :: b < a < i ==> chains[a] == []
      {
        assert Linked(buckets[i], chains[i]);
        if buckets[i] != null {
          return buckets[i], i, 0;
        }
        i := i + 1;
      }
      return null, i, 0;
    }

    /** The words and counts in the order of the entries. */
    method Collect() returns (top: seq<WordCount>)
      requires Valid()
      ensures Tally(top, seen)
    {
      hide Keyed, Linked, Passed, Flat, Counted;
      ghost var visited: seq<Entry> := [];
      ghost var b: nat, k: nat := 0, 0;
      var it;
      top := [];
      it, b := FindFirst();
      PassedFirst(chains, b);
      while it != null
        invariant b <= |chains| && (b == |chains| || k < |chains[b]|)
        invariant it == if b == |chains| then null else chains[b][k]
        invariant visited == Passed(chains, b, k)
        invariant |top| == |visited|
        invariant forall i :: 0 <= i < |top| ==> top[i] == WordCount(visited[i].key, visited[i].value)
        decreases |chains| - b, if b < |chains| then |chains[b]| - k else 0
      {
        top := top + [WordCount(it.key, it.value)];
        visited := visited + [it];
        ghost var c: nat, j: nat;
        it, c, j := FindNext(it, b, k);
        PassedNext(chains, b, k, c, j);
        b, k := c, j;
      }
      FlatTallies(top, visited, k);
    }

    /** Reading off every entry gives every word once, with its count. */
    lemma FlatTallies(top: seq<WordCount>, visited: seq<Entry>, k: nat)
      requires Valid() && visited == Passed(chains, |chains|, k) && |top| == |visited|
      requires forall i :: 0 <= i < |top| ==> top[i] == WordCount(visited[i].key, visited[i].value)
      ensures Tally(top, seen)
    {
      hide Keyed, Linked, Flat;
      FlatDistinct(hash, buckets.Length, chains, |chains|);
      forall i | 0 <= i < |top| ensures top[i].count == seen[top[i].word] > 0 {
        FlatHolds(chains, |chains|, visited[i]);
        assert CountOf(visited[i]);
      }
      forall w | w in seen ensures exists i :: 0 <= i < |top| && top[i].word == w {
        assert HasEntry(hash, chains, w);
        var e: Entry :| e in chains[hash(w) % |chains|] && e.key == w;
        FlatHolds(chains, |chains|, e);
        var i :| 0 <= i < |visited| && visited[i] == e;
        assert top[i].word == w;
      }
    }
  }

  datatype WordCount = WordCount(word: string, count: int)

  /** Every word of a multiset once, with its multiplicity, and no other word. */
  ghost predicate Tally(top: seq<WordCount>, words: multiset<string>) {
    && (forall i :: 0 <= i < |top| ==> top[i].count == words[top[i].word] > 0)
    && (forall i, j :: 0 <= i < j < |top| ==> top[i].word != top[j].word)
    && forall w <- words :: exists i :: 0 <= i < |top| && top[i].word == w
  }

  /** The words of a text, counted one call at a time and then read off the hash. */
  method CountWords(hash: string -> nat, size: nat, words: seq<string>) returns (top: seq<WordCount>)
    requires size > 0
    ensures Tally(top, multiset(words))
  {
    hide Tally;
    var h := new Hash(hash, size);
    for i := 0 to |words|
      invariant h.Valid() && fresh(h) && fresh(h.buckets) && fresh(h.repr)
      invariant h.seen == multiset(words[..i])
    {
      h.GetWordID(words[i]);
      assert words[..i + 1] == words[..i] + [words[i]];
    }
    assert words[..|words|] == words;
    top := h.Collect();
  }
}
