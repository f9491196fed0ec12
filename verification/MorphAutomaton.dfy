/** The morphology automaton of src/sphinxaot.cpp as data: nodes, relations, alphabets,
    and what following and enumerating its paths means. */
module MorphAutomaton {
  import opened Integers

  const AOT_NOFORM := 0xffff_ffff
  /** The levels the walk has stacks for. */
  const MAX_DEPTH := 32
  const AOT_MAX_ALPHABET_SIZE := 54
  const AOT_MORPH_ANNOT_CHAR: byte := 43

  /** A node points to its first relation; the next node's pointer ends its range. */
  datatype Node = Node(childrenStart: nat, isFinal: bool)

  datatype Relation = Relation(childNo: nat, relChar: byte)

  /** The tables map a character to its alphabet code, or to -1. */
  datatype Automaton = Automaton(
    nodes: seq<Node>, nodesCount: nat, relations: seq<Relation>,
    code: seq<int>, codeNoAnnot: seq<int>, alphabetSize: int)
  {
    ghost predicate Valid() {
      && |nodes| == nodesCount + 1
      && (forall n: nat :: n < nodesCount ==> RangeOk(n))
      && (forall r :: 0 <= r < |relations| ==> relations[r].childNo < nodesCount)
      && |code| == 256 && |codeNoAnnot| == 256
      && 1 <= alphabetSize <= AOT_MAX_ALPHABET_SIZE
      && (forall c :: 0 <= c < 256 ==> -1 <= code[c] < AOT_MAX_ALPHABET_SIZE)
    }

    ghost predicate RangeOk(n: nat)
      requires |nodes| == nodesCount + 1 && n < nodesCount
    {
      nodes[n].childrenStart <= nodes[n + 1].childrenStart <= |relations|
    }

    function First(n: nat): nat
      requires Valid() && n < nodesCount
    {
      nodes[n].childrenStart
    }

    function Last(n: nat): (m: nat)
      requires Valid() && n < nodesCount
      ensures First(n) <= m <= |relations|
    {
      assert RangeOk(n);
      nodes[n + 1].childrenStart
    }
  }

  // ---------- decoding ----------

  function Pow(base: nat, k: nat): nat {
    if k == 0 then 1 else Pow(base, k - 1) * base
  }

  /** The number a path of characters stands for: digits, least significant first. */
  function Value(a: Automaton, path: seq<byte>): int
    requires |a.codeNoAnnot| == 256 && a.alphabetSize >= 1
  {
    if path == [] then 0
    else
      var k := |path| - 1;
      Value(a, path[..k]) + a.codeNoAnnot[path[k]] * Pow(a.alphabetSize - 1, k)
  }

  lemma DropMultiple(x: int, k: int)
    ensures (x + U32 * k) % U32 == x % U32
  {
  }

  /** 32-bit wrap-around of a factor or a term may be done early. */
  lemma WrapEarly(x: int, y: int, z: int)
    ensures (x % U32 + y * (z % U32)) % U32 == (x + y * z) % U32
  {
    var qx, qz := x / U32, z / U32;
    var rx, rz := x % U32, z % U32;
    assert x == rx + U32 * qx && z == rz + U32 * qz;
    assert y * z == y * rz + U32 * (y * qz) by {
      Distribute(y, rz, U32 * qz);
      Swap(y, U32, qz);
    }
    assert x + y * z == (rx + y * rz) + U32 * (qx + y * qz);
    DropMultiple(rx + y * rz, qx + y * qz);
  }

  lemma Distribute(y: int, a: int, b: int)
    ensures y * (a + b) == y * a + y * b
  {
  }

  lemma Swap(a: int, b: int, c: int)
    ensures a * (b * c) == b * (a * c)
  {
  }

  lemma ProductAtLeast(k: int, l: int, m: int)
    requires k <= l && m >= 0
    ensures k * m <= l * m
  {
  }

  /** DecodeFromAlphabet: one digit per character, in 32-bit arithmetic. */
  method DecodeFromAlphabet(a: Automaton, path: seq<byte>) returns (result: int)
    requires |a.codeNoAnnot| == 256 && a.alphabetSize >= 1
    ensures result == Value(a, path) % U32
  {
    hide Value, Pow;
    var c := 1;
    result := 0;
    DecodeStart(a);
    for k := 0 to |path|
      invariant result == Value(a, path[..k]) % U32 && c == Pow(a.alphabetSize - 1, k) % U32
    {
      ValueSnoc(a, path, k);
      WrapEarly(Value(a, path[..k]), a.codeNoAnnot[path[k]], Pow(a.alphabetSize - 1, k));
      WrapEarly(0, a.alphabetSize - 1, Pow(a.alphabetSize - 1, k));
      result := (result + a.codeNoAnnot[path[k]] * c) % U32;
      c := (a.alphabetSize - 1) * c % U32;
    }
    assert path[..|path|] == path;
  }

  lemma DecodeStart(a: Automaton)
    requires |a.codeNoAnnot| == 256 && a.alphabetSize >= 1
    ensures Value(a, []) == 0 && Pow(a.alphabetSize - 1, 0) == 1
  {
  }

  lemma ValueSnoc(a: Automaton, path: seq<byte>, k: nat)
    requires |a.codeNoAnnot| == 256 && a.alphabetSize >= 1 && k < |path|
    ensures Value(a, path[..k + 1]) == Value(a, path[..k]) + a.codeNoAnnot[path[k]] * Pow(a.alphabetSize - 1, k)
    ensures Pow(a.alphabetSize - 1, k + 1) == (a.alphabetSize - 1) * Pow(a.alphabetSize - 1, k)
  {
    assert path[..k + 1][..k] == path[..k];
  }

  /** All characters are in the alphabet without the annotation character. */
  ghost predicate InAlphabet(a: Automaton, path: seq<byte>)
    requires |a.codeNoAnnot| == 256
  {
    forall k :: 0 <= k < |path| ==> 0 <= a.codeNoAnnot[path[k]] < a.alphabetSize - 1
  }

  lemma {:induction false} ValueBound(a: Automaton, path: seq<byte>)
    requires |a.codeNoAnnot| == 256 && a.alphabetSize >= 1 && InAlphabet(a, path)
    ensures 0 <= Value(a, path) < Pow(a.alphabetSize - 1, |path|)
  {
    hide Value, Pow;
    if path == [] {
      DecodeStart(a);
    } else {
      var k := |path| - 1;
      ValueBound(a, path[..k]);
      assert path[..k + 1] == path;
      ValueSnoc(a, path, k);
      var d, p := a.codeNoAnnot[path[k]], Pow(a.alphabetSize - 1, k);
      ProductAtLeast(0, d, p);
      ProductAtLeast(d + 1, a.alphabetSize - 1, p);
      Distribute(p, d, 1);
    }
  }

  /** Two interpretations of the same length get the same number only if they are the
      same, as long as the numbers of that length fit in 32 bits. */
  lemma {:induction false} DecodeInjective(a: Automaton, p: seq<byte>, q: seq<byte>)
    requires |a.codeNoAnnot| == 256 && a.alphabetSize >= 1
    requires forall c, d :: 0 <= c < 256 && 0 <= d < 256 && a.codeNoAnnot[c] == a.codeNoAnnot[d] != -1 ==> c == d
    requires |p| == |q| && InAlphabet(a, p) && InAlphabet(a, q)
    requires Pow(a.alphabetSize - 1, |p|) <= U32
    requires Value(a, p) % U32 == Value(a, q) % U32
    ensures p == q
  {
    ValueBound(a, p);
    ValueBound(a, q);
    ValueInjective(a, p, q);
  }

  lemma {:induction false} ValueInjective(a: Automaton, p: seq<byte>, q: seq<byte>)
    requires |a.codeNoAnnot| == 256 && a.alphabetSize >= 1
    requires forall c, d :: 0 <= c < 256 && 0 <= d < 256 && a.codeNoAnnot[c] == a.codeNoAnnot[d] != -1 ==> c == d
    requires |p| == |q| && InAlphabet(a, p) && InAlphabet(a, q)
    requires Value(a, p) == Value(a, q)
    ensures p == q
  {
    hide Value, Pow;
    if p != [] {
      var k := |p| - 1;
      ValueBound(a, p[..k]);
      ValueBound(a, q[..k]);
      assert p[..k + 1] == p && q[..k + 1] == q;
      ValueSnoc(a, p, k);
      ValueSnoc(a, q, k);
      var d, e := a.codeNoAnnot[p[k]], a.codeNoAnnot[q[k]];
      TopDigit(Value(a, p[..k]), Value(a, q[..k]), d, e, Pow(a.alphabetSize - 1, k));
      assert p[k] == q[k];
      ValueInjective(a, p[..k], q[..k]);
      assert p == p[..k] + [p[k]] && q == q[..k] + [q[k]];
    }
  }

  lemma TopDigit(x: int, y: int, d: int, e: int, m: int)
    requires 0 <= x < m && 0 <= y < m && x + d * m == y + e * m
    ensures d == e && x == y
  {
    Distribute(m, e, d - e);
    if d < e {
      ProductAtLeast(d - e, -1, m);
    } else if d > e {
      ProductAtLeast(1, d - e, m);
    }
  }

  // ---------- following and enumerating ----------

  /** The child of the first relation from lo on that carries the character, or -1. */
  function Scan(a: Automaton, lo: nat, hi: nat, c: byte): (child: int)
    requires a.Valid() && hi <= |a.relations|
    ensures child == -1 || 0 <= child < a.nodesCount
    decreases hi - lo
  {
    if lo >= hi then -1
    else if a.relations[lo].relChar == c then a.relations[lo].childNo
    else Scan(a, lo + 1, hi, c)
  }

  function Child(a: Automaton, n: nat, c: byte): (child: int)
    requires a.Valid() && n < a.nodesCount
    ensures child == -1 || 0 <= child < a.nodesCount
  {
    Scan(a, a.First(n), a.Last(n), c)
  }

  /** The node reached from n along a text, or -1. */
  function Follow(a: Automaton, n: nat, text: seq<byte>): (m: int)
    requires a.Valid() && n < a.nodesCount
    ensures m == -1 || 0 <= m < a.nodesCount
    decreases |text|
  {
    if text == [] then n
    else
      var next := Child(a, n, text[0]);
      if next == -1 then -1 else Follow(a, next, text[1..])
  }

  ghost predicate Carries(a: Automaton, n: nat, r: nat, c: byte)
    requires a.Valid() && n < a.nodesCount
  {
    a.First(n) <= r < a.Last(n) && a.relations[r].relChar == c
  }

  ghost predicate NoneCarries(a: Automaton, n: nat, c: byte)
    requires a.Valid() && n < a.nodesCount
  {
    forall r: nat :: !Carries(a, n, r, c)
  }

  /** The first relation of n that carries c leads to the child. */
  ghost predicate LeadsTo(a: Automaton, n: nat, c: byte, child: nat)
    requires a.Valid() && n < a.nodesCount
  {
    exists r: nat :: Carries(a, n, r, c) && a.relations[r].childNo == child
                     && forall q: nat :: q < r ==> !Carries(a, n, q, c)
  }

  lemma {:induction false} ScanIsFirst(a: Automaton, n: nat, lo: nat, c: byte)
    requires a.Valid() && n < a.nodesCount && a.First(n) <= lo <= a.Last(n)
    requires forall q: nat :: q < lo ==> !Carries(a, n, q, c)
    ensures
      var child := Scan(a, lo, a.Last(n), c);
      if child == -1 then NoneCarries(a, n, c) else LeadsTo(a, n, c, child)
    decreases a.Last(n) - lo
  {
    if lo < a.Last(n) {
      if a.relations[lo].relChar == c {
        assert Carries(a, n, lo, c);
      } else {
        ScanIsFirst(a, n, lo + 1, c);
      }
    }
  }

  /** Following a text means to walk from node to node by the first relation with the next character; it fails at a
      node without one. */
  lemma {:induction false} FollowWalks(a: Automaton, n: nat, text: seq<byte>) returns (nodes: seq<nat>)
    requires a.Valid() && n < a.nodesCount
    ensures 0 < |nodes| <= |text| + 1 && nodes[0] == n && forall k :: 0 <= k < |nodes| ==> nodes[k] < a.nodesCount
    ensures forall k :: 0 <= k < |nodes| - 1 ==> LeadsTo(a, nodes[k], text[k], nodes[k + 1])
    ensures Follow(a, n, text) != -1 ==> |nodes| == |text| + 1 && nodes[|text|] == Follow(a, n, text)
    ensures Follow(a, n, text) == -1 ==>
              |nodes| <= |text| && NoneCarries(a, nodes[|nodes| - 1], text[|nodes| - 1])
    decreases |text|
  {
    hide LeadsTo, NoneCarries, Carries, Scan;
    nodes := [n];
    if text != [] {
      NothingBefore(a, n, text[0]);
      ScanIsFirst(a, n, a.First(n), text[0]);
      var next := Child(a, n, text[0]);
      if next != -1 {
        var rest := FollowWalks(a, next, text[1..]);
        nodes := [n] + rest;
      }
    }
  }

  lemma NothingBefore(a: Automaton, n: nat, c: byte)
    requires a.Valid() && n < a.nodesCount
    ensures forall q: nat :: q < a.First(n) ==> !Carries(a, n, q, c)
  {
  }

  /** All paths from relation lo of node n on to the first final node on each, decoded, in the order of the
      relations: the recursive enumeration, with room for so many levels below n's. */
  ghost function PathsFrom(a: Automaton, room: nat, n: nat, lo: nat, path: seq<byte>): seq<int>
    requires a.Valid() && n < a.nodesCount && a.First(n) <= lo <= a.Last(n)
    decreases room, a.Last(n) - lo
  {
    if lo == a.Last(n) then []
    else
      var rel := a.relations[lo];
      var here :=
        if a.nodes[rel.childNo].isFinal then [Value(a, path + [rel.relChar]) % U32]
        else if room == 0 then []
        else PathsFrom(a, room - 1, rel.childNo, a.First(rel.childNo), path + [rel.relChar]);
      here + PathsFrom(a, room, n, lo + 1, path)
  }

  /** Some path from relation lo of node n on takes more levels than there is room for. */
  ghost predicate TooDeep(a: Automaton, room: nat, n: nat, lo: nat)
    requires a.Valid() && n < a.nodesCount && a.First(n) <= lo <= a.Last(n)
    decreases room, a.Last(n) - lo
  {
    lo < a.Last(n) &&
      var child := a.relations[lo].childNo;
      || (!a.nodes[child].isFinal && (room == 0 || TooDeep(a, room - 1, child, a.First(child))))
      || TooDeep(a, room, n, lo + 1)
  }

  /** A path of relations, each to a node that is not final. */
  ghost predicate InnerPath(a: Automaton, n: nat, rels: seq<nat>)
    requires a.Valid() && n < a.nodesCount
    decreases |rels|
  {
    rels == [] ||
      (a.First(n) <= rels[0] < a.Last(n)
       && var child := a.relations[rels[0]].childNo;
          !a.nodes[child].isFinal && InnerPath(a, child, rels[1..]))
  }

  /** There is not room enough just when a path of one relation more leads through nodes that are not final. */
  lemma TooDeepIsPath(a: Automaton, room: nat, n: nat)
    requires a.Valid() && n < a.nodesCount
    ensures TooDeep(a, room, n, a.First(n)) <==> exists rels :: |rels| == room + 1 && InnerPath(a, n, rels)
  {
    if TooDeep(a, room, n, a.First(n)) {
      var rels := DeepPath(a, room, n, a.First(n));
    }
    forall rels | |rels| == room + 1 && InnerPath(a, n, rels) ensures TooDeep(a, room, n, a.First(n)) {
      PathIsDeep(a, room, n, a.First(n), rels);
    }
  }

  lemma {:induction false} DeepPath(a: Automaton, room: nat, n: nat, lo: nat) returns (rels: seq<nat>)
    requires a.Valid() && n < a.nodesCount && a.First(n) <= lo <= a.Last(n) && TooDeep(a, room, n, lo)
    ensures |rels| == room + 1 && InnerPath(a, n, rels)
    decreases room, a.Last(n) - lo
  {
    var child := a.relations[lo].childNo;
    if a.nodes[child].isFinal || !(room == 0 || TooDeep(a, room - 1, child, a.First(child))) {
      rels := DeepPath(a, room, n, lo + 1);
    } else {
      var rest := [];
      if room > 0 {
        rest := DeepPath(a, room - 1, child, a.First(child));
      }
      rels := [lo] + rest;
      assert rels[1..] == rest;
    }
  }

  lemma {:induction false} PathIsDeep(a: Automaton, room: nat, n: nat, lo: nat, rels: seq<nat>)
    requires a.Valid() && n < a.nodesCount && a.First(n) <= lo <= a.Last(n)
    requires |rels| == room + 1 && InnerPath(a, n, rels) && lo <= rels[0]
    ensures TooDeep(a, room, n, lo)
    decreases room, a.Last(n) - lo
  {
    if lo < rels[0] {
      PathIsDeep(a, room, n, lo + 1, rels);
    } else if room > 0 {
      var child := a.relations[lo].childNo;
      PathIsDeep(a, room - 1, child, a.First(child), rels[1..]);
    }
  }

  /** One relation, and those after it. */
  lemma OneRelation(a: Automaton, room: nat, n: nat, lo: nat, path: seq<byte>)
    requires a.Valid() && n < a.nodesCount && a.First(n) <= lo < a.Last(n)
    ensures
      var rel := a.relations[lo];
      && PathsFrom(a, room, n, lo, path)
         == (if a.nodes[rel.childNo].isFinal then [Value(a, path + [rel.relChar]) % U32]
             else if room == 0 then []
             else PathsFrom(a, room - 1, rel.childNo, a.First(rel.childNo), path + [rel.relChar]))
            + PathsFrom(a, room, n, lo + 1, path)
      && (TooDeep(a, room, n, lo) <==>
            || (!a.nodes[rel.childNo].isFinal
                && (room == 0 || TooDeep(a, room - 1, rel.childNo, a.First(rel.childNo))))
            || TooDeep(a, room, n, lo + 1))
  {
    hide Value;
  }

  lemma NoRelation(a: Automaton, room: nat, n: nat, path: seq<byte>)
    requires a.Valid() && n < a.nodesCount
    ensures PathsFrom(a, room, n, a.Last(n), path) == [] && !TooDeep(a, room, n, a.Last(n))
  {
  }

  /** With room enough, more room makes no difference: every path is listed. */
  lemma {:induction false} RoomEnough(a: Automaton, room: nat, more: nat, n: nat, lo: nat, path: seq<byte>)
    requires a.Valid() && n < a.nodesCount && a.First(n) <= lo <= a.Last(n)
    requires !TooDeep(a, room, n, lo) && room <= more
    ensures PathsFrom(a, more, n, lo, path) == PathsFrom(a, room, n, lo, path)
    decreases room, a.Last(n) - lo
  {
    hide Value, PathsFrom, TooDeep;
    if lo == a.Last(n) {
      NoRelation(a, room, n, path);
      NoRelation(a, more, n, path);
    } else {
      var rel := a.relations[lo];
      OneRelation(a, room, n, lo, path);
      OneRelation(a, more, n, lo, path);
      if !a.nodes[rel.childNo].isFinal {
        RoomEnough(a, room - 1, more - 1, rel.childNo, a.First(rel.childNo), path + [rel.relChar]);
      }
      RoomEnough(a, room, more, n, lo + 1, path);
    }
  }

  // ---------- what is enumerated ----------

  ghost predicate InRange(a: Automaton, rels: seq<nat>) {
    forall k :: 0 <= k < |rels| ==> rels[k] < |a.relations|
  }

  /** A path of relations from a node to the first final node on it. */
  ghost predicate FinalPath(a: Automaton, n: nat, rels: seq<nat>)
    requires a.Valid() && n < a.nodesCount
    decreases |rels|
  {
    && rels != [] && InRange(a, rels) && a.First(n) <= rels[0] < a.Last(n)
    && var child := a.relations[rels[0]].childNo;
       if a.nodes[child].isFinal then |rels| == 1 else FinalPath(a, child, rels[1..])
  }

  ghost function Chars(a: Automaton, rels: seq<nat>): (cs: seq<byte>)
    requires InRange(a, rels)
  {
    seq(|rels|, k requires 0 <= k < |rels| => a.relations[rels[k]].relChar)
  }

  /** At the first relation they differ in, p takes the earlier one. */
  ghost predicate Earlier(p: seq<nat>, q: seq<nat>) {
    exists k: nat :: EarlierAt(p, q, k)
  }

  ghost predicate EarlierAt(p: seq<nat>, q: seq<nat>, k: nat) {
    k < |p| && k < |q| && p[..k] == q[..k] && p[k] < q[k]
  }

  /** The numbers are those of the paths, and the paths are all from n to a final node that begin with a relation
      from lo up to hi and have room, each once, in the order of their relations. */
  ghost predicate Lists(a: Automaton, room: nat, n: nat, lo: nat, hi: nat, path: seq<byte>,
                        numbers: seq<int>, paths: seq<seq<nat>>)
    requires a.Valid() && n < a.nodesCount
  {
    && |numbers| == |paths|
    && (forall i :: 0 <= i < |paths| ==>
          PathFor(a, room, n, lo, hi, paths[i]) && NumberOf(a, path, paths[i], numbers[i]))
    && (forall p :: PathFor(a, room, n, lo, hi, p) ==> p in paths)
    && InOrder(paths)
  }

  ghost predicate PathFor(a: Automaton, room: nat, n: nat, lo: nat, hi: nat, p: seq<nat>)
    requires a.Valid() && n < a.nodesCount
  {
    FinalPath(a, n, p) && lo <= p[0] < hi && |p| <= room + 1
  }

  ghost predicate InOrder(paths: seq<seq<nat>>) {
    forall i, j :: 0 <= i < j < |paths| ==> Earlier(paths[i], paths[j])
  }

  ghost predicate NumberOf(a: Automaton, path: seq<byte>, p: seq<nat>, number: int)
    requires a.Valid()
  {
    InRange(a, p) && number == Value(a, path + Chars(a, p)) % U32
  }

  /** The enumeration lists every path to a final node, once each and in order. */
  lemma {:induction false} PathsListed(a: Automaton, room: nat, n: nat, lo: nat, path: seq<byte>)
    returns (paths: seq<seq<nat>>)
    requires a.Valid() && n < a.nodesCount && a.First(n) <= lo <= a.Last(n)
    ensures Lists(a, room, n, lo, a.Last(n), path, PathsFrom(a, room, n, lo, path), paths)
    decreases room, a.Last(n) - lo
  {
    hide Value, PathsFrom, Lists;
    if lo == a.Last(n) {
      NoRelation(a, room, n, path);
      NothingListed(a, room, n, lo, path);
      return [];
    }
    OneRelation(a, room, n, lo, path);
    var rel := a.relations[lo];
    var first, numbers := [], [];
    if a.nodes[rel.childNo].isFinal {
      first, numbers := [[lo]], [Value(a, path + [rel.relChar]) % U32];
      FinalListed(a, room, n, lo, path);
    } else if room == 0 {
      TooShort(a, n, lo, path);
    } else {
      var below := PathsListed(a, room - 1, rel.childNo, a.First(rel.childNo), path + [rel.relChar]);
      numbers := PathsFrom(a, room - 1, rel.childNo, a.First(rel.childNo), path + [rel.relChar]);
      first := Behind(lo, below);
      BelowListed(a, room, n, lo, path, numbers, below);
    }
    var rest := PathsListed(a, room, n, lo + 1, path);
    ListsConcat(a, room, n, lo, lo + 1, a.Last(n), path, numbers, first, PathsFrom(a, room, n, lo + 1, path), rest);
    return first + rest;
  }

  ghost function Behind(lo: nat, below: seq<seq<nat>>): (paths: seq<seq<nat>>)
    ensures |paths| == |below| && forall i :: 0 <= i < |below| ==> paths[i] == [lo] + below[i]
  {
    seq(|below|, i requires 0 <= i < |below| => [lo] + below[i])
  }

  lemma NothingListed(a: Automaton, room: nat, n: nat, lo: nat, path: seq<byte>)
    requires a.Valid() && n < a.nodesCount
    ensures Lists(a, room, n, lo, lo, path, [], [])
  {
  }

  /** A final child ends the only path through it. */
  lemma FinalListed(a: Automaton, room: nat, n: nat, lo: nat, path: seq<byte>)
    requires a.Valid() && n < a.nodesCount && a.First(n) <= lo < a.Last(n)
    requires a.nodes[a.relations[lo].childNo].isFinal
    ensures Lists(a, room, n, lo, lo + 1, path, [Value(a, path + [a.relations[lo].relChar]) % U32], [[lo]])
  {
    hide Value;
    assert Chars(a, [lo]) == [a.relations[lo].relChar];
    forall p | PathFor(a, room, n, lo, lo + 1, p) ensures p in [[lo]] {
      assert p == [lo];
    }
  }

  /** Without room, no path leads through a child that is not final. */
  lemma TooShort(a: Automaton, n: nat, lo: nat, path: seq<byte>)
    requires a.Valid() && n < a.nodesCount && a.First(n) <= lo < a.Last(n)
    requires !a.nodes[a.relations[lo].childNo].isFinal
    ensures Lists(a, 0, n, lo, lo + 1, path, [], [])
  {
    hide Value;
    forall p | FinalPath(a, n, p) && p[0] == lo ensures |p| > 1 {
      assert FinalPath(a, a.relations[lo].childNo, p[1..]);
    }
  }

  /** The paths through a child that is not final are those from the child on. */
  lemma BelowListed(a: Automaton, room: nat, n: nat, lo: nat, path: seq<byte>, numbers: seq<int>,
                    below: seq<seq<nat>>)
    requires a.Valid() && n < a.nodesCount && a.First(n) <= lo < a.Last(n) && room > 0
    requires var rel := a.relations[lo];
             && !a.nodes[rel.childNo].isFinal
             && Lists(a, room - 1, rel.childNo, a.First(rel.childNo), a.Last(rel.childNo), path + [rel.relChar],
                      numbers, below)
    ensures Lists(a, room, n, lo, lo + 1, path, numbers, Behind(lo, below))
  {
    hide PathFor, NumberOf, InOrder;
    var rel := a.relations[lo];
    var paths := Behind(lo, below);
    forall i | 0 <= i < |below|
      ensures PathFor(a, room, n, lo, lo + 1, paths[i]) && NumberOf(a, path, paths[i], numbers[i]) {
      LongerPath(a, room, n, lo, path, below[i], numbers[i]);
    }
    forall p | PathFor(a, room, n, lo, lo + 1, p) ensures p in paths {
      ShorterPath(a, room, n, lo, p);
      var i :| 0 <= i < |below| && below[i] == p[1..];
      assert paths[i] == p;
    }
    OrderBehind(lo, below);
  }

  lemma LongerPath(a: Automaton, room: nat, n: nat, lo: nat, path: seq<byte>, p: seq<nat>, number: int)
    requires a.Valid() && n < a.nodesCount && a.First(n) <= lo < a.Last(n) && room > 0
    requires var rel := a.relations[lo];
             && !a.nodes[rel.childNo].isFinal
             && PathFor(a, room - 1, rel.childNo, a.First(rel.childNo), a.Last(rel.childNo), p)
             && NumberOf(a, path + [rel.relChar], p, number)
    ensures PathFor(a, room, n, lo, lo + 1, [lo] + p) && NumberOf(a, path, [lo] + p, number)
  {
    hide Value;
    assert ([lo] + p)[1..] == p;
    assert path + Chars(a, [lo] + p) == path + [a.relations[lo].relChar] + Chars(a, p);
  }

  lemma ShorterPath(a: Automaton, room: nat, n: nat, lo: nat, p: seq<nat>)
    requires a.Valid() && n < a.nodesCount && a.First(n) <= lo < a.Last(n) && room > 0
    requires !a.nodes[a.relations[lo].childNo].isFinal && PathFor(a, room, n, lo, lo + 1, p)
    ensures p != [] && p == [lo] + p[1..]
    ensures var child := a.relations[lo].childNo;
            PathFor(a, room - 1, child, a.First(child), a.Last(child), p[1..])
  {
  }

  lemma OrderBehind(lo: nat, below: seq<seq<nat>>)
    requires InOrder(below)
    ensures InOrder(Behind(lo, below))
  {
    hide Earlier;
    forall i, j | 0 <= i < j < |below| ensures Earlier([lo] + below[i], [lo] + below[j]) {
      EarlierBehind(lo, below[i], below[j]);
    }
  }

  lemma EarlierBehind(lo: nat, p: seq<nat>, q: seq<nat>)
    requires Earlier(p, q)
    ensures Earlier([lo] + p, [lo] + q)
  {
    var k: nat :| EarlierAt(p, q, k);
    assert ([lo] + p)[..k + 1] == [lo] + p[..k] && ([lo] + q)[..k + 1] == [lo] + q[..k];
    assert EarlierAt([lo] + p, [lo] + q, k + 1);
  }

  lemma ListsConcat(a: Automaton, room: nat, n: nat, lo: nat, mid: nat, hi: nat, path: seq<byte>,
                    numbers: seq<int>, paths: seq<seq<nat>>, more: seq<int>, others: seq<seq<nat>>)
    requires a.Valid() && n < a.nodesCount && lo <= mid <= hi
    requires Lists(a, room, n, lo, mid, path, numbers, paths) && Lists(a, room, n, mid, hi, path, more, others)
    ensures Lists(a, room, n, lo, hi, path, numbers + more, paths + others)
  {
    hide NumberOf, PathFor, InOrder;
    forall p ensures PathFor(a, room, n, lo, hi, p) <==>
                       PathFor(a, room, n, lo, mid, p) || PathFor(a, room, n, mid, hi, p) {
      EitherSide(a, room, n, lo, mid, hi, p);
    }
    OrderConcat(a, room, n, lo, mid, hi, paths, others);
  }

  lemma EitherSide(a: Automaton, room: nat, n: nat, lo: nat, mid: nat, hi: nat, p: seq<nat>)
    requires a.Valid() && n < a.nodesCount && lo <= mid <= hi
    ensures PathFor(a, room, n, lo, hi, p) <==> PathFor(a, room, n, lo, mid, p) || PathFor(a, room, n, mid, hi, p)
  {
    hide FinalPath;
  }

  lemma OrderConcat(a: Automaton, room: nat, n: nat, lo: nat, mid: nat, hi: nat,
                    paths: seq<seq<nat>>, others: seq<seq<nat>>)
    requires a.Valid() && n < a.nodesCount && InOrder(paths) && InOrder(others)
    requires forall i :: 0 <= i < |paths| ==> PathFor(a, room, n, lo, mid, paths[i])
    requires forall i :: 0 <= i < |others| ==> PathFor(a, room, n, mid, hi, others[i])
    ensures InOrder(paths + others)
  {
    hide Earlier;
    forall i, j | 0 <= i < |paths| && 0 <= j < |others| ensures Earlier(paths[i], others[j]) {
      EarlierStart(a, room, n, lo, mid, hi, paths[i], others[j]);
    }
  }

  lemma EarlierStart(a: Automaton, room: nat, n: nat, lo: nat, mid: nat, hi: nat, p: seq<nat>, q: seq<nat>)
    requires a.Valid() && n < a.nodesCount
    requires PathFor(a, room, n, lo, mid, p) && PathFor(a, room, n, mid, hi, q)
    ensures Earlier(p, q)
  {
    assert EarlierAt(p, q, 0);
  }

  /** Every interpretation of a word form: what lies behind the form and the annotation
      character, closed by AOT_NOFORM. */
  ghost function Interpretations(a: Automaton, text: seq<byte>): seq<int>
    requires a.Valid() && a.nodesCount > 0
  {
    var r := Follow(a, 0, text + [AOT_MORPH_ANNOT_CHAR]);
    (if r == -1 then [] else PathsFrom(a, MAX_DEPTH - 1, r, a.First(r), [])) + [AOT_NOFORM]
  }

  /** The interpretations are the numbers of all paths of at most MAX_DEPTH relations from the node the form leads to,
      in the order of the relations. */
  lemma InterpretationsListed(a: Automaton, text: seq<byte>) returns (paths: seq<seq<nat>>)
    requires a.Valid() && a.nodesCount > 0
    ensures
      var r, all := Follow(a, 0, text + [AOT_MORPH_ANNOT_CHAR]), Interpretations(a, text);
      && |all| == |paths| + 1 && all[|paths|] == AOT_NOFORM
      && (r == -1 ==> paths == [])
      && (r != -1 ==> Lists(a, MAX_DEPTH - 1, r, a.First(r), a.Last(r), [], all[..|paths|], paths))
  {
    hide Lists, Follow, PathsFrom;
    paths := [];
    var r := Follow(a, 0, text + [AOT_MORPH_ANNOT_CHAR]);
    if r != -1 {
      paths := PathsListed(a, MAX_DEPTH - 1, r, a.First(r), []);
      var numbers := PathsFrom(a, MAX_DEPTH - 1, r, a.First(r), []);
      SameLength(a, r, numbers, paths);
      assert (numbers + [AOT_NOFORM])[..|paths|] == numbers;
    }
  }

  lemma SameLength(a: Automaton, n: nat, numbers: seq<int>, paths: seq<seq<nat>>)
    requires a.Valid() && n < a.nodesCount
    requires Lists(a, MAX_DEPTH - 1, n, a.First(n), a.Last(n), [], numbers, paths)
    ensures |numbers| == |paths|
  {
  }
}
