/** The operations on the automaton (class CMorphAutomat of src/sphinxaot.cpp): the
    child cache and the walk with explicit stacks. */
module MorphWalk {
  import opened Integers
  import opened MorphAutomaton

  /** One level of the walk: a node, the next relation to try, and the path to the node. */
  datatype Frame = Frame(node: nat, next: nat, path: seq<byte>)

  ghost predicate FrameOk(a: Automaton, f: Frame)
    requires a.Valid()
  {
    f.node < a.nodesCount && a.First(f.node) <= f.next <= a.Last(f.node)
  }

  /** The levels of the walk; each is one relation further on. */
  ghost predicate FramesOk(a: Automaton, frames: seq<Frame>)
    requires a.Valid()
  {
    |frames| <= MAX_DEPTH && forall k :: 0 <= k < |frames| ==> FrameOk(a, frames[k]) && |frames[k].path| == k
  }

  /** The levels that may still be opened below some that are open. */
  function Room(open: nat): nat
    requires 0 < open <= MAX_DEPTH
  {
    MAX_DEPTH - open
  }

  /** What is still to be listed: the rest of the top level, then the levels below it. */
  ghost function Remaining(a: Automaton, frames: seq<Frame>): seq<int>
    requires a.Valid() && FramesOk(a, frames)
  {
    if frames == [] then []
    else
      var top := frames[|frames| - 1];
      assert FrameOk(a, top);
      PathsFrom(a, Room(|frames|), top.node, top.next, top.path) + Remaining(a, frames[..|frames| - 1])
  }

  /** Some path still to be walked takes too many levels. */
  ghost predicate TooDeepAhead(a: Automaton, frames: seq<Frame>)
    requires a.Valid() && FramesOk(a, frames)
  {
    frames != [] &&
      var top := frames[|frames| - 1];
      assert FrameOk(a, top);
      TooDeep(a, Room(|frames|), top.node, top.next) || TooDeepAhead(a, frames[..|frames| - 1])
  }

  /** Relations still to be tried below relation lo of a node, and levels to be opened. */
  ghost function Work(a: Automaton, room: nat, n: nat, lo: nat): nat
    requires a.Valid() && n < a.nodesCount && a.First(n) <= lo <= a.Last(n)
    decreases room, a.Last(n) - lo
  {
    if lo == a.Last(n) then 0
    else
      var child := a.relations[lo].childNo;
      1 + (if a.nodes[child].isFinal || room == 0 then 0 else 1 + Work(a, room - 1, child, a.First(child)))
        + Work(a, room, n, lo + 1)
  }

  ghost function TotalWork(a: Automaton, frames: seq<Frame>): nat
    requires a.Valid() && FramesOk(a, frames)
  {
    if frames == [] then 0
    else
      var top := frames[|frames| - 1];
      assert FrameOk(a, top);
      1 + Work(a, Room(|frames|), top.node, top.next) + TotalWork(a, frames[..|frames| - 1])
  }

  /** The top level moves on to its next relation. */
  function Moved(frames: seq<Frame>): (r: seq<Frame>)
    requires frames != []
    ensures |r| == |frames|
  {
    var top := frames[|frames| - 1];
    frames[..|frames| - 1] + [top.(next := top.next + 1)]
  }

  /** ... and a level is opened for the child of the relation just tried. */
  function Deeper(a: Automaton, frames: seq<Frame>): (r: seq<Frame>)
    requires a.Valid() && frames != [] && FrameOk(a, frames[|frames| - 1])
    requires frames[|frames| - 1].next < a.Last(frames[|frames| - 1].node)
    ensures |r| == |frames| + 1
  {
    var top := frames[|frames| - 1];
    var rel := a.relations[top.next];
    Moved(frames) + [Frame(rel.childNo, a.First(rel.childNo), top.path + [rel.relChar])]
  }

  /** One level on top of others. */
  lemma TopOff(a: Automaton, below: seq<Frame>, top: Frame)
    requires a.Valid() && FramesOk(a, below) && FrameOk(a, top) && |top.path| == |below| < MAX_DEPTH
    ensures FramesOk(a, below + [top])
    ensures
      var room := Room(|below| + 1);
      && Remaining(a, below + [top]) == PathsFrom(a, room, top.node, top.next, top.path) + Remaining(a, below)
      && TotalWork(a, below + [top]) == 1 + Work(a, room, top.node, top.next) + TotalWork(a, below)
      && (TooDeepAhead(a, below + [top]) <==> TooDeep(a, room, top.node, top.next) || TooDeepAhead(a, below))
  {
    hide PathsFrom, Work, TooDeep;
    assert (below + [top])[..|below|] == below;
  }

  lemma OneWork(a: Automaton, room: nat, n: nat, lo: nat)
    requires a.Valid() && n < a.nodesCount && a.First(n) <= lo < a.Last(n)
    ensures
      var child := a.relations[lo].childNo;
      Work(a, room, n, lo)
      == 1 + (if a.nodes[child].isFinal || room == 0 then 0 else 1 + Work(a, room - 1, child, a.First(child)))
           + Work(a, room, n, lo + 1)
  {
  }

  /** Of an open walk, the levels below the top and the top itself. */
  lemma TopFrameOk(a: Automaton, frames: seq<Frame>)
    requires a.Valid() && frames != [] && FramesOk(a, frames)
    ensures FrameOk(a, frames[|frames| - 1]) && FramesOk(a, frames[..|frames| - 1])
    ensures |frames| <= MAX_DEPTH && |frames[|frames| - 1].path| == |frames| - 1
    ensures frames == frames[..|frames| - 1] + [frames[|frames| - 1]]
  {
  }

  lemma Prepend<T>(x: T, s: seq<T>, t: seq<T>)
    ensures ([x] + s) + t == [x] + (s + t)
  {
  }

  lemma Associate<T>(s: seq<T>, t: seq<T>, u: seq<T>)
    ensures (s + t) + u == s + (t + u)
  {
  }

  /** A final child: its interpretation is listed and the level moves on. */
  lemma StepFinal(a: Automaton, frames: seq<Frame>)
    requires a.Valid() && frames != [] && FramesOk(a, frames)
    requires frames[|frames| - 1].next < a.Last(frames[|frames| - 1].node)
    requires a.nodes[a.relations[frames[|frames| - 1].next].childNo].isFinal
    ensures FramesOk(a, Moved(frames))
    ensures
      var top := frames[|frames| - 1];
      Remaining(a, frames)
      == [Value(a, top.path + [a.relations[top.next].relChar]) % U32] + Remaining(a, Moved(frames))
    ensures TotalWork(a, Moved(frames)) < TotalWork(a, frames)
    ensures TooDeepAhead(a, Moved(frames)) <==> TooDeepAhead(a, frames)
  {
    hide Value, Remaining, TotalWork, PathsFrom, Work, FramesOk, TooDeep, TooDeepAhead;
    TopFrameOk(a, frames);
    var below, top := frames[..|frames| - 1], frames[|frames| - 1];
    var moved := top.(next := top.next + 1);
    assert Moved(frames) == below + [moved];
    TopOff(a, below, top);
    TopOff(a, below, moved);
    OneRelation(a, Room(|frames|), top.node, top.next, top.path);
    OneWork(a, Room(|frames|), top.node, top.next);
    Prepend(Value(a, top.path + [a.relations[top.next].relChar]) % U32,
            PathsFrom(a, Room(|frames|), top.node, top.next + 1, top.path), Remaining(a, below));
  }

  /** Another child: a level is opened for it, on the level that moved on; unless all are in use, and then the path
      is too deep. */
  lemma StepInto(a: Automaton, frames: seq<Frame>)
    requires a.Valid() && frames != [] && FramesOk(a, frames) && |frames| < MAX_DEPTH
    requires frames[|frames| - 1].next < a.Last(frames[|frames| - 1].node)
    requires !a.nodes[a.relations[frames[|frames| - 1].next].childNo].isFinal
    ensures FrameOk(a, frames[|frames| - 1]) && FramesOk(a, Deeper(a, frames))
    ensures Remaining(a, frames) == Remaining(a, Deeper(a, frames))
    ensures TotalWork(a, Deeper(a, frames)) < TotalWork(a, frames)
    ensures TooDeepAhead(a, Deeper(a, frames)) <==> TooDeepAhead(a, frames)
  {
    hide Value, Remaining, TotalWork, PathsFrom, Work, FramesOk, TooDeep, TooDeepAhead;
    TopFrameOk(a, frames);
    var below, top := frames[..|frames| - 1], frames[|frames| - 1];
    var rel, moved := a.relations[top.next], top.(next := top.next + 1);
    var child := Frame(rel.childNo, a.First(rel.childNo), top.path + [rel.relChar]);
    assert Deeper(a, frames) == below + [moved] + [child];
    TopOff(a, below, top);
    TopOff(a, below, moved);
    TopOff(a, below + [moved], child);
    OneRelation(a, Room(|frames|), top.node, top.next, top.path);
    OneWork(a, Room(|frames|), top.node, top.next);
    Associate(PathsFrom(a, Room(|frames| + 1), child.node, child.next, child.path),
              PathsFrom(a, Room(|frames|), top.node, top.next + 1, top.path), Remaining(a, below));
  }

  lemma NoLevelLeft(a: Automaton, frames: seq<Frame>)
    requires a.Valid() && FramesOk(a, frames) && |frames| == MAX_DEPTH
    requires frames[|frames| - 1].next < a.Last(frames[|frames| - 1].node)
    requires !a.nodes[a.relations[frames[|frames| - 1].next].childNo].isFinal
    ensures TooDeepAhead(a, frames)
  {
    hide PathsFrom, TooDeep;
    TopFrameOk(a, frames);
    var top := frames[|frames| - 1];
    OneRelation(a, 0, top.node, top.next, top.path);
  }

  /** A level with no relation left is closed. */
  lemma StepOut(a: Automaton, frames: seq<Frame>)
    requires a.Valid() && frames != [] && FramesOk(a, frames)
    requires frames[|frames| - 1].next == a.Last(frames[|frames| - 1].node)
    ensures FramesOk(a, frames[..|frames| - 1])
    ensures Remaining(a, frames) == Remaining(a, frames[..|frames| - 1])
    ensures TotalWork(a, frames[..|frames| - 1]) < TotalWork(a, frames)
    ensures TooDeepAhead(a, frames[..|frames| - 1]) <==> TooDeepAhead(a, frames)
  {
    hide Value, Remaining, TotalWork, PathsFrom, Work, FramesOk, TooDeep, TooDeepAhead;
    TopFrameOk(a, frames);
    var top := frames[|frames| - 1];
    TopOff(a, frames[..|frames| - 1], top);
    NoRelation(a, Room(|frames|), top.node, top.path);
  }

  class MorphAutomat {
    const a: Automaton
    var cacheSize: nat
    var childrenCache: seq<int>

    constructor (a: Automaton)
      requires a.Valid()
      ensures this.a == a && cacheSize == 0 && childrenCache == []
    {
      this.a := a;
      cacheSize := 0;
      childrenCache := [];
    }

    /** The fixed-size stacks hold the frames. */
    ghost predicate Holds(frames: seq<Frame>, child: seq<nat>, childMax: seq<nat>, path: seq<byte>)
      requires a.Valid()
    {
      && |child| == |childMax| == |path| == MAX_DEPTH && |frames| <= MAX_DEPTH
      && forall k :: 0 <= k < |frames| ==>
           && FrameOk(a, frames[k])
           && child[k] == frames[k].next && childMax[k] == a.Last(frames[k].node)
           && path[..k] == frames[k].path
    }

    /** Stores one more code. */
    method Emit(infos: array<int>, count: nat, info: int)
      requires count < infos.Length
      modifies infos
      ensures infos[..count + 1] == old(infos[..count]) + [info]
      ensures infos[count + 1..] == old(infos[count..])[1..]
    {
      infos[count] := info;
    }

    /** Tries one more relation of the top level: lists the path to a final child, or opens a level, or finds no
        level left to open. */
    method TryRelation(child: seq<nat>, childMax: seq<nat>, path: seq<byte>, level: nat, infos: array<int>, count: nat,
                       ghost frames: seq<Frame>)
      returns (ok: bool, child': seq<nat>, childMax': seq<nat>, path': seq<byte>, level': nat, count': nat,
               ghost frames': seq<Frame>)
      requires a.Valid() && FramesOk(a, frames) && Holds(frames, child, childMax, path)
      requires |child| == |childMax| == |path| == MAX_DEPTH && |frames| == level + 1 && level < MAX_DEPTH
      requires child[level] < childMax[level] && count + |Remaining(a, frames)| <= infos.Length
      modifies infos
      ensures !ok ==> TooDeepAhead(a, frames) && infos[..] == old(infos[..]) && count' == count
      ensures ok ==>
                && FramesOk(a, frames') && Holds(frames', child', childMax', path')
                && |child'| == |childMax'| == |path'| == MAX_DEPTH && |frames'| == level' + 1 && level' < MAX_DEPTH
                && count <= count' && count' + |Remaining(a, frames')| <= infos.Length
                && infos[..count'] + Remaining(a, frames') == old(infos[..count]) + Remaining(a, frames)
                && infos[count'..] == old(infos[count..])[count' - count..]
                && TotalWork(a, frames') < TotalWork(a, frames)
                && (TooDeepAhead(a, frames') <==> TooDeepAhead(a, frames))
    {
      hide Value, Remaining, TotalWork, Holds, FramesOk, Automaton.Valid, Moved, Deeper, TooDeepAhead;
      TopFrame(frames, child, childMax, path);
      RelationAt(frames[level].node, child[level]);
      var rel := a.relations[child[level]];
      Advance(frames, child, childMax, path);
      ok, child', childMax', path', level', count' := true, child, childMax, path, level, count;
      frames' := frames;
      path' := path'[level := rel.relChar];
      child' := child'[level := child'[level] + 1];
      if a.nodes[rel.childNo].isFinal {
        StepFinal(a, frames);
        var info := DecodeFromAlphabet(a, path'[..level + 1]);
        frames' := Moved(frames);
        ConsLength(info, Remaining(a, frames'), infos[..count]);
        Emit(infos, count, info);
        count' := count + 1;
      } else {
        level' := level + 1;
        if level' == MAX_DEPTH {
          NoLevelLeft(a, frames);
          ok := false;
          return;
        }
        StepInto(a, frames);
        child' := child'[level' := a.First(rel.childNo)];
        childMax' := childMax'[level' := a.Last(rel.childNo)];
        frames' := Deeper(a, frames);
      }
    }

    lemma ConsLength<T>(x: T, s: seq<T>, before: seq<T>)
      ensures |[x] + s| == |s| + 1 && before + ([x] + s) == before + [x] + s
    {
    }

    /** The walk from node r: it gets through iff no path from r takes more levels than there are, and then lists
        every path from r to the first final node on it. */
    method ListPaths(r: nat, infos: array<int>) returns (ok: bool, count: nat)
      requires a.Valid() && r < a.nodesCount
      requires |PathsFrom(a, MAX_DEPTH - 1, r, a.First(r), [])| <= infos.Length
      modifies infos
      ensures ok <==> !TooDeep(a, MAX_DEPTH - 1, r, a.First(r))
      ensures ok <==> !exists rels :: |rels| == MAX_DEPTH && InnerPath(a, r, rels)
      ensures count <= infos.Length && infos[..count] <= PathsFrom(a, MAX_DEPTH - 1, r, a.First(r), [])
      ensures ok ==> infos[..count] == PathsFrom(a, MAX_DEPTH - 1, r, a.First(r), [])
      ensures infos[count..] == old(infos[count..])
    {
      hide Value, Remaining, TotalWork, PathsFrom, Holds, FramesOk, TooDeep, TooDeepAhead, InnerPath;
      TooDeepIsPath(a, MAX_DEPTH - 1, r);
      ok, count := true, 0;
      var level := 0;
      var path: seq<byte> := seq(MAX_DEPTH, _ => 0);
      var child: seq<nat> := seq(MAX_DEPTH, _ => 0);
      var childMax: seq<nat> := seq(MAX_DEPTH, _ => 0);
      child := child[0 := a.First(r)];
      childMax := childMax[0 := a.Last(r)];
      ghost var frames := [Frame(r, a.First(r), [])];
      Begin(r, child, childMax, path);
      ghost var entry := infos[..];
      assert infos[0..] == entry[0..] && infos[..0] == [];
      while level >= 0
        invariant |frames| == level + 1 && FramesOk(a, frames) && Holds(frames, child, childMax, path)
        invariant count <= infos.Length && infos[count..] == entry[count..]
        invariant infos[..count] + Remaining(a, frames) == PathsFrom(a, MAX_DEPTH - 1, r, a.First(r), [])
        invariant TooDeepAhead(a, frames) <==> TooDeep(a, MAX_DEPTH - 1, r, a.First(r))
        decreases TotalWork(a, frames)
      {
        ghost var outer := TotalWork(a, frames);
        TopFrame(frames, child, childMax, path);
        while child[level] < childMax[level]
          invariant 0 <= level && |frames| == level + 1 && level < MAX_DEPTH
          invariant FramesOk(a, frames) && Holds(frames, child, childMax, path)
          invariant |child| == |childMax| == |path| == MAX_DEPTH
          invariant count <= infos.Length && infos[count..] == entry[count..]
          invariant infos[..count] + Remaining(a, frames) == PathsFrom(a, MAX_DEPTH - 1, r, a.First(r), [])
          invariant TooDeepAhead(a, frames) <==> TooDeep(a, MAX_DEPTH - 1, r, a.First(r))
          invariant TotalWork(a, frames) <= outer
          decreases TotalWork(a, frames)
        {
          ok, child, childMax, path, level, count, frames :=
            TryRelation(child, childMax, path, level, infos, count, frames);
          if !ok {
            return;
          }
        }
        TopFrame(frames, child, childMax, path);
        StepOut(a, frames);
        Close(frames, child, childMax, path);
        level := level - 1;
        frames := frames[..|frames| - 1];
      }
      NothingAhead();
    }

    lemma Begin(r: nat, child: seq<nat>, childMax: seq<nat>, path: seq<byte>)
      requires a.Valid() && r < a.nodesCount && |child| == |childMax| == |path| == MAX_DEPTH
      requires child[0] == a.First(r) && childMax[0] == a.Last(r)
      ensures
        var frames := [Frame(r, a.First(r), [])];
        && FramesOk(a, frames) && Holds(frames, child, childMax, path)
        && Remaining(a, frames) == PathsFrom(a, MAX_DEPTH - 1, r, a.First(r), [])
        && (TooDeepAhead(a, frames) <==> TooDeep(a, MAX_DEPTH - 1, r, a.First(r)))
    {
      hide PathsFrom, TooDeep;
      var frames := [Frame(r, a.First(r), [])];
      assert frames[..0] == [];
    }

    lemma NothingAhead()
      requires a.Valid()
      ensures FramesOk(a, []) && Remaining(a, []) == [] && !TooDeepAhead(a, [])
    {
    }

    lemma RelationAt(n: nat, r: nat)
      requires a.Valid() && n < a.nodesCount && r < a.Last(n)
      ensures r < |a.relations| && |a.nodes| == a.nodesCount + 1
      ensures a.relations[r].childNo < a.nodesCount && |a.codeNoAnnot| == 256 && a.alphabetSize >= 1
    {
    }

    /** The stacks show the top level. */
    lemma TopFrame(frames: seq<Frame>, child: seq<nat>, childMax: seq<nat>, path: seq<byte>)
      requires a.Valid() && frames != [] && FramesOk(a, frames)
      requires Holds(frames, child, childMax, path)
      ensures |child| == |childMax| == |path| == MAX_DEPTH
      ensures var level := |frames| - 1;
              && level < MAX_DEPTH && FrameOk(a, frames[level])
              && child[level] == frames[level].next && childMax[level] == a.Last(frames[level].node)
              && path[..level] == frames[level].path
    {
    }

    /** Trying one relation moves the top level on, and may open another one. */
    lemma Advance(frames: seq<Frame>, child: seq<nat>, childMax: seq<nat>, path: seq<byte>)
      requires a.Valid() && frames != [] && FramesOk(a, frames)
      requires Holds(frames, child, childMax, path)
      requires |child| == |childMax| == |path| == MAX_DEPTH
      requires child[|frames| - 1] < childMax[|frames| - 1]
      ensures var level := |frames| - 1;
              var rel := a.relations[child[level]];
              var child', path' := child[level := child[level] + 1], path[level := rel.relChar];
              && path'[..level + 1] == frames[level].path + [rel.relChar]
              && Holds(Moved(frames), child', childMax, path')
              && (|frames| < MAX_DEPTH ==>
                    Holds(Deeper(a, frames), child'[level + 1 := a.First(rel.childNo)],
                          childMax[level + 1 := a.Last(rel.childNo)], path'))
    {
      var level := |frames| - 1;
      var rel := a.relations[child[level]];
      var path' := path[level := rel.relChar];
      assert path'[..level + 1] == path[..level] + [rel.relChar];
      forall k | 0 <= k <= level ensures path'[..k] == path[..k] {
      }
    }

    /** Closing the top level leaves the lower ones as they are. */
    lemma Close(frames: seq<Frame>, child: seq<nat>, childMax: seq<nat>, path: seq<byte>)
      requires a.Valid() && frames != [] && Holds(frames, child, childMax, path)
      ensures Holds(frames[..|frames| - 1], child, childMax, path)
    {
    }

    // ---------- the child cache ----------

    /** What the cache answers for one node and one alphabet code. */
    ghost predicate CacheRow(n: nat, upTo: nat)
      requires a.Valid() && n < a.nodesCount && a.First(n) <= upTo <= a.Last(n)
      reads this`childrenCache
    {
      && |childrenCache| >= (n + 1) * AOT_MAX_ALPHABET_SIZE
      && forall c: byte :: a.code[c] != -1 ==>
           childrenCache[n * AOT_MAX_ALPHABET_SIZE + a.code[c]] == Scan(a, a.First(n), upTo, c)
    }

    /** The first cacheSize nodes are cached. */
    ghost predicate CacheOk()
      requires a.Valid()
      reads this
    {
      && cacheSize <= a.nodesCount && |childrenCache| == cacheSize * AOT_MAX_ALPHABET_SIZE
      && forall n: nat :: n < cacheSize ==> CacheRow(n, a.Last(n))
    }

    /** BuildChildrenCache: the size is given in bytes. */
    method BuildChildrenCache(bytes: int)
      requires a.Valid() && DistinctChars(a) && InjectiveCodes(a)
      modifies this
      ensures CacheOk()
      ensures cacheSize == if bytes < 0 then 0
                           else if bytes / (AOT_MAX_ALPHABET_SIZE * 4) < a.nodesCount
                              then bytes / (AOT_MAX_ALPHABET_SIZE * 4)
                           else a.nodesCount
    {
      hide Scan, DistinctChars, InjectiveCodes;
      var size := if bytes < 0 then 0 else bytes / (AOT_MAX_ALPHABET_SIZE * 4);
      cacheSize := if size < a.nodesCount then size else a.nodesCount;
      childrenCache := seq(cacheSize * AOT_MAX_ALPHABET_SIZE, _ => -1);
      for n := 0 to cacheSize
        invariant |childrenCache| == cacheSize * AOT_MAX_ALPHABET_SIZE
        invariant forall m: nat :: m < n ==> CacheRow(m, a.Last(m))
        invariant forall k :: n * AOT_MAX_ALPHABET_SIZE <= k < |childrenCache| ==> childrenCache[k] == -1
        modifies this`childrenCache
      {
        FillRow(n);
      }
    }

    /** The relations of one node go into its row. */
    method FillRow(n: nat)
      requires a.Valid() && DistinctChars(a) && InjectiveCodes(a) && n < cacheSize <= a.nodesCount
      requires |childrenCache| == cacheSize * AOT_MAX_ALPHABET_SIZE
      requires forall k :: n * AOT_MAX_ALPHABET_SIZE <= k < |childrenCache| ==> childrenCache[k] == -1
      requires forall m: nat :: m < n ==> CacheRow(m, a.Last(m))
      modifies this`childrenCache
      ensures |childrenCache| == |old(childrenCache)|
      ensures forall k :: (n + 1) * AOT_MAX_ALPHABET_SIZE <= k < |childrenCache| ==> childrenCache[k] == -1
      ensures forall m: nat :: m < n + 1 ==> CacheRow(m, a.Last(m))
    {
      hide Scan, DistinctChars, InjectiveCodes;
      EmptyRow(n);
      for r := a.First(n) to a.Last(n)
        invariant |childrenCache| == |old(childrenCache)|
        invariant forall k :: (n + 1) * AOT_MAX_ALPHABET_SIZE <= k < |childrenCache| ==> childrenCache[k] == -1
        invariant forall k :: 0 <= k < n * AOT_MAX_ALPHABET_SIZE ==> childrenCache[k] == old(childrenCache)[k]
        invariant CacheRow(n, r)
      {
        var rel := a.relations[r];
        forall c: byte
          ensures Scan(a, a.First(n), r + 1, c)
                  == if rel.relChar == c then rel.childNo else Scan(a, a.First(n), r, c) {
          ScanSnoc(a, n, r, c);
        }
        CodeInRange(n, r);
        childrenCache := childrenCache[n * AOT_MAX_ALPHABET_SIZE + a.code[rel.relChar] := rel.childNo];
      }
      forall m: nat | m < n ensures CacheRow(m, a.Last(m)) {
        assert old(CacheRow(m, a.Last(m)));
      }
    }

    lemma EmptyRow(n: nat)
      requires a.Valid() && n < a.nodesCount && |childrenCache| >= (n + 1) * AOT_MAX_ALPHABET_SIZE
      requires forall k :: n * AOT_MAX_ALPHABET_SIZE <= k < (n + 1) * AOT_MAX_ALPHABET_SIZE ==> childrenCache[k] == -1
      ensures CacheRow(n, a.First(n))
    {
    }

    lemma CodeInRange(n: nat, r: nat)
      requires a.Valid() && DistinctChars(a) && InjectiveCodes(a) && n < a.nodesCount && a.First(n) <= r < a.Last(n)
      ensures 0 <= a.code[a.relations[r].relChar] < AOT_MAX_ALPHABET_SIZE
      ensures forall c: byte :: a.code[c] == a.code[a.relations[r].relChar] ==> c == a.relations[r].relChar
    {
      assert NodeChars(a, n);
    }

    /** NextNode: from the cache for the first nodes, by scanning for the others; either
        way it is the child the linear scan finds. */
    method NextNode(n: nat, c: byte) returns (child: int)
      requires a.Valid() && DistinctChars(a) && InjectiveCodes(a) && n < a.nodesCount && CacheOk()
      ensures child == Child(a, n, c)
    {
      if n < cacheSize {
        assert CacheRow(n, a.Last(n));
        var z := a.code[c];
        if z == -1 {
          NoSuchChar(a, n, a.First(n), c);
          return -1;
        }
        return childrenCache[n * AOT_MAX_ALPHABET_SIZE + z];
      } else {
        var r := a.First(n);
        while r != a.Last(n)
          invariant a.First(n) <= r <= a.Last(n)
          invariant Scan(a, r, a.Last(n), c) == Child(a, n, c)
          decreases a.Last(n) - r
        {
          if c == a.relations[r].relChar {
            return a.relations[r].childNo;
          }
          r := r + 1;
        }
        return -1;
      }
    }

    /** FindStringAndPassAnnotChar. */
    method FindStringAndPassAnnotChar(text: seq<byte>) returns (r: int)
      requires a.Valid() && DistinctChars(a) && InjectiveCodes(a) && a.nodesCount > 0 && CacheOk()
      ensures r == Follow(a, 0, text + [AOT_MORPH_ANNOT_CHAR])
    {
      hide Scan;
      var n := 0;
      for k := 0 to |text|
        invariant 0 <= n < a.nodesCount
        invariant Follow(a, n, text[k..] + [AOT_MORPH_ANNOT_CHAR]) == Follow(a, 0, text + [AOT_MORPH_ANNOT_CHAR])
      {
        var left := text[k..] + [AOT_MORPH_ANNOT_CHAR];
        assert left[0] == text[k] && left[1..] == text[k + 1..] + [AOT_MORPH_ANNOT_CHAR];
        var next := NextNode(n, text[k]);
        if next == -1 {
          return -1;
        }
        n := next;
      }
      assert text[|text|..] + [AOT_MORPH_ANNOT_CHAR] == [AOT_MORPH_ANNOT_CHAR];
      r := NextNode(n, AOT_MORPH_ANNOT_CHAR);
      assert r != -1 ==> Follow(a, r, []) == r;
    }

    /** GetInnerMorphInfos: fills the buffer with all interpretations of a word form, unless some path behind the
        form takes too many levels. */
    method GetInnerMorphInfos(text: seq<byte>, infos: array<int>) returns (ok: bool)
      requires a.Valid() && DistinctChars(a) && InjectiveCodes(a) && a.nodesCount > 0 && CacheOk()
      requires |Interpretations(a, text)| <= infos.Length
      modifies infos
      ensures
        var r := Follow(a, 0, text + [AOT_MORPH_ANNOT_CHAR]);
        ok <==> r == -1 || !exists rels :: |rels| == MAX_DEPTH && InnerPath(a, r, rels)
      ensures ok ==>
                && infos[..|Interpretations(a, text)|] == Interpretations(a, text)
                && infos[|Interpretations(a, text)|..] == old(infos[|Interpretations(a, text)|..])
    {
      hide Scan, Value, PathsFrom, Follow, CacheOk, TooDeep, InnerPath;
      infos[0] := AOT_NOFORM;
      var r := FindStringAndPassAnnotChar(text);
      if r == -1 {
        return true;
      }
      var count;
      ok, count := ListPaths(r, infos);
      if ok {
        infos[count] := AOT_NOFORM;
      }
    }
  }

  /** Relations of a node carry different characters of the alphabet. */
  ghost predicate DistinctChars(a: Automaton)
    requires a.Valid()
  {
    forall n: nat :: n < a.nodesCount ==> NodeChars(a, n)
  }

  ghost predicate NodeChars(a: Automaton, n: nat)
    requires a.Valid() && n < a.nodesCount
  {
    && (forall r :: a.First(n) <= r < a.Last(n) ==> a.code[a.relations[r].relChar] != -1)
    && forall q, r :: a.First(n) <= q < r < a.Last(n) ==> a.relations[q].relChar != a.relations[r].relChar
  }

  ghost predicate InjectiveCodes(a: Automaton)
    requires a.Valid()
  {
    forall c, d :: 0 <= c < 256 && 0 <= d < 256 && a.code[c] == a.code[d] != -1 ==> c == d
  }

  /** Scanning one relation more. */
  lemma ScanSnoc(a: Automaton, n: nat, r: nat, c: byte)
    requires a.Valid() && DistinctChars(a) && n < a.nodesCount && a.First(n) <= r < a.Last(n)
    ensures Scan(a, a.First(n), r + 1, c)
         == if a.relations[r].relChar == c then a.relations[r].childNo else Scan(a, a.First(n), r, c)
  {
    assert NodeChars(a, n);
    ScanFrom(a, n, a.First(n), r, c);
  }

  lemma {:induction false} ScanFrom(a: Automaton, n: nat, lo: nat, r: nat, c: byte)
    requires a.Valid() && n < a.nodesCount && NodeChars(a, n) && a.First(n) <= lo <= r < a.Last(n)
    ensures Scan(a, lo, r + 1, c) == if a.relations[r].relChar == c then a.relations[r].childNo else Scan(a, lo, r, c)
    decreases r - lo
  {
    if lo < r {
      ScanFrom(a, n, lo + 1, r, c);
    }
  }

  /** A character outside the alphabet is on no relation. */
  lemma {:induction false} NoSuchChar(a: Automaton, n: nat, lo: nat, c: byte)
    requires a.Valid() && DistinctChars(a) && n < a.nodesCount && a.First(n) <= lo <= a.Last(n) && a.code[c] == -1
    ensures Scan(a, lo, a.Last(n), c) == -1
    decreases a.Last(n) - lo
  {
    assert NodeChars(a, n);
    if lo < a.Last(n) {
      NoSuchChar(a, n, lo + 1, c);
    }
  }

  /** InitAlphabet: whatever the descriptor, no two characters share a code. */
  method InitAlphabet(size: int, code2Alpha: seq<byte>, code2AlphaWA: seq<byte>)
    returns (code: seq<int>, codeNoAnnot: seq<int>)
    requires 1 <= size <= AOT_MAX_ALPHABET_SIZE && |code2Alpha| >= size && |code2AlphaWA| >= size - 1
    ensures |code| == |codeNoAnnot| == 256
    ensures forall c :: 0 <= c < 256 ==> -1 <= code[c] < size && -1 <= codeNoAnnot[c] < size - 1
    ensures forall c, d :: 0 <= c < 256 && 0 <= d < 256 && code[c] == code[d] != -1 ==> c == d
    ensures forall c, d :: 0 <= c < 256 && 0 <= d < 256 && codeNoAnnot[c] == codeNoAnnot[d] != -1 ==> c == d
    ensures forall c :: 0 <= c < 256 ==> (code[c] != -1 <==> c in code2Alpha[..size])
  {
    code := seq(256, _ => -1);
    codeNoAnnot := seq(256, _ => -1);
    for i := 0 to size
      invariant |code| == 256
      invariant forall c :: 0 <= c < 256 ==> -1 <= code[c] < i && (code[c] != -1 ==> code2Alpha[code[c]] == c)
      invariant forall c :: 0 <= c < 256 ==> (code[c] != -1 <==> c in code2Alpha[..i])
    {
      assert code2Alpha[..i + 1] == code2Alpha[..i] + [code2Alpha[i]];
      code := code[code2Alpha[i] := i];
    }
    for i := 0 to size - 1
      invariant |codeNoAnnot| == 256
      invariant forall c :: 0 <= c < 256 ==>
                  -1 <= codeNoAnnot[c] < i && (codeNoAnnot[c] != -1 ==> code2AlphaWA[codeNoAnnot[c]] == c)
    {
      codeNoAnnot := codeNoAnnot[code2AlphaWA[i] := i];
    }
  }
}
