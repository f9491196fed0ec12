/** Sending a query into a buffer allocated at its exact size: the SendBytes family and BuildRequest of
    mysqlse/ha_sphinx.cc. */
module RequestBuilding {
  import opened Integers
  import opened RequestReading
  import opened SearchRequest
  import opened Vectors

  class RequestBuilder {
    var buf: array<byte>
    var cur: nat
    var left: int
    var overrun: bool

    ghost predicate Valid()
      reads this
    {
      left >= 0 && cur + left == buf.Length
    }

    ghost function Written(): (w: Bytes)
      requires Valid()
      reads this, buf
    {
      buf[..cur]
    }

    constructor ()
      ensures Valid() && fresh(buf)
    {
      buf := new byte[0];
      cur, left, overrun := 0, 0, false;
    }

    /** Copies the bytes if there is room for them, and only records the overrun if there is not. */
    method SendBytes(bytes: Bytes)
      requires Valid()
      modifies this`cur, this`left, this`overrun, buf
      ensures Valid()
      ensures |bytes| <= old(left) ==> Written() == old(Written()) + bytes
      ensures |bytes| <= old(left) ==> left == old(left) - |bytes| && overrun == old(overrun)
      ensures |bytes| > old(left) ==> Written() == old(Written()) && overrun
    {
      if left < |bytes| {
        overrun := true;
        return;
      }
      forall i | 0 <= i < |bytes| {
        buf[cur + i] := bytes[i];
      }
      cur := cur + |bytes|;
      left := left - |bytes|;
      assert buf[..cur] == old(buf[..cur]) + bytes;
    }

    method SendWord(v: int)
      requires Valid()
      modifies this`cur, this`left, this`overrun, buf
      ensures Valid()
      ensures old(left) >= 2 ==> Written() == old(Written()) + Word(v)
      ensures old(left) >= 2 ==> left == old(left) - 2 && overrun == old(overrun)
    {
      SendBytes(Word(v));
    }

    method SendDword(v: int)
      requires Valid()
      modifies this`cur, this`left, this`overrun, buf
      ensures Valid()
      ensures old(left) >= 4 ==> Written() == old(Written()) + Dword(v)
      ensures old(left) >= 4 ==> left == old(left) - 4 && overrun == old(overrun)
    {
      SendBytes(Dword(v));
    }

    method SendUint64(v: int)
      requires Valid()
      modifies this`cur, this`left, this`overrun, buf
      ensures Valid()
      ensures old(left) >= 8 ==> Written() == old(Written()) + Quad(v)
      ensures old(left) >= 8 ==> left == old(left) - 8 && overrun == old(overrun)
    {
      hide Dword;
      ghost var w := Written();
      SendDword(v / 0x1_0000_0000);
      SendDword(v);
      assert w + Quad(v) == w + Dword(v / 0x1_0000_0000) + Dword(v);
    }

    method SendString(s: Bytes)
      requires Valid()
      modifies this`cur, this`left, this`overrun, buf
      ensures Valid()
      ensures old(left) >= 4 + |s| ==> Written() == old(Written()) + Text(s)
      ensures old(left) >= 4 + |s| ==> left == old(left) - (4 + |s|) && overrun == old(overrun)
    {
      hide Dword;
      ghost var w := Written();
      SendDword(|s|);
      SendBytes(s);
      assert w + Text(s) == w + Dword(|s|) + s;
    }

    method SendCommand(body: int)
      requires Valid() && left >= 16
      modifies this`cur, this`left, this`overrun, buf
      ensures Valid() && Written() == PutCommand(old(Written()), body) && overrun == old(overrun)
      ensures left == old(left) - 16
    {
      hide Word, Dword;
      SendWord(SEARCHD_COMMAND_SEARCH);
      SendWord(VER_COMMAND_SEARCH);
      SendDword(body);
      SendDword(0);
      SendDword(1);
    }

    method SendModes(q: Query)
      requires Valid() && left >= 16 + RankSize(q)
      modifies this`cur, this`left, this`overrun, buf
      ensures Valid() && Written() == PutModes(old(Written()), q) && overrun == old(overrun)
      ensures left == old(left) - (16 + RankSize(q))
    {
      hide Dword, Text;
      SendDword(q.offset);
      SendDword(q.limit);
      SendDword(q.mode);
      SendDword(q.ranker);
      if q.ranker == SPH_RANK_EXPR {
        SendString(q.rankExpr);
      }
    }

    method SendDwords(vs: seq<int>)
      requires Valid() && left >= 4 * |vs|
      modifies this`cur, this`left, this`overrun, buf
      ensures Valid() && Written() == Dwords(old(Written()), vs) && overrun == old(overrun)
      ensures left == old(left) - 4 * |vs|
    {
      hide Dword;
      for j := 0 to |vs|
        invariant Valid() && Written() == Dwords(old(Written()), vs[..j]) && overrun == old(overrun)
        invariant left == old(left) - 4 * j
      {
        SendDword(vs[j]);
        assert vs[..j + 1][..j] == vs[..j];
      }
      assert vs[..|vs|] == vs;
    }

    method SendQuads(vs: seq<int>)
      requires Valid() && left >= 8 * |vs|
      modifies this`cur, this`left, this`overrun, buf
      ensures Valid() && Written() == Quads(old(Written()), vs) && overrun == old(overrun)
      ensures left == old(left) - 8 * |vs|
    {
      hide Quad;
      for k := 0 to |vs|
        invariant Valid() && Written() == Quads(old(Written()), vs[..k]) && overrun == old(overrun)
        invariant left == old(left) - 8 * k
      {
        SendUint64(vs[k]);
        assert vs[..k + 1][..k] == vs[..k];
      }
      assert vs[..|vs|] == vs;
    }

    method SendMatching(q: Query)
      requires Valid() && left >= MatchingSize(q)
      modifies this`cur, this`left, this`overrun, buf
      ensures Valid() && Written() == PutMatching(old(Written()), q) && overrun == old(overrun)
      ensures left == old(left) - MatchingSize(q)
    {
      hide Dword, Quad, Text, Dwords;
      SendDword(q.sort);
      SendString(q.sortBy);
      SendString(q.query);
      SendDword(|q.weights|);
      SendDwords(q.weights);
      SendString(q.index);
      SendDword(1);
      SendUint64(q.minId);
      SendUint64(q.maxId);
    }

    method SendCriterion(c: Criterion)
      requires Valid() && left >= CriterionSize(c)
      modifies this`cur, this`left, this`overrun, buf
      ensures Valid() && Written() == PutCriterion(old(Written()), c) && overrun == old(overrun)
      ensures left == old(left) - CriterionSize(c)
    {
      hide Dword, Quad, Quads;
      match c {
        case Values(values) =>
          SendDword(|values|);
          SendQuads(values);
        case Range(min, max) =>
          SendUint64(min);
          SendUint64(max);
        case FloatRange(lo, hi) =>
          SendDword(lo);
          SendDword(hi);
      }
    }

    method SendFilter(f: Filter)
      requires Valid() && left >= FilterSize(f)
      modifies this`cur, this`left, this`overrun, buf
      ensures Valid() && Written() == PutFilter(old(Written()), f) && overrun == old(overrun)
      ensures left == old(left) - FilterSize(f)
    {
      hide Dword, Text, PutCriterion, CriterionSize;
      SendString(f.attr);
      SendDword(Kind(f.criterion));
      SendCriterion(f.criterion);
      SendDword(f.exclude);
    }

    method SendFilters(fs: seq<Filter>)
      requires Valid() && left >= SumBy(fs, FilterSize)
      modifies this`cur, this`left, this`overrun, buf
      ensures Valid() && Written() == PutFilters(old(Written()), fs) && overrun == old(overrun)
      ensures left == old(left) - SumBy(fs, FilterSize)
    {
      hide PutFilter, FilterSize, SumBy;
      NoneLeft(fs, FilterSize);
      for j := 0 to |fs|
        invariant Valid() && Written() == PutFilters(old(Written()), fs[..j]) && overrun == old(overrun)
        invariant left == old(left) - SumBy(fs, FilterSize) + SumBy(fs[j..], FilterSize)
      {
        SumFirst(fs, j, FilterSize);
        SumNonNegative(fs[j + 1..], FilterSize);
        assert fs[..j + 1][..j] == fs[..j];
        SendFilter(fs[j]);
      }
      assert fs[..|fs|] == fs;
      NoneLeft(fs, FilterSize);
    }

    method SendGrouping(q: Query)
      requires Valid() && left >= 32 + |q.groupBy| + |q.groupSortBy| + |q.groupDistinct|
      modifies this`cur, this`left, this`overrun, buf
      ensures Valid() && Written() == PutGrouping(old(Written()), q) && overrun == old(overrun)
      ensures left == old(left) - (32 + |q.groupBy| + |q.groupSortBy| + |q.groupDistinct|)
    {
      hide Dword, Text;
      SendDword(q.groupFunc);
      SendString(q.groupBy);
      SendDword(q.maxMatches);
      SendString(q.groupSortBy);
      SendDword(q.cutoff);
      SendDword(q.retryCount);
      SendDword(q.retryDelay);
      SendString(q.groupDistinct);
    }

    method SendAnchor(a: Anchor)
      requires Valid() && left >= 4 + AnchorSize(a)
      modifies this`cur, this`left, this`overrun, buf
      ensures Valid() && Written() == PutAnchor(old(Written()), a) && overrun == old(overrun)
      ensures left == old(left) - (4 + AnchorSize(a))
    {
      hide Dword, Text;
      SendDword(if a.Anchor? then 1 else 0);
      if a.Anchor? {
        SendString(a.latAttr);
        SendString(a.longAttr);
        SendDword(a.latitude);
        SendDword(a.longitude);
      }
    }

    method SendWeights(ws: seq<Weight>)
      requires Valid() && left >= SumBy(ws, WeightSize)
      modifies this`cur, this`left, this`overrun, buf
      ensures Valid() && Written() == PutWeights(old(Written()), ws) && overrun == old(overrun)
      ensures left == old(left) - SumBy(ws, WeightSize)
    {
      hide Dword, Text, SumBy;
      NoneLeft(ws, WeightSize);
      for i := 0 to |ws|
        invariant Valid() && Written() == PutWeights(old(Written()), ws[..i]) && overrun == old(overrun)
        invariant left == old(left) - SumBy(ws, WeightSize) + SumBy(ws[i..], WeightSize)
      {
        SumFirst(ws, i, WeightSize);
        SumNonNegative(ws[i + 1..], WeightSize);
        assert ws[..i + 1][..i] == ws[..i];
        SendString(ws[i].name);
        SendDword(ws[i].weight);
      }
      assert ws[..|ws|] == ws;
      NoneLeft(ws, WeightSize);
    }

    method SendEntries(kind: int, es: seq<Entry>)
      requires Valid() && left >= EntrySize(kind) * |es|
      modifies this`cur, this`left, this`overrun, buf
      ensures Valid() && Written() == PutEntries(old(Written()), kind, es) && overrun == old(overrun)
      ensures left == old(left) - EntrySize(kind) * |es|
    {
      hide Dword, Quad;
      for j := 0 to |es|
        invariant Valid() && Written() == PutEntries(old(Written()), kind, es[..j]) && overrun == old(overrun)
        invariant left == old(left) - EntrySize(kind) * j
      {
        assert es[..j + 1][..j] == es[..j];
        SendUint64(es[j].id);
        if kind == SPH_ATTR_FLOAT {
          SendDword(es[j].value);
        } else if kind == SPH_ATTR_BIGINT {
          SendUint64(es[j].value);
        } else {
          SendDword(es[j].value);
        }
      }
      assert es[..|es|] == es;
    }

    method SendOverride(o: Override)
      requires Valid() && left >= OverrideSize(o)
      modifies this`cur, this`left, this`overrun, buf
      ensures Valid() && Written() == PutOverride(old(Written()), o) && overrun == old(overrun)
      ensures left == old(left) - OverrideSize(o)
    {
      hide Dword, Text, PutEntries, EntrySize;
      EntriesSize(o);
      SendString(o.name);
      SendDword(o.kind);
      SendDword(|o.entries|);
      SendEntries(o.kind, o.entries);
    }

    method SendOverrides(os: seq<Override>)
      requires Valid() && left >= SumBy(os, OverrideSize)
      modifies this`cur, this`left, this`overrun, buf
      ensures Valid() && Written() == PutOverrides(old(Written()), os) && overrun == old(overrun)
      ensures left == old(left) - SumBy(os, OverrideSize)
    {
      hide PutOverride, OverrideSize, SumBy;
      NoneLeft(os, OverrideSize);
      for i := 0 to |os|
        invariant Valid() && Written() == PutOverrides(old(Written()), os[..i]) && overrun == old(overrun)
        invariant left == old(left) - SumBy(os, OverrideSize) + SumBy(os[i..], OverrideSize)
      {
        SumFirst(os, i, OverrideSize);
        SumNonNegative(os[i + 1..], OverrideSize);
        assert os[..i + 1][..i] == os[..i];
        SendOverride(os[i]);
      }
      assert os[..|os|] == os;
      NoneLeft(os, OverrideSize);
    }

    /** Everything that follows the id range and precedes the overrides. */
    method SendMiddle(q: Query)
      requires Valid() && left >= MiddleSize(q)
      modifies this`cur, this`left, this`overrun, buf
      ensures Valid() && Written() == PutMiddle(old(Written()), q) && overrun == old(overrun)
      ensures left == old(left) - MiddleSize(q)
    {
      hide Dword, Text, PutFilters, PutGrouping, PutAnchor, PutWeights, SumBy, AnchorSize;
      SizesNonNegative(q);
      SendDword(|q.filters|);
      SendFilters(q.filters);
      SendGrouping(q);
      SendAnchor(q.anchor);
      SendDword(|q.indexWeights|);
      SendWeights(q.indexWeights);
      SendDword(q.maxQueryTime);
      SendDword(|q.fieldWeights|);
      SendWeights(q.fieldWeights);
    }

    method SendTail(q: Query)
      requires Valid() && left >= TailSize(q)
      modifies this`cur, this`left, this`overrun, buf
      ensures Valid() && Written() == PutTail(old(Written()), q) && overrun == old(overrun)
      ensures left == old(left) - TailSize(q)
    {
      hide Dword, Text, PutOverrides, SumBy;
      SizesNonNegative(q);
      SendString(q.comment);
      SendDword(|q.overrides|);
      SendOverrides(q.overrides);
      SendString(q.select);
    }

    /** Sends the request, whose length is given, into a fresh buffer. */
    method SendRequest(q: Query, size: int)
      requires Valid() && cur == 0 && left == size == RequestSize(q)
      modifies this`cur, this`left, this`overrun, buf
      ensures Valid() && Written() == Request(q, size - 8) && left == 0 && overrun == old(overrun)
    {
      hide PutCommand, PutModes, PutMatching, PutMiddle, PutTail, RequestSize, RankSize, MatchingSize,
           MiddleSize, TailSize;
      SizeParts(q);
      assert Written() == [];
      SendCommand(size - 8);
      SendModes(q);
      SendMatching(q);
      SendMiddle(q);
      SendTail(q);
    }

    /** Sends a whole query into a buffer of its computed size. The answer is never -1: the buffer is neither
        overrun nor left unfilled, and holds the request, whose length field is the length that follows it. What
        searchd reads from it is the query. */
    method BuildRequest(q: Query) returns (answer: int)
      modifies this
      ensures answer == RequestSize(q) && Valid() && fresh(buf)
      ensures buf[..] == Request(q, answer - 8) && |Request(q, answer - 8)| == answer
      ensures
        var command := ReadCommand(buf[..], 0);
        Sendable(q) ==>
          && command.Parsed? && command.value == Command(0, 0x119, (answer - 8) % U32, 0, 1)
          && ReadQuery(buf[..], command.pos) == Parsed(QueryKept(q), answer)
    {
      hide Request, RequestSize, Sendable, ReadCommand, ReadQuery, QueryKept;
      var size := ComputeSize(q);
      SizeIsExact(q, size - 8);
      buf := new byte[size](_ => 0);
      cur, left, overrun := 0, size, false;
      SendRequest(q, size);
      if overrun || left != 0 || cur != size {
        return -1;
      }
      assert buf[..] == Written();
      if Sendable(q) {
        RequestReadBack(q, size - 8);
      }
      return size;
    }
  }

  /** Adds up the size, in loops over the filters, weights and overrides. */
  method ComputeSize(q: Query) returns (size: int)
    ensures size == RequestSize(q)
  {
    hide SumBy;
    size := 128 + 4 * |q.weights| + |q.sortBy| + |q.query| + |q.index| + |q.groupBy| + |q.groupSortBy|
            + |q.groupDistinct| + |q.comment| + |q.select|;
    if q.ranker == SPH_RANK_EXPR {
      size := size + 4 + |q.rankExpr|;
    }
    ghost var base := size;
    for i := 0 to |q.filters|
      invariant size + SumBy(q.filters[i..], FilterSize) == base + SumBy(q.filters, FilterSize)
    {
      SumFirst(q.filters, i, FilterSize);
      var f := q.filters[i];
      size := size + 12 + |f.attr|;
      match f.criterion {
        case Values(values) => size := size + 4 + 8 * |values|;
        case Range(_, _) => size := size + 16;
        case FloatRange(_, _) => size := size + 8;
      }
    }
    NoneLeft(q.filters, FilterSize);
    if q.anchor.Anchor? {
      size := size + 16 + |q.anchor.latAttr| + |q.anchor.longAttr|;
    }
    size := AddWeights(size, q.indexWeights);
    size := AddWeights(size, q.fieldWeights);
    size := size + 4;
    base := size;
    for i := 0 to |q.overrides|
      invariant size + SumBy(q.overrides[i..], OverrideSize) == base + SumBy(q.overrides, OverrideSize)
    {
      SumFirst(q.overrides, i, OverrideSize);
      var o := q.overrides[i];
      size := size + |o.name| + 12 + (if o.kind == SPH_ATTR_BIGINT then 16 else 12) * |o.entries|;
    }
    NoneLeft(q.overrides, OverrideSize);
    size := size + 4;
  }

  method AddWeights(start: int, ws: seq<Weight>) returns (size: int)
    ensures size == start + SumBy(ws, WeightSize)
  {
    hide SumBy;
    size := start;
    for i := 0 to |ws|
      invariant size + SumBy(ws[i..], WeightSize) == start + SumBy(ws, WeightSize)
    {
      SumFirst(ws, i, WeightSize);
      size := size + 8 + |ws[i].name|;
    }
    NoneLeft(ws, WeightSize);
  }

  lemma NoneLeft<T>(s: seq<T>, f: T -> int)
    ensures SumBy(s[|s|..], f) == 0 && s[0..] == s
  {
  }
}
