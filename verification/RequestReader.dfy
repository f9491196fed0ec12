/** How searchd reads a search request (InputBuffer_c, HandleCommandSearch and ParseSearchQuery of src/searchd.cpp),
    front to back and for the version the client sends; and that it reads from a request just the query it was
    built from. */
module RequestReading {
  import opened Integers
  import opened SearchRequest

  // searchd's own constants
  const RANK_EXPR := 8
  const RANK_EXPORT := 9
  const ATTR_BIGINT := 6

  /** A value read from a buffer, with the position after it; or too few bytes, or a count or kind that is refused. */
  datatype Parsed<+T> = Failed | Parsed(value: T, pos: nat)
  {
    predicate IsFailure() {
      Failed?
    }

    function PropagateFailure<U>(): Parsed<U>
      requires Failed?
    {
      Failed
    }

    function Extract(): (T, nat)
      requires Parsed?
    {
      (value, pos)
    }
  }

  // ---------- numbers and strings ----------

  function GetWord(buf: Bytes, pos: nat): (r: Parsed<int>) {
    if pos + 2 > |buf| then Failed else Parsed((buf[pos] as int) * 0x100 + buf[pos + 1], pos + 2)
  }

  function GetDword(buf: Bytes, pos: nat): (r: Parsed<int>) {
    if pos + 4 > |buf| then Failed
    else
      var high, low := (buf[pos] as int) * 0x100 + buf[pos + 1], (buf[pos + 2] as int) * 0x100 + buf[pos + 3];
      Parsed(high * 0x10000 + low, pos + 4)
  }

  /** A length or a number of items; as a signed number it must not be negative. */
  function GetCount(buf: Bytes, pos: nat): (r: Parsed<nat>) {
    var (n, end) :- GetDword(buf, pos);
    if 0 <= n < I32 then Parsed(n, end) else Failed
  }

  function GetUint64(buf: Bytes, pos: nat): (r: Parsed<int>) {
    var (high, at) :- GetDword(buf, pos);
    var (low, end) :- GetDword(buf, at);
    Parsed(high * U32 + low, end)
  }

  function GetString(buf: Bytes, pos: nat): (r: Parsed<Bytes>) {
    var (len, at) :- GetCount(buf, pos);
    if at + len > |buf| then Failed else Parsed(buf[at..at + len], at + len)
  }

  function GetDwords(buf: Bytes, pos: nat, n: nat): (r: Parsed<seq<int>>) {
    if n == 0 then Parsed([], pos)
    else
      var (vs, at) :- GetDwords(buf, pos, n - 1);
      var (v, end) :- GetDword(buf, at);
      Parsed(vs + [v], end)
  }

  function GetQwords(buf: Bytes, pos: nat, n: nat): (r: Parsed<seq<int>>) {
    if n == 0 then Parsed([], pos)
    else
      var (vs, at) :- GetQwords(buf, pos, n - 1);
      var (v, end) :- GetUint64(buf, at);
      Parsed(vs + [v], end)
  }

  // ---------- the parts of a query ----------

  datatype Modes = Modes(offset: int, limit: int, mode: int, ranker: int, rankExpr: Bytes)

  function ReadModes(buf: Bytes, pos: nat): (r: Parsed<Modes>) {
    var (offset, p1) :- GetDword(buf, pos);
    var (limit, p2) :- GetDword(buf, p1);
    var (mode, p3) :- GetDword(buf, p2);
    var (ranker, p4) :- GetDword(buf, p3);
    if ranker == RANK_EXPR || ranker == RANK_EXPORT then
      var (expr, p5) :- GetString(buf, p4);
      Parsed(Modes(offset, limit, mode, ranker, expr), p5)
    else Parsed(Modes(offset, limit, mode, ranker, []), p4)
  }

  datatype Matching = Matching(sort: int, sortBy: Bytes, query: Bytes, weights: seq<int>, index: Bytes,
                               minId: int, maxId: int)

  function ReadMatching(buf: Bytes, pos: nat): (r: Parsed<Matching>) {
    var (sort, p1) :- GetDword(buf, pos);
    var (sortBy, p2) :- GetString(buf, p1);
    var (query, p3) :- GetString(buf, p2);
    var (count, p4) :- GetCount(buf, p3);
    var (weights, p5) :- GetDwords(buf, p4, count);
    var (index, p6) :- GetString(buf, p5);
    var (wide, p7) :- GetDword(buf, p6);
    var (minId, p8) :- if wide != 0 then GetUint64(buf, p7) else GetDword(buf, p7);
    var (maxId, p9) :- if wide != 0 then GetUint64(buf, p8) else GetDword(buf, p8);
    Parsed(Matching(sort, sortBy, query, weights, index, minId, maxId), p9)
  }

  function ReadCriterion(buf: Bytes, pos: nat, kind: int): (r: Parsed<Criterion>) {
    if kind == 0 then
      var (count, p1) :- GetCount(buf, pos);
      var (values, p2) :- GetQwords(buf, p1, count);
      Parsed(Values(values), p2)
    else if kind == 1 then
      var (min, p1) :- GetUint64(buf, pos);
      var (max, p2) :- GetUint64(buf, p1);
      Parsed(Range(min, max), p2)
    else if kind == 2 then
      var (lo, p1) :- GetDword(buf, pos);
      var (hi, p2) :- GetDword(buf, p1);
      Parsed(FloatRange(lo, hi), p2)
    else Failed
  }

  function ReadFilter(buf: Bytes, pos: nat): (r: Parsed<Filter>) {
    var (attr, p1) :- GetString(buf, pos);
    var (kind, p2) :- GetDword(buf, p1);
    var (criterion, p3) :- ReadCriterion(buf, p2, kind);
    var (exclude, p4) :- GetDword(buf, p3);
    Parsed(Filter(attr, criterion, exclude), p4)
  }

  function ReadFilters(buf: Bytes, pos: nat, n: nat): (r: Parsed<seq<Filter>>) {
    if n == 0 then Parsed([], pos)
    else
      var (fs, at) :- ReadFilters(buf, pos, n - 1);
      var (f, end) :- ReadFilter(buf, at);
      Parsed(fs + [f], end)
  }

  datatype Grouping = Grouping(func: int, key: Bytes, maxMatches: int, sortBy: Bytes, cutoff: int,
                               retryCount: int, retryDelay: int, distinct: Bytes)

  function ReadGrouping(buf: Bytes, pos: nat): (r: Parsed<Grouping>) {
    var (func, p1) :- GetDword(buf, pos);
    var (key, p2) :- GetString(buf, p1);
    var (maxMatches, p3) :- GetDword(buf, p2);
    var (sortBy, p4) :- GetString(buf, p3);
    var (cutoff, p5) :- GetDword(buf, p4);
    var (retryCount, p6) :- GetDword(buf, p5);
    var (retryDelay, p7) :- GetDword(buf, p6);
    var (distinct, p8) :- GetString(buf, p7);
    Parsed(Grouping(func, key, maxMatches, sortBy, cutoff, retryCount, retryDelay, distinct), p8)
  }

  function ReadAnchor(buf: Bytes, pos: nat): (r: Parsed<Anchor>) {
    var (flag, p1) :- GetDword(buf, pos);
    if flag == 0 then Parsed(NoAnchor, p1)
    else
      var (latAttr, p2) :- GetString(buf, p1);
      var (longAttr, p3) :- GetString(buf, p2);
      var (latitude, p4) :- GetDword(buf, p3);
      var (longitude, p5) :- GetDword(buf, p4);
      Parsed(Anchor(latAttr, longAttr, latitude, longitude), p5)
  }

  function ReadWeights(buf: Bytes, pos: nat, n: nat): (r: Parsed<seq<Weight>>) {
    if n == 0 then Parsed([], pos)
    else
      var (ws, at) :- ReadWeights(buf, pos, n - 1);
      var (name, p1) :- GetString(buf, at);
      var (weight, p2) :- GetDword(buf, p1);
      Parsed(ws + [Weight(name, weight)], p2)
  }

  function ReadEntries(buf: Bytes, pos: nat, kind: int, n: nat): (r: Parsed<seq<Entry>>) {
    if n == 0 then Parsed([], pos)
    else
      var (es, at) :- ReadEntries(buf, pos, kind, n - 1);
      var (id, p1) :- GetUint64(buf, at);
      var (value, p2) :- if kind == ATTR_BIGINT then GetUint64(buf, p1) else GetDword(buf, p1);
      Parsed(es + [Entry(id, value)], p2)
  }

  function ReadOverride(buf: Bytes, pos: nat): (r: Parsed<Override>) {
    var (name, p1) :- GetString(buf, pos);
    var (kind, p2) :- GetDword(buf, p1);
    var (count, p3) :- GetCount(buf, p2);
    var (entries, p4) :- ReadEntries(buf, p3, kind, count);
    Parsed(Override(name, kind, entries), p4)
  }

  function ReadOverrides(buf: Bytes, pos: nat, n: nat): (r: Parsed<seq<Override>>) {
    if n == 0 then Parsed([], pos)
    else
      var (os, at) :- ReadOverrides(buf, pos, n - 1);
      var (o, end) :- ReadOverride(buf, at);
      Parsed(os + [o], end)
  }

  datatype Middle = Middle(filters: seq<Filter>, grouping: Grouping, anchor: Anchor, indexWeights: seq<Weight>,
                           maxQueryTime: int, fieldWeights: seq<Weight>)

  function ReadMiddle(buf: Bytes, pos: nat): (r: Parsed<Middle>) {
    var (filterCount, p1) :- GetCount(buf, pos);
    var (filters, p2) :- ReadFilters(buf, p1, filterCount);
    var (grouping, p3) :- ReadGrouping(buf, p2);
    var (anchor, p4) :- ReadAnchor(buf, p3);
    var (indexCount, p5) :- GetCount(buf, p4);
    var (indexWeights, p6) :- ReadWeights(buf, p5, indexCount);
    var (maxQueryTime, p7) :- GetDword(buf, p6);
    var (fieldCount, p8) :- GetCount(buf, p7);
    var (fieldWeights, p9) :- ReadWeights(buf, p8, fieldCount);
    Parsed(Middle(filters, grouping, anchor, indexWeights, maxQueryTime, fieldWeights), p9)
  }

  datatype Tail = Tail(comment: Bytes, overrides: seq<Override>, select: Bytes)

  function ReadTail(buf: Bytes, pos: nat): (r: Parsed<Tail>) {
    var (comment, p1) :- GetString(buf, pos);
    var (count, p2) :- GetCount(buf, p1);
    var (overrides, p3) :- ReadOverrides(buf, p2, count);
    var (select, p4) :- GetString(buf, p3);
    Parsed(Tail(comment, overrides, select), p4)
  }

  /** The command, its version, the length of its body, who asks, and how many queries follow. */
  datatype Command = Command(id: int, version: int, body: int, master: int, queries: int)

  function ReadCommand(buf: Bytes, pos: nat): (r: Parsed<Command>) {
    var (id, p1) :- GetWord(buf, pos);
    var (version, p2) :- GetWord(buf, p1);
    var (body, p3) :- GetDword(buf, p2);
    var (master, p4) :- GetDword(buf, p3);
    var (queries, p5) :- GetDword(buf, p4);
    Parsed(Command(id, version, body, master, queries), p5)
  }

  function ReadQuery(buf: Bytes, pos: nat): (r: Parsed<Query>) {
    var (modes, p1) :- ReadModes(buf, pos);
    var (m, p2) :- ReadMatching(buf, p1);
    var (mid, p3) :- ReadMiddle(buf, p2);
    var (tail, p4) :- ReadTail(buf, p3);
    var g := mid.grouping;
    Parsed(
      Query(modes.offset, modes.limit, modes.mode, modes.ranker, modes.rankExpr, m.sort, m.sortBy,
            m.query, m.weights, m.index, m.minId, m.maxId, mid.filters,
            g.func, g.key, g.maxMatches, g.sortBy, g.cutoff, g.retryCount, g.retryDelay, g.distinct, mid.anchor,
            mid.indexWeights, mid.maxQueryTime, mid.fieldWeights, tail.comment, tail.overrides, tail.select),
      p4)
  }

  // ---------- what is sent is what is read ----------

  /** Bytes put after others lie where the others end. */
  lemma PutAt(buf: Bytes, w: Bytes, b: Bytes)
    requires w + b <= buf
    ensures |w| + |b| <= |buf| && buf[|w|..|w| + |b|] == b && w <= buf
    ensures forall k :: 0 <= k < |b| ==> buf[|w| + k] == b[k]
  {
    assert forall k :: 0 <= k < |b| ==> (w + b)[|w| + k] == b[k];
  }

  /** The upper and the lower part of a number make up the number, as far as they reach. */
  lemma TwoBytes(v: int)
    ensures (v / 0x100 % 0x100) * 0x100 + v % 0x100 == v % 0x1_0000
  {
    var h := v / 0x100;
    assert v == h * 0x100 + v % 0x100 && h == h / 0x100 * 0x100 + h % 0x100;
    assert v == (h / 0x100) * 0x1_0000 + (h % 0x100 * 0x100 + v % 0x100);
  }

  lemma TwoWords(v: int)
    ensures (v / 0x1_0000 % 0x1_0000) * 0x1_0000 + v % 0x1_0000 == v % U32
  {
    var h := v / 0x1_0000;
    assert v == h * 0x1_0000 + v % 0x1_0000 && h == h / 0x1_0000 * 0x1_0000 + h % 0x1_0000;
    assert v == (h / 0x1_0000) * U32 + (h % 0x1_0000 * 0x1_0000 + v % 0x1_0000);
  }

  lemma WordBytes(v: int)
    ensures Word(v)[0] as int * 0x100 + Word(v)[1] == v % 0x1_0000
  {
    TwoBytes(v);
  }

  lemma DwordBytes(v: int)
    ensures
      var b := Dword(v);
      ((b[0] as int) * 0x100 + b[1]) * 0x1_0000 + ((b[2] as int) * 0x100 + b[3]) == v % U32
  {
    assert v / 0x1000000 == v / 0x1_0000 / 0x100;
    TwoBytes(v / 0x1_0000);
    TwoBytes(v);
    TwoWords(v);
  }

  lemma WordBack(buf: Bytes, w: Bytes, v: int)
    requires w + Word(v) <= buf
    ensures GetWord(buf, |w|) == Parsed(v % 0x1_0000, |w + Word(v)|) && w <= buf
  {
    hide Word;
    PutAt(buf, w, Word(v));
    WordBytes(v);
    assert buf[|w| + 0] == Word(v)[0];
  }

  lemma DwordBack(buf: Bytes, w: Bytes, v: int)
    requires w + Dword(v) <= buf
    ensures GetDword(buf, |w|) == Parsed(v % U32, |w + Dword(v)|) && w <= buf
    ensures 0 <= v < I32 ==> GetCount(buf, |w|) == Parsed(v, |w + Dword(v)|)
  {
    hide Dword;
    PutAt(buf, w, Dword(v));
    DwordBytes(v);
    assert buf[|w| + 0] == Dword(v)[0];
  }

  lemma TwoDwords(v: int)
    ensures (v / U32 % U32) * U32 + v % U32 == v % U64
  {
    assert v == v / U32 * U32 + v % U32;
    var h := v / U32;
    assert h == h / U32 * U32 + h % U32;
    assert v == (h / U32) * U64 + (h % U32 * U32 + v % U32);
  }

  lemma QuadBack(buf: Bytes, w: Bytes, v: int)
    requires w + Quad(v) <= buf
    ensures GetUint64(buf, |w|) == Parsed(v % U64, |w + Quad(v)|) && w <= buf
  {
    hide Dword, GetDword;
    assert w + Quad(v) == w + Dword(v / U32) + Dword(v);
    DwordBack(buf, w + Dword(v / U32), v);
    DwordBack(buf, w, v / U32);
    TwoDwords(v);
  }

  lemma TextBack(buf: Bytes, w: Bytes, s: Bytes)
    requires w + Text(s) <= buf && |s| < I32
    ensures GetString(buf, |w|) == Parsed(s, |w + Text(s)|) && w <= buf
  {
    hide Dword, GetDword, GetCount;
    assert w + Text(s) == w + Dword(|s|) + s;
    PutAt(buf, w + Dword(|s|), s);
    DwordBack(buf, w, |s|);
  }

  // ---------- what a query comes back as ----------

  /** Numbers lose what their width does not hold. */
  function Kept<T, U>(s: seq<T>, f: T -> U): (r: seq<U>)
    ensures |r| == |s| && forall k :: 0 <= k < |s| ==> r[k] == f(s[k])
  {
    seq(|s|, k requires 0 <= k < |s| => f(s[k]))
  }

  lemma KeptSnoc<T, U>(s: seq<T>, f: T -> U)
    requires s != []
    ensures Kept(s, f) == Kept(s[..|s| - 1], f) + [f(s[|s| - 1])]
  {
  }

  function Low32(v: int): int { v % U32 }

  function Low64(v: int): int { v % U64 }

  function CriterionKept(c: Criterion): (r: Criterion) {
    match c
    case Values(values) => Values(Kept(values, Low64))
    case Range(min, max) => Range(min % U64, max % U64)
    case FloatRange(lo, hi) => FloatRange(lo % U32, hi % U32)
  }

  function FilterKept(f: Filter): (r: Filter) {
    Filter(f.attr, CriterionKept(f.criterion), f.exclude % U32)
  }

  function WeightKept(w: Weight): (r: Weight) {
    Weight(w.name, w.weight % U32)
  }

  /** A big integer keeps 64 bits, and any other value 32. */
  function WideKept(e: Entry): (r: Entry) {
    Entry(e.id % U64, e.value % U64)
  }

  function NarrowKept(e: Entry): (r: Entry) {
    Entry(e.id % U64, e.value % U32)
  }

  function EntriesKept(kind: int, es: seq<Entry>): (r: seq<Entry>) {
    Kept(es, if kind == SPH_ATTR_BIGINT then WideKept else NarrowKept)
  }

  function OverrideKept(o: Override): (r: Override) {
    Override(o.name, o.kind, EntriesKept(o.kind, o.entries))
  }

  function AnchorKept(a: Anchor): (r: Anchor) {
    match a
    case NoAnchor => NoAnchor
    case Anchor(latAttr, longAttr, latitude, longitude) => Anchor(latAttr, longAttr, latitude % U32, longitude % U32)
  }

  /** The query as it is read: all of it, but for the ranking expression of a ranker that has none. */
  function QueryKept(q: Query): (r: Query) {
    Query(q.offset % U32, q.limit % U32, q.mode % U32, q.ranker,
          if q.ranker == SPH_RANK_EXPR then q.rankExpr else [], q.sort % U32, q.sortBy,
          q.query, Kept(q.weights, Low32), q.index, q.minId % U64, q.maxId % U64, Kept(q.filters, FilterKept),
          q.groupFunc % U32, q.groupBy, q.maxMatches % U32, q.groupSortBy, q.cutoff % U32,
          q.retryCount % U32, q.retryDelay % U32, q.groupDistinct, AnchorKept(q.anchor),
          Kept(q.indexWeights, WeightKept), q.maxQueryTime % U32, Kept(q.fieldWeights, WeightKept),
          q.comment, Kept(q.overrides, OverrideKept), q.select)
  }

  predicate In32(v: int) { 0 <= v < U32 }

  predicate In64(v: int) { 0 <= v < U64 }

  ghost predicate CriterionInWidth(c: Criterion) {
    match c
    case Values(values) => forall v <- values :: In64(v)
    case Range(min, max) => In64(min) && In64(max)
    case FloatRange(lo, hi) => In32(lo) && In32(hi)
  }

  ghost predicate OverrideInWidth(o: Override) {
    forall e <- o.entries :: In64(e.id) && if o.kind == SPH_ATTR_BIGINT then In64(e.value) else In32(e.value)
  }

  /** Every number is within its width, and a ranking expression is only there for the ranker that has one. */
  ghost predicate InWidth(q: Query) {
    && In32(q.offset) && In32(q.limit) && In32(q.mode) && In32(q.sort) && In64(q.minId) && In64(q.maxId)
    && In32(q.groupFunc) && In32(q.maxMatches) && In32(q.cutoff) && In32(q.retryCount) && In32(q.retryDelay)
    && In32(q.maxQueryTime) && (q.ranker != SPH_RANK_EXPR ==> q.rankExpr == [])
    && (q.anchor.Anchor? ==> In32(q.anchor.latitude) && In32(q.anchor.longitude))
    && (forall v <- q.weights :: In32(v)) && (forall w <- q.indexWeights :: In32(w.weight))
    && (forall w <- q.fieldWeights :: In32(w.weight))
    && (forall f <- q.filters :: CriterionInWidth(f.criterion) && In32(f.exclude))
    && forall o <- q.overrides :: OverrideInWidth(o)
  }

  lemma KeptAll<T>(s: seq<T>, f: T -> T)
    requires forall x <- s :: f(x) == x
    ensures Kept(s, f) == s
  {
  }

  lemma CriterionWhole(c: Criterion)
    requires CriterionInWidth(c)
    ensures CriterionKept(c) == c
  {
    if c.Values? {
      KeptAll(c.values, Low64);
    }
  }

  lemma OverrideWhole(o: Override)
    requires OverrideInWidth(o)
    ensures OverrideKept(o) == o
  {
    KeptAll(o.entries, if o.kind == SPH_ATTR_BIGINT then WideKept else NarrowKept);
  }

  /** Such a query comes back whole. */
  lemma QueryWhole(q: Query)
    requires InWidth(q)
    ensures QueryKept(q) == q
  {
    hide CriterionKept, OverrideKept, CriterionInWidth, OverrideInWidth;
    forall f <- q.filters ensures FilterKept(f) == f {
      CriterionWhole(f.criterion);
    }
    forall o <- q.overrides ensures OverrideKept(o) == o {
      OverrideWhole(o);
    }
    KeptAll(q.weights, Low32);
    KeptAll(q.filters, FilterKept);
    KeptAll(q.indexWeights, WeightKept);
    KeptAll(q.fieldWeights, WeightKept);
    KeptAll(q.overrides, OverrideKept);
  }

  // What a request can carry: lengths and counts are signed 32-bit numbers.

  ghost predicate CriterionFits(c: Criterion) {
    c.Values? ==> |c.values| < I32
  }

  ghost predicate FilterFits(f: Filter) {
    |f.attr| < I32 && CriterionFits(f.criterion)
  }

  ghost predicate WeightFits(w: Weight) {
    |w.name| < I32
  }

  ghost predicate OverrideFits(o: Override) {
    |o.name| < I32 && 0 <= o.kind < U32 && |o.entries| < I32
  }

  ghost predicate AnchorFits(a: Anchor) {
    a.Anchor? ==> |a.latAttr| < I32 && |a.longAttr| < I32
  }

  /** The client has no ranker past the one with an expression. */
  ghost predicate Sendable(q: Query) {
    && 0 <= q.ranker <= SPH_RANK_EXPR && |q.rankExpr| < I32
    && |q.sortBy| < I32 && |q.query| < I32 && |q.weights| < I32 && |q.index| < I32
    && |q.filters| < I32 && (forall f <- q.filters :: FilterFits(f))
    && |q.groupBy| < I32 && |q.groupSortBy| < I32 && |q.groupDistinct| < I32 && AnchorFits(q.anchor)
    && |q.indexWeights| < I32 && (forall w <- q.indexWeights :: WeightFits(w))
    && |q.fieldWeights| < I32 && (forall w <- q.fieldWeights :: WeightFits(w))
    && |q.comment| < I32 && |q.overrides| < I32 && (forall o <- q.overrides :: OverrideFits(o)) && |q.select| < I32
  }

  // ---------- part by part ----------

  lemma {:induction false} DwordsBack(buf: Bytes, w: Bytes, vs: seq<int>)
    requires Dwords(w, vs) <= buf
    ensures GetDwords(buf, |w|, |vs|) == Parsed(Kept(vs, Low32), |Dwords(w, vs)|) && w <= buf
  {
    hide Dword, GetDword;
    if vs != [] {
      var front := vs[..|vs| - 1];
      DwordBack(buf, Dwords(w, front), vs[|vs| - 1]);
      DwordsBack(buf, w, front);
      KeptSnoc(vs, Low32);
    }
  }

  lemma {:induction false} QuadsBack(buf: Bytes, w: Bytes, vs: seq<int>)
    requires Quads(w, vs) <= buf
    ensures GetQwords(buf, |w|, |vs|) == Parsed(Kept(vs, Low64), |Quads(w, vs)|) && w <= buf
  {
    hide Quad, GetUint64;
    if vs != [] {
      var front := vs[..|vs| - 1];
      QuadBack(buf, Quads(w, front), vs[|vs| - 1]);
      QuadsBack(buf, w, front);
      KeptSnoc(vs, Low64);
    }
  }

  lemma CriterionBack(buf: Bytes, w: Bytes, c: Criterion)
    requires PutCriterion(w, c) <= buf && CriterionFits(c)
    ensures ReadCriterion(buf, |w|, Kind(c)) == Parsed(CriterionKept(c), |PutCriterion(w, c)|) && w <= buf
  {
    hide Dword, Quad, Quads, GetDword, GetCount, GetUint64, GetQwords;
    match c
    case Values(values) =>
      QuadsBack(buf, w + Dword(|values|), values);
      DwordBack(buf, w, |values|);
    case Range(min, max) =>
      QuadBack(buf, w + Quad(min), max);
      QuadBack(buf, w, min);
    case FloatRange(lo, hi) =>
      DwordBack(buf, w + Dword(lo), hi);
      DwordBack(buf, w, lo);
  }

  lemma FilterBack(buf: Bytes, w: Bytes, f: Filter)
    requires PutFilter(w, f) <= buf && FilterFits(f)
    ensures ReadFilter(buf, |w|) == Parsed(FilterKept(f), |PutFilter(w, f)|) && w <= buf
  {
    hide Dword, Text, PutCriterion, GetDword, GetString, ReadCriterion, CriterionKept;
    var w1 := w + Text(f.attr);
    var w2 := w1 + Dword(Kind(f.criterion));
    DwordBack(buf, PutCriterion(w2, f.criterion), f.exclude);
    CriterionBack(buf, w2, f.criterion);
    DwordBack(buf, w1, Kind(f.criterion));
    TextBack(buf, w, f.attr);
  }

  lemma {:induction false} FiltersBack(buf: Bytes, w: Bytes, fs: seq<Filter>)
    requires PutFilters(w, fs) <= buf && forall f <- fs :: FilterFits(f)
    ensures ReadFilters(buf, |w|, |fs|) == Parsed(Kept(fs, FilterKept), |PutFilters(w, fs)|) && w <= buf
  {
    hide PutFilter, ReadFilter, FilterKept, FilterFits;
    if fs != [] {
      var front := fs[..|fs| - 1];
      FilterBack(buf, PutFilters(w, front), fs[|fs| - 1]);
      FiltersBack(buf, w, front);
      KeptSnoc(fs, FilterKept);
    }
  }

  lemma {:induction false} WeightsBack(buf: Bytes, w: Bytes, ws: seq<Weight>)
    requires PutWeights(w, ws) <= buf && forall x <- ws :: WeightFits(x)
    ensures ReadWeights(buf, |w|, |ws|) == Parsed(Kept(ws, WeightKept), |PutWeights(w, ws)|) && w <= buf
  {
    hide Dword, Text, GetDword, GetString;
    if ws != [] {
      var front, last := ws[..|ws| - 1], ws[|ws| - 1];
      assert WeightFits(last);
      DwordBack(buf, PutWeights(w, front) + Text(last.name), last.weight);
      TextBack(buf, PutWeights(w, front), last.name);
      WeightsBack(buf, w, front);
      KeptSnoc(ws, WeightKept);
    }
  }

  lemma {:induction false} EntriesBack(buf: Bytes, w: Bytes, kind: int, es: seq<Entry>)
    requires PutEntries(w, kind, es) <= buf
    ensures ReadEntries(buf, |w|, kind, |es|) == Parsed(EntriesKept(kind, es), |PutEntries(w, kind, es)|) && w <= buf
  {
    hide Dword, Quad, GetDword, GetUint64;
    if es != [] {
      var front, last := es[..|es| - 1], es[|es| - 1];
      var w1 := PutEntries(w, kind, front);
      if kind == SPH_ATTR_BIGINT {
        QuadBack(buf, w1 + Quad(last.id), last.value);
      } else {
        DwordBack(buf, w1 + Quad(last.id), last.value);
      }
      QuadBack(buf, w1, last.id);
      EntriesBack(buf, w, kind, front);
      KeptSnoc(es, if kind == SPH_ATTR_BIGINT then WideKept else NarrowKept);
    }
  }

  lemma OverrideBack(buf: Bytes, w: Bytes, o: Override)
    requires PutOverride(w, o) <= buf && OverrideFits(o)
    ensures ReadOverride(buf, |w|) == Parsed(OverrideKept(o), |PutOverride(w, o)|) && w <= buf
  {
    hide Dword, Text, PutEntries, GetDword, GetCount, GetString, ReadEntries, EntriesKept;
    var w1 := w + Text(o.name);
    var w2 := w1 + Dword(o.kind);
    EntriesBack(buf, w2 + Dword(|o.entries|), o.kind, o.entries);
    DwordBack(buf, w2, |o.entries|);
    DwordBack(buf, w1, o.kind);
    TextBack(buf, w, o.name);
  }

  lemma {:induction false} OverridesBack(buf: Bytes, w: Bytes, os: seq<Override>)
    requires PutOverrides(w, os) <= buf && forall o <- os :: OverrideFits(o)
    ensures ReadOverrides(buf, |w|, |os|) == Parsed(Kept(os, OverrideKept), |PutOverrides(w, os)|) && w <= buf
  {
    hide PutOverride, ReadOverride, OverrideKept, OverrideFits;
    if os != [] {
      var front := os[..|os| - 1];
      OverrideBack(buf, PutOverrides(w, front), os[|os| - 1]);
      OverridesBack(buf, w, front);
      KeptSnoc(os, OverrideKept);
    }
  }

  lemma CommandBack(buf: Bytes, w: Bytes, body: int)
    requires PutCommand(w, body) <= buf
    ensures ReadCommand(buf, |w|)
         == Parsed(Command(SEARCHD_COMMAND_SEARCH, VER_COMMAND_SEARCH, body % U32, 0, 1), |PutCommand(w, body)|)
    ensures w <= buf
  {
    hide Word, Dword, GetWord, GetDword;
    var w1 := w + Word(SEARCHD_COMMAND_SEARCH);
    var w2 := w1 + Word(VER_COMMAND_SEARCH);
    var w3 := w2 + Dword(body);
    DwordBack(buf, w3 + Dword(0), 1);
    DwordBack(buf, w3, 0);
    DwordBack(buf, w2, body);
    WordBack(buf, w1, VER_COMMAND_SEARCH);
    WordBack(buf, w, SEARCHD_COMMAND_SEARCH);
  }

  lemma ModesBack(buf: Bytes, w: Bytes, q: Query)
    requires PutModes(w, q) <= buf && Sendable(q)
    ensures
      var r := QueryKept(q);
      ReadModes(buf, |w|) == Parsed(Modes(r.offset, r.limit, r.mode, r.ranker, r.rankExpr), |PutModes(w, q)|)
    ensures w <= buf
  {
    hide Dword, Text, GetDword, GetString;
    var w1 := w + Dword(q.offset);
    var w2 := w1 + Dword(q.limit);
    var w3 := w2 + Dword(q.mode);
    if q.ranker == SPH_RANK_EXPR {
      TextBack(buf, w3 + Dword(q.ranker), q.rankExpr);
    }
    DwordBack(buf, w3, q.ranker);
    DwordBack(buf, w2, q.mode);
    DwordBack(buf, w1, q.limit);
    DwordBack(buf, w, q.offset);
  }

  lemma MatchingBack(buf: Bytes, w: Bytes, q: Query)
    requires PutMatching(w, q) <= buf && Sendable(q)
    ensures
      var r := QueryKept(q);
      ReadMatching(buf, |w|)
      == Parsed(Matching(r.sort, r.sortBy, r.query, r.weights, r.index, r.minId, r.maxId), |PutMatching(w, q)|)
    ensures w <= buf
  {
    hide Dword, Quad, Text, Dwords, GetDword, GetCount, GetUint64, GetString, GetDwords;
    var w1 := w + Dword(q.sort);
    var w2 := w1 + Text(q.sortBy);
    var w3 := w2 + Text(q.query);
    var w4 := w3 + Dword(|q.weights|);
    var w5 := Dwords(w4, q.weights);
    var w6 := w5 + Text(q.index);
    var w7 := w6 + Dword(1);
    QuadBack(buf, w7 + Quad(q.minId), q.maxId);
    QuadBack(buf, w7, q.minId);
    DwordBack(buf, w6, 1);
    TextBack(buf, w5, q.index);
    DwordsBack(buf, w4, q.weights);
    DwordBack(buf, w3, |q.weights|);
    TextBack(buf, w2, q.query);
    TextBack(buf, w1, q.sortBy);
    DwordBack(buf, w, q.sort);
  }

  lemma GroupingBack(buf: Bytes, w: Bytes, q: Query)
    requires PutGrouping(w, q) <= buf && Sendable(q)
    ensures
      var r := QueryKept(q);
      ReadGrouping(buf, |w|)
      == Parsed(Grouping(r.groupFunc, r.groupBy, r.maxMatches, r.groupSortBy, r.cutoff, r.retryCount, r.retryDelay,
                         r.groupDistinct), |PutGrouping(w, q)|)
    ensures w <= buf
  {
    hide Dword, Text, GetDword, GetString;
    var w1 := w + Dword(q.groupFunc);
    var w2 := w1 + Text(q.groupBy);
    var w3 := w2 + Dword(q.maxMatches);
    var w4 := w3 + Text(q.groupSortBy);
    var w5 := w4 + Dword(q.cutoff);
    var w6 := w5 + Dword(q.retryCount);
    TextBack(buf, w6 + Dword(q.retryDelay), q.groupDistinct);
    DwordBack(buf, w6, q.retryDelay);
    DwordBack(buf, w5, q.retryCount);
    DwordBack(buf, w4, q.cutoff);
    TextBack(buf, w3, q.groupSortBy);
    DwordBack(buf, w2, q.maxMatches);
    TextBack(buf, w1, q.groupBy);
    DwordBack(buf, w, q.groupFunc);
  }

  lemma AnchorBack(buf: Bytes, w: Bytes, a: Anchor)
    requires PutAnchor(w, a) <= buf && AnchorFits(a)
    ensures ReadAnchor(buf, |w|) == Parsed(AnchorKept(a), |PutAnchor(w, a)|) && w <= buf
  {
    hide Dword, Text, GetDword, GetString;
    match a
    case NoAnchor => DwordBack(buf, w, 0);
    case Anchor(latAttr, longAttr, latitude, longitude) =>
      var w1 := w + Dword(1);
      var w2 := w1 + Text(latAttr);
      var w3 := w2 + Text(longAttr);
      DwordBack(buf, w3 + Dword(latitude), longitude);
      DwordBack(buf, w3, latitude);
      TextBack(buf, w2, longAttr);
      TextBack(buf, w1, latAttr);
      DwordBack(buf, w, 1);
  }

  lemma MiddleBack(buf: Bytes, w: Bytes, q: Query)
    requires PutMiddle(w, q) <= buf && Sendable(q)
    ensures
      var r := QueryKept(q);
      ReadMiddle(buf, |w|)
      == Parsed(Middle(r.filters, Grouping(r.groupFunc, r.groupBy, r.maxMatches, r.groupSortBy, r.cutoff,
                                           r.retryCount, r.retryDelay, r.groupDistinct),
                       r.anchor, r.indexWeights, r.maxQueryTime, r.fieldWeights), |PutMiddle(w, q)|)
    ensures w <= buf
  {
    hide Dword, PutFilters, PutGrouping, PutAnchor, PutWeights, GetDword, GetCount;
    hide ReadFilters, ReadGrouping, ReadAnchor, ReadWeights, AnchorKept, AnchorFits, FilterFits, WeightFits;
    var w1 := w + Dword(|q.filters|);
    var w2 := PutFilters(w1, q.filters);
    var w3 := PutGrouping(w2, q);
    var w4 := PutAnchor(w3, q.anchor);
    var w5 := w4 + Dword(|q.indexWeights|);
    var w6 := PutWeights(w5, q.indexWeights);
    var w7 := w6 + Dword(q.maxQueryTime);
    WeightsBack(buf, w7 + Dword(|q.fieldWeights|), q.fieldWeights);
    DwordBack(buf, w7, |q.fieldWeights|);
    DwordBack(buf, w6, q.maxQueryTime);
    WeightsBack(buf, w5, q.indexWeights);
    DwordBack(buf, w4, |q.indexWeights|);
    AnchorBack(buf, w3, q.anchor);
    GroupingBack(buf, w2, q);
    FiltersBack(buf, w1, q.filters);
    DwordBack(buf, w, |q.filters|);
  }

  lemma TailBack(buf: Bytes, w: Bytes, q: Query)
    requires PutTail(w, q) <= buf && Sendable(q)
    ensures
      var r := QueryKept(q);
      ReadTail(buf, |w|) == Parsed(Tail(r.comment, r.overrides, r.select), |PutTail(w, q)|)
    ensures w <= buf
  {
    hide Dword, Text, PutOverrides, GetCount, GetString, ReadOverrides, OverrideFits;
    var w1 := w + Text(q.comment);
    var w2 := w1 + Dword(|q.overrides|);
    TextBack(buf, PutOverrides(w2, q.overrides), q.select);
    OverridesBack(buf, w2, q.overrides);
    DwordBack(buf, w1, |q.overrides|);
    TextBack(buf, w, q.comment);
  }

  /** A request is read as one query of the client's version from no master, and the query is the one sent, each
      number as its width keeps it; and not a byte is left. */
  lemma RequestReadBack(q: Query, body: int)
    requires Sendable(q)
    ensures
      var buf := Request(q, body);
      var command := ReadCommand(buf, 0);
      && command.Parsed? && command.value == Command(0, 0x119, body % U32, 0, 1)
      && ReadQuery(buf, command.pos) == Parsed(QueryKept(q), |buf|)
  {
    hide PutCommand, PutModes, PutMatching, PutMiddle, PutTail, Sendable;
    hide ReadCommand, ReadModes, ReadMatching, ReadMiddle, ReadTail;
    var buf := Request(q, body);
    var w1 := PutCommand([], body);
    var w2 := PutModes(w1, q);
    var w3 := PutMatching(w2, q);
    TailBack(buf, PutMiddle(w3, q), q);
    MiddleBack(buf, w3, q);
    MatchingBack(buf, w2, q);
    ModesBack(buf, w1, q);
    CommandBack(buf, [], body);
  }
}
