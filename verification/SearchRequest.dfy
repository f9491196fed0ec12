/** The search query of mysqlse/ha_sphinx.cc and the request it is sent as: its size computed in advance
    and its bytes as specified by the order of sending. */
module SearchRequest {
  import opened Integers
  import opened Vectors

  const SEARCHD_COMMAND_SEARCH := 0
  const VER_COMMAND_SEARCH := 0x119
  const SPH_RANK_EXPR := 8
  const SPH_ATTR_FLOAT := 5
  const SPH_ATTR_BIGINT := 6

  type Bytes = seq<byte>

  datatype Criterion =
    | Values(values: seq<int>)
    | Range(min: int, max: int)
    | FloatRange(lo: int, hi: int)      // the floats' bits

  datatype Filter = Filter(attr: Bytes, criterion: Criterion, exclude: int)

  datatype Weight = Weight(name: Bytes, weight: int)

  /** A document id with the bits of the value it is overridden to. */
  datatype Entry = Entry(id: int, value: int)

  datatype Override = Override(name: Bytes, kind: int, entries: seq<Entry>)

  datatype Anchor = NoAnchor | Anchor(latAttr: Bytes, longAttr: Bytes, latitude: int, longitude: int)

  datatype Query = Query(
    offset: int, limit: int, mode: int, ranker: int, rankExpr: Bytes, sort: int, sortBy: Bytes,
    query: Bytes, weights: seq<int>, index: Bytes, minId: int, maxId: int,
    filters: seq<Filter>,
    groupFunc: int, groupBy: Bytes, maxMatches: int, groupSortBy: Bytes, cutoff: int,
    retryCount: int, retryDelay: int, groupDistinct: Bytes, anchor: Anchor,
    indexWeights: seq<Weight>, maxQueryTime: int, fieldWeights: seq<Weight>, comment: Bytes,
    overrides: seq<Override>, select: Bytes)

  /** A 16-bit and a 32-bit number in network order. */
  function Word(v: int): (b: Bytes)
    ensures |b| == 2
  {
    [v / 0x100 % 0x100, v % 0x100]
  }

  function Dword(v: int): (b: Bytes)
    ensures |b| == 4
  {
    [v / 0x1000000 % 0x100, v / 0x10000 % 0x100, v / 0x100 % 0x100, v % 0x100]
  }

  function Quad(v: int): (b: Bytes)
    ensures |b| == 8
  {
    Dword(v / 0x1_0000_0000) + Dword(v)
  }

  function Text(s: Bytes): (b: Bytes)
    ensures |b| == 4 + |s|
  {
    Dword(|s|) + s
  }

  function Kind(c: Criterion): (k: int) {
    match c
    case Values(_) => 0
    case Range(_, _) => 1
    case FloatRange(_, _) => 2
  }

  // The request, part by part, each part put after the bytes before it.

  ghost function Dwords(w: Bytes, vs: seq<int>): (b: Bytes) {
    if vs == [] then w else Dwords(w, vs[..|vs| - 1]) + Dword(vs[|vs| - 1])
  }

  ghost function Quads(w: Bytes, vs: seq<int>): (b: Bytes) {
    if vs == [] then w else Quads(w, vs[..|vs| - 1]) + Quad(vs[|vs| - 1])
  }

  ghost function PutCriterion(w: Bytes, c: Criterion): (b: Bytes) {
    match c
    case Values(values) => Quads(w + Dword(|values|), values)
    case Range(min, max) => w + Quad(min) + Quad(max)
    case FloatRange(lo, hi) => w + Dword(lo) + Dword(hi)
  }

  ghost function PutFilter(w: Bytes, f: Filter): (b: Bytes) {
    PutCriterion(w + Text(f.attr) + Dword(Kind(f.criterion)), f.criterion) + Dword(f.exclude)
  }

  ghost function PutFilters(w: Bytes, fs: seq<Filter>): (b: Bytes) {
    if fs == [] then w else PutFilter(PutFilters(w, fs[..|fs| - 1]), fs[|fs| - 1])
  }

  ghost function PutWeights(w: Bytes, ws: seq<Weight>): (b: Bytes) {
    if ws == [] then w
    else PutWeights(w, ws[..|ws| - 1]) + Text(ws[|ws| - 1].name) + Dword(ws[|ws| - 1].weight)
  }

  ghost function PutEntry(w: Bytes, kind: int, e: Entry): (b: Bytes) {
    w + Quad(e.id) + if kind == SPH_ATTR_BIGINT then Quad(e.value) else Dword(e.value)
  }

  ghost function PutEntries(w: Bytes, kind: int, es: seq<Entry>): (b: Bytes) {
    if es == [] then w else PutEntry(PutEntries(w, kind, es[..|es| - 1]), kind, es[|es| - 1])
  }

  ghost function PutOverride(w: Bytes, o: Override): (b: Bytes) {
    PutEntries(w + Text(o.name) + Dword(o.kind) + Dword(|o.entries|), o.kind, o.entries)
  }

  ghost function PutOverrides(w: Bytes, os: seq<Override>): (b: Bytes) {
    if os == [] then w else PutOverride(PutOverrides(w, os[..|os| - 1]), os[|os| - 1])
  }

  ghost function PutCommand(w: Bytes, body: int): (b: Bytes) {
    w + Word(SEARCHD_COMMAND_SEARCH) + Word(VER_COMMAND_SEARCH) + Dword(body) + Dword(0) + Dword(1)
  }

  ghost function PutModes(w: Bytes, q: Query): (b: Bytes) {
    var b := w + Dword(q.offset) + Dword(q.limit) + Dword(q.mode) + Dword(q.ranker);
    if q.ranker == SPH_RANK_EXPR then b + Text(q.rankExpr) else b
  }

  ghost function PutMatching(w: Bytes, q: Query): (b: Bytes) {
    Dwords(w + Dword(q.sort) + Text(q.sortBy) + Text(q.query) + Dword(|q.weights|), q.weights)
    + Text(q.index) + Dword(1) + Quad(q.minId) + Quad(q.maxId)
  }

  ghost function PutGrouping(w: Bytes, q: Query): (b: Bytes) {
    w + Dword(q.groupFunc) + Text(q.groupBy) + Dword(q.maxMatches) + Text(q.groupSortBy)
    + Dword(q.cutoff) + Dword(q.retryCount) + Dword(q.retryDelay) + Text(q.groupDistinct)
  }

  ghost function PutAnchor(w: Bytes, a: Anchor): (b: Bytes) {
    match a
    case NoAnchor => w + Dword(0)
    case Anchor(latAttr, longAttr, latitude, longitude) =>
      w + Dword(1) + Text(latAttr) + Text(longAttr) + Dword(latitude) + Dword(longitude)
  }

  ghost function PutMiddle(w: Bytes, q: Query): (b: Bytes) {
    var filtered := PutFilters(w + Dword(|q.filters|), q.filters);
    var anchored := PutAnchor(PutGrouping(filtered, q), q.anchor);
    var indexed := PutWeights(anchored + Dword(|q.indexWeights|), q.indexWeights);
    PutWeights(indexed + Dword(q.maxQueryTime) + Dword(|q.fieldWeights|), q.fieldWeights)
  }

  ghost function PutTail(w: Bytes, q: Query): (b: Bytes) {
    PutOverrides(w + Text(q.comment) + Dword(|q.overrides|), q.overrides) + Text(q.select)
  }

  /** The whole request, with the length of its body given. */
  ghost function Request(q: Query, body: int): (b: Bytes) {
    PutTail(PutMiddle(PutMatching(PutModes(PutCommand([], body), q), q), q), q)
  }

  // The size, as it is computed before anything is sent.

  function CriterionSize(c: Criterion): (n: int)
    ensures n >= 0
  {
    match c
    case Values(values) => 4 + 8 * |values|
    case Range(_, _) => 16
    case FloatRange(_, _) => 8
  }

  function FilterSize(f: Filter): (n: int)
    ensures n >= 0
  {
    12 + |f.attr| + CriterionSize(f.criterion)
  }

  function WeightSize(w: Weight): (n: int)
    ensures n >= 0
  {
    8 + |w.name|
  }

  function EntrySize(kind: int): (n: int) {
    if kind == SPH_ATTR_BIGINT then 16 else 12
  }

  function OverrideSize(o: Override): (n: int)
    ensures n >= 0
  {
    |o.name| + 12 + EntrySize(o.kind) * |o.entries|
  }

  function AnchorSize(a: Anchor): (n: int) {
    if a.Anchor? then 16 + |a.latAttr| + |a.longAttr| else 0
  }

  function RankSize(q: Query): (n: int) {
    if q.ranker == SPH_RANK_EXPR then 4 + |q.rankExpr| else 0
  }

  function TextsSize(q: Query): (n: int) {
    |q.sortBy| + |q.query| + |q.index| + |q.groupBy| + |q.groupSortBy| + |q.groupDistinct| + |q.comment| + |q.select|
  }

  function MiddleSize(q: Query): (n: int) {
    52 + SumBy(q.filters, FilterSize) + |q.groupBy| + |q.groupSortBy| + |q.groupDistinct| + AnchorSize(q.anchor)
    + SumBy(q.indexWeights, WeightSize) + SumBy(q.fieldWeights, WeightSize)
  }

  function TailSize(q: Query): (n: int) {
    12 + |q.comment| + SumBy(q.overrides, OverrideSize) + |q.select|
  }

  function MatchingSize(q: Query): (n: int) {
    40 + 4 * |q.weights| + |q.sortBy| + |q.query| + |q.index|
  }

  function RequestSize(q: Query): (n: int) {
    128 + 4 * |q.weights| + TextsSize(q) + RankSize(q) + SumBy(q.filters, FilterSize) + AnchorSize(q.anchor)
    + SumBy(q.indexWeights, WeightSize) + SumBy(q.fieldWeights, WeightSize)
    + 4 + SumBy(q.overrides, OverrideSize) + 4
  }

  lemma {:induction false} DwordsLength(w: Bytes, vs: seq<int>)
    ensures |Dwords(w, vs)| == |w| + 4 * |vs|
  {
    if vs != [] {
      DwordsLength(w, vs[..|vs| - 1]);
    }
  }

  lemma {:induction false} QuadsLength(w: Bytes, vs: seq<int>)
    ensures |Quads(w, vs)| == |w| + 8 * |vs|
  {
    if vs != [] {
      QuadsLength(w, vs[..|vs| - 1]);
    }
  }

  lemma CriterionLength(w: Bytes, c: Criterion)
    ensures |PutCriterion(w, c)| == |w| + CriterionSize(c)
  {
    if c.Values? {
      QuadsLength(w + Dword(|c.values|), c.values);
    }
  }

  lemma FilterLength(w: Bytes, f: Filter)
    ensures |PutFilter(w, f)| == |w| + FilterSize(f)
  {
    CriterionLength(w + Text(f.attr) + Dword(Kind(f.criterion)), f.criterion);
  }

  lemma {:induction false} FiltersLength(w: Bytes, fs: seq<Filter>)
    ensures |PutFilters(w, fs)| == |w| + SumBy(fs, FilterSize)
  {
    hide PutFilter, FilterSize;
    if fs != [] {
      var last := |fs| - 1;
      FiltersLength(w, fs[..last]);
      FilterLength(PutFilters(w, fs[..last]), fs[last]);
      SumLast(fs, FilterSize);
    }
  }

  lemma {:induction false} WeightsLength(w: Bytes, ws: seq<Weight>)
    ensures |PutWeights(w, ws)| == |w| + SumBy(ws, WeightSize)
  {
    if ws != [] {
      WeightsLength(w, ws[..|ws| - 1]);
      SumLast(ws, WeightSize);
    }
  }

  lemma {:induction false} EntriesLength(w: Bytes, kind: int, es: seq<Entry>)
    ensures |PutEntries(w, kind, es)| == |w| + EntrySize(kind) * |es|
  {
    if es != [] {
      EntriesLength(w, kind, es[..|es| - 1]);
    }
  }

  lemma EntriesSize(o: Override)
    ensures EntrySize(o.kind) * |o.entries| >= 0
  {
  }

  lemma OverrideLength(w: Bytes, o: Override)
    ensures |PutOverride(w, o)| == |w| + OverrideSize(o)
  {
    EntriesLength(w + Text(o.name) + Dword(o.kind) + Dword(|o.entries|), o.kind, o.entries);
  }

  lemma {:induction false} OverridesLength(w: Bytes, os: seq<Override>)
    ensures |PutOverrides(w, os)| == |w| + SumBy(os, OverrideSize)
  {
    hide PutOverride, OverrideSize;
    if os != [] {
      var last := |os| - 1;
      OverridesLength(w, os[..last]);
      OverrideLength(PutOverrides(w, os[..last]), os[last]);
      SumLast(os, OverrideSize);
    }
  }

  lemma MatchingLength(w: Bytes, q: Query)
    ensures |PutMatching(w, q)| == |w| + MatchingSize(q)
  {
    hide Dwords;
    DwordsLength(w + Dword(q.sort) + Text(q.sortBy) + Text(q.query) + Dword(|q.weights|), q.weights);
  }

  lemma MiddleLength(w: Bytes, q: Query)
    ensures |PutMiddle(w, q)| == |w| + MiddleSize(q)
  {
    hide PutFilters, PutWeights, SumBy;
    FiltersLength(w + Dword(|q.filters|), q.filters);
    var filtered := PutFilters(w + Dword(|q.filters|), q.filters);
    var anchored := PutAnchor(PutGrouping(filtered, q), q.anchor);
    WeightsLength(anchored + Dword(|q.indexWeights|), q.indexWeights);
    var indexed := PutWeights(anchored + Dword(|q.indexWeights|), q.indexWeights);
    WeightsLength(indexed + Dword(q.maxQueryTime) + Dword(|q.fieldWeights|), q.fieldWeights);
  }

  lemma SizesNonNegative(q: Query)
    ensures SumBy(q.filters, FilterSize) >= 0 && SumBy(q.overrides, OverrideSize) >= 0
    ensures SumBy(q.indexWeights, WeightSize) >= 0 && SumBy(q.fieldWeights, WeightSize) >= 0
    ensures RankSize(q) >= 0 && AnchorSize(q.anchor) >= 0
  {
    hide SumBy, FilterSize, OverrideSize, WeightSize;
    SumNonNegative(q.filters, FilterSize);
    SumNonNegative(q.overrides, OverrideSize);
    SumNonNegative(q.indexWeights, WeightSize);
    SumNonNegative(q.fieldWeights, WeightSize);
  }

  /** The size computed in advance is the number of bytes of the request. */
  lemma SizeIsExact(q: Query, body: int)
    ensures |Request(q, body)| == RequestSize(q) >= 8
  {
    hide PutMatching, PutMiddle, PutTail, SumBy;
    var matched := PutMatching(PutModes(PutCommand([], body), q), q);
    MatchingLength(PutModes(PutCommand([], body), q), q);
    MiddleLength(matched, q);
    TailLength(PutMiddle(matched, q), q);
    SizesNonNegative(q);
  }

  lemma TailLength(w: Bytes, q: Query)
    ensures |PutTail(w, q)| == |w| + TailSize(q)
  {
    hide PutOverrides, SumBy;
    OverridesLength(w + Text(q.comment) + Dword(|q.overrides|), q.overrides);
  }

  lemma SizeParts(q: Query)
    ensures RequestSize(q) == 16 + (16 + RankSize(q)) + MatchingSize(q) + MiddleSize(q) + TailSize(q)
    ensures RankSize(q) >= 0 && MatchingSize(q) >= 0 && MiddleSize(q) >= 0 && TailSize(q) >= 0
  {
    hide SumBy, RankSize, AnchorSize;
    SizesNonNegative(q);
  }
}
