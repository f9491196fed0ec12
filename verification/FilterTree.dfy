/** What a filter tree means: per-row and per-block evaluation, and the rewriting done
    by Join and Optimize (src/sphinxfilter.cpp). */
module FilterTree {
  import opened FilterSearch
  import opened Integers
  import opened Vectors

  /** Where an attribute lives; dynamic attributes are computed per match. */
  datatype Locator = Locator(index: int, isDynamic: bool)

  /** A match: its attributes as integers, as floats (which are taken as reals) and as multi-value lists. */
  datatype Row = Row(id: int, weight: int, attr: Locator -> int, float: Locator -> real,
                     mva: Locator -> (bool, seq<int>))

  /** The minimum and maximum attribute rows of a block of documents. */
  datatype Block = Block(
    minId: int, maxId: int, minAttr: Locator -> int, maxAttr: Locator -> int,
    minFloat: Locator -> real, maxFloat: Locator -> real)

  ghost predicate InBlock(row: Row, b: Block) {
    && 0 <= b.minId <= row.id <= b.maxId < U64
    && (forall l: Locator :: !l.isDynamic ==> b.minAttr(l) <= row.attr(l) <= b.maxAttr(l))
    && forall l: Locator :: !l.isDynamic ==> b.minFloat(l) <= row.float(l) <= b.maxFloat(l)
  }

  datatype Leaf =
    | ByValues(loc: Locator, values: Values)
    | BySingleValue(loc: Locator, ref: int)
    | ByRange(loc: Locator, min: int, max: int, hasEqual: bool)
    | ByFloatRange(loc: Locator, minF: real, maxF: real, hasEqual: bool)
    | ByIdValues(values: Values)
    | ByIdRange(min: int, max: int, hasEqual: bool)
    | ByWeightValues(values: Values)
    | ByWeightRange(min: int, max: int, hasEqual: bool)
    | ByMvaValues(loc: Locator, list: seq<int>)
    | ByMvaRange(loc: Locator, min: int, max: int, hasEqual: bool)

  predicate Between(v: int, min: int, max: int, hasEqual: bool) {
    if hasEqual then min <= v <= max else min < v < max
  }

  ghost predicate PassesValues(values: Values, v: int) {
    values.Unset? || v in values.list
  }

  ghost predicate LeafEval(f: Leaf, row: Row) {
    match f
    case ByValues(l, vs) => PassesValues(vs, row.attr(l))
    case BySingleValue(l, ref) => row.attr(l) == ref
    case ByRange(l, min, max, eq) => Between(row.attr(l), min, max, eq)
    case ByFloatRange(l, min, max, eq) => if eq then min <= row.float(l) <= max else min < row.float(l) < max
    case ByIdValues(vs) => PassesValues(vs, ToSigned(row.id))
    case ByIdRange(min, max, eq) => Between(row.id, ToUnsigned(min), ToUnsigned(max), eq)
    case ByWeightValues(vs) => PassesValues(vs, row.weight)
    case ByWeightRange(min, max, eq) => Between(row.weight, min, max, eq)
    case ByMvaValues(l, list) => row.mva(l).0 && exists v <- list :: v in row.mva(l).1
    case ByMvaRange(l, min, max, eq) => row.mva(l).0 && RangeAnswer(row.mva(l).1, min, max, eq)
  }

  /** A block range overlaps the filter's range. */
  predicate Overlaps(bMin: int, bMax: int, min: int, max: int, hasEqual: bool) {
    if hasEqual then max >= bMin && min <= bMax else max > bMin && min < bMax
  }

  ghost predicate SomeValueIn(values: Values, bMin: int, bMax: int) {
    values.Given? && exists v <- values.list :: bMin <= v <= bMax
  }

  ghost predicate LeafEvalBlock(f: Leaf, b: Block) {
    match f
    case ByValues(l, vs) => l.isDynamic || SomeValueIn(vs, b.minAttr(l), b.maxAttr(l))
    case BySingleValue(l, ref) => l.isDynamic || b.minAttr(l) <= ref <= b.maxAttr(l)
    case ByRange(l, min, max, eq) => l.isDynamic || Overlaps(b.minAttr(l), b.maxAttr(l), min, max, eq)
    case ByFloatRange(l, min, max, eq) =>
      l.isDynamic ||
      if eq then max >= b.minFloat(l) && min <= b.maxFloat(l)
      else max > b.minFloat(l) && min < b.maxFloat(l)
    case ByIdValues(vs) => vs.Given? && exists v <- vs.list :: b.minId <= ToUnsigned(v) <= b.maxId
    case ByIdRange(min, max, eq) => Overlaps(b.minId, b.maxId, ToUnsigned(min), ToUnsigned(max), eq)
    case ByWeightValues(_) => true
    case ByWeightRange(_, _, _) => true
    case ByMvaValues(_, _) => true
    case ByMvaRange(_, _, _, _) => true
  }

  /** A filter tree; every node carries its m_bUsesAttrs flag. */
  datatype Tree =
    | One(leaf: Leaf, uses: bool)
    | And2(a: Tree, b: Tree, uses: bool)
    | And3(a: Tree, b: Tree, c: Tree, uses: bool)
    | And(list: seq<Tree>, uses: bool)
    | Not(arg: Tree, uses: bool)

  ghost predicate Eval(t: Tree, row: Row) {
    match t
    case One(leaf, _) => LeafEval(leaf, row)
    case And2(a, b, _) => Eval(a, row) && Eval(b, row)
    case And3(a, b, c, _) => Eval(a, row) && Eval(b, row) && Eval(c, row)
    case And(list, _) => forall f <- list :: Eval(f, row)
    case Not(arg, _) => !Eval(arg, row)
  }

  ghost predicate EvalBlock(t: Tree, b: Block) {
    match t
    case One(leaf, _) => LeafEvalBlock(leaf, b)
    case And2(x, y, _) => EvalBlock(x, b) && EvalBlock(y, b)
    case And3(x, y, z, _) => EvalBlock(x, b) && EvalBlock(y, b) && EvalBlock(z, b)
    case And(list, _) => forall f <- list :: EvalBlock(f, b)
    case Not(_, _) => true
  }

  // ---------- how the kinds of filters go together ----------

  /** A range of one value is that value; an inclusive range is all the values in it; an exclusive one stops short
      of both ends. */
  lemma AttrLaws(row: Row, l: Locator, min: int, max: int, list: seq<int>)
    requires forall v :: v in list <==> min <= v <= max
    ensures LeafEval(ByRange(l, min, min, true), row) <==> LeafEval(BySingleValue(l, min), row)
    ensures LeafEval(ByValues(l, Given([min])), row) <==> LeafEval(BySingleValue(l, min), row)
    ensures LeafEval(BySingleValue(l, min), row) <==> row.attr(l) == min
    ensures LeafEval(ByRange(l, min, max, true), row) <==> LeafEval(ByValues(l, Given(list)), row)
    ensures LeafEval(ByRange(l, min - 1, max + 1, false), row) <==> LeafEval(ByRange(l, min, max, true), row)
  {
  }

  lemma WeightLaws(row: Row, min: int, max: int, list: seq<int>)
    requires forall v :: v in list <==> min <= v <= max
    ensures LeafEval(ByWeightRange(min, min, true), row) <==> row.weight == min
    ensures LeafEval(ByWeightValues(Given([min])), row) <==> row.weight == min
    ensures LeafEval(ByWeightRange(min, max, true), row) <==> LeafEval(ByWeightValues(Given(list)), row)
    ensures LeafEval(ByWeightRange(min - 1, max + 1, false), row) <==> LeafEval(ByWeightRange(min, max, true), row)
  {
  }

  /** Ids are compared as unsigned numbers, and looked up among the signed readings of the ids given. */
  lemma IdLaws(row: Row, min: int, max: int, list: seq<int>)
    requires 0 <= row.id < U64 && 0 < min <= max < U64 - 1
    requires forall id :: ToSigned(id) in list && 0 <= id < U64 <==> min <= id <= max
    ensures LeafEval(ByIdRange(ToSigned(min), ToSigned(min), true), row) <==> row.id == min
    ensures LeafEval(ByIdValues(Given([ToSigned(min)])), row) <==> row.id == min
    ensures LeafEval(ByIdRange(ToSigned(min), ToSigned(max), true), row) <==> LeafEval(ByIdValues(Given(list)), row)
    ensures LeafEval(ByIdRange(ToSigned(min - 1), ToSigned(max + 1), false), row)
       <==> LeafEval(ByIdRange(ToSigned(min), ToSigned(max), true), row)
  {
    SignedBack(min);
    SignedBack(max);
    SignedBack(min - 1);
    SignedBack(max + 1);
    SignedBack(row.id);
    hide ToSigned, ToUnsigned;
    assert ToSigned(row.id) in [ToSigned(min)] <==> ToSigned(row.id) == ToSigned(min);
  }

  lemma SignedBack(id: int)
    requires 0 <= id < U64
    ensures ToUnsigned(ToSigned(id)) == id
  {
  }

  lemma FloatLaws(row: Row, l: Locator, min: real, max: real)
    ensures LeafEval(ByFloatRange(l, min, min, true), row) <==> row.float(l) == min
    ensures LeafEval(ByFloatRange(l, min, max, true), row)
       <==> LeafEval(ByFloatRange(l, min, max, false), row) || (min <= max && row.float(l) in {min, max})
    ensures LeafEval(ByFloatRange(l, min, max, false), row) ==> row.float(l) !in {min, max}
  {
  }

  /** A multi-value filter passes on any of its values, and never on a row without a list. */
  lemma MvaLaws(row: Row, l: Locator, v: int, list: seq<int>, min: int, max: int, hasEqual: bool)
    ensures LeafEval(ByMvaValues(l, [v]), row) <==> row.mva(l).0 && v in row.mva(l).1
    ensures LeafEval(ByMvaValues(l, list), row) <==> exists x <- list :: LeafEval(ByMvaValues(l, [x]), row)
    ensures LeafEval(ByMvaRange(l, v, v, true), row) && v in row.mva(l).1 <==> LeafEval(ByMvaValues(l, [v]), row)
    ensures LeafEval(ByMvaRange(l, min, max, hasEqual), row)
       <==> row.mva(l).0 && RangeAnswer(row.mva(l).1, min, max, hasEqual)
  {
    assert v in [v];
    forall x <- list ensures x in [x] {
    }
  }

  lemma NotNegates(t: Tree, uses: bool, row: Row)
    ensures Eval(Not(t, uses), row) <==> !Eval(t, row)
  {
  }

  /** Blocks are not let through for nothing: an inclusive range or a value passes a block of static attributes
      only if something between the block's ends passes the filter. */
  lemma BlockTight(b: Block, l: Locator, min: int, max: int, list: seq<int>)
    requires !l.isDynamic && b.minAttr(l) <= b.maxAttr(l) && min <= max
    ensures LeafEvalBlock(ByRange(l, min, max, true), b)
       <==> exists v :: Between(v, b.minAttr(l), b.maxAttr(l), true) && Between(v, min, max, true)
    ensures LeafEvalBlock(BySingleValue(l, min), b) <==> LeafEvalBlock(ByRange(l, min, min, true), b)
    ensures LeafEvalBlock(ByValues(l, Given(list)), b)
       <==> exists v <- list :: LeafEvalBlock(BySingleValue(l, v), b)
  {
    var v := if min < b.minAttr(l) then b.minAttr(l) else min;
    if LeafEvalBlock(ByRange(l, min, max, true), b) {
      assert Between(v, b.minAttr(l), b.maxAttr(l), true) && Between(v, min, max, true);
    }
  }

  // ---------- pruning ----------

  /** SetValues was called on the filters that look their values up in a block. */
  predicate HasValues(f: Leaf) {
    match f
    case ByValues(l, vs) => l.isDynamic || vs.Given?
    case ByIdValues(vs) => vs.Given?
    case _ => true
  }

  /** ... on all such filters that are not below a Not. */
  predicate ValuesSet(t: Tree) {
    match t
    case One(leaf, _) => HasValues(leaf)
    case And2(a, b, _) => ValuesSet(a) && ValuesSet(b)
    case And3(a, b, c, _) => ValuesSet(a) && ValuesSet(b) && ValuesSet(c)
    case And(list, _) => forall f <- list :: ValuesSet(f)
    case Not(_, _) => true
  }

  lemma LeafPruning(f: Leaf, row: Row, b: Block)
    requires InBlock(row, b) && LeafEval(f, row)
    ensures LeafEvalBlock(f, b) <==> HasValues(f)
  {
    match f
    case ByIdValues(vs) =>
      if vs.Given? {
        assert ToUnsigned(ToSigned(row.id)) == row.id;
        assert ToSigned(row.id) in vs.list;
      }
    case ByValues(l, vs) =>
      if vs.Given? {
        assert row.attr(l) in vs.list;
      }
    case _ =>
  }

  /** A block with a matching row is kept exactly when every value-list filter outside a
      Not has been given its values. In particular pruning is sound for such trees, and
      a filter left without values, which passes every row, rejects every block. */
  lemma {:induction false} PruningExact(t: Tree, row: Row, b: Block)
    requires InBlock(row, b) && Eval(t, row)
    ensures EvalBlock(t, b) <==> ValuesSet(t)
  {
    match t
    case One(leaf, _) => LeafPruning(leaf, row, b);
    case And2(x, y, _) =>
      PruningExact(x, row, b);
      PruningExact(y, row, b);
    case And3(x, y, z, _) =>
      PruningExact(x, row, b);
      PruningExact(y, row, b);
      PruningExact(z, row, b);
    case And(list, _) =>
      forall f <- list ensures EvalBlock(f, b) <==> ValuesSet(f) {
        PruningExact(f, row, b);
      }
    case Not(_, _) =>
  }

  /** A filter by values that was given none passes a row and rejects the row's own block. */
  lemma UnsetFilterPrunesWrongly(row: Row, b: Block, loc: Locator)
    requires InBlock(row, b) && !loc.isDynamic
    ensures Eval(One(ByValues(loc, Unset), true), row) && !EvalBlock(One(ByValues(loc, Unset), true), b)
  {
  }

  // ---------- joining and optimising ----------

  /** sphinx's Join, override by override. */
  function Join(t: Tree, f: Tree): Tree {
    match t
    case And2(a, b, uses) => And2(a, And2(b, f, uses), uses)
    case And3(a, b, c, uses) => And3(a, b, And2(c, f, uses), uses)
    case And(list, uses) => And(list + [f], uses || f.uses)
    case _ => And([t, f], t.uses || f.uses)
  }

  function Optimize(t: Tree): Tree {
    match t
    case And(list, uses) =>
      if |list| == 2 then And2(list[0], list[1], uses)
      else if |list| == 3 then And3(list[0], list[1], list[2], uses)
      else t
    case _ => t
  }

  lemma JoinIsConjunction(t: Tree, f: Tree, row: Row, b: Block)
    ensures Eval(Join(t, f), row) <==> Eval(t, row) && Eval(f, row)
    ensures EvalBlock(Join(t, f), b) <==> EvalBlock(t, b) && EvalBlock(f, b)
    ensures ValuesSet(Join(t, f)) <==> ValuesSet(t) && ValuesSet(f)
  {
    if !t.And2? && !t.And3? {
      var list := if t.And? then t.list else [t];
      assert Join(t, f).list == list + [f];
      assert forall x :: x in list + [f] <==> x in list || x == f;
    }
  }

  lemma OptimizeKeepsMeaning(t: Tree, row: Row, b: Block)
    ensures Eval(Optimize(t), row) <==> Eval(t, row)
    ensures EvalBlock(Optimize(t), b) <==> EvalBlock(t, b)
    ensures ValuesSet(Optimize(t)) <==> ValuesSet(t)
    ensures Optimize(t).uses == t.uses
    ensures t.And? && |t.list| == 2 ==> Optimize(t) == And2(t.list[0], t.list[1], t.uses)
    ensures t.And? && |t.list| == 3 ==> Optimize(t) == And3(t.list[0], t.list[1], t.list[2], t.uses)
    ensures !t.And? || !(2 <= |t.list| <= 3) ==> Optimize(t) == t
  {
    if t.And? && |t.list| == 2 {
      assert t.list == [t.list[0], t.list[1]];
    } else if t.And? && |t.list| == 3 {
      assert t.list == [t.list[0], t.list[1], t.list[2]];
    }
  }

  // ---------- the flag that says attributes are needed ----------

  predicate LeafUsesAttrs(f: Leaf) {
    !(f.ByIdValues? || f.ByIdRange? || f.ByWeightValues? || f.ByWeightRange?)
  }

  /** Some leaf of the tree reads attributes. */
  predicate ReadsAttrs(t: Tree) {
    match t
    case One(leaf, _) => LeafUsesAttrs(leaf)
    case And2(a, b, _) => ReadsAttrs(a) || ReadsAttrs(b)
    case And3(a, b, c, _) => ReadsAttrs(a) || ReadsAttrs(b) || ReadsAttrs(c)
    case And(list, _) => exists f <- list :: ReadsAttrs(f)
    case Not(arg, _) => ReadsAttrs(arg)
  }

  /** The flag of every constructed filter: on iff attributes are read. */
  predicate FlagExact(t: Tree) {
    t.uses == ReadsAttrs(t)
  }

  /** A filter whose leaves read no attributes gives the same answer for all of them. */
  lemma {:induction false} AttrsIrrelevant(t: Tree, row: Row, row': Row)
    requires !ReadsAttrs(t) && row.id == row'.id && row.weight == row'.weight
    ensures Eval(t, row) <==> Eval(t, row')
  {
    match t
    case One(_, _) =>
    case And2(a, b, _) =>
      AttrsIrrelevant(a, row, row');
      AttrsIrrelevant(b, row, row');
    case And3(a, b, c, _) =>
      AttrsIrrelevant(a, row, row');
      AttrsIrrelevant(b, row, row');
      AttrsIrrelevant(c, row, row');
    case And(list, _) =>
      forall f <- list ensures Eval(f, row) <==> Eval(f, row') {
        AttrsIrrelevant(f, row, row');
      }
    case Not(arg, _) => AttrsIrrelevant(arg, row, row');
  }

  lemma JoinReads(t: Tree, f: Tree)
    ensures ReadsAttrs(Join(t, f)) <==> ReadsAttrs(t) || ReadsAttrs(f)
  {
    if !t.And2? && !t.And3? {
      var list := if t.And? then t.list else [t];
      var all := Join(t, f).list;
      assert all == list + [f];
      assert forall x :: x in all <==> x in list || x == f;
      assert f in all && (!t.And? ==> t in all);
    }
  }

  /** Joining keeps the flag exact, except that a two- or three-way conjunction does not
      take over the flag of the filter joined to it. */
  lemma JoinFlag(t: Tree, f: Tree)
    requires FlagExact(t) && FlagExact(f)
    ensures FlagExact(Join(t, f)) <==> (t.uses || !f.uses || !(t.And2? || t.And3?))
  {
    hide ReadsAttrs;
    JoinReads(t, f);
  }

  /** An id range optimised with another and then joined with an attribute filter says
      that it needs no attributes, though its answer depends on them. */
  lemma JoinLosesFlag(row: Row, loc: Locator)
    requires 0 <= row.id < U64 && row.attr(loc) == 1
    ensures var ids := One(ByIdRange(0, -1, true), false);
            var t := Join(Optimize(Join(ids, ids)), One(BySingleValue(loc, 1), true));
            && !t.uses && Eval(t, row)
            && !Eval(t, row.(attr := (l: Locator) => 2))
  {
    var ids := One(ByIdRange(0, -1, true), false);
    var attr := One(BySingleValue(loc, 1), true);
    var row' := row.(attr := (l: Locator) => 2);
    assert Join(Optimize(Join(ids, ids)), attr) == And2(ids, And2(ids, attr, false), false);
    assert Eval(ids, row) && Eval(attr, row) && Eval(And2(ids, attr, false), row);
    assert !Eval(attr, row') && !Eval(And2(ids, attr, false), row');
  }

  // ---------- evaluation as the filters do it ----------

  ghost predicate LeafReady(f: Leaf) {
    match f
    case ByValues(_, vs) => vs.Valid()
    case ByIdValues(vs) => vs.Valid()
    case ByWeightValues(vs) => vs.Valid()
    case ByMvaValues(_, list) => Sorted(list)
    case _ => true
  }

  /** All value lists of the tree are as SetValues left them. */
  ghost predicate Ready(t: Tree) {
    match t
    case One(leaf, _) => LeafReady(leaf)
    case And2(a, b, _) => Ready(a) && Ready(b)
    case And3(a, b, c, _) => Ready(a) && Ready(b) && Ready(c)
    case And(list, _) => forall f <- list :: Ready(f)
    case Not(arg, _) => Ready(arg)
  }

  /** Multi-value attributes are stored sorted and without repeats. */
  ghost predicate MvaSorted(row: Row) {
    forall l: Locator :: Ascending(row.mva(l).1)
  }

  /** Each kind of filter by what it asks of the row. */
  method EvalLeaf(f: Leaf, row: Row) returns (pass: bool)
    requires LeafReady(f) && MvaSorted(row)
    ensures pass <==> LeafEval(f, row)
    ensures f.ByValues? ==> (pass <==> f.values.Unset? || row.attr(f.loc) in f.values.list)
    ensures f.BySingleValue? ==> (pass <==> row.attr(f.loc) == f.ref)
    ensures f.ByRange? ==>
              (pass <==> if f.hasEqual then f.min <= row.attr(f.loc) <= f.max else f.min < row.attr(f.loc) < f.max)
    ensures f.ByFloatRange? ==>
              (pass <==> if f.hasEqual then f.minF <= row.float(f.loc) <= f.maxF
                         else f.minF < row.float(f.loc) < f.maxF)
    ensures f.ByIdValues? ==> (pass <==> f.values.Unset? || ToSigned(row.id) in f.values.list)
    ensures f.ByIdRange? ==>
              (pass <==> if f.hasEqual then ToUnsigned(f.min) <= row.id <= ToUnsigned(f.max)
                         else ToUnsigned(f.min) < row.id < ToUnsigned(f.max))
    ensures f.ByWeightValues? ==> (pass <==> f.values.Unset? || row.weight in f.values.list)
    ensures f.ByWeightRange? ==>
              (pass <==> if f.hasEqual then f.min <= row.weight <= f.max else f.min < row.weight < f.max)
    ensures f.ByMvaValues? ==> (pass <==> row.mva(f.loc).0 && exists v <- f.list :: v in row.mva(f.loc).1)
    ensures f.ByMvaRange? && (!f.hasEqual || f.min <= f.max) && f.min !in row.mva(f.loc).1 ==>
              (pass <==> row.mva(f.loc).0 && SomeInRange(row.mva(f.loc).1, f.min, f.max, f.hasEqual))
  {
    match f
    case ByValues(l, vs) => pass := EvalValues(vs, row.attr(l));
    case BySingleValue(l, ref) => pass := row.attr(l) == ref;
    case ByRange(l, min, max, eq) => pass := Between(row.attr(l), min, max, eq);
    case ByFloatRange(l, min, max, eq) =>
      var v := row.float(l);
      pass := if eq then v >= min && v <= max else v > min && v < max;
    case ByIdValues(vs) => pass := EvalValues(vs, ToSigned(row.id));
    case ByIdRange(min, max, eq) => pass := Between(row.id, ToUnsigned(min), ToUnsigned(max), eq);
    case ByWeightValues(vs) => pass := EvalValues(vs, row.weight);
    case ByWeightRange(min, max, eq) => pass := Between(row.weight, min, max, eq);
    case ByMvaValues(l, list) =>
      var mva := row.mva(l);
      pass := false;
      if mva.0 {
        pass := MvaValuesEval(list, mva.1);
      }
    case ByMvaRange(l, min, max, eq) =>
      var mva := row.mva(l);
      pass := false;
      if mva.0 {
        pass := MvaRangeEval(mva.1, min, max, eq);
      }
  }

  /** Each kind by what it asks of the block; dynamic attributes, weights and lists are not looked at. */
  method EvalLeafBlock(f: Leaf, b: Block) returns (pass: bool)
    ensures pass <==> LeafEvalBlock(f, b)
    ensures f.ByValues? ==>
              (pass <==> f.loc.isDynamic
                         || (f.values.Given? && exists v <- f.values.list :: b.minAttr(f.loc) <= v <= b.maxAttr(f.loc)))
    ensures f.BySingleValue? ==> (pass <==> f.loc.isDynamic || b.minAttr(f.loc) <= f.ref <= b.maxAttr(f.loc))
    ensures f.ByRange? ==>
              (pass <==> f.loc.isDynamic
                         || if f.hasEqual then f.min <= b.maxAttr(f.loc) && b.minAttr(f.loc) <= f.max
                            else f.min < b.maxAttr(f.loc) && b.minAttr(f.loc) < f.max)
    ensures f.ByFloatRange? ==>
              (pass <==> f.loc.isDynamic
                         || if f.hasEqual then f.minF <= b.maxFloat(f.loc) && b.minFloat(f.loc) <= f.maxF
                            else f.minF < b.maxFloat(f.loc) && b.minFloat(f.loc) < f.maxF)
    ensures f.ByIdValues? ==>
              (pass <==> f.values.Given? && exists v <- f.values.list :: b.minId <= ToUnsigned(v) <= b.maxId)
    ensures f.ByIdRange? ==>
              (pass <==> if f.hasEqual then ToUnsigned(f.min) <= b.maxId && b.minId <= ToUnsigned(f.max)
                         else ToUnsigned(f.min) < b.maxId && b.minId < ToUnsigned(f.max))
    ensures f.ByWeightValues? || f.ByWeightRange? || f.ByMvaValues? || f.ByMvaRange? ==> pass
  {
    match f
    case ByValues(l, vs) =>
      pass := true;
      if !l.isDynamic {
        pass := EvalBlockValues(vs, b.minAttr(l), b.maxAttr(l));
      }
    case BySingleValue(l, ref) => pass := l.isDynamic || b.minAttr(l) <= ref <= b.maxAttr(l);
    case ByRange(l, min, max, eq) => pass := l.isDynamic || Overlaps(b.minAttr(l), b.maxAttr(l), min, max, eq);
    case ByFloatRange(l, min, max, eq) =>
      var lo, hi := b.minFloat(l), b.maxFloat(l);
      pass := l.isDynamic || if eq then max >= lo && min <= hi else max > lo && min < hi;
    case ByIdValues(vs) =>
      pass := false;
      if vs.Given? {
        for i := 0 to |vs.list|
          invariant forall k :: 0 <= k < i ==> !(b.minId <= ToUnsigned(vs.list[k]) <= b.maxId)
        {
          if b.minId <= ToUnsigned(vs.list[i]) <= b.maxId {
            assert vs.list[i] in vs.list;
            return true;
          }
        }
      }
    case ByIdRange(min, max, eq) => pass := Overlaps(b.minId, b.maxId, ToUnsigned(min), ToUnsigned(max), eq);
    case _ => pass := true;
  }
}
