/** The snippet engine's token cache: a byte stream of delta-coded callbacks
    (class CacheStreamer_c of src/sphinxexcerpt.cpp).

    Bit operations on bytes are written as arithmetic: x>>4 is x/16, x&15 is x%16,
    x>>7 is x/128, and a left shift adds a multiple. */
module TokenStream {
  import opened Integers

  datatype Token = Token(start: int, len: int, pos: int, isWord: bool, isStop: bool, term: int)

  /** The name a zone mark comes with; sentences and paragraphs have none. */
  datatype ZoneName = NoName | Named(name: string)

  /** One callback of a token functor. */
  datatype Event =
    | OnToken(tok: Token)
    | OnOverlap(start: int, len: int, boundary: int)
    | OnSkipHtml(start: int, len: int)
    | OnSpz(code: int, pos: int, zone: int, name: ZoneName)
    | OnTail(start: int, len: int, boundary: int)
    | OnFinish
  {
    /** What the asserts of the Store* methods and the 32-bit fields ask of the caller. */
    predicate WellFormed() {
      match this
      case OnToken(t) =>
        && 0 <= t.start && 1 <= t.len <= 255 && t.start + t.len < I32
        && 0 <= t.pos < U32 && -1 <= t.term < 65535
      case OnOverlap(s, l, b) => 0 <= s && 1 <= l <= 65535 && s + l < I32 && -1 <= b < I32
      case OnSkipHtml(s, l) => 0 <= s < I32 && 0 <= l < I32
      case OnSpz(c, p, z, _) => 0 <= c < 256 && 0 <= p < U32 && -1 <= z < I32
      case OnTail(s, l, b) => 0 <= s < I32 && 0 <= l < I32 && -1 <= b < I32
      case OnFinish => false // never stored
    }

    /** Only these two callbacks return a verdict the replay looks at. */
    predicate Stoppable() {
      OnToken? || OnOverlap?
    }
  }

  // ---------- the entries of the stream ----------

  const TYPE_TOKEN1 := 0
  const TYPE_TOKEN2 := 1
  const TYPE_OVERLAP1 := 2
  const TYPE_TOKOVER1 := 3
  const TYPE_TOKOVER5 := 7
  const TYPE_TOKEN := 8
  const TYPE_OVERLAP := 9
  const TYPE_SKIPHTML := 10
  const TYPE_SPZ := 11
  const TYPE_TAIL := 12
  const TYPE_TOTAL := 13

  /** One entry; Plain is a generic fat entry holding the callback itself. */
  datatype Entry =
    | Token1(len: int)
    | Token2(len: int)
    | Overlap1(len: int)
    | TokOver(tokLen: int, overLen: int)
    | Plain(event: Event)
  {
    predicate Valid() {
      match this
      case Token1(l) => 1 <= l < 16
      case Token2(l) => 16 <= l < 256
      case Overlap1(l) => 1 <= l < 16
      case TokOver(t, o) => (1 <= t < 16 && 1 <= o <= 4) || (1 <= t <= 8 && 5 <= o <= 6)
      case Plain(e) => e.WellFormed()
    }

    /** The 4-bit type code. */
    function Type(): (t: int)
      requires Valid()
      ensures 0 <= t < TYPE_TOTAL
    {
      match this
      case Token1(_) => TYPE_TOKEN1
      case Token2(_) => TYPE_TOKEN2
      case Overlap1(_) => TYPE_OVERLAP1
      case TokOver(_, o) => if o <= 4 then TYPE_TOKOVER1 + o - 1 else TYPE_TOKOVER5
      case Plain(OnToken(_)) => TYPE_TOKEN
      case Plain(OnOverlap(_, _, _)) => TYPE_OVERLAP
      case Plain(OnSkipHtml(_, _)) => TYPE_SKIPHTML
      case Plain(OnSpz(_, _, _, _)) => TYPE_SPZ
      case Plain(OnTail(_, _, _)) => TYPE_TAIL
    }

    /** The low half of the first byte. */
    function Payload(): (p: int)
      requires Valid()
      ensures 0 <= p < 16
    {
      match this
      case Token1(l) => l
      case Token2(_) => 0
      case Overlap1(l) => l
      case TokOver(t, o) => if o <= 4 then t - 1 else (t - 1) * 2 + o - 5
      case Plain(_) => 0
    }

    /** What follows the first byte. */
    function Rest(): seq<byte>
      requires Valid()
    {
      match this
      case Token1(_) => []
      case Token2(l) => [l]
      case Overlap1(_) => []
      case TokOver(_, _) => []
      case Plain(OnToken(t)) =>
        Le4(t.start) + [t.len] + Le4(t.pos)
        + [(if t.isWord then 2 else 0) + (if t.isStop then 1 else 0)] + Le2(t.term + 1)
      case Plain(OnOverlap(s, l, b)) => Le4(s) + Le2(l) + Le4(b % U32)
      case Plain(OnSkipHtml(s, l)) => Varint(s) + Varint(l)
      case Plain(OnSpz(c, p, z, _)) => Varint(c) + Varint(p) + OptVarint(z)
      case Plain(OnTail(s, l, b)) => Varint(s) + Varint(l) + OptVarint(b)
    }

    function Bytes(): (bs: seq<byte>)
      requires Valid()
      ensures |bs| >= 1
    {
      [Type() * 16 + Payload()] + Rest()
    }

    /** The callbacks the entry stands for, given the delta state before it. */
    function Events(d: Delta): seq<Event>
    {
      match this
      case Token1(l) => [PlainToken(d, l)]
      case Token2(l) => [PlainToken(d, l)]
      case Overlap1(l) => [OnOverlap(d.start, l, -1)]
      case TokOver(t, o) => [PlainToken(d, t), OnOverlap(d.start + t, o, -1)]
      case Plain(e) => [e]
    }

    /** The delta state after the entry. */
    function After(d: Delta): Delta
    {
      match this
      case Token1(l) => Delta(d.start + l, NextPos(d.pos))
      case Token2(l) => Delta(d.start + l, NextPos(d.pos))
      case Overlap1(l) => Delta(d.start + l, d.pos)
      case TokOver(t, o) => Delta(d.start + t + o, NextPos(d.pos))
      case Plain(OnToken(t)) => Delta(t.start + t.len, t.pos)
      case Plain(OnOverlap(s, l, _)) => Delta(s + l, d.pos)
      case Plain(_) => d
    }
  }

  /** Delta-coding state: end offset and number of the last token (m_iLastStart, m_iLastPos). */
  datatype Delta = Delta(start: int, pos: int)

  /** ++m_iLastPos on the 32-bit field. */
  function NextPos(pos: int): int {
    (pos + 1) % U32
  }

  /** The frequent case: a regular word with no query term, right after the last token. */
  function PlainToken(d: Delta, len: int): Event {
    OnToken(Token(d.start, len, NextPos(d.pos), true, false, -1))
  }

  function Le2(x: int): (bs: seq<byte>)
    ensures |bs| == 2
  {
    [x % 256, x / 256 % 256]
  }

  function Le4(x: int): (bs: seq<byte>)
    ensures |bs| == 4
  {
    [x % 256, x / 256 % 256, x / 65536 % 256, x / 16777216 % 256]
  }

  /** Big-endian base-128 digits of u, all with the continuation bit; empty for zero. */
  function Continuation(u: nat): (bs: seq<byte>)
    ensures forall k :: 0 <= k < |bs| ==> bs[k] >= 128
    ensures u > 0 ==> bs != [] && bs[0] > 128
  {
    if u == 0 then [] else Continuation(u / 128) + [u % 128 + 128]
  }

  /** The variable-length form of a DWORD. */
  function Varint(v: nat): (bs: seq<byte>)
    ensures |bs| >= 1
  {
    Continuation(v / 128) + [v % 128]
  }

  /** v >> (7*k). */
  function Shift7(v: nat, k: nat): (r: nat)
    ensures r <= v
    decreases k
  {
    if k == 0 then v else Shift7(v / 128, k - 1)
  }

  lemma {:induction false} Shift7Step(v: nat, k: nat)
    ensures Shift7(v, k + 1) == Shift7(v, k) / 128
    decreases k
  {
    if k > 0 {
      Shift7Step(v / 128, k - 1);
    }
  }

  /** One step of the decoder puts the next digit back, without wrapping. */
  lemma Shift7Join(v: nat, k: nat)
    requires v < U32
    ensures (Shift7(v, k + 1) * 128 % U32 + Shift7(v, k) % 128) % U32 == Shift7(v, k)
  {
    Shift7Step(v, k);
    hide Shift7;
    var x := Shift7(v, k);
    assert x / 128 * 128 + x % 128 == x;
    assert x / 128 * 128 <= x < U32;
  }

  /** The byte of a varint that is k places from its end. */
  lemma {:induction false} VarintDigit(v: nat, k: nat)
    requires k < |Varint(v)|
    ensures Varint(v)[|Varint(v)| - 1 - k] == Shift7(v, k) % 128 + if k == 0 then 0 else 128
  {
    if k > 0 {
      ContinuationDigit(v / 128, k - 1);
    }
  }

  lemma {:induction false} ContinuationDigit(u: nat, k: nat)
    requires k < |Continuation(u)|
    ensures Continuation(u)[|Continuation(u)| - 1 - k] == Shift7(u, k) % 128 + 128
  {
    hide Continuation, Shift7;
    ContinuationStep(u);
    Shift7First(u, k);
    if k > 0 {
      ContinuationDigit(u / 128, k - 1);
    }
  }

  lemma ContinuationStep(u: nat)
    ensures Continuation(u) == if u == 0 then [] else Continuation(u / 128) + [u % 128 + 128]
  {
  }

  lemma Shift7First(v: nat, k: nat)
    ensures Shift7(v, k) == if k == 0 then v else Shift7(v / 128, k - 1)
  {
  }

  /** A varint has exactly as many digits as it needs. */
  lemma {:induction false} VarintTop(v: nat)
    ensures Shift7(v, |Varint(v)|) == 0
  {
    ContinuationTop(v / 128);
  }

  lemma {:induction false} ContinuationTop(u: nat)
    ensures Shift7(u, |Continuation(u)|) == 0
  {
    if u > 0 {
      ContinuationTop(u / 128);
    }
  }

  // ---------- fixed-width fields ----------

  function Get2(bs: seq<byte>): int
    requires |bs| == 2
  {
    bs[0] + 256 * (bs[1] as int)
  }

  function Get4(bs: seq<byte>): int
    requires |bs| == 4
  {
    bs[0] + 256 * (bs[1] as int) + 65536 * (bs[2] as int) + 16777216 * (bs[3] as int)
  }

  /** A DWORD read back as a signed int. */
  function Signed(x: int): int {
    if x < I32 then x else x - U32
  }

  lemma GetLe2(x: int)
    requires 0 <= x < 65536
    ensures Get2(Le2(x)) == x
  {
  }

  lemma GetLe4(x: int)
    requires 0 <= x < U32
    ensures Get4(Le4(x)) == x
  {
    assert x / 65536 == x / 256 / 256;
    assert x / 16777216 == x / 256 / 256 / 256;
  }

  /** A flag, then the value unless it is -1. */
  function OptVarint(v: int): seq<byte>
    requires v >= -1
  {
    if v == -1 then Varint(0) else Varint(1) + Varint(v)
  }

  // ---------- sequences of entries ----------

  predicate AllValid(es: seq<Entry>) {
    forall e <- es :: e.Valid()
  }

  /** Concatenation of a list of byte strings. */
  function Flatten(chunks: seq<seq<byte>>): seq<byte> {
    if chunks == [] then [] else Flatten(chunks[..|chunks| - 1]) + chunks[|chunks| - 1]
  }

  function Chunks(es: seq<Entry>): (cs: seq<seq<byte>>)
    requires AllValid(es)
    ensures |cs| == |es| && forall k :: 0 <= k < |es| ==> cs[k] == es[k].Bytes()
  {
    seq(|es|, k requires 0 <= k < |es| => es[k].Bytes())
  }

  function State(es: seq<Entry>): Delta {
    if es == [] then Delta(0, 0) else es[|es| - 1].After(State(es[..|es| - 1]))
  }

  function History(es: seq<Entry>): seq<Event> {
    if es == [] then []
    else History(es[..|es| - 1]) + es[|es| - 1].Events(State(es[..|es| - 1]))
  }

  lemma FlattenSnoc(cs: seq<seq<byte>>, c: seq<byte>)
    ensures Flatten(cs + [c]) == Flatten(cs) + c
  {
    assert (cs + [c])[..|cs|] == cs;
  }

  lemma HistorySnoc(es: seq<Entry>, e: Entry)
    ensures State(es + [e]) == e.After(State(es))
    ensures History(es + [e]) == History(es) + e.Events(State(es))
  {
    assert (es + [e])[..|es|] == es;
  }

  /** Chunk k starts where the first k chunks end. */
  lemma {:induction false} ChunkAt(cs: seq<seq<byte>>, k: nat)
    requires k < |cs|
    ensures var at := |Flatten(cs[..k])|;
            && at + |cs[k]| == |Flatten(cs[..k + 1])| <= |Flatten(cs)|
            && Flatten(cs)[at..at + |cs[k]|] == cs[k]
    decreases |cs|
  {
    assert cs[..k + 1] == cs[..k] + [cs[k]];
    FlattenSnoc(cs[..k], cs[k]);
    var front := cs[..|cs| - 1];
    if k == |cs| - 1 {
      assert cs[..k + 1] == cs;
    } else {
      assert front[..k] == cs[..k] && front[..k + 1] == cs[..k + 1] && front[k] == cs[k];
      ChunkAt(front, k);
      var at := |Flatten(cs[..k])|;
      assert Flatten(cs)[at..at + |cs[k]|] == Flatten(front)[at..at + |cs[k]|];
    }
  }
}
