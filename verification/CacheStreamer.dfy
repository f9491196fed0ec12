/** The token cache as an object: the Store* methods append to (and rewrite the
    last byte of) the stream, Tokenize replays it into a functor. */
module CacheStreaming {
  import opened Integers
  import opened TokenStream

  /** The stream holds exactly these entries after its dummy first byte. */
  ghost predicate Holds(stream: seq<byte>, es: seq<Entry>) {
    AllValid(es) && stream == [0] + Flatten(Chunks(es))
  }

  lemma HoldsSnoc(stream: seq<byte>, es: seq<Entry>, e: Entry)
    requires Holds(stream, es) && e.Valid()
    ensures Holds(stream + e.Bytes(), es + [e])
  {
    hide Entry.Bytes, Entry.Valid;
    assert Chunks(es + [e]) == Chunks(es) + [e.Bytes()];
    FlattenSnoc(Chunks(es), e.Bytes());
  }

  /** Entry k as it lies in the stream. */
  lemma HoldsAt(stream: seq<byte>, es: seq<Entry>, k: nat)
    requires Holds(stream, es) && k < |es|
    ensures var at := EntryStart(es, k);
            && 1 <= at < at + |es[k].Bytes()| == EntryStart(es, k + 1) <= |stream|
            && stream[at..at + |es[k].Bytes()|] == es[k].Bytes()
  {
    hide Entry.Bytes, Entry.Valid;
    ChunkAt(Chunks(es), k);
    var at := |Flatten(Chunks(es)[..k])|;
    assert stream[1 + at..1 + at + |es[k].Bytes()|] == Flatten(Chunks(es))[at..at + |es[k].Bytes()|];
  }

  ghost function EntryStart(es: seq<Entry>, k: nat): nat
    requires AllValid(es) && k <= |es|
  {
    1 + |Flatten(Chunks(es)[..k])|
  }

  /** Rewriting the last byte replaces a one-byte last entry. */
  lemma HoldsReplaced(stream: seq<byte>, es: seq<Entry>, last: Entry, e: Entry)
    requires last.Valid() && e.Valid() && |last.Bytes()| == 1 && |e.Bytes()| == 1
    requires Holds(stream, es + [last])
    ensures |stream| >= 2 && stream[|stream| - 1] == last.Bytes()[0]
    ensures Holds(stream[|stream| - 1 := e.Bytes()[0]], es + [e])
  {
    hide Entry.Bytes, Entry.Valid;
    forall x <- es ensures x.Valid() { assert x in es + [last]; }
    var front := [0] + Flatten(Chunks(es));
    HoldsSnoc(front, es, last);
    HoldsSnoc(front, es, e);
  }

  /** What a functor receives: callbacks in order, up to and including the first
      token or overlap after which it asks to stop. A functor is a function of the
      callbacks it has seen. */
  function Deliver(goOn: seq<Event> -> bool, sofar: seq<Event>, evs: seq<Event>): (r: (seq<Event>, bool))
    ensures r.0 <= sofar + evs
    ensures sofar <= r.0
    ensures !r.1 ==> r.0 == sofar + evs
    decreases |evs|
  {
    if evs == [] then (sofar, false)
    else
      var now := sofar + [evs[0]];
      assert sofar + evs == now + evs[1..];
      if evs[0].Stoppable() && !goOn(now) then (now, true) else Deliver(goOn, now, evs[1..])
  }

  /** Delivery stops after the first token or overlap that is refused, and only there. */
  lemma {:induction false} DeliverStops(goOn: seq<Event> -> bool, sofar: seq<Event>, evs: seq<Event>)
    ensures
      var (got, stop) := Deliver(goOn, sofar, evs);
      && (stop ==> |got| > |sofar| && Refused(goOn, got, |got|))
      && forall k :: |sofar| < k <= |got| && Refused(goOn, got, k) ==> stop && k == |got|
    decreases |evs|
  {
    if evs != [] {
      var now := sofar + [evs[0]];
      var (got, stop) := Deliver(goOn, sofar, evs);
      if evs[0].Stoppable() && !goOn(now) {
        assert got[..|got|] == got;
      } else {
        DeliverStops(goOn, now, evs[1..]);
        assert got[..|now|] == now;
      }
    }
  }

  /** The k-th callback is a token or an overlap, and the functor asks to stop there. */
  ghost predicate Refused(goOn: seq<Event> -> bool, got: seq<Event>, k: int)
    requires 0 < k <= |got|
  {
    (got[k - 1].OnToken? || got[k - 1].OnOverlap?) && !goOn(got[..k])
  }

  /** Zone names with their numbers, in the order of the hash. */
  type ZoneTable = seq<(string, int)>

  /** The name of a zone: the first of its number, and none for the number -1 or one not in the table. */
  function NameOf(zones: ZoneTable, zone: int): (name: ZoneName) {
    if zone == -1 || zones == [] then NoName
    else if zones[0].1 == zone then Named(zones[0].0) else NameOf(zones[1..], zone)
  }

  /** The search for a zone's name when a zone mark is replayed. */
  method FindName(zones: ZoneTable, zone: int) returns (name: ZoneName)
    ensures name == NameOf(zones, zone)
    ensures zone == -1 || (forall i :: 0 <= i < |zones| ==> zones[i].1 != zone) ==> name == NoName
    ensures zone != -1 ==>
              forall i :: 0 <= i < |zones| && zones[i].1 == zone && (forall j :: 0 <= j < i ==> zones[j].1 != zone) ==>
                name == Named(zones[i].0)
  {
    name := NoName;
    if zone != -1 {
      assert zones[0..] == zones;
      for i := 0 to |zones|
        invariant NameOf(zones, zone) == NameOf(zones[i..], zone)
        invariant forall j :: 0 <= j < i ==> zones[j].1 != zone
      {
        if zones[i].1 == zone {
          return Named(zones[i].0);
        }
        assert zones[i..][1..] == zones[i + 1..];
      }
    }
  }

  /** The number of a zone; a new name gets the next. */
  method FindAddZone(name: string, zones: ZoneTable) returns (zone: int, more: ZoneTable)
    requires Numbered(zones)
    ensures Numbered(more) && zones <= more && NameOf(more, zone) == Named(name)
    ensures forall z :: NameOf(zones, z) != NoName ==> NameOf(more, z) == NameOf(zones, z)
  {
    for i := 0 to |zones|
      invariant forall k :: 0 <= k < i ==> zones[k].0 != name
    {
      if zones[i].0 == name {
        NumberedName(zones, i, 0);
        return zones[i].1, zones;
      }
    }
    zone, more := |zones|, zones + [(name, |zones|)];
    NumberedName(more, |zones|, 0);
    forall z | NameOf(zones, z) != NoName ensures NameOf(more, z) == NameOf(zones, z) {
      NameStays(zones, (name, |zones|), z);
    }
  }

  /** Zones are numbered in the order they were added. */
  ghost predicate Numbered(zones: ZoneTable) {
    forall i :: 0 <= i < |zones| ==> zones[i].1 == i
  }

  lemma {:induction false} NumberedName(zones: ZoneTable, i: nat, lo: nat)
    requires Numbered(zones) && lo <= i < |zones|
    ensures NameOf(zones[lo..], i) == Named(zones[i].0)
    ensures lo == 0 ==> NameOf(zones, i) == Named(zones[i].0)
    decreases i - lo
  {
    assert zones[0..] == zones;
    if lo < i {
      assert zones[lo..][1..] == zones[lo + 1..];
      NumberedName(zones, i, lo + 1);
    }
  }

  lemma {:induction false} NameStays(zones: ZoneTable, entry: (string, int), z: int)
    requires NameOf(zones, z) != NoName
    ensures NameOf(zones + [entry], z) == NameOf(zones, z)
  {
    assert (zones + [entry])[1..] == zones[1..] + [entry];
    if zones[0].1 != z {
      NameStays(zones[1..], entry, z);
    }
  }

  /** A callback as it is replayed: a zone mark's name is looked up. */
  function Heard(zones: ZoneTable, ev: Event): (r: Event) {
    if ev.OnSpz? then ev.(name := NameOf(zones, ev.zone)) else ev
  }

  function AllHeard(zones: ZoneTable, evs: seq<Event>): (r: seq<Event>)
    ensures |r| == |evs| && forall k :: 0 <= k < |evs| ==> r[k] == Heard(zones, evs[k])
  {
    seq(|evs|, k requires 0 <= k < |evs| => Heard(zones, evs[k]))
  }

  lemma HeardConcat(zones: ZoneTable, a: seq<Event>, b: seq<Event>)
    ensures AllHeard(zones, a + b) == AllHeard(zones, a) + AllHeard(zones, b)
  {
  }

  /** Callbacks stored with the names the table has are replayed as they were. */
  lemma HeardAsStored(zones: ZoneTable, evs: seq<Event>)
    requires forall ev <- evs :: ev.OnSpz? ==> ev.name == NameOf(zones, ev.zone)
    ensures AllHeard(zones, evs) == evs
  {
    assert forall k :: 0 <= k < |evs| ==> evs[k] in evs;
  }

  lemma HeardEntry(zones: ZoneTable, e: Entry, d: Delta)
    ensures AllHeard(zones, e.Events(d)) == if e.Plain? then [Heard(zones, e.event)] else e.Events(d)
  {
  }

  lemma {:induction false} DeliverConcat(goOn: seq<Event> -> bool, sofar: seq<Event>, a: seq<Event>, b: seq<Event>)
    ensures var r := Deliver(goOn, sofar, a);
            Deliver(goOn, sofar, a + b) == if r.1 then r else Deliver(goOn, r.0, b)
    decreases |a|
  {
    if a == [] {
      assert a + b == b;
    } else {
      assert (a + b)[1..] == a[1..] + b;
      DeliverConcat(goOn, sofar + [a[0]], a[1..], b);
    }
  }

  /** What the three token forms and the short overlap look like in bytes. */
  lemma ShortBytes(len: int)
    requires 1 <= len < 256
    ensures len < 16 ==> IsEntry(Token1(len), TYPE_TOKEN1, [TYPE_TOKEN1 * 16 + len])
    ensures len < 16 ==> IsEntry(Overlap1(len), TYPE_OVERLAP1, [TYPE_OVERLAP1 * 16 + len])
    ensures len >= 16 ==> IsEntry(Token2(len), TYPE_TOKEN2, [TYPE_TOKEN2 * 16, len])
  {
  }

  lemma FatTokenBytes(tok: Token)
    requires OnToken(tok).WellFormed()
    ensures IsEntry(Plain(OnToken(tok)), TYPE_TOKEN,
              [TYPE_TOKEN * 16] + Le4(tok.start) + [tok.len] + Le4(tok.pos)
              + [(if tok.isWord then 2 else 0) + (if tok.isStop then 1 else 0)] + Le2(tok.term + 1))
  {
  }

  ghost predicate IsEntry(e: Entry, kind: int, bytes: seq<byte>) {
    e.Valid() && e.Type() == kind && e.Bytes() == bytes
  }

  lemma FatOverlapBytes(start: int, len: int, boundary: int)
    requires OnOverlap(start, len, boundary).WellFormed()
    ensures IsEntry(Plain(OnOverlap(start, len, boundary)), TYPE_OVERLAP,
              [TYPE_OVERLAP * 16] + Le4(start) + Le2(len) + Le4(boundary % U32))
  {
  }

  lemma SkipHtmlBytes(start: int, len: int)
    requires OnSkipHtml(start, len).WellFormed()
    ensures IsEntry(Plain(OnSkipHtml(start, len)), TYPE_SKIPHTML,
              [TYPE_SKIPHTML * 16] + Varint(start) + Varint(len))
  {
    hide Varint;
  }

  lemma SpzBytes(code: int, pos: int, zone: int, name: ZoneName)
    requires OnSpz(code, pos, zone, name).WellFormed()
    ensures IsEntry(Plain(OnSpz(code, pos, zone, name)), TYPE_SPZ,
              [TYPE_SPZ * 16] + Varint(code) + Varint(pos) + OptVarint(zone))
  {
    hide Varint, OptVarint;
  }

  lemma TailBytes(start: int, len: int, boundary: int)
    requires OnTail(start, len, boundary).WellFormed()
    ensures IsEntry(Plain(OnTail(start, len, boundary)), TYPE_TAIL,
              [TYPE_TAIL * 16] + Varint(start) + Varint(len) + OptVarint(boundary))
  {
    hide Varint, OptVarint;
  }

  /** The combo byte that takes the place of a TOKEN1 byte. */
  lemma ComboBytes(tokLen: int, overLen: int)
    requires TokOver(tokLen, overLen).Valid()
    ensures overLen <= 4 ==>
              IsEntry(TokOver(tokLen, overLen), TYPE_TOKOVER1 + overLen - 1,
                [(TYPE_TOKOVER1 + overLen - 1) * 16 + tokLen - 1])
    ensures overLen > 4 ==>
              IsEntry(TokOver(tokLen, overLen), TYPE_TOKOVER5,
                [TYPE_TOKOVER5 * 16 + (tokLen - 1) * 2 + overLen - 5])
  {
  }

  /** A stored type code of TOKEN1 says what the last entry and byte are. */
  lemma LastIsToken1(es: seq<Entry>)
    requires es != [] && AllValid(es) && es[|es| - 1].Type() == TYPE_TOKEN1
    ensures var last := es[|es| - 1];
            last.Token1? && 1 <= last.len < 16 && IsEntry(last, TYPE_TOKEN1, [last.len])
  {
    var last := es[|es| - 1];
    assert last in es;
  }

  /** One callback: what the functor has received then, and whether it stops. */
  function Call(goOn: seq<Event> -> bool, sofar: seq<Event>, ev: Event): (r: (seq<Event>, bool))
    ensures r == Deliver(goOn, sofar, [ev])
  {
    (sofar + [ev], ev.Stoppable() && !goOn(sofar + [ev]))
  }

  lemma DeliverTwo(goOn: seq<Event> -> bool, sofar: seq<Event>, a: Event, b: Event)
    ensures var r := Call(goOn, sofar, a);
            Deliver(goOn, sofar, [a, b]) == if r.1 then r else Call(goOn, r.0, b)
  {
    assert [a] + [b] == [a, b];
    DeliverConcat(goOn, sofar, [a], [b]);
  }

  /** Where the fields of a fat token lie. */
  lemma FatTokenFields(bs: seq<byte>, start: seq<byte>, len: byte, pos: seq<byte>, flags: byte, term: seq<byte>)
    requires |start| == 4 && |pos| == 4 && |term| == 2
    requires bs == [TYPE_TOKEN * 16] + start + [len] + pos + [flags] + term
    ensures |bs| == 13 && bs[1..5] == start && bs[5] == len && bs[6..10] == pos && bs[10] == flags && bs[11..13] == term
  {
  }

  lemma FatOverlapFields(bs: seq<byte>, start: seq<byte>, len: seq<byte>, boundary: seq<byte>)
    requires |start| == 4 && |len| == 2 && |boundary| == 4
    requires bs == [TYPE_OVERLAP * 16] + start + len + boundary
    ensures |bs| == 11 && bs[1..5] == start && bs[5..7] == len && bs[7..11] == boundary
  {
  }

  class CacheStreamer {
    var stream: seq<byte>      // m_dTokenStream
    var readPtr: nat           // m_iReadPtr
    var lastStart: int         // m_iLastStart
    var lastPos: int           // m_iLastPos
    var lastStored: int        // m_eLastStored
    ghost var entries: seq<Entry>

    ghost predicate Valid()
      reads this
    {
      && Holds(stream, entries)
      && lastStored == if entries == [] then TYPE_TOTAL else entries[|entries| - 1].Type()
    }

    /** The delta state is the one left by the last store, so more can be stored. */
    ghost predicate InSync()
      reads this
    {
      Delta(lastStart, lastPos) == State(entries)
    }

    /** Every callback stored so far. */
    ghost function Log(): seq<Event>
      reads this
    {
      History(entries)
    }

    constructor ()
      ensures Valid() && InSync() && Log() == []
    {
      stream, readPtr := [0], 0;
      lastStart, lastPos, lastStored := 0, 0, TYPE_TOTAL;
      entries := [];
    }

    /** The bytes of one entry have gone to the end of the stream. */
    ghost method Record(before: seq<byte>, bytes: seq<byte>, e: Entry)
      requires Holds(before, entries) && stream == before + bytes && IsEntry(e, lastStored, bytes)
      modifies this`entries
      ensures Valid() && entries == old(entries) + [e]
      ensures Log() == old(Log()) + e.Events(State(old(entries)))
      ensures State(entries) == e.After(State(old(entries)))
    {
      hide Entry.Bytes, Entry.Valid, Entry.Type, Flatten;
      HoldsSnoc(before, entries, e);
      HistorySnoc(entries, e);
      entries := entries + [e];
    }

    /** One whole entry goes to the end of the stream. */
    method AddEntry(kind: int, bytes: seq<byte>, ghost e: Entry)
      requires Valid() && IsEntry(e, kind, bytes)
      modifies this`stream, this`lastStored, this`entries
      ensures Valid() && entries == old(entries) + [e]
      ensures Log() == old(Log()) + e.Events(State(old(entries)))
      ensures State(entries) == e.After(State(old(entries)))
    {
      hide IsEntry, Holds, State, History;
      ghost var before := stream;
      stream := stream + bytes;
      lastStored := kind;
      Record(before, bytes, e);
    }

    method StoreToken(tok: Token)
      requires Valid() && InSync() && OnToken(tok).WellFormed()
      modifies this
      ensures Valid() && InSync()
      ensures Log() == old(Log()) + [OnToken(tok)]
    {
      hide IsEntry, Holds, State, History, Le4, Le2;
      var dstart := tok.start - lastStart;
      var dpos := (tok.pos - lastPos) % U32;
      ghost var d := State(entries);
      lastStart := tok.start + tok.len;
      lastPos := tok.pos;
      if dstart == 0 && dpos == 1 && tok.isWord && !tok.isStop && tok.term == -1 {
        ShortBytes(tok.len);
        if tok.len < 16 {
          AddEntry(TYPE_TOKEN1, [TYPE_TOKEN1 * 16 + tok.len], Token1(tok.len));
        } else {
          AddEntry(TYPE_TOKEN2, [TYPE_TOKEN2 * 16, tok.len], Token2(tok.len));
        }
      } else {
        FatTokenBytes(tok);
        AddEntry(TYPE_TOKEN, [TYPE_TOKEN * 16] + Le4(tok.start) + [tok.len] + Le4(tok.pos)
                 + [(if tok.isWord then 2 else 0) + (if tok.isStop then 1 else 0)] + Le2(tok.term + 1),
                 Plain(OnToken(tok)));
      }
    }

    method StoreOverlap(start: int, len: int, boundary: int)
      requires Valid() && InSync() && OnOverlap(start, len, boundary).WellFormed()
      modifies this
      ensures Valid() && InSync()
      ensures Log() == old(Log()) + [OnOverlap(start, len, boundary)]
    {
      hide IsEntry, Holds, State, History, Le4, Le2;
      var dstart := start - lastStart;
      lastStart := start + len;
      if dstart == 0 && len < 16 && boundary < 0 {
        // fuse the overlap into the token byte if both fit
        if lastStored == TYPE_TOKEN1 {
          LastByte();
          var tokLen := (stream[|stream| - 1] as int) % 16;
          if len <= 4 && tokLen <= 16 {
            var kind := TYPE_TOKOVER1 + len - 1;
            ComboBytes(tokLen, len);
            Fuse(kind, kind * 16 + tokLen - 1, tokLen, len);
            return;
          } else if 5 <= len <= 6 && tokLen <= 8 {
            ComboBytes(tokLen, len);
            Fuse(TYPE_TOKOVER5, TYPE_TOKOVER5 * 16 + (tokLen - 1) * 2 + len - 5, tokLen, len);
            return;
          }
        }
        ShortBytes(len);
        AddEntry(TYPE_OVERLAP1, [TYPE_OVERLAP1 * 16 + len], Overlap1(len));
        return;
      }
      FatOverlapBytes(start, len, boundary);
      AddEntry(TYPE_OVERLAP, [TYPE_OVERLAP * 16] + Le4(start) + Le2(len) + Le4(boundary % U32),
               Plain(OnOverlap(start, len, boundary)));
    }

    /** The last byte of the stream is the TOKEN1 byte. */
    lemma LastByte()
      requires Valid() && lastStored == TYPE_TOKEN1
      ensures entries != [] && |stream| >= 2
      ensures entries[|entries| - 1].Token1? && stream[|stream| - 1] == entries[|entries| - 1].len
      ensures 1 <= entries[|entries| - 1].len < 16
    {
      hide Flatten, Chunks;
      var n := |entries| - 1;
      LastIsToken1(entries);
      assert entries == entries[..n] + [entries[n]];
      HoldsReplaced(stream, entries[..n], entries[n], entries[n]);
    }

    /** Rewrites the last byte in place, turning a TOKEN1 entry into a combo. */
    method Fuse(kind: int, b: byte, ghost tokLen: int, ghost overLen: int)
      requires Valid() && lastStored == TYPE_TOKEN1
      requires entries[|entries| - 1] == Token1(tokLen) && IsEntry(TokOver(tokLen, overLen), kind, [b])
      modifies this`stream, this`lastStored, this`entries
      ensures Valid()
      ensures Log() == old(Log()) + [OnOverlap(State(old(entries)).start, overLen, -1)]
      ensures State(entries) == Delta(State(old(entries)).start + overLen, State(old(entries)).pos)
    {
      hide Flatten, Chunks, Entry.Valid, Entry.Bytes, Entry.Type;
      LastIsToken1(entries);
      ghost var n := |entries| - 1;
      assert entries == entries[..n] + [entries[n]];
      HoldsReplaced(stream, entries[..n], entries[n], TokOver(tokLen, overLen));
      HistorySnoc(entries[..n], entries[n]);
      HistorySnoc(entries[..n], TokOver(tokLen, overLen));
      stream := stream[|stream| - 1 := b];
      lastStored := kind;
      entries := entries[..n] + [TokOver(tokLen, overLen)];
    }

    method StoreSkipHtml(start: int, len: int)
      requires Valid() && InSync() && OnSkipHtml(start, len).WellFormed()
      modifies this
      ensures Valid() && InSync()
      ensures Log() == old(Log()) + [OnSkipHtml(start, len)]
    {
      hide IsEntry, Holds, State, History, Varint;
      ghost var before := stream;
      stream := stream + [TYPE_SKIPHTML * 16];
      ZipInt(start);
      ZipInt(len);
      lastStored := TYPE_SKIPHTML;
      SkipHtmlBytes(start, len);
      Record(before, [TYPE_SKIPHTML * 16] + Varint(start) + Varint(len), Plain(OnSkipHtml(start, len)));
    }

    method StoreSPZ(code: int, pos: int, ghost name: ZoneName, zone: int)
      requires Valid() && InSync() && OnSpz(code, pos, zone, name).WellFormed()
      modifies this
      ensures Valid() && InSync()
      ensures Log() == old(Log()) + [OnSpz(code, pos, zone, name)]
    {
      hide IsEntry, Holds, State, History, Varint;
      ghost var before := stream;
      stream := stream + [TYPE_SPZ * 16];
      ZipInt(code);
      ZipInt(pos);
      ZipInt(if zone == -1 then 0 else 1);
      if zone != -1 {
        ZipInt(zone);
      }
      lastStored := TYPE_SPZ;
      SpzBytes(code, pos, zone, name);
      Record(before, [TYPE_SPZ * 16] + Varint(code) + Varint(pos) + OptVarint(zone),
             Plain(OnSpz(code, pos, zone, name)));
    }

    method StoreTail(start: int, len: int, boundary: int)
      requires Valid() && InSync() && OnTail(start, len, boundary).WellFormed()
      modifies this
      ensures Valid() && InSync()
      ensures Log() == old(Log()) + [OnTail(start, len, boundary)]
    {
      hide IsEntry, Holds, State, History, Varint;
      ghost var before := stream;
      stream := stream + [TYPE_TAIL * 16];
      ZipInt(start);
      ZipInt(len);
      ZipInt(if boundary == -1 then 0 else 1);
      if boundary != -1 {
        ZipInt(boundary);
      }
      lastStored := TYPE_TAIL;
      TailBytes(start, len, boundary);
      Record(before, [TYPE_TAIL * 16] + Varint(start) + Varint(len) + OptVarint(boundary),
             Plain(OnTail(start, len, boundary)));
    }

    /** Appends the variable-length form of a DWORD, highest digits first. */
    method ZipInt(value: nat)
      requires value < U32
      modifies this`stream
      ensures stream == old(stream) + Varint(value)
    {
      var bytes: nat := 1;
      var u: nat := value / 128;
      while u > 0
        invariant bytes + |Continuation(u)| == 1 + |Continuation(value / 128)|
        decreases u
      {
        u := u / 128;
        bytes := bytes + 1;
      }
      ghost var all := Varint(value);
      assert stream == old(stream) + all[..|all| - bytes];
      while bytes > 0
        invariant 0 <= bytes <= |all|
        invariant stream == old(stream) + all[..|all| - bytes]
      {
        bytes := bytes - 1;
        VarintDigit(value, bytes);
        var data := Shift7(value, bytes) % 128 + if bytes > 0 then 128 else 0;
        stream := stream + [data];
      }
    }

    /** These bytes lie in the stream at that offset. */
    ghost predicate PartAt(at: nat, part: seq<byte>)
      reads this`stream
    {
      at + |part| <= |stream| && stream[at..at + |part|] == part
    }

    /** Reads one variable-length DWORD. */
    method UnzipInt(ghost value: nat) returns (res: int)
      requires value < U32
      requires PartAt(readPtr, Varint(value))
      modifies this`readPtr
      ensures res == value && readPtr == old(readPtr) + |Varint(value)|
    {
      hide Shift7, Varint;
      ghost var all := Varint(value);
      ghost var left := |all|;
      VarintTop(value);
      res := 0;
      DigitAt(readPtr, value, left - 1);
      var b := stream[readPtr] as int;
      readPtr := readPtr + 1;
      while b >= 128
        invariant 1 <= left <= |all| && readPtr == old(readPtr) + |all| - left + 1
        invariant res == Shift7(value, left)
        invariant b == Shift7(value, left - 1) % 128 + if left == 1 then 0 else 128
        decreases left
      {
        Shift7Join(value, left - 1);
        res := (res * 128 % U32 + b % 128) % U32;
        left := left - 1;
        DigitAt(old(readPtr), value, left - 1);
        b := stream[readPtr] as int;
        readPtr := readPtr + 1;
      }
      Shift7Join(value, 0);
      Shift7Zero(value);
      res := (res * 128 % U32 + b) % U32;
    }

    lemma Shift7Zero(value: nat)
      ensures Shift7(value, 0) == value
    {
    }

    lemma DigitAt(at: nat, value: nat, k: nat)
      requires PartAt(at, Varint(value)) && k < |Varint(value)|
      ensures stream[at + |Varint(value)| - 1 - k] == Shift7(value, k) % 128 + if k == 0 then 0 else 128
    {
      VarintDigit(value, k);
      assert stream[at + |Varint(value)| - 1 - k] == stream[at..at + |Varint(value)|][|Varint(value)| - 1 - k];
    }

    /** The read pointer is at the first byte of entry e. */
    ghost predicate At(e: Entry)
      reads this
    {
      e.Valid() && PartAt(readPtr, e.Bytes())
    }

    method ReplayToken(goOn: seq<Event> -> bool, sofar: seq<Event>, ghost tok: Token)
      returns (now: seq<Event>, stop: bool)
      requires OnToken(tok).WellFormed() && At(Plain(OnToken(tok)))
      modifies this`readPtr, this`lastStart, this`lastPos
      ensures (now, stop) == Deliver(goOn, sofar, [OnToken(tok)])
      ensures readPtr == old(readPtr) + |Plain(OnToken(tok)).Bytes()|
      ensures lastStart == tok.start + tok.len && lastPos == tok.pos
    {
      hide At, Entry.Bytes, Entry.Valid, Get4, Get2, Deliver;
      AtToken(tok);
      var p := stream[readPtr..readPtr + 13];
      var start := Get4(p[1..5]);
      var len := p[5] as int;
      var pos := Get4(p[6..10]);
      var isWord := p[10] / 2 % 2 != 0;
      var isStop := p[10] % 2 != 0;
      var term := Get2(p[11..13]) - 1;
      readPtr := readPtr + 13;
      lastStart := start + len;
      lastPos := pos;
      var r := Call(goOn, sofar, OnToken(Token(start, len, pos, isWord, isStop, term)));
      now, stop := r.0, r.1;
    }

    method ReplayOverlap(goOn: seq<Event> -> bool, sofar: seq<Event>, ghost ev: Event)
      returns (now: seq<Event>, stop: bool)
      requires ev.OnOverlap? && ev.WellFormed() && At(Plain(ev))
      modifies this`readPtr, this`lastStart
      ensures (now, stop) == Deliver(goOn, sofar, [ev])
      ensures readPtr == old(readPtr) + |Plain(ev).Bytes()|
      ensures lastStart == ev.start + ev.len
    {
      hide At, Entry.Bytes, Entry.Valid, Get4, Get2, Deliver;
      AtOverlap(ev.start, ev.len, ev.boundary);
      var p := stream[readPtr..readPtr + 11];
      var start := Get4(p[1..5]);
      var len := Get2(p[5..7]);
      var boundary := Signed(Get4(p[7..11]));
      readPtr := readPtr + 11;
      lastStart := start + len;
      var r := Call(goOn, sofar, OnOverlap(start, len, boundary));
      now, stop := r.0, r.1;
    }

    lemma AtToken(t: Token)
      requires OnToken(t).WellFormed() && At(Plain(OnToken(t)))
      ensures |Plain(OnToken(t)).Bytes()| == 13 && readPtr + 13 <= |stream|
      ensures var p := stream[readPtr..readPtr + 13];
              && Get4(p[1..5]) == t.start && p[5] == t.len && Get4(p[6..10]) == t.pos
              && (p[10] / 2 % 2 != 0) == t.isWord && (p[10] % 2 != 0) == t.isStop
              && Get2(p[11..13]) == t.term + 1
    {
      hide Le4, Le2, Get4, Get2, Entry.Bytes, Entry.Valid;
      FatTokenBytes(t);
      var flags := (if t.isWord then 2 else 0) + (if t.isStop then 1 else 0);
      FatTokenFields(Plain(OnToken(t)).Bytes(), Le4(t.start), t.len, Le4(t.pos), flags, Le2(t.term + 1));
      GetLe4(t.start);
      GetLe4(t.pos);
      GetLe2(t.term + 1);
    }

    lemma AtOverlap(start: int, len: int, boundary: int)
      requires OnOverlap(start, len, boundary).WellFormed() && At(Plain(OnOverlap(start, len, boundary)))
      ensures |Plain(OnOverlap(start, len, boundary)).Bytes()| == 11 && readPtr + 11 <= |stream|
      ensures var p := stream[readPtr..readPtr + 11];
              && Get4(p[1..5]) == start && Get2(p[5..7]) == len && Signed(Get4(p[7..11])) == boundary
    {
      hide Le4, Le2, Get4, Get2, Entry.Bytes, Entry.Valid;
      FatOverlapBytes(start, len, boundary);
      FatOverlapFields(Plain(OnOverlap(start, len, boundary)).Bytes(), Le4(start), Le2(len), Le4(boundary % U32));
      GetLe4(start);
      GetLe2(len);
      GetLe4(boundary % U32);
    }

    /** Reads a value stored behind a presence flag. */
    method UnzipOpt(ghost value: int) returns (res: int)
      requires -1 <= value < U32
      requires PartAt(readPtr, OptVarint(value))
      modifies this`readPtr
      ensures res == value && readPtr == old(readPtr) + |OptVarint(value)|
    {
      hide Varint, OptVarint, PartAt;
      AtOpt(readPtr, value);
      ghost var f := if value == -1 then 0 else 1;
      var flag := UnzipInt(f);
      res := -1;
      if flag == 1 {
        res := UnzipInt(value);
      }
    }

    /** Skipped markup, sentence/paragraph/zone marks and the tail: no verdict is asked. */
    method ReplaySkipHtml(sofar: seq<Event>, ghost start: int, ghost len: int) returns (now: seq<Event>)
      requires OnSkipHtml(start, len).WellFormed() && At(Plain(OnSkipHtml(start, len)))
      modifies this`readPtr
      ensures now == sofar + [OnSkipHtml(start, len)]
      ensures readPtr == old(readPtr) + |Plain(OnSkipHtml(start, len)).Bytes()|
    {
      hide At, PartAt, Entry.Bytes, Entry.Valid, Varint, OptVarint;
      AtSkipHtml(start, len);
      readPtr := readPtr + 1;
      var s := UnzipInt(start);
      var l := UnzipInt(len);
      now := sofar + [OnSkipHtml(s, l)];
    }

    method ReplaySPZ(sofar: seq<Event>, zones: ZoneTable, ghost code: int, ghost pos: int,
                     ghost zone: int, ghost name: ZoneName)
      returns (now: seq<Event>)
      requires OnSpz(code, pos, zone, name).WellFormed() && At(Plain(OnSpz(code, pos, zone, name)))
      modifies this`readPtr
      ensures now == sofar + [OnSpz(code, pos, zone, NameOf(zones, zone))]
      ensures readPtr == old(readPtr) + |Plain(OnSpz(code, pos, zone, name)).Bytes()|
    {
      hide At, PartAt, Entry.Bytes, Entry.Valid, Varint, OptVarint;
      AtSpz(code, pos, zone, name);
      readPtr := readPtr + 1;
      var c := UnzipInt(code);
      var p := UnzipInt(pos);
      var z := UnzipOpt(zone);
      var found := FindName(zones, z);
      now := sofar + [OnSpz(c % 256, p, z, found)];
    }

    method ReplayTail(sofar: seq<Event>, ghost start: int, ghost len: int, ghost boundary: int)
      returns (now: seq<Event>)
      requires OnTail(start, len, boundary).WellFormed() && At(Plain(OnTail(start, len, boundary)))
      modifies this`readPtr
      ensures now == sofar + [OnTail(start, len, boundary)]
      ensures readPtr == old(readPtr) + |Plain(OnTail(start, len, boundary)).Bytes()|
    {
      hide At, PartAt, Entry.Bytes, Entry.Valid, Varint, OptVarint;
      AtTail(start, len, boundary);
      readPtr := readPtr + 1;
      var s := UnzipInt(start);
      var l := UnzipInt(len);
      var b := UnzipOpt(boundary);
      now := sofar + [OnTail(s, l, b)];
    }

    lemma AtSkipHtml(start: int, len: int)
      requires OnSkipHtml(start, len).WellFormed() && At(Plain(OnSkipHtml(start, len)))
      ensures PartAt(readPtr + 1, Varint(start))
      ensures PartAt(readPtr + 1 + |Varint(start)|, Varint(len))
      ensures |Plain(OnSkipHtml(start, len)).Bytes()| == 1 + |Varint(start)| + |Varint(len)|
    {
      hide Varint, OptVarint, Entry.Bytes, PartAt;
      SkipHtmlBytes(start, len);
      assert [TYPE_SKIPHTML * 16] + Varint(start) + Varint(len) + []
          == [TYPE_SKIPHTML * 16] + Varint(start) + Varint(len);
      Parts(readPtr, [TYPE_SKIPHTML * 16], Varint(start), Varint(len), []);
    }

    lemma AtSpz(code: int, pos: int, zone: int, name: ZoneName)
      requires OnSpz(code, pos, zone, name).WellFormed() && At(Plain(OnSpz(code, pos, zone, name)))
      ensures PartAt(readPtr + 1, Varint(code))
      ensures PartAt(readPtr + 1 + |Varint(code)|, Varint(pos))
      ensures PartAt(readPtr + 1 + |Varint(code)| + |Varint(pos)|, OptVarint(zone))
      ensures |Plain(OnSpz(code, pos, zone, name)).Bytes()| == 1 + |Varint(code)| + |Varint(pos)| + |OptVarint(zone)|
    {
      hide Varint, OptVarint, Entry.Bytes, PartAt;
      SpzBytes(code, pos, zone, name);
      Parts(readPtr, [TYPE_SPZ * 16], Varint(code), Varint(pos), OptVarint(zone));
    }

    lemma AtTail(start: int, len: int, boundary: int)
      requires OnTail(start, len, boundary).WellFormed() && At(Plain(OnTail(start, len, boundary)))
      ensures PartAt(readPtr + 1, Varint(start))
      ensures PartAt(readPtr + 1 + |Varint(start)|, Varint(len))
      ensures PartAt(readPtr + 1 + |Varint(start)| + |Varint(len)|, OptVarint(boundary))
      ensures |Plain(OnTail(start, len, boundary)).Bytes()|
           == 1 + |Varint(start)| + |Varint(len)| + |OptVarint(boundary)|
    {
      hide Varint, OptVarint, Entry.Bytes, PartAt;
      TailBytes(start, len, boundary);
      Parts(readPtr, [TYPE_TAIL * 16], Varint(start), Varint(len), OptVarint(boundary));
    }

    lemma AtOpt(at: nat, value: int)
      requires value >= -1 && PartAt(at, OptVarint(value))
      ensures value == -1 ==> PartAt(at, Varint(0)) && |OptVarint(value)| == |Varint(0)|
      ensures value != -1 ==>
                && PartAt(at, Varint(1)) && PartAt(at + |Varint(1)|, Varint(value))
                && |OptVarint(value)| == |Varint(1)| + |Varint(value)|
    {
      hide Varint, PartAt;
      if value != -1 {
        assert [] + Varint(1) + Varint(value) + [] == OptVarint(value);
        Parts(at, [], Varint(1), Varint(value), []);
      }
    }

    lemma Parts(at: nat, head: seq<byte>, a: seq<byte>, b: seq<byte>, c: seq<byte>)
      requires PartAt(at, head + a + b + c)
      ensures PartAt(at + |head|, a)
      ensures PartAt(at + |head| + |a|, b)
      ensures PartAt(at + |head| + |a| + |b|, c)
    {
      var len := |head| + |a| + |b| + |c|;
      assert stream[at..at + len][|head|..|head| + |a|] == a;
      assert stream[at..at + len][|head| + |a|..|head| + |a| + |b|] == b;
      assert stream[at..at + len][|head| + |a| + |b|..] == c;
      SliceOfSlice(stream, at, len, |head|, |head| + |a|);
      SliceOfSlice(stream, at, len, |head| + |a|, |head| + |a| + |b|);
      SliceOfSlice(stream, at, len, |head| + |a| + |b|, len);
    }

    method ReplayPlainToken(goOn: seq<Event> -> bool, sofar: seq<Event>, len: int)
      returns (now: seq<Event>, stop: bool)
      modifies this`lastStart, this`lastPos
      ensures (now, stop) == Call(goOn, sofar, PlainToken(old(Delta(lastStart, lastPos)), len))
      ensures lastStart == old(lastStart) + len && lastPos == NextPos(old(lastPos))
    {
      var start := lastStart;
      lastStart := lastStart + len;
      lastPos := NextPos(lastPos);
      var r := Call(goOn, sofar, OnToken(Token(start, len, lastPos, true, false, -1)));
      now, stop := r.0, r.1;
    }

    /** What the bytes at the read pointer say about the entry there. */
    lemma AtType(e: Entry)
      requires At(e)
      ensures readPtr < |stream|
      ensures var kind, low := (stream[readPtr] as int) / 16, (stream[readPtr] as int) % 16;
              match e
              case Token1(l) => kind == TYPE_TOKEN1 && low == l && |e.Bytes()| == 1
              case Token2(l) =>
                kind == TYPE_TOKEN2 && |e.Bytes()| == 2 && readPtr + 1 < |stream| && stream[readPtr + 1] == l
              case Overlap1(l) => kind == TYPE_OVERLAP1 && low == l && |e.Bytes()| == 1
              case TokOver(t, o) =>
                && |e.Bytes()| == 1
                && if o <= 4 then TYPE_TOKOVER1 <= kind == TYPE_TOKOVER1 + o - 1 < TYPE_TOKOVER5 && low == t - 1
                   else kind == TYPE_TOKOVER5 && low / 2 % 8 == t - 1 && low % 2 == o - 5
              case Plain(ev) =>
                && ev.WellFormed()
                && kind == match ev {
                     case OnToken(_) => TYPE_TOKEN
                     case OnOverlap(_, _, _) => TYPE_OVERLAP
                     case OnSkipHtml(_, _) => TYPE_SKIPHTML
                     case OnSpz(_, _, _, _) => TYPE_SPZ
                     case OnTail(_, _, _) => TYPE_TAIL
                   }
    {
      var p := stream[readPtr..readPtr + |e.Bytes()|];
      assert p[0] == stream[readPtr];
      if e.Token2? {
        assert p[1] == stream[readPtr + 1];
      }
    }

    /** The switch of the replay loop on one entry. */
    method ReplayEntry(goOn: seq<Event> -> bool, sofar: seq<Event>, zones: ZoneTable, ghost e: Entry)
      returns (now: seq<Event>, stop: bool)
      requires At(e)
      modifies this`readPtr, this`lastStart, this`lastPos
      ensures (now, stop) == Deliver(goOn, sofar, AllHeard(zones, e.Events(old(Delta(lastStart, lastPos)))))
      ensures readPtr == old(readPtr) + |e.Bytes()|
      ensures !stop ==> Delta(lastStart, lastPos) == e.After(old(Delta(lastStart, lastPos)))
    {
      hide At, Entry.Bytes, Entry.Valid, Deliver, Event.WellFormed, AllHeard, NameOf;
      AtType(e);
      HeardEntry(zones, e, Delta(lastStart, lastPos));
      now, stop := sofar, false;
      var kind := (stream[readPtr] as int) / 16;
      var low := (stream[readPtr] as int) % 16;
      if kind == TYPE_OVERLAP1 {
        readPtr := readPtr + 1;
        var r := Call(goOn, sofar, OnOverlap(lastStart, low, -1));
        now, stop := r.0, r.1;
        lastStart := lastStart + low;
      } else if kind == TYPE_OVERLAP {
        now, stop := ReplayOverlap(goOn, sofar, e.event);
      } else if kind == TYPE_SKIPHTML {
        ghost var _ := Call(goOn, sofar, e.event);
        now := ReplaySkipHtml(sofar, e.event.start, e.event.len);
      } else if kind == TYPE_TOKEN {
        now, stop := ReplayToken(goOn, sofar, e.event.tok);
      } else if kind == TYPE_TOKEN1 {
        readPtr := readPtr + 1;
        now, stop := ReplayPlainToken(goOn, sofar, low);
      } else if kind == TYPE_TOKEN2 {
        readPtr := readPtr + 1;
        var len := stream[readPtr] as int;
        readPtr := readPtr + 1;
        now, stop := ReplayPlainToken(goOn, sofar, len);
      } else if TYPE_TOKOVER1 <= kind <= TYPE_TOKOVER5 {
        readPtr := readPtr + 1;
        var tokLen := if kind < TYPE_TOKOVER5 then low + 1 else low / 2 % 8 + 1;
        var overLen := if kind < TYPE_TOKOVER5 then kind - TYPE_TOKOVER1 + 1 else low % 2 + 5;
        DeliverTwo(goOn, sofar, PlainToken(Delta(lastStart, lastPos), tokLen),
                   OnOverlap(lastStart + tokLen, overLen, -1));
        now, stop := ReplayPlainToken(goOn, sofar, tokLen);
        if !stop {
          var r := Call(goOn, now, OnOverlap(lastStart, overLen, -1));
          now, stop := r.0, r.1;
          lastStart := lastStart + overLen;
        }
      } else if kind == TYPE_SPZ {
        ghost var _ := Call(goOn, sofar, Heard(zones, e.event));
        now := ReplaySPZ(sofar, zones, e.event.code, e.event.pos, e.event.zone, e.event.name);
      } else if kind == TYPE_TAIL {
        ghost var _ := Call(goOn, sofar, e.event);
        now := ReplayTail(sofar, e.event.start, e.event.len, e.event.boundary);
      } else {
        assert false; // an unhandled type code
      }
    }

    /** Replays the stream into a functor. What it receives is the log of the stores, with zones named from
        the zone table, cut just after the first token or overlap it refuses, and then OnFinish. The stream is not
        changed, so any later replay sees the same log; and after a replay that was not cut short the delta
        state is back in step, so storing can go on. */
    method Tokenize(goOn: seq<Event> -> bool, zones: ZoneTable) returns (received: seq<Event>, stop: bool)
      requires Valid()
      modifies this`readPtr, this`lastStart, this`lastPos
      ensures Valid() && Log() == old(Log())
      ensures var r := Deliver(goOn, [], AllHeard(zones, Log()));
              received == r.0 + [OnFinish] && stop == r.1
      ensures !stop ==> received == AllHeard(zones, Log()) + [OnFinish] && InSync()
      ensures received != [] && received[|received| - 1] == OnFinish
      ensures
        var got := received[..|received| - 1];
        && got <= AllHeard(zones, Log())
        && (stop ==> got != [] && Refused(goOn, got, |got|))
        && forall k :: 0 < k <= |got| && Refused(goOn, got, k) ==> stop && k == |got|
    {
      hide Deliver, AllHeard, Refused, Holds;
      received, stop := ReplayAll(goOn, zones);
      ghost var got := received;
      DeliverStops(goOn, [], AllHeard(zones, Log()));
      received := received + [OnFinish];
      assert received[..|received| - 1] == got;
    }

    /** The replay loop. */
    method ReplayAll(goOn: seq<Event> -> bool, zones: ZoneTable) returns (received: seq<Event>, stop: bool)
      requires Valid()
      modifies this`readPtr, this`lastStart, this`lastPos
      ensures (received, stop) == Deliver(goOn, [], AllHeard(zones, Log()))
      ensures !stop ==> received == AllHeard(zones, Log()) && InSync()
    {
      hide Holds, At, State, History, Deliver, Flatten, Chunks, Entry.Valid, Entry.Bytes, Entry.Type, AllHeard;
      lastStart := 0;
      lastPos := 0;
      readPtr := 1;
      received, stop := [], false;
      ghost var k := 0;
      Boundaries(zones);
      while readPtr < |stream|
        invariant 0 <= k <= |entries| && AllValid(entries) && readPtr == EntryStart(entries, k)
        invariant Delta(lastStart, lastPos) == State(entries[..k])
        invariant (received, stop) == Deliver(goOn, [], AllHeard(zones, History(entries[..k]))) && !stop
        decreases |stream| - readPtr
      {
        NextEntry(k);
        received, stop := ReplayEntry(goOn, received, zones, entries[k]);
        ReplayedUpTo(goOn, zones, k);
        k := k + 1;
        if stop {
          CutShort(goOn, zones, k);
          return;
        }
      }
      Finished(k);
    }

    /** The replay starts at the first entry, with nothing delivered. */
    lemma Boundaries(zones: ZoneTable)
      requires Valid()
      ensures AllValid(entries) && EntryStart(entries, 0) == 1 && EntryStart(entries, |entries|) == |stream|
      ensures State(entries[..0]) == Delta(0, 0) && AllHeard(zones, History(entries[..0])) == []
      ensures forall goOn: seq<Event> -> bool :: Deliver(goOn, [], []) == ([], false)
    {
      assert Chunks(entries)[..|entries|] == Chunks(entries);
    }

    /** While bytes are left, the read pointer is at the next entry. */
    lemma NextEntry(k: nat)
      requires Valid() && k <= |entries| && readPtr == EntryStart(entries, k) < |stream|
      ensures k < |entries| && At(entries[k])
      ensures EntryStart(entries, k + 1) == readPtr + |entries[k].Bytes()|
    {
      hide Entry.Bytes, Entry.Valid, Flatten;
      assert Chunks(entries)[..|entries|] == Chunks(entries);
      if k < |entries| {
        HoldsAt(stream, entries, k);
        assert entries[k] in entries;
      }
    }

    lemma ReplayedUpTo(goOn: seq<Event> -> bool, zones: ZoneTable, k: nat)
      requires k < |entries|
      ensures State(entries[..k + 1]) == entries[k].After(State(entries[..k]))
      ensures var before := Deliver(goOn, [], AllHeard(zones, History(entries[..k])));
              Deliver(goOn, [], AllHeard(zones, History(entries[..k + 1])))
              == if before.1 then before
                 else Deliver(goOn, before.0, AllHeard(zones, entries[k].Events(State(entries[..k]))))
    {
      hide Deliver, Entry.Events, Entry.After, AllHeard;
      assert entries[..k + 1] == entries[..k] + [entries[k]];
      HistorySnoc(entries[..k], entries[k]);
      ghost var before, next := History(entries[..k]), entries[k].Events(State(entries[..k]));
      HeardConcat(zones, before, next);
      DeliverConcat(goOn, [], AllHeard(zones, before), AllHeard(zones, next));
    }

    /** A replay cut short within the first k entries is the whole replay. */
    lemma {:induction false} CutShort(goOn: seq<Event> -> bool, zones: ZoneTable, k: nat)
      requires k <= |entries| && Deliver(goOn, [], AllHeard(zones, History(entries[..k]))).1
      ensures Deliver(goOn, [], AllHeard(zones, Log())) == Deliver(goOn, [], AllHeard(zones, History(entries[..k])))
      decreases |entries| - k
    {
      hide Deliver, Entry.Events, Entry.After, AllHeard;
      if k == |entries| {
        assert entries[..k] == entries;
      } else {
        ReplayedUpTo(goOn, zones, k);
        CutShort(goOn, zones, k + 1);
      }
    }

    /** No bytes are left only after the last entry. */
    lemma Finished(k: nat)
      requires Valid() && k <= |entries| && EntryStart(entries, k) >= |stream|
      ensures entries[..k] == entries
    {
      hide Entry.Bytes, Entry.Valid, Flatten;
      if k < |entries| {
        HoldsAt(stream, entries, k);
      }
    }
  }

  lemma SliceOfSlice(s: seq<byte>, at: nat, len: nat, i: nat, j: nat)
    requires at + len <= |s| && i <= j <= len
    ensures s[at..at + len][i..j] == s[at + i..at + j]
  {
    var l, r := s[at..at + len][i..j], s[at + i..at + j];
    assert |l| == |r| && forall k :: 0 <= k < |l| ==> l[k] == r[k];
  }
}