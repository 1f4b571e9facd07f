/** internal/wal: the CRC-framed log. Every checksum function is covered: nothing here depends on which
    corruptions a CRC would notice. */
module Wal {
  import opened Bytes
  import opened Entries
  import V = Varint

  const TYPE_PUT: byte := 1
  const TYPE_DELETE: byte := 2
  const TYPE_BATCH: byte := 3
  const HEADER_SIZE: nat := 9
  const MAX_PAYLOAD: nat := 0x1000_0000

  type uint32 = x: nat | x < TWO_32
  /** crc32x.FrameChecksum: of the type byte and the payload. */
  type Crc = (byte, Bytes) -> uint32

  // ---------- What a frame holds and how it is written ----------

  /** A put or delete of one entry, or a batch. */
  datatype Content = Single(e: Entry) | Batch(es: seq<Entry>)

  datatype Record = Record(typ: byte, e: Entry)

  function KindOf(e: Entry): byte {
    if e.deleted then TYPE_DELETE else TYPE_PUT
  }

  function TypeOf(c: Content): byte {
    match c
    case Single(e) => KindOf(e)
    case Batch(_) => TYPE_BATCH
  }

  function EntriesIn(c: Content): seq<Entry> {
    match c
    case Single(e) => [e]
    case Batch(es) => es
  }

  /** Length and bytes. */
  function BlobBytes(d: Bytes): Bytes {
    V.Encode(|d|) + d
  }

  function SingleBytes(e: Entry): Bytes {
    V.Encode(e.seqno) + (BlobBytes(e.key) + BlobBytes(e.value))
  }

  function ItemBytes(e: Entry): Bytes {
    V.Encode(e.seqno) + ([KindOf(e)] + (BlobBytes(e.key) + BlobBytes(e.value)))
  }

  function ItemsBytes(es: seq<Entry>): Bytes {
    if es == [] then [] else ItemsBytes(es[..|es| - 1]) + ItemBytes(es[|es| - 1])
  }

  function Payload(c: Content): Bytes {
    match c
    case Single(e) => SingleBytes(e)
    case Batch(es) => V.Encode(|es|) + ItemsBytes(es)
  }

  function Header(crc: Crc, typ: byte, payload: Bytes): (h: Bytes)
    ensures |h| == HEADER_SIZE
  {
    LE(|payload|, 4) + ([typ] + LE(crc(typ, payload), 4))
  }

  function FrameBytes(crc: Crc, typ: byte, payload: Bytes): Bytes {
    Header(crc, typ, payload) + payload
  }

  /** A frame by its positions: four bytes of payload length, the type, four bytes of checksum, lowest first; then the
      payload. */
  lemma {:induction false} FrameLayout(crc: Crc, typ: byte, payload: Bytes, i: nat)
    requires i < |FrameBytes(crc, typ, payload)|
    ensures |FrameBytes(crc, typ, payload)| == 9 + |payload|
    ensures FrameBytes(crc, typ, payload)[i] ==
      if i < 4 then |payload| / Pow256(i) % 256
      else if i == 4 then typ
      else if i < 9 then crc(typ, payload) / Pow256(i - 5) % 256
      else payload[i - 9]
  {
    hide LE;
    if i < 4 {
      LEAt(|payload|, 4, i);
    } else if 5 <= i < 9 {
      LEAt(crc(typ, payload), 4, i - 5);
    }
  }

  function FrameOf(crc: Crc, c: Content): Bytes {
    FrameBytes(crc, TypeOf(c), Payload(c))
  }

  function LogBytes(crc: Crc, cs: seq<Content>): Bytes {
    if cs == [] then [] else FrameOf(crc, cs[0]) + LogBytes(crc, cs[1..])
  }

  /** An entry that fits in a frame. */
  predicate Storable(e: Entry) {
    e.seqno < TWO_64 && |e.key| + |e.value| <= MAX_PAYLOAD
  }

  /** What writeFrame accepts. */
  ghost predicate Fits(c: Content) {
    && |Payload(c)| <= MAX_PAYLOAD
    && |EntriesIn(c)| < TWO_64
    && forall e | e in EntriesIn(c) :: EntryFits(e)
  }

  ghost predicate AllFit(cs: seq<Content>) {
    forall c | c in cs :: Fits(c)
  }

  lemma {:induction false} ItemsLength(es: seq<Entry>, e: Entry)
    requires e in es
    ensures |e.key| + |e.value| <= |ItemsBytes(es)|
  {
    var n := |es| - 1;
    if e != es[n] {
      ItemsLength(es[..n], e);
    }
  }

  lemma {:induction false} FrameStorable(c: Content, e: Entry)
    requires Fits(c) && e in EntriesIn(c)
    ensures Storable(e)
  {
    hide ItemsBytes, V.Encode;
    match c {
      case Single(_) =>
      case Batch(es) => ItemsLength(es, e);
    }
  }

  // ---------- Decoding: each function returns what it has not read ----------

  function Blob(b: Bytes): (r: Option<(Bytes, Bytes)>)
    ensures r.Some? ==> |r.value.1| < |b|
  {
    var n := V.Num(b);
    if n.None? || n.value.0 > |n.value.1| then None
    else Some((n.value.1[..n.value.0], n.value.1[n.value.0..]))
  }

  /** The rest of an entry: its key and its value. */
  function KeyValue(b: Bytes, seqno: nat, typ: byte): (r: Option<(Entry, Bytes)>)
    ensures r.Some? ==> |r.value.1| < |b|
  {
    var k := Blob(b);
    if k.None? then None
    else
      var v := Blob(k.value.1);
      if v.None? then None
      else Some((Entry(k.value.0, v.value.0, seqno, typ == TYPE_DELETE), v.value.1))
  }

  function DecodeOne(typ: byte, payload: Bytes): Option<seq<Record>> {
    var s := V.Num(payload);
    if s.None? then None
    else
      var e := KeyValue(s.value.1, s.value.0, typ);
      if e.None? then None else Some([Record(typ, e.value.0)])
  }

  function DecodeItem(b: Bytes): (r: Option<(Record, Bytes)>)
    ensures r.Some? ==> |r.value.1| < |b|
  {
    var s := V.Num(b);
    if s.None? || s.value.1 == [] then None
    else
      var typ := s.value.1[0];
      var e := KeyValue(s.value.1[1..], s.value.0, typ);
      if e.None? then None else Some((Record(typ, e.value.0), e.value.1))
  }

  function DecodeItems(b: Bytes, n: nat): Option<seq<Record>>
    decreases n
  {
    if n == 0 then Some([])
    else
      var r := DecodeItem(b);
      if r.None? then None
      else
        var rest := DecodeItems(r.value.1, n - 1);
        if rest.None? then None else Some([r.value.0] + rest.value)
  }

  function DecodeFrame(typ: byte, payload: Bytes): Option<seq<Record>> {
    if typ == TYPE_PUT || typ == TYPE_DELETE then DecodeOne(typ, payload)
    else if typ == TYPE_BATCH then
      var n := V.Num(payload);
      if n.None? then None else DecodeItems(n.value.1, n.value.0)
    else None
  }

  /** What is left after skipping a length and the bytes it covers, which are not looked at. */
  function Skip(b: Bytes): (r: Option<Bytes>)
    ensures r.Some? ==> |r.value| < |b|
  {
    var n := V.Num(b);
    if n.None? || n.value.0 > |n.value.1| then None else Some(n.value.1[n.value.0..])
  }

  /** The highest sequence number of n items and `max`. Where a length runs past the payload, which only a
      payload not written by this package can have, the source panics or, at the very end, takes no notice;
      here both are None. */
  function PeekItems(b: Bytes, n: nat, max: nat): Option<nat>
    decreases n
  {
    if n == 0 then Some(max)
    else
      var s := V.Num(b);
      if s.None? || s.value.1 == [] then None
      else
        var k := Skip(s.value.1[1..]);
        if k.None? then None
        else
          var v := Skip(k.value);
          if v.None? then None else PeekItems(v.value, n - 1, if s.value.0 > max then s.value.0 else max)
  }

  function PeekSeq(typ: byte, payload: Bytes): Option<nat> {
    var n := V.Num(payload);
    if n.None? then None
    else if typ == TYPE_PUT || typ == TYPE_DELETE then Some(n.value.0)
    else if typ == TYPE_BATCH then PeekItems(n.value.1, n.value.0, 0)
    else None
  }

  // ---------- Scanning ----------

  datatype ReadFrame = ReadFrame(typ: byte, payload: Bytes, rest: Bytes)

  /** The first frame of b if all of it is there and its checksum is right. */
  function FirstFrame(crc: Crc, b: Bytes): (r: Option<ReadFrame>)
    ensures r.Some? ==> |r.value.rest| + HEADER_SIZE <= |b|
  {
    if |b| < HEADER_SIZE then None
    else
      var plen := FromLE(b[..4]);
      if HEADER_SIZE + plen > |b| then None
      else
        var payload := b[HEADER_SIZE..HEADER_SIZE + plen];
        if crc(b[4], payload) != FromLE(b[5..9]) then None
        else Some(ReadFrame(b[4], payload, b[HEADER_SIZE + plen..]))
  }

  predicate KnownType(typ: byte) {
    typ == TYPE_PUT || typ == TYPE_DELETE || typ == TYPE_BATCH
  }

  function MaxOpt(s: Option<nat>, max: nat): nat {
    if s.Some? && s.value > max then s.value else max
  }

  /** What scanValidPrefix leaves unread, and the highest sequence number in what it read. */
  function Scan(crc: Crc, b: Bytes, maxSeq: nat): (r: (Bytes, nat))
    ensures |r.0| <= |b|
    decreases |b|
  {
    var f := FirstFrame(crc, b);
    if f.None? || !KnownType(f.value.typ) then (b, maxSeq)
    else Scan(crc, f.value.rest, MaxOpt(PeekSeq(f.value.typ, f.value.payload), maxSeq))
  }

  /** The records of the valid frames; None if one cannot be decoded. */
  function ReplayAll(crc: Crc, b: Bytes): Option<seq<Record>>
    decreases |b|
  {
    var f := FirstFrame(crc, b);
    if f.None? then Some([])
    else
      var recs := DecodeFrame(f.value.typ, f.value.payload);
      if recs.None? then None
      else
        var rest := ReplayAll(crc, f.value.rest);
        if rest.None? then None else Some(recs.value + rest.value)
  }

  // ---------- Round trips ----------

  lemma {:induction false} BlobOf(d: Bytes, rest: Bytes)
    requires |d| < TWO_64
    ensures Blob(BlobBytes(d) + rest) == Some((d, rest))
    ensures Skip(BlobBytes(d) + rest) == Some(rest)
  {
    assert BlobBytes(d) + rest == V.Encode(|d|) + (d + rest);
    V.NumOf(|d|, d + rest);
  }

  lemma {:induction false} KeyValueOf(e: Entry, rest: Bytes)
    requires EntryFits(e)
    ensures KeyValue(BlobBytes(e.key) + BlobBytes(e.value) + rest, e.seqno, KindOf(e)) == Some((e, rest))
  {
    hide Blob, BlobBytes;
    assert BlobBytes(e.key) + BlobBytes(e.value) + rest == BlobBytes(e.key) + (BlobBytes(e.value) + rest);
    BlobOf(e.key, BlobBytes(e.value) + rest);
    BlobOf(e.value, rest);
  }

  lemma {:induction false} ItemStart(e: Entry, rest: Bytes)
    requires EntryFits(e)
    ensures var kv := BlobBytes(e.key) + BlobBytes(e.value) + rest;
      V.Num(ItemBytes(e) + rest) == Some((e.seqno, [KindOf(e)] + kv)) && ([KindOf(e)] + kv)[1..] == kv
  {
    var kv := BlobBytes(e.key) + BlobBytes(e.value) + rest;
    assert ItemBytes(e) + rest == V.Encode(e.seqno) + ([KindOf(e)] + kv);
    V.NumOf(e.seqno, [KindOf(e)] + kv);
  }

  lemma {:induction false} ItemOf(e: Entry, rest: Bytes)
    requires EntryFits(e)
    ensures DecodeItem(ItemBytes(e) + rest) == Some((Record(KindOf(e), e), rest))
  {
    ItemStart(e, rest);
    KeyValueOf(e, rest);
  }

  /** Peeking skips exactly key and value. */
  lemma {:induction false} PeekItemOf(e: Entry, rest: Bytes, n: nat, max: nat)
    requires EntryFits(e) && n > 0
    ensures PeekItems(ItemBytes(e) + rest, n, max) == PeekItems(rest, n - 1, MaxOpt(Some(e.seqno), max))
  {
    hide ItemBytes, BlobBytes, Blob, V.Num, V.Encode, Skip;
    ItemStart(e, rest);
    var kv := BlobBytes(e.key) + BlobBytes(e.value) + rest;
    assert kv == BlobBytes(e.key) + (BlobBytes(e.value) + rest);
    BlobOf(e.key, BlobBytes(e.value) + rest);
    BlobOf(e.value, rest);
  }

  function Records(es: seq<Entry>): seq<Record> {
    if es == [] then [] else [Record(KindOf(es[0]), es[0])] + Records(es[1..])
  }

  lemma {:induction false} ItemsFirst(es: seq<Entry>)
    requires es != []
    ensures ItemsBytes(es) == ItemBytes(es[0]) + ItemsBytes(es[1..])
  {
    var n := |es| - 1;
    if n > 0 {
      ItemsFirst(es[..n]);
      assert es[..n][1..] == es[1..][..n - 1];
    } else {
      assert es[..0] == [] && es[1..] == [];
    }
  }

  function MaxFrom(es: seq<Entry>, max: nat): nat {
    if es == [] then max else MaxFrom(es[1..], MaxOpt(Some(es[0].seqno), max))
  }

  lemma {:induction false} ItemsOf(es: seq<Entry>, max: nat)
    requires forall e | e in es :: EntryFits(e)
    ensures DecodeItems(ItemsBytes(es), |es|) == Some(Records(es))
    ensures PeekItems(ItemsBytes(es), |es|, max) == Some(MaxFrom(es, max))
    decreases |es|
  {
    if es != [] {
      ItemsFirst(es);
      ItemOf(es[0], ItemsBytes(es[1..]));
      PeekItemOf(es[0], ItemsBytes(es[1..]), |es|, max);
      ItemsOf(es[1..], MaxOpt(Some(es[0].seqno), max));
    }
  }

  lemma {:induction false} MaxFromIsMax(es: seq<Entry>, max: nat)
    ensures MaxFrom(es, max) == MaxOpt(Some(MaxSeqOf(es)), max)
  {
    if es != [] {
      MaxFromIsMax(es[1..], MaxOpt(Some(es[0].seqno), max));
      assert forall e :: e in es <==> e == es[0] || e in es[1..];
    }
  }

  lemma {:induction false} SingleRoundTrip(e: Entry)
    requires EntryFits(e)
    ensures DecodeFrame(KindOf(e), SingleBytes(e)) == Some([Record(KindOf(e), e)])
    ensures PeekSeq(KindOf(e), SingleBytes(e)) == Some(e.seqno)
  {
    var kv := BlobBytes(e.key) + BlobBytes(e.value);
    V.NumOf(e.seqno, kv);
    assert kv + [] == kv;
    KeyValueOf(e, []);
  }

  lemma {:induction false} BatchRoundTrip(es: seq<Entry>)
    requires |es| < TWO_64 && forall e | e in es :: EntryFits(e)
    ensures DecodeFrame(TYPE_BATCH, Payload(Batch(es))) == Some(Records(es))
    ensures PeekSeq(TYPE_BATCH, Payload(Batch(es))) == Some(MaxSeqOf(es))
  {
    V.NumOf(|es|, ItemsBytes(es));
    ItemsOf(es, 0);
    MaxFromIsMax(es, 0);
  }

  /** Decoding what was written gives back the records, for batches of any length; the sequence number peeked
      at is the highest of them. */
  lemma {:induction false} FrameRoundTrip(c: Content)
    requires Fits(c)
    ensures DecodeFrame(TypeOf(c), Payload(c)) == Some(Records(EntriesIn(c)))
    ensures PeekSeq(TypeOf(c), Payload(c)) == Some(MaxSeqOf(EntriesIn(c)))
  {
    hide DecodeFrame, PeekSeq, SingleBytes, ItemsBytes;
    match c {
      case Single(e) =>
        assert e in EntriesIn(c);
        SingleRoundTrip(e);
        assert [e][1..] == [] && [e][..0] == [];
        assert Records([e]) == [Record(KindOf(e), e)];
      case Batch(es) =>
        assert forall e | e in es :: e in EntriesIn(c);
        BatchRoundTrip(es);
    }
  }

  lemma {:induction false} HeaderFields(crc: Crc, typ: byte, payload: Bytes)
    requires |payload| < TWO_32
    ensures var h := Header(crc, typ, payload);
      FromLE(h[..4]) == |payload| && h[4] == typ && FromLE(h[5..9]) == crc(typ, payload)
  {
    var h := Header(crc, typ, payload);
    assert h[..4] == LE(|payload|, 4) && h[5..9] == LE(crc(typ, payload), 4);
    Widths();
    LERoundTrip(|payload|, 4);
    LERoundTrip(crc(typ, payload), 4);
  }

  /** A whole frame is read back. */
  lemma {:induction false} WholeFrame(crc: Crc, c: Content, rest: Bytes)
    requires Fits(c)
    ensures FirstFrame(crc, FrameOf(crc, c) + rest) == Some(ReadFrame(TypeOf(c), Payload(c), rest))
  {
    var h, p := Header(crc, TypeOf(c), Payload(c)), Payload(c);
    var b := FrameOf(crc, c) + rest;
    HeaderFields(crc, TypeOf(c), p);
    assert b == h + p + rest;
    assert b[..4] == h[..4] && b[4] == h[4] && b[5..9] == h[5..9];
    assert b[9..9 + |p|] == p && b[9 + |p|..] == rest;
  }

  lemma {:induction false} NoFrame(crc: Crc)
    ensures FirstFrame(crc, []).None?
  {
  }

  /** A frame cut short is not read, whether the cut is in its header or in its payload. */
  lemma {:induction false} CutFrame(crc: Crc, c: Content, cut: nat)
    requires Fits(c) && cut < |FrameOf(crc, c)|
    ensures FirstFrame(crc, FrameOf(crc, c)[..cut]).None?
  {
    var h, b := Header(crc, TypeOf(c), Payload(c)), FrameOf(crc, c)[..cut];
    if cut >= HEADER_SIZE {
      HeaderFields(crc, TypeOf(c), Payload(c));
      assert b[..4] == h[..4];
    }
  }

  // ---------- Torn tails ----------

  /** How many frames of the log are whole when its bytes are cut at `cut`. */
  function Whole(crc: Crc, cs: seq<Content>, cut: nat): (p: nat)
    ensures p <= |cs|
  {
    if cs == [] || cut < |FrameOf(crc, cs[0])| then 0
    else 1 + Whole(crc, cs[1..], cut - |FrameOf(crc, cs[0])|)
  }

  function AllEntries(cs: seq<Content>): seq<Entry> {
    if cs == [] then [] else EntriesIn(cs[0]) + AllEntries(cs[1..])
  }

  /** Whole counts the frames up to the largest boundary that is not past the cut. */
  lemma {:induction false} WholeIsLargest(crc: Crc, cs: seq<Content>, cut: nat)
    requires cut <= |LogBytes(crc, cs)|
    ensures var p := Whole(crc, cs, cut);
      && |LogBytes(crc, cs[..p])| <= cut
      && (p < |cs| ==> cut < |LogBytes(crc, cs[..p + 1])|)
  {
    hide FrameOf;
    if cs != [] && cut >= |FrameOf(crc, cs[0])| {
      var n := |FrameOf(crc, cs[0])|;
      WholeIsLargest(crc, cs[1..], cut - n);
      var p := Whole(crc, cs[1..], cut - n);
      assert cs[..p + 1][1..] == cs[1..][..p];
      if p < |cs| - 1 {
        assert cs[..p + 2][1..] == cs[1..][..p + 1];
      }
    } else if cs != [] {
      assert cs[..1][1..] == [];
    }
  }

  lemma {:induction false} MaxSeqConcat(a: seq<Entry>, b: seq<Entry>, max: nat)
    ensures MaxOpt(Some(MaxSeqOf(a + b)), max) == MaxOpt(Some(MaxSeqOf(b)), MaxOpt(Some(MaxSeqOf(a)), max))
  {
    assert forall e :: e in a + b <==> e in a || e in b;
  }

  /** The scan reads a whole frame and goes on behind it. */
  lemma {:induction false} ScanStep(crc: Crc, c: Content, rest: Bytes, max: nat)
    requires Fits(c)
    ensures Scan(crc, FrameOf(crc, c) + rest, max) == Scan(crc, rest, MaxOpt(Some(MaxSeqOf(EntriesIn(c))), max))
  {
    hide FrameOf, FirstFrame, PeekSeq, EntriesIn, MaxSeqOf, Payload;
    WholeFrame(crc, c, rest);
    FrameRoundTrip(c);
  }

  /** It stops at a frame that is cut short and at the end. */
  lemma {:induction false} ScanStops(crc: Crc, cs: seq<Content>, cut: nat, max: nat)
    requires AllFit(cs) && cut <= |LogBytes(crc, cs)| && (cs == [] || cut < |FrameOf(crc, cs[0])|)
    ensures Scan(crc, LogBytes(crc, cs)[..cut], max) == (LogBytes(crc, cs)[..cut], max)
    ensures Whole(crc, cs, cut) == 0 == |LogBytes(crc, cs[..0])|
    ensures MaxOpt(Some(MaxSeqOf(AllEntries(cs[..0]))), max) == max
  {
    hide FrameOf, FirstFrame;
    assert cs[..0] == [];
    if cs == [] {
      NoFrame(crc);
    } else {
      assert LogBytes(crc, cs)[..cut] == FrameOf(crc, cs[0])[..cut];
      CutFrame(crc, cs[0], cut);
    }
  }

  lemma {:induction false} WholeStep(crc: Crc, cs: seq<Content>, cut: nat)
    requires cs != [] && |FrameOf(crc, cs[0])| <= cut <= |LogBytes(crc, cs)|
    ensures var n, p := |FrameOf(crc, cs[0])|, Whole(crc, cs, cut);
      && cut - n <= |LogBytes(crc, cs[1..])|
      && p == 1 + Whole(crc, cs[1..], cut - n)
      && LogBytes(crc, cs)[..cut] == FrameOf(crc, cs[0]) + LogBytes(crc, cs[1..])[..cut - n]
      && |LogBytes(crc, cs[..p])| == n + |LogBytes(crc, cs[1..][..p - 1])|
      && AllEntries(cs[..p]) == EntriesIn(cs[0]) + AllEntries(cs[1..][..p - 1])
  {
    hide FrameOf, EntriesIn;
    var p := Whole(crc, cs, cut);
    assert cs[..p][1..] == cs[1..][..p - 1] && cs[..p][0] == cs[0];
  }

  lemma {:induction false} ScanCut(crc: Crc, cs: seq<Content>, cut: nat, max: nat)
    requires AllFit(cs) && cut <= |LogBytes(crc, cs)|
    ensures var p := Whole(crc, cs, cut);
      var r := Scan(crc, LogBytes(crc, cs)[..cut], max);
      && |r.0| == cut - |LogBytes(crc, cs[..p])|
      && r.1 == MaxOpt(Some(MaxSeqOf(AllEntries(cs[..p]))), max)
    decreases |cs|
  {
    hide FrameOf, Scan, EntriesIn, Fits, LogBytes, Whole, AllEntries, MaxSeqOf, MaxOpt;
    if cs == [] || cut < |FrameOf(crc, cs[0])| {
      ScanStops(crc, cs, cut, max);
    } else {
      var n, c := |FrameOf(crc, cs[0])|, cs[0];
      assert c in cs && forall d | d in cs[1..] :: d in cs;
      WholeStep(crc, cs, cut);
      var p := Whole(crc, cs[1..], cut - n);
      ScanStep(crc, c, LogBytes(crc, cs[1..])[..cut - n], max);
      ScanCut(crc, cs[1..], cut - n, MaxOpt(Some(MaxSeqOf(EntriesIn(c))), max));
      MaxSeqConcat(EntriesIn(c), AllEntries(cs[1..][..p]), max);
    }
  }

  lemma {:induction false} LogPrefix(crc: Crc, cs: seq<Content>, p: nat)
    requires p <= |cs|
    ensures LogBytes(crc, cs) == LogBytes(crc, cs[..p]) + LogBytes(crc, cs[p..])
    decreases p
  {
    hide FrameOf;
    if p > 0 {
      LogPrefix(crc, cs[1..], p - 1);
      assert cs[..p][1..] == cs[1..][..p - 1] && cs[p..] == cs[1..][p - 1..];
    } else {
      assert cs[..0] == [] && cs[0..] == cs;
    }
  }

  /** Torn-tail recovery is exact: whatever byte the log is cut at, the scan stops at the largest frame boundary
      not past the cut and returns the highest sequence number of the frames before it. */
  lemma {:induction false} TornTailExact(crc: Crc, cs: seq<Content>, cut: nat)
    requires AllFit(cs) && cut <= |LogBytes(crc, cs)|
    ensures var p, b := Whole(crc, cs, cut), LogBytes(crc, cs)[..cut];
      var r := Scan(crc, b, 0);
      && b[..|b| - |r.0|] == LogBytes(crc, cs[..p])
      && r.1 == MaxSeqOf(AllEntries(cs[..p]))
  {
    hide FrameOf, FirstFrame, PeekSeq, EntriesIn, Fits, Scan, Whole;
    ScanCut(crc, cs, cut, 0);
    WholeIsLargest(crc, cs, cut);
    LogPrefix(crc, cs, Whole(crc, cs, cut));
  }

  /** A log of whole frames replays as the records written, in order. */
  lemma {:induction false} ReplayExact(crc: Crc, cs: seq<Content>)
    requires AllFit(cs)
    ensures ReplayAll(crc, LogBytes(crc, cs)) == Some(Records(AllEntries(cs)))
    decreases |cs|
  {
    hide FrameOf, FirstFrame, DecodeFrame, EntriesIn, Fits;
    if cs != [] {
      assert cs[0] in cs && forall d | d in cs[1..] :: d in cs;
      WholeFrame(crc, cs[0], LogBytes(crc, cs[1..]));
      FrameRoundTrip(cs[0]);
      ReplayExact(crc, cs[1..]);
      RecordsConcat(EntriesIn(cs[0]), AllEntries(cs[1..]));
    }
  }

  lemma {:induction false} RecordsConcat(a: seq<Entry>, b: seq<Entry>)
    ensures Records(a + b) == Records(a) + Records(b)
    decreases |a|
  {
    if a == [] {
      assert a + b == b;
    } else {
      assert (a + b)[1..] == a[1..] + b;
      RecordsConcat(a[1..], b);
    }
  }

  lemma {:induction false} LogConcat(crc: Crc, a: seq<Content>, b: seq<Content>)
    ensures LogBytes(crc, a + b) == LogBytes(crc, a) + LogBytes(crc, b)
  {
    hide FrameOf;
    LogPrefix(crc, a + b, |a|);
    assert (a + b)[..|a|] == a && (a + b)[|a|..] == b;
  }

  /** After a tail was cut off, further appends give a log that replays as the old frames plus the new ones. */
  lemma {:induction false} AppendAfterTear(crc: Crc, cs: seq<Content>, cut: nat, more: seq<Content>)
    requires AllFit(cs) && AllFit(more) && cut <= |LogBytes(crc, cs)|
    ensures var p, b := Whole(crc, cs, cut), LogBytes(crc, cs)[..cut];
      var kept := b[..|b| - |Scan(crc, b, 0).0|];
      ReplayAll(crc, kept + LogBytes(crc, more)) == Some(Records(AllEntries(cs[..p] + more)))
  {
    hide FrameOf, Scan, Whole, Fits, ReplayAll;
    TornTailExact(crc, cs, cut);
    var p := Whole(crc, cs, cut);
    LogConcat(crc, cs[..p], more);
    assert AllFit(cs[..p] + more);
    ReplayExact(crc, cs[..p] + more);
  }

  // ---------- The log ----------

  /** wal.Options. */
  datatype Options = Options(syncEveryN: nat, syncOnWrite: bool)

  /** Whether the append that makes the count `appends` is synced. */
  predicate NeedsSync(opts: Options, appends: nat) {
    if opts.syncEveryN > 0 then appends % opts.syncEveryN == 0 else opts.syncOnWrite
  }

  /** Of any N appends in a row exactly one is synced, the one whose count N divides. */
  lemma {:induction false} SyncsOneInN(opts: Options, first: nat)
    requires opts.syncEveryN > 0
    ensures var n := opts.syncEveryN;
      exists i :: first <= i < first + n && NeedsSync(opts, i) && i % n == 0
        && forall j | first <= j < first + n && j != i :: !NeedsSync(opts, j)
  {
    var n := opts.syncEveryN;
    var r := first % n;
    var i := if r == 0 then first else first + n - r;
    forall j | first <= j < first + n
      ensures j % n == var x := r + (j - first); if x < n then x else x - n
    {
      CountModulo(first, j - first, n);
    }
    assert NeedsSync(opts, i) && i % n == 0;
  }

  lemma {:induction false} CountModulo(first: nat, d: nat, n: nat)
    requires d < n
    ensures (first + d) % n == var x := first % n + d; if x < n then x else x - n
  {
    if d > 0 {
      CountModulo(first, d - 1, n);
      NextModulo(first + d - 1, n);
    }
  }

  datatype BatchEntry = BatchEntry(key: Bytes, value: Bytes, deleted: bool)

  function EntryOf(e: BatchEntry, seqno: nat): Entry {
    Entry(e.key, e.value, seqno, e.deleted)
  }

  /** The entries of a batch with the sequence numbers allocSeq gives them. */
  function Allocated(es: seq<BatchEntry>, next: nat): (r: seq<Entry>)
    ensures |r| == |es|
  {
    if es == [] then []
    else
      var n := |es| - 1;
      Allocated(es[..n], next) + [EntryOf(es[n], next + n + 1)]
  }

  lemma {:induction false} AllocatedAt(es: seq<BatchEntry>, next: nat)
    ensures |Allocated(es, next)| == |es|
    ensures forall i | 0 <= i < |es| ::
      Allocated(es, next)[i] == EntryOf(es[i], next + i + 1)
  {
    if es != [] {
      AllocatedAt(es[..|es| - 1], next);
    }
  }

  method EncodeBlob(dst: Bytes, d: Bytes) returns (b: Bytes)
    requires |d| < TWO_64
    ensures b == dst + BlobBytes(d)
  {
    b := V.EncodeUint64(dst, |d|);
    b := b + d;
  }

  method EncodeKV(seqno: nat, key: Bytes, value: Bytes) returns (b: Bytes)
    requires seqno < TWO_64 && |key| < TWO_64 && |value| < TWO_64
    ensures forall deleted: bool :: b == SingleBytes(Entry(key, value, seqno, deleted))
  {
    b := V.EncodeUint64([], seqno);
    b := EncodeBlob(b, key);
    b := EncodeBlob(b, value);
  }

  /** A frame as the loops read it, by offsets into the file. */
  lemma {:induction false} FrameAtOffset(crc: Crc, file: Bytes, off: nat)
    requires off + HEADER_SIZE <= |file|
    ensures var plen := FromLE(file[off..off + 9][..4]);
      var end := off + HEADER_SIZE + plen;
      FirstFrame(crc, file[off..]) ==
        if end > |file| then None
        else if crc(file[off + 4], file[off + HEADER_SIZE..end]) != FromLE(file[off..off + 9][5..9]) then None
        else Some(ReadFrame(file[off + 4], file[off + HEADER_SIZE..end], file[end..]))
  {
    var hdr, b := file[off..off + 9], file[off..];
    assert hdr == b[..9];
    assert b[..4] == hdr[..4] && b[5..9] == hdr[5..9];
    var end := off + HEADER_SIZE + FromLE(hdr[..4]);
    if end <= |file| {
      assert b[9..end - off] == file[off + 9..end] && b[end - off..] == file[end..];
    }
  }

  lemma {:induction false} ShortTail(crc: Crc, b: Bytes, max: nat)
    requires |b| < HEADER_SIZE
    ensures Scan(crc, b, max) == (b, max) && ReplayAll(crc, b) == Some([])
  {
  }

  /** The frame at an offset, if it is whole and its checksum right, and where it ends. */
  method FrameAt(crc: Crc, file: Bytes, off: nat) returns (f: Option<ReadFrame>, frameEnd: nat)
    requires off + HEADER_SIZE <= |file|
    ensures f == FirstFrame(crc, file[off..])
    ensures f.Some? ==> off < frameEnd <= |file| && f.value.rest == file[frameEnd..]
  {
    hide FirstFrame;
    FrameAtOffset(crc, file, off);
    var hdr := file[off..off + HEADER_SIZE];
    frameEnd := off + HEADER_SIZE + FromLE(hdr[..4]);
    if frameEnd > |file| {
      return None, frameEnd;
    }
    var payload := file[off + HEADER_SIZE..frameEnd];
    if crc(hdr[4], payload) != FromLE(hdr[5..9]) {
      return None, frameEnd;
    }
    return Some(ReadFrame(hdr[4], payload, file[frameEnd..])), frameEnd;
  }

  /** The scanning loop over the file. */
  method ScanValidPrefix(crc: Crc, file: Bytes) returns (validEnd: nat, maxSeq: nat)
    ensures validEnd <= |file| && (file[validEnd..], maxSeq) == Scan(crc, file, 0)
  {
    hide FirstFrame, PeekSeq;
    var off: nat := 0;
    maxSeq := 0;
    assert file[0..] == file;
    while off + HEADER_SIZE <= |file|
      invariant off <= |file|
      invariant Scan(crc, file[off..], maxSeq) == Scan(crc, file, 0)
    {
      FrameAtOffset(crc, file, off);
      var hdr := file[off..off + HEADER_SIZE];
      var plen := FromLE(hdr[..4]);
      var typ := hdr[4];
      var want := FromLE(hdr[5..9]);
      if typ != TYPE_PUT && typ != TYPE_DELETE && typ != TYPE_BATCH {
        return off, maxSeq;
      }
      var frameEnd := off + HEADER_SIZE + plen;
      if frameEnd > |file| {
        return off, maxSeq;
      }
      var payload := file[off + HEADER_SIZE..frameEnd];
      if crc(typ, payload) != want {
        return off, maxSeq;
      }
      var s := PeekSeq(typ, payload);
      if s.Some? && s.value > maxSeq {
        maxSeq := s.value;
      }
      off := frameEnd;
    }
    ShortTail(crc, file[off..], maxSeq);
    return off, maxSeq;
  }

  lemma {:induction false} PeekItemsFits(b: Bytes, n: nat, max: nat)
    requires max < TWO_64
    ensures PeekItems(b, n, max).Some? ==> PeekItems(b, n, max).value < TWO_64
    decreases n
  {
    hide V.Decode, Skip;
    if PeekItems(b, n, max).Some? && n > 0 {
      V.DecodeFits(b);
      var k := Skip(V.Num(b).value.1[1..]);
      PeekItemsFits(Skip(k.value).value, n - 1, MaxOpt(Some(V.Num(b).value.0), max));
    }
  }

  /** Whatever the file holds, the recovered sequence number is a 64-bit number. */
  lemma {:induction false} ScanFits(crc: Crc, b: Bytes, max: nat)
    requires max < TWO_64
    ensures Scan(crc, b, max).1 < TWO_64
    decreases |b|
  {
    hide FirstFrame, V.Decode, PeekItems;
    var f := FirstFrame(crc, b);
    if f.Some? && KnownType(f.value.typ) {
      var n := V.Num(f.value.payload);
      if n.Some? {
        V.DecodeFits(f.value.payload);
        PeekItemsFits(n.value.1, n.value.0, 0);
      }
      ScanFits(crc, f.value.rest, MaxOpt(PeekSeq(f.value.typ, f.value.payload), max));
    }
  }

  /** Records read so far and records still to be read. */
  function Joined(out: seq<Record>, rest: Option<seq<Record>>): Option<seq<Record>> {
    if rest.None? then None else Some(out + rest.value)
  }

  lemma {:induction false} JoinedStep(out: seq<Record>, recs: seq<Record>, rest: Option<seq<Record>>)
    ensures Joined([], rest) == rest
    ensures Joined(out + recs, rest) == Joined(out, Joined(recs, rest))
    ensures Joined(out, Some([])) == Some(out)
  {
    if rest.Some? {
      assert [] + rest.value == rest.value;
      assert out + recs + rest.value == out + (recs + rest.value);
    }
    assert out + [] == out;
  }

  /** What one round of the replay loop comes to. */
  lemma {:induction false} ReplayStep(crc: Crc, b: Bytes, out: seq<Record>)
    ensures var f := FirstFrame(crc, b);
      Joined(out, ReplayAll(crc, b)) ==
        if f.None? then Some(out)
        else
          var recs := DecodeFrame(f.value.typ, f.value.payload);
          if recs.None? then None else Joined(out + recs.value, ReplayAll(crc, f.value.rest))
  {
    hide DecodeFrame, FirstFrame;
    var f := FirstFrame(crc, b);
    JoinedStep(out, [], Some([]));
    if f.Some? {
      var recs := DecodeFrame(f.value.typ, f.value.payload);
      if recs.Some? {
        JoinedStep(out, recs.value, ReplayAll(crc, f.value.rest));
      }
    }
  }

  /** The decoding loop over the items of a batch. */
  method DecodeBatch(payload: Bytes) returns (r: Option<seq<Record>>)
    ensures r == DecodeFrame(TYPE_BATCH, payload)
  {
    hide DecodeItem;
    var n := V.Num(payload);
    if n.None? {
      return None;
    }
    var rest, out, i := n.value.1, [], 0;
    JoinedStep([], [], DecodeItems(rest, n.value.0));
    while i < n.value.0
      invariant i <= n.value.0
      invariant DecodeFrame(TYPE_BATCH, payload) == Joined(out, DecodeItems(rest, n.value.0 - i))
    {
      var item := DecodeItem(rest);
      if item.None? {
        return None;
      }
      JoinedStep(out, [item.value.0], DecodeItems(item.value.1, n.value.0 - i - 1));
      out := out + [item.value.0];
      rest := item.value.1;
      i := i + 1;
    }
    JoinedStep(out, [], Some([]));
    return Some(out);
  }

  /** wal.Log over a file that holds `file`, of which the first `durable` bytes are on stable storage. */
  class Log {
    const crc: Crc
    const opts: Options
    var file: Bytes
    var durable: nat
    var size: nat
    var appends: nat
    var nextSeq: nat
    var closed: bool

    ghost predicate Valid()
      reads this
    {
      size == |file| && durable <= |file| && nextSeq < TWO_64
    }

    /** Opens the log and cuts a torn tail off. */
    constructor (crc: Crc, opts: Options, file: Bytes)
      ensures Valid() && !closed && appends == 0 && durable == size && this.crc == crc && this.opts == opts
      ensures this.file == file[..|file| - |Scan(crc, file, 0).0|]
      ensures nextSeq == Scan(crc, file, 0).1
    {
      var validEnd, maxSeq := ScanValidPrefix(crc, file);
      ScanFits(crc, file, 0);
      this.crc, this.opts, closed, appends := crc, opts, false, 0;
      nextSeq := maxSeq;
      this.file := if validEnd < |file| then file[..validEnd] else file;
      durable := validEnd;
      size := validEnd;
    }

    method NextSeq() returns (n: nat)
      requires Valid()
      ensures n == nextSeq + 1
    {
      n := nextSeq + 1;
    }

    /** Appends one frame; a payload over the limit leaves the file alone. */
    method WriteFrame(typ: byte, payload: Bytes) returns (ok: bool)
      requires Valid()
      modifies this`file, this`size, this`appends
      ensures Valid() && ok == (|payload| <= MAX_PAYLOAD)
      ensures file == if ok then old(file) + FrameBytes(crc, typ, payload) else old(file)
      ensures appends == if ok then old(appends) + 1 else old(appends)
    {
      if |payload| > MAX_PAYLOAD {
        return false;
      }
      var hdr := LE(|payload|, 4) + ([typ] + LE(crc(typ, payload), 4));
      file := file + hdr;
      if |payload| > 0 {
        file := file + payload;
      }
      size := size + HEADER_SIZE + |payload|;
      appends := appends + 1;
      return true;
    }

    /** Syncs when the options say so: with a count N after every N-th append, else after each one or never. */
    method MaybeSync()
      requires Valid()
      modifies this`durable
      ensures Valid()
      ensures durable == if NeedsSync(opts, appends) then |file| else old(durable)
      ensures opts.syncEveryN > 0 ==> durable == if appends % opts.syncEveryN == 0 then |file| else old(durable)
      ensures opts.syncEveryN == 0 ==> durable == if opts.syncOnWrite then |file| else old(durable)
    {
      if opts.syncEveryN > 0 {
        if appends % opts.syncEveryN == 0 {
          durable := |file|;
        }
      } else if opts.syncOnWrite {
        durable := |file|;
      }
    }

    /** Writes a frame and syncs if it is time. */
    method AppendFrame(typ: byte, payload: Bytes) returns (ok: bool)
      requires Valid()
      modifies this`file, this`size, this`appends, this`durable
      ensures Valid() && ok == (|payload| <= MAX_PAYLOAD)
      ensures if ok then
          && file == old(file) + FrameBytes(crc, typ, payload) && appends == old(appends) + 1
          && durable == if NeedsSync(opts, appends) then |file| else old(durable)
        else file == old(file) && appends == old(appends) && durable == old(durable)
    {
      hide FrameBytes, NeedsSync;
      ok := WriteFrame(typ, payload);
      if ok {
        MaybeSync();
      }
    }

    /** One frame with one entry numbered nextSeq + 1; a refused append has used the number up. */
    method Append(key: Bytes, value: Bytes, deleted: bool) returns (r: Option<nat>)
      requires Valid() && nextSeq + 1 < TWO_64 && |key| < TWO_64 && |value| < TWO_64
      modifies this
      ensures Valid() && closed == old(closed)
      ensures var c := Single(Entry(key, value, old(nextSeq) + 1, deleted));
        && (r.Some? <==> !closed && |Payload(c)| <= MAX_PAYLOAD)
        && (r.Some? ==> r.value == nextSeq && file == old(file) + FrameOf(crc, c) && appends == old(appends) + 1)
        && (r.None? ==> file == old(file) && appends == old(appends) && durable == old(durable))
        && nextSeq == (if closed then old(nextSeq) else old(nextSeq) + 1)
      ensures r.Some? ==> durable == if NeedsSync(opts, appends) then |file| else old(durable)
    {
      hide NeedsSync, SingleBytes;
      if closed {
        return None;
      }
      nextSeq := nextSeq + 1;
      var payload := EncodeKV(nextSeq, key, value);
      var ok := AppendFrame(if deleted then TYPE_DELETE else TYPE_PUT, payload);
      if !ok {
        return None;
      }
      return Some(nextSeq);
    }

    method AppendPut(key: Bytes, value: Bytes) returns (r: Option<nat>)
      requires Valid() && nextSeq + 1 < TWO_64 && |key| < TWO_64 && |value| < TWO_64
      modifies this
      ensures Valid() && closed == old(closed)
      ensures var c := Single(Entry(key, value, old(nextSeq) + 1, false));
        && (r.Some? <==> !closed && |Payload(c)| <= MAX_PAYLOAD)
        && (r.Some? ==> r.value == nextSeq && file == old(file) + FrameOf(crc, c) && appends == old(appends) + 1)
        && (r.None? ==> file == old(file) && appends == old(appends) && durable == old(durable))
        && nextSeq == (if closed then old(nextSeq) else old(nextSeq) + 1)
      ensures r.Some? ==> durable == if NeedsSync(opts, appends) then |file| else old(durable)
    {
      r := Append(key, value, false);
    }

    method AppendDelete(key: Bytes) returns (r: Option<nat>)
      requires Valid() && nextSeq + 1 < TWO_64 && |key| < TWO_64
      modifies this
      ensures Valid() && closed == old(closed)
      ensures var c := Single(Entry(key, [], old(nextSeq) + 1, true));
        && (r.Some? <==> !closed && |Payload(c)| <= MAX_PAYLOAD)
        && (r.Some? ==> r.value == nextSeq && file == old(file) + FrameOf(crc, c) && appends == old(appends) + 1)
        && (r.None? ==> file == old(file) && appends == old(appends) && durable == old(durable))
        && nextSeq == (if closed then old(nextSeq) else old(nextSeq) + 1)
      ensures r.Some? ==> durable == if NeedsSync(opts, appends) then |file| else old(durable)
    {
      r := Append(key, [], true);
    }

    /** One frame for the whole batch. The numbers inside it are NextSeq() - |es| to NextSeq() - 1 taken after
        the call, which is how DB.Write finds them again. */
    method AppendBatch(es: seq<BatchEntry>) returns (r: Option<nat>)
      requires Valid() && nextSeq + |es| < TWO_64
      requires forall e | e in es :: |e.key| < TWO_64 && |e.value| < TWO_64
      modifies this
      ensures Valid() && closed == old(closed)
      ensures var c := Batch(Allocated(es, old(nextSeq)));
        && (r.Some? <==> !closed && (es == [] || |Payload(c)| <= MAX_PAYLOAD))
        && (r.Some? ==> r.value == nextSeq)
        && file == (if r.Some? && es != [] then old(file) + FrameOf(crc, c) else old(file))
        && nextSeq == (if closed then old(nextSeq) else old(nextSeq) + |es|)
      ensures if r.Some? && es != [] then
          appends == old(appends) + 1 && durable == if NeedsSync(opts, appends) then |file| else old(durable)
        else appends == old(appends) && durable == old(durable)
    {
      if closed {
        return None;
      }
      if |es| == 0 {
        return Some(nextSeq);
      }
      hide Allocated, Payload, FrameBytes, NeedsSync, LE;
      ghost var next := nextSeq;
      var payload := BatchPayload(es);
      var ok := AppendFrame(TYPE_BATCH, payload);
      if !ok {
        return None;
      }
      return Some(nextSeq);
    }

    /** The encoding loop: allocates a number and appends one item a round. */
    method BatchPayload(es: seq<BatchEntry>) returns (payload: Bytes)
      requires Valid() && nextSeq + |es| < TWO_64
      requires forall e | e in es :: |e.key| < TWO_64 && |e.value| < TWO_64
      modifies this`nextSeq
      ensures Valid() && nextSeq == old(nextSeq) + |es|
      ensures payload == Payload(Batch(Allocated(es, old(nextSeq))))
    {
      hide BlobBytes, ItemsBytes, Allocated;
      payload := V.EncodeUint64([], |es|);
      ghost var head := payload;
      ItemsNone(old(nextSeq));
      for i := 0 to |es|
        invariant nextSeq == old(nextSeq) + i
        invariant payload == head + ItemsBytes(Allocated(es[..i], old(nextSeq)))
      {
        var e := es[i];
        nextSeq := nextSeq + 1;
        assert es[..i + 1][..i] == es[..i];
        ItemsSnoc(head, es[..i + 1], old(nextSeq), payload);
        payload := V.EncodeUint64(payload, nextSeq);
        payload := payload + [if e.deleted then TYPE_DELETE else TYPE_PUT];
        payload := EncodeBlob(payload, e.key);
        payload := EncodeBlob(payload, e.value);
      }
      assert es[..|es|] == es;
    }

    /** Gives the records of the log in order. */
    method Replay() returns (r: Option<seq<Record>>)
      requires Valid()
      ensures r == if closed then None else ReplayAll(crc, file)
    {
      if closed {
        return None;
      }
      hide DecodeFrame, FirstFrame, FromLE, ReplayAll, Joined;
      var off: nat, out := 0, [];
      assert file[0..] == file;
      JoinedStep([], [], ReplayAll(crc, file));
      while off + HEADER_SIZE <= size
        invariant off <= size
        invariant ReplayAll(crc, file) == Joined(out, ReplayAll(crc, file[off..]))
      {
        ReplayStep(crc, file[off..], out);
        var f, frameEnd := FrameAt(crc, file, off);
        if f.None? {
          return Some(out);
        }
        var recs := DecodeFrame(f.value.typ, f.value.payload);
        if recs.None? {
          return None;
        }
        out := out + recs.value;
        off := frameEnd;
      }
      ShortTail(crc, file[off..], 0);
      JoinedStep(out, [], Some([]));
      return Some(out);
    }

    method Reset()
      requires Valid() && !closed
      modifies this
      ensures Valid() && file == [] && appends == 0 && nextSeq == old(nextSeq) && closed == old(closed)
    {
      file, size, appends, durable := [], 0, 0, 0;
    }

    method Sync() returns (ok: bool)
      requires Valid()
      modifies this`durable
      ensures Valid() && ok == !closed && durable == if closed then old(durable) else |file|
    {
      if closed {
        return false;
      }
      durable := |file|;
      return true;
    }

    /** Syncs and closes. */
    method Close()
      requires Valid()
      modifies this`durable, this`closed
      ensures Valid() && closed && durable == if old(closed) then old(durable) else |file|
    {
      if closed {
        return;
      }
      closed := true;
      durable := |file|;
    }

    /** Only ever raises the counter. */
    method SetNextSeq(seqno: nat)
      requires Valid() && seqno < TWO_64
      modifies this`nextSeq
      ensures Valid() && nextSeq == if seqno > old(nextSeq) then seqno else old(nextSeq)
    {
      if seqno > nextSeq {
        nextSeq := seqno;
      }
    }
  }

  lemma {:induction false} ItemsNone(next: nat)
    ensures ItemsBytes(Allocated([], next)) == []
  {
  }

  lemma {:induction false} ItemsSnoc(head: Bytes, es: seq<BatchEntry>, next: nat, payload: Bytes)
    requires es != [] && payload == head + ItemsBytes(Allocated(es[..|es| - 1], next))
    ensures var e := es[|es| - 1];
      payload + V.Encode(next + |es|) + [if e.deleted then TYPE_DELETE else TYPE_PUT] + BlobBytes(e.key)
        + BlobBytes(e.value)
      == head + ItemsBytes(Allocated(es, next))
  {
    hide BlobBytes, V.Encode;
    var a, e := Allocated(es[..|es| - 1], next), es[|es| - 1];
    var x := Entry(e.key, e.value, next + |es|, e.deleted);
    assert Allocated(es, next) == a + [x] && (a + [x])[..|a|] == a;
    Reassociate(head, ItemsBytes(a), V.Encode(x.seqno), [KindOf(x)], BlobBytes(e.key), BlobBytes(e.value));
  }

  lemma {:induction false} Reassociate(h: Bytes, i: Bytes, n: Bytes, t: Bytes, k: Bytes, v: Bytes)
    ensures h + i + n + t + k + v == h + (i + (n + (t + (k + v))))
  {
  }
}
