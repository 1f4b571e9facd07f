/** internal/sstable: the file format and its writer. */
module Sstables {
  import opened Bytes
  import opened Entries
  import opened Blocks
  import V = Varint
  import F = Bloom

  const MAGIC: nat := 0x53535442
  const FOOTER: nat := 56

  datatype IndexRec = IndexRec(lastKey: Bytes, offset: nat, length: nat)

  /** What Open learns from a file. */
  datatype Table = Table(index: seq<IndexRec>, filter: F.State, maxSeq: nat, entries: nat)

  datatype Error = Corrupt | BadMagic | BadFilter | ReadFailed
  datatype Result<+T> = Ok(value: T) | Err(error: Error)

  // ---------- The file ----------

  function LastKey(b: seq<Entry>): Bytes {
    if b == [] then [] else b[|b| - 1].key
  }

  function Concat(bs: seq<seq<Entry>>): seq<Entry> {
    if bs == [] then [] else Concat(bs[..|bs| - 1]) + bs[|bs| - 1]
  }

  function BlockBytes(crc: Crc, R: nat, b: seq<Entry>): Bytes
    requires R > 0
  {
    Seal(crc, Body(b, R))
  }

  function BlocksBytes(crc: Crc, R: nat, bs: seq<seq<Entry>>): Bytes
    requires R > 0
  {
    if bs == [] then [] else BlocksBytes(crc, R, bs[..|bs| - 1]) + BlockBytes(crc, R, bs[|bs| - 1])
  }

  /** Last key, offset and length of each block. */
  function IndexOf(crc: Crc, R: nat, bs: seq<seq<Entry>>): (r: seq<IndexRec>)
    requires R > 0
    ensures |r| == |bs|
  {
    if bs == [] then []
    else
      var n := |bs| - 1;
      IndexOf(crc, R, bs[..n])
        + [IndexRec(LastKey(bs[n]), |BlocksBytes(crc, R, bs[..n])|, |BlockBytes(crc, R, bs[n])|)]
  }

  function RecBytes(r: IndexRec): Bytes {
    V.Encode(|r.lastKey|) + (r.lastKey + (V.Encode(r.offset) + V.Encode(r.length)))
  }

  function RecsBytes(rs: seq<IndexRec>): Bytes {
    if rs == [] then [] else RecBytes(rs[0]) + RecsBytes(rs[1..])
  }

  function IndexBytes(crc: Crc, rs: seq<IndexRec>): Bytes {
    Seal(crc, V.Encode(|rs|) + RecsBytes(rs))
  }

  function Footer(indexOff: nat, indexLen: nat, bloomOff: nat, bloomLen: nat, maxSeq: nat, entries: nat): (b: Bytes)
    ensures |b| == FOOTER
  {
    LE(MAGIC, 4) + (LE(indexOff, 8) + (LE(indexLen, 8) + (LE(bloomOff, 8) + (LE(bloomLen, 8)
      + (LE(maxSeq, 8) + (LE(entries, 8) + LE(MAGIC, 4)))))))
  }

  /** Blocks, filter, index and footer. */
  function FileBytes(crc: Crc, R: nat, bs: seq<seq<Entry>>, filter: F.State): Bytes
    requires R > 0
  {
    var data, bloom, index := BlocksBytes(crc, R, bs), F.Marshal(filter), IndexBytes(crc, IndexOf(crc, R, bs));
    data + (bloom + (index
      + Footer(|data| + |bloom|, |index|, |data|, |bloom|, MaxSeqOf(Concat(bs)), |Concat(bs)|)))
  }

  // ---------- Reading ----------

  function ReadRange(file: Bytes, off: nat, n: nat): Option<Bytes> {
    if n == 0 then Some([]) else if off + n > |file| then None else Some(file[off..off + n])
  }

  function ReadRec(b: Bytes): (r: Option<(IndexRec, Bytes)>)
    ensures r.Some? ==> |r.value.1| < |b|
  {
    var k := V.Num(b);
    if k.None? || k.value.0 > |k.value.1| then None
    else
      var off := V.Num(k.value.1[k.value.0..]);
      if off.None? then None
      else
        var len := V.Num(off.value.1);
        if len.None? then None
        else Some((IndexRec(k.value.1[..k.value.0], off.value.0, len.value.0), len.value.1))
  }

  function ReadRecs(b: Bytes, n: nat): Option<seq<IndexRec>>
    decreases n
  {
    if n == 0 then Some([])
    else
      var r := ReadRec(b);
      if r.None? then None
      else
        var rest := ReadRecs(r.value.1, n - 1);
        if rest.None? then None else Some([r.value.0] + rest.value)
  }

  function ReadIndex(crc: Crc, raw: Bytes): Option<seq<IndexRec>> {
    var body := Unseal(crc, raw, 4);
    if body.None? then None
    else
      var n := V.Num(body.value);
      if n.None? then None else ReadRecs(n.value.1, n.value.0)
  }

  function OpenFile(crc: Crc, file: Bytes): Result<Table> {
    if |file| < FOOTER then Err(Corrupt)
    else
      var f := file[|file| - FOOTER..];
      if FromLE(f[0..4]) != MAGIC || FromLE(f[52..56]) != MAGIC then Err(BadMagic)
      else
        var bloom := ReadRange(file, FromLE(f[20..28]), FromLE(f[28..36]));
        if bloom.None? then Err(ReadFailed)
        else
          var filter := F.Unmarshal(bloom.value);
          if filter.None? then Err(BadFilter)
          else
            var raw := ReadRange(file, FromLE(f[4..12]), FromLE(f[12..20]));
            if raw.None? then Err(ReadFailed)
            else
              var index := ReadIndex(crc, raw.value);
              if index.None? then Err(Corrupt)
              else Ok(Table(index.value, filter.value, FromLE(f[36..44]), FromLE(f[44..52])))
  }

  /** readBlock. */
  function ReadBlock(crc: Crc, file: Bytes, rec: IndexRec): Result<Bytes> {
    var raw := ReadRange(file, rec.offset, rec.length);
    if raw.None? then Err(ReadFailed)
    else
      var body := Unseal(crc, raw.value, 8);
      if body.None? then Err(Corrupt) else Ok(body.value)
  }

  // ---------- Round trips ----------

  ghost predicate RecFits(r: IndexRec) {
    |r.lastKey| < TWO_64 && r.offset < TWO_64 && r.length < TWO_64
  }

  lemma {:induction false} RecOf(r: IndexRec, rest: Bytes)
    requires RecFits(r)
    ensures ReadRec(RecBytes(r) + rest) == Some((r, rest))
  {
    hide V.Num, V.Encode;
    var len := V.Encode(r.length) + rest;
    var off := V.Encode(r.offset) + len;
    assert RecBytes(r) + rest == V.Encode(|r.lastKey|) + (r.lastKey + off);
    V.NumOf(|r.lastKey|, r.lastKey + off);
    V.NumOf(r.offset, len);
    V.NumOf(r.length, rest);
  }

  lemma {:induction false} RecsOf(rs: seq<IndexRec>)
    requires forall r | r in rs :: RecFits(r)
    ensures ReadRecs(RecsBytes(rs), |rs|) == Some(rs)
    decreases |rs|
  {
    hide ReadRec, RecBytes;
    if rs != [] {
      RecOf(rs[0], RecsBytes(rs[1..]));
      RecsOf(rs[1..]);
      assert |rs[1..]| == |rs| - 1 && rs == [rs[0]] + rs[1..];
    }
  }

  lemma {:induction false} IndexRoundTrip(crc: Crc, rs: seq<IndexRec>)
    requires |rs| < TWO_64 && forall r | r in rs :: RecFits(r)
    ensures ReadIndex(crc, IndexBytes(crc, rs)) == Some(rs)
  {
    hide ReadRecs, RecsBytes, Unseal, Seal, V.Num, V.Encode;
    SealOpens(crc, V.Encode(|rs|) + RecsBytes(rs), 4);
    V.NumOf(|rs|, RecsBytes(rs));
    RecsOf(rs);
  }

  lemma {:induction false} FooterFields(a: nat, b: nat, c: nat, d: nat, e: nat, g: nat)
    requires a < TWO_64 && b < TWO_64 && c < TWO_64 && d < TWO_64 && e < TWO_64 && g < TWO_64
    ensures var f := Footer(a, b, c, d, e, g);
      && FromLE(f[0..4]) == MAGIC && FromLE(f[52..56]) == MAGIC
      && FromLE(f[4..12]) == a && FromLE(f[12..20]) == b && FromLE(f[20..28]) == c && FromLE(f[28..36]) == d
      && FromLE(f[36..44]) == e && FromLE(f[44..52]) == g
  {
    Widths();
    LERoundTrip(MAGIC, 4);
    LERoundTrip(a, 8);
    LERoundTrip(b, 8);
    LERoundTrip(c, 8);
    LERoundTrip(d, 8);
    LERoundTrip(e, 8);
    LERoundTrip(g, 8);
    hide LE, FromLE;
    FooterSlices(LE(MAGIC, 4), LE(a, 8), LE(b, 8), LE(c, 8), LE(d, 8), LE(e, 8), LE(g, 8));
  }

  lemma {:induction false} FooterSlices(m: Bytes, a: Bytes, b: Bytes, c: Bytes, d: Bytes, e: Bytes, g: Bytes)
    requires |m| == 4 && |a| == |b| == |c| == |d| == |e| == |g| == 8
    ensures var f := m + (a + (b + (c + (d + (e + (g + m))))));
      && f[0..4] == m && f[4..12] == a && f[12..20] == b && f[20..28] == c
      && f[28..36] == d && f[36..44] == e && f[44..52] == g && f[52..56] == m
  {
  }

  /** Each index record leads to its block. */
  lemma {:induction false} BlockAt(crc: Crc, R: nat, bs: seq<seq<Entry>>, i: nat)
    requires R > 0 && i < |bs|
    ensures var r, file := IndexOf(crc, R, bs)[i], BlocksBytes(crc, R, bs);
      && r.lastKey == LastKey(bs[i])
      && r.length == |BlockBytes(crc, R, bs[i])|
      && r.offset + r.length <= |file|
      && file[r.offset..r.offset + r.length] == BlockBytes(crc, R, bs[i])
  {
    hide BlockBytes;
    var n := |bs| - 1;
    if i < n {
      BlockAt(crc, R, bs[..n], i);
      var r := IndexOf(crc, R, bs)[i];
      assert r == IndexOf(crc, R, bs[..n])[i];
      var p := BlocksBytes(crc, R, bs[..n]);
      assert BlocksBytes(crc, R, bs)[r.offset..r.offset + r.length] == p[r.offset..r.offset + r.length];
    }
  }

  lemma {:induction false} ReadBlockOf(crc: Crc, R: nat, bs: seq<seq<Entry>>, i: nat, rest: Bytes)
    requires R > 0 && i < |bs|
    ensures ReadBlock(crc, BlocksBytes(crc, R, bs) + rest, IndexOf(crc, R, bs)[i]) == Ok(Body(bs[i], R))
  {
    hide IndexOf, BlocksBytes, Data, Restarts, Unseal;
    BlockAt(crc, R, bs, i);
    var r, file := IndexOf(crc, R, bs)[i], BlocksBytes(crc, R, bs);
    assert (file + rest)[r.offset..r.offset + r.length] == file[r.offset..r.offset + r.length];
    SealOpens(crc, Body(bs[i], R), 8);
  }

  /** The sizes a file can record. */
  ghost predicate Sized(crc: Crc, R: nat, bs: seq<seq<Entry>>, filter: F.State) {
    && R > 0
    && (forall b | b in bs :: b != [] && Fits(b, R))
    && F.WellFormed(filter) && filter.nAdded < TWO_64
    && |FileBytes(crc, R, bs, filter)| < TWO_64
  }

  lemma {:induction false} ConcatLength(crc: Crc, R: nat, bs: seq<seq<Entry>>)
    requires R > 0
    ensures |Concat(bs)| <= |BlocksBytes(crc, R, bs)| && |bs| <= |BlocksBytes(crc, R, bs)|
  {
    hide Data, Restarts;
    if bs != [] {
      ConcatLength(crc, R, bs[..|bs| - 1]);
      DataLength(bs[|bs| - 1], R);
    }
  }

  lemma {:induction false} ConcatMember(bs: seq<seq<Entry>>, e: Entry)
    ensures e in Concat(bs) <==> exists i | 0 <= i < |bs| :: e in bs[i]
  {
    if bs != [] {
      var n := |bs| - 1;
      ConcatMember(bs[..n], e);
      if e in Concat(bs[..n]) {
        var i :| 0 <= i < n && e in bs[..n][i];
        assert e in bs[i];
      }
      if i :| 0 <= i < |bs| && e in bs[i] {
        if i < n {
          assert e in bs[..n][i];
        }
      }
    }
  }

  lemma {:induction false} IndexFits(crc: Crc, R: nat, bs: seq<seq<Entry>>)
    requires R > 0 && (forall b | b in bs :: b != [] && Fits(b, R)) && |BlocksBytes(crc, R, bs)| < TWO_64
    ensures forall r | r in IndexOf(crc, R, bs) :: RecFits(r)
    ensures MaxSeqOf(Concat(bs)) < TWO_64
  {
    hide IndexOf, BlocksBytes, BlockBytes, Data, Concat, MaxSeqOf;
    forall r | r in IndexOf(crc, R, bs) ensures RecFits(r) {
      var i :| 0 <= i < |bs| && IndexOf(crc, R, bs)[i] == r;
      BlockAt(crc, R, bs, i);
      assert bs[i] in bs;
      assert bs[i][|bs[i]| - 1] in bs[i];
    }
    if e :| e in Concat(bs) && e.seqno == MaxSeqOf(Concat(bs)) {
      ConcatMember(bs, e);
      var i :| 0 <= i < |bs| && e in bs[i];
      assert bs[i] in bs;
    }
  }

  lemma {:induction false} SizedMeans(crc: Crc, R: nat, bs: seq<seq<Entry>>, filter: F.State)
    requires Sized(crc, R, bs, filter)
    ensures |bs| < TWO_64 && forall r | r in IndexOf(crc, R, bs) :: RecFits(r)
  {
    hide BlocksBytes, IndexOf, IndexBytes, F.Marshal;
    ConcatLength(crc, R, bs);
    IndexFits(crc, R, bs);
  }

  lemma {:induction false} FileParts(data: Bytes, bloom: Bytes, index: Bytes, footer: Bytes)
    requires |footer| == FOOTER
    ensures var file := data + (bloom + (index + footer));
      && |file| >= FOOTER && file[|file| - FOOTER..] == footer
      && ReadRange(file, |data|, |bloom|) == Some(bloom)
      && ReadRange(file, |data| + |bloom|, |index|) == Some(index)
  {
    var file := data + (bloom + (index + footer));
    assert file[|data|..|data| + |bloom|] == bloom;
    assert file[|data| + |bloom|..|data| + |bloom| + |index|] == index;
  }

  /** Opening a written file gives back its index, filter and counts. */
  lemma {:induction false} FileOpens(crc: Crc, R: nat, bs: seq<seq<Entry>>, filter: F.State)
    requires Sized(crc, R, bs, filter)
    ensures OpenFile(crc, FileBytes(crc, R, bs, filter))
      == Ok(Table(IndexOf(crc, R, bs), filter, MaxSeqOf(Concat(bs)), |Concat(bs)|))
  {
    hide IndexOf, BlocksBytes, Concat, MaxSeqOf, Footer, ReadRange, ReadIndex, IndexBytes, F.Marshal, F.Unmarshal,
      FromLE;
    var data, bloom, index := BlocksBytes(crc, R, bs), F.Marshal(filter), IndexBytes(crc, IndexOf(crc, R, bs));
    ConcatLength(crc, R, bs);
    IndexFits(crc, R, bs);
    IndexRoundTrip(crc, IndexOf(crc, R, bs));
    F.MarshalRoundTrip(filter);
    FooterFields(|data| + |bloom|, |index|, |data|, |bloom|, MaxSeqOf(Concat(bs)), |Concat(bs)|);
    FileParts(data, bloom, index,
              Footer(|data| + |bloom|, |index|, |data|, |bloom|, MaxSeqOf(Concat(bs)), |Concat(bs)|));
  }

  // ---------- Cutting entries into blocks ----------

  datatype Cut = Cut(done: seq<seq<Entry>>, cur: seq<Entry>)

  /** A block ends when its entries have reached B bytes. */
  function CutUp(es: seq<Entry>, B: nat, R: nat): Cut
    requires R > 0
  {
    if es == [] then Cut([], [])
    else
      var c := CutUp(es[..|es| - 1], B, R);
      var cur := c.cur + [es[|es| - 1]];
      if |Data(cur, R)| >= B then Cut(c.done + [cur], []) else Cut(c.done, cur)
  }

  function CloseLast(c: Cut): seq<seq<Entry>> {
    if c.cur == [] then c.done else c.done + [c.cur]
  }

  /** The blocks of a file. */
  function BlocksOf(es: seq<Entry>, B: nat, R: nat): seq<seq<Entry>>
    requires R > 0
  {
    CloseLast(CutUp(es, B, R))
  }

  lemma {:induction false} CutUpKeeps(es: seq<Entry>, B: nat, R: nat)
    requires R > 0
    ensures Concat(CutUp(es, B, R).done) + CutUp(es, B, R).cur == es
    ensures forall b | b in CutUp(es, B, R).done :: b != []
  {
    hide Data, Concat;
    ConcatAppend([], []);
    if es != [] {
      var n := |es| - 1;
      CutUpKeeps(es[..n], B, R);
      var c := CutUp(es[..n], B, R);
      var cur := c.cur + [es[n]];
      ConcatAppend(c.done, cur);
      Regroup(Concat(c.done), c.cur, es, n);
    }
  }

  lemma {:induction false} ConcatAppend(bs: seq<seq<Entry>>, b: seq<Entry>)
    ensures Concat(bs + [b]) == Concat(bs) + b
    ensures Concat([]) == []
  {
    assert (bs + [b])[..|bs|] == bs;
  }

  lemma {:induction false} Regroup(a: seq<Entry>, b: seq<Entry>, es: seq<Entry>, n: nat)
    requires n + 1 == |es| && a + b == es[..n]
    ensures a + (b + [es[n]]) == es && (a + (b + [es[n]])) + [] == es
  {
    assert a + (b + [es[n]]) == (a + b) + [es[n]];
  }

  /** Whatever the block size, the blocks hold the entries in order and none is empty. */
  lemma {:induction false} BlocksHold(es: seq<Entry>, B: nat, R: nat)
    requires R > 0
    ensures Concat(BlocksOf(es, B, R)) == es
    ensures forall b | b in BlocksOf(es, B, R) :: b != []
  {
    CutUpKeeps(es, B, R);
    var c := CutUp(es, B, R);
    assert (c.done + [c.cur])[..|c.done|] == c.done;
  }

  /** A block is closed by the entry that makes it B bytes long, and by none before; the last one may be shorter. */
  lemma {:induction false} CutUpExact(es: seq<Entry>, B: nat, R: nat)
    requires R > 0
    ensures forall b | b in CutUp(es, B, R).done :: IsFull(b, B, R)
    ensures var cur := CutUp(es, B, R).cur; cur != [] ==> |Data(cur, R)| < B
  {
    hide Data;
    if es != [] {
      CutUpExact(es[..|es| - 1], B, R);
      var cur := CutUp(es[..|es| - 1], B, R).cur;
      assert (cur + [es[|es| - 1]])[..|cur|] == cur;
    }
  }

  /** The block has reached B bytes with its last entry. */
  ghost predicate IsFull(b: seq<Entry>, B: nat, R: nat)
    requires R > 0
  {
    b != [] && |Data(b, R)| >= B && (|b| > 1 ==> |Data(b[..|b| - 1], R)| < B)
  }

  /** So of the blocks of a file all but the last are full, and the last is full or short of B bytes. */
  lemma {:induction false} BlocksFull(es: seq<Entry>, B: nat, R: nat, i: nat)
    requires R > 0 && i < |BlocksOf(es, B, R)|
    ensures var b := BlocksOf(es, B, R)[i];
      IsFull(b, B, R) || (i == |BlocksOf(es, B, R)| - 1 && b != [] && |Data(b, R)| < B)
  {
    hide Data;
    CutUpExact(es, B, R);
  }

  // ---------- The writer ----------

  datatype Added = Done | Closed | NilKey | OutOfOrder

  class Writer {
    const crc: Crc
    const blockSize: nat
    const restartInt: nat
    var file: Bytes
    var buf: Bytes
    var restarts: seq<uint32>
    var entryCount: nat
    var blockEntries: nat
    var lastKey: Option<Bytes>
    var index: seq<IndexRec>
    var bloomKeys: seq<Bytes>
    var minKey: Option<Bytes>
    var maxKey: Option<Bytes>
    var maxSeq: nat
    var closed: bool

    /** es is what has been added. */
    ghost predicate Holds(es: seq<Entry>)
      reads this
    {
      && restartInt > 0
      && HoldsBlocks(CutUp(es, blockSize, restartInt))
      && HoldsTotals(es)
      && lastKey == (if es == [] then None else Some(es[|es| - 1].key))
    }

    ghost predicate HoldsTotals(es: seq<Entry>)
      reads this`entryCount, this`maxSeq, this`bloomKeys, this`minKey, this`maxKey
    {
      && entryCount == |es| && maxSeq == MaxSeqOf(es)
      && bloomKeys == KeysOf(es)
      && maxKey == (if es == [] then None else Some(es[|es| - 1].key))
      && minKey == (if es == [] then None else Some(es[0].key))
    }

    ghost predicate HoldsBlocks(c: Cut)
      requires restartInt > 0
      reads this`file, this`index, this`buf, this`restarts, this`blockEntries
    {
      && file == BlocksBytes(crc, restartInt, c.done)
      && index == IndexOf(crc, restartInt, c.done)
      && buf == Data(c.cur, restartInt)
      && restarts == Restarts(c.cur, restartInt)
      && blockEntries == |c.cur|
    }

    /** Create; sizes that are not positive are replaced by the defaults. */
    constructor (crc: Crc, blockSize: int, restartInt: int)
      ensures !closed && Holds([]) && this.crc == crc
      ensures this.blockSize == (if blockSize > 0 then blockSize else 4096)
      ensures this.restartInt == (if restartInt > 0 then restartInt else 16)
    {
      this.crc := crc;
      this.blockSize := if blockSize > 0 then blockSize else 4096;
      this.restartInt := if restartInt > 0 then restartInt else 16;
      file, buf, restarts, entryCount, blockEntries := [], [], [], 0, 0;
      lastKey, index, bloomKeys, minKey, maxKey, maxSeq, closed := None, [], [], None, None, 0, false;
    }

    /** What Add answers to an entry offered after es. */
    ghost function Verdict(es: seq<Entry>, key: Option<Bytes>): Added
      reads this
    {
      if closed then Closed
      else if key.None? then NilKey
      else if es != [] && Less(key.value, es[|es| - 1].key) then OutOfOrder
      else Done
    }

    method Add(key: Option<Bytes>, value: Bytes, seqno: nat, deleted: bool, ghost es: seq<Entry>) returns (r: Added)
      requires closed || Holds(es)
      requires key.Some? ==> EntryFits(Entry(key.value, value, seqno, deleted))
      modifies this
      ensures r == old(Verdict(es, key)) && closed == old(closed)
      ensures r.Done? ==> Holds(es + [Entry(key.value, value, seqno, deleted)])
      ensures !r.Done? ==> file == old(file) && (closed || Holds(es))
    {
      hide CutUp, Data, Restarts, BlocksBytes, IndexOf, MaxSeqOf, KeysOf, HoldsBlocks, HoldsTotals, EntryFits;
      if closed {
        return Closed;
      }
      if key.None? {
        return NilKey;
      }
      if lastKey.Some? && Compare(key.value, lastKey.value) < 0 {
        return OutOfOrder;
      }
      ghost var e, c := Entry(key.value, value, seqno, deleted), CutUp(es, blockSize, restartInt);
      Count(key.value, seqno, es, e);
      CutUpLast(es, blockSize, restartInt);
      CutUpSnoc(es, e, blockSize, restartInt);
      AddToBlock(key.value, value, seqno, deleted, c);
      if |buf| >= blockSize {
        FlushBlock(Cut(c.done, c.cur + [e]));
      }
      return Done;
    }

    /** The totals after one more entry. */
    method Count(key: Bytes, seqno: nat, ghost es: seq<Entry>, ghost e: Entry)
      requires HoldsTotals(es) && e.key == key && e.seqno == seqno
      modifies this`entryCount, this`maxSeq, this`bloomKeys, this`minKey, this`maxKey
      ensures HoldsTotals(es + [e])
    {
      hide MaxSeqOf, KeysOf;
      if minKey.None? {
        minKey := Some(key);
      }
      maxKey := Some(key);
      if seqno > maxSeq {
        maxSeq := seqno;
      }
      bloomKeys := bloomKeys + [key];
      entryCount := entryCount + 1;
      TotalsSnoc(es, e);
      assert (es + [e])[|es|] == e && (es != [] ==> (es + [e])[0] == es[0]);
    }

    /** Encodes one more entry into the current block. */
    method AddToBlock(key: Bytes, value: Bytes, seqno: nat, deleted: bool, ghost c: Cut)
      requires restartInt > 0 && HoldsBlocks(c) && EntryFits(Entry(key, value, seqno, deleted))
      requires c.cur != [] ==> lastKey == Some(c.cur[|c.cur| - 1].key)
      modifies this`buf, this`restarts, this`lastKey, this`blockEntries
      ensures HoldsBlocks(Cut(c.done, c.cur + [Entry(key, value, seqno, deleted)])) && lastKey == Some(key)
      ensures buf == Data(c.cur + [Entry(key, value, seqno, deleted)], restartInt)
    {
      hide BlocksBytes, IndexOf, EntryBytes, Data, Restarts;
      ghost var e := Entry(key, value, seqno, deleted);
      DataSnoc(c.cur, e, restartInt);
      var shared := 0;
      if blockEntries % restartInt != 0 && lastKey.Some? {
        shared := SharedPrefixLen(lastKey.value, key);
      } else {
        restarts := restarts + [|buf| % TWO_32];
      }
      assert shared == SharedAt(c.cur + [e], restartInt, |c.cur|);
      var enc := EncodeEntry(shared, key, value, seqno, deleted);
      buf := buf + enc;
      lastKey := Some(key);
      blockEntries := blockEntries + 1;
    }

    method EncodeBlock(ghost cur: seq<Entry>) returns (block: Bytes)
      requires restartInt > 0 && buf == Data(cur, restartInt) && restarts == Restarts(cur, restartInt)
      ensures block == BlockBytes(crc, restartInt, cur)
    {
      hide Data, Restarts, LE;
      block := buf;
      for i := 0 to |restarts|
        invariant block + WordBytes(restarts[i..]) == buf + WordBytes(restarts)
      {
        block := block + LE(restarts[i], 4);
        assert restarts[i..][1..] == restarts[i + 1..];
      }
      assert restarts[|restarts|..] == [];
      block := block + LE(|restarts|, 4);
      assert block == (buf + WordBytes(restarts)) + LE(|restarts|, 4) == Body(cur, restartInt);
      block := block + LE(crc(block), 4);
    }

    /** Writes the current block, if it is not empty, and its index record. */
    method FlushBlock(ghost c: Cut)
      requires restartInt > 0 && HoldsBlocks(c)
      requires c.cur != [] ==> lastKey == Some(LastKey(c.cur))
      modifies this`file, this`index, this`buf, this`restarts, this`blockEntries
      ensures HoldsBlocks(Cut(CloseLast(c), []))
    {
      hide Data, Restarts, BlockBytes;
      DataLength(c.cur, restartInt);
      DataOfNone(restartInt);
      if |buf| == 0 {
        return;
      }
      var block := EncodeBlock(c.cur);
      assert (c.done + [c.cur])[..|c.done|] == c.done;
      index := index + [IndexRec(if lastKey.Some? then lastKey.value else [], |file|, |block|)];
      file := file + block;
      buf, restarts, blockEntries := [], [], 0;
    }

    /** Writes what is left, filter, index and footer. Filter size and hash count are any numbers here. */
    method Finish(hash: F.Hash, m: nat, k: nat, ghost es: seq<Entry>) returns (r: Option<Meta>)
      requires closed || Holds(es)
      requires m < TWO_64 && k < TWO_32
      requires !closed ==> Sized(crc, restartInt, BlocksOf(es, blockSize, restartInt), F.Built(hash, KeysOf(es), m, k))
      modifies this
      ensures closed && (r.None? <==> old(closed))
      ensures r.None? ==> file == old(file)
      ensures r.Some? ==>
        && file == FileBytes(crc, restartInt, BlocksOf(es, blockSize, restartInt), F.Built(hash, KeysOf(es), m, k))
        && r.value.maxSeq == MaxSeqOf(es) && r.value.entries == |es| && r.value.fileSize == |file|
        && r.value.minKey == (if es == [] then None else Some(es[0].key))
        && r.value.maxKey == (if es == [] then None else Some(es[|es| - 1].key))
    {
      hide CutUp, Data, Restarts, BlocksBytes, IndexOf, MaxSeqOf, KeysOf, F.Built, F.Marshal, Fits, Concat, Sized,
        Footer, IndexBytes;
      if closed {
        return None;
      }
      ghost var bs := BlocksOf(es, blockSize, restartInt);
      CutUpLast(es, blockSize, restartInt);
      BlocksHold(es, blockSize, restartInt);
      FlushBlock(CutUp(es, blockSize, restartInt));
      ghost var data := file;
      var bloomOff := |file|;
      var bf := F.Build(hash, bloomKeys, m, k);
      var bdata := F.Marshal(bf.Contents());
      file := file + bdata;
      var indexOff := |file|;
      SizedMeans(crc, restartInt, bs, F.Built(hash, KeysOf(es), m, k));
      var indexBuf := EncodeIndex(crc, index);
      file := file + indexBuf;
      file := file + Footer(indexOff, |indexBuf|, bloomOff, |bdata|, maxSeq, entryCount);
      closed := true;
      return Some(Meta(minKey, maxKey, maxSeq, entryCount, |file|));
    }
  }

  datatype Meta = Meta(minKey: Option<Bytes>, maxKey: Option<Bytes>, maxSeq: nat, entries: nat, fileSize: nat)

  lemma {:induction false} AscendingSnoc(es: seq<Entry>, i: nat)
    requires i < |es| && Ascending(es[..i])
    ensures Ascending(es[..i + 1]) <==> i == 0 || !Less(es[i].key, es[i - 1].key)
  {
    var p := es[..i + 1];
    if i > 0 && !Less(es[i].key, es[i - 1].key) {
      forall a, b | 0 <= a < b <= i ensures !Less(p[b].key, p[a].key) {
        assert b < i ==> !Less(es[..i][b].key, es[..i][a].key);
        if b == i && a < i - 1 {
          assert !Less(es[..i][i - 1].key, es[..i][a].key);
          LessMixed(es[i].key, es[a].key, es[i - 1].key);
          OrderIsTotal();
        }
      }
    }
    if i > 0 && Ascending(p) {
      assert !Less(p[i].key, p[i - 1].key);
    }
  }

  /** WriteFile: writes the entries if their keys ascend, else nothing. */
  method WriteFile(crc: Crc, hash: F.Hash, entries: seq<Entry>, blockSize: int, restartInt: int, m: nat, k: nat)
    returns (r: Option<(Bytes, Meta)>)
    requires forall e | e in entries :: EntryFits(e)
    requires m < TWO_64 && k < TWO_32
    requires var B, R := if blockSize > 0 then blockSize else 4096, if restartInt > 0 then restartInt else 16;
      Sized(crc, R, BlocksOf(entries, B, R), F.Built(hash, KeysOf(entries), m, k))
    ensures r.Some? <==> Ascending(entries)
    ensures var B, R := if blockSize > 0 then blockSize else 4096, if restartInt > 0 then restartInt else 16;
      r.Some? ==>
        && r.value.0 == FileBytes(crc, R, BlocksOf(entries, B, R), F.Built(hash, KeysOf(entries), m, k))
        && r.value.1.maxSeq == MaxSeqOf(entries) && r.value.1.entries == |entries|
        && r.value.1.fileSize == |r.value.0|
        && (entries != [] ==> r.value.1.minKey == Some(entries[0].key))
        && (entries != [] ==> r.value.1.maxKey == Some(entries[|entries| - 1].key))
  {
    hide Sized, FileBytes, BlocksOf, F.Built, KeysOf, Writer.Holds, MaxSeqOf, EntryFits;
    var w := new Writer(crc, blockSize, restartInt);
    for i := 0 to |entries|
      invariant fresh(w) && !w.closed && w.Holds(entries[..i]) && Ascending(entries[..i])
    {
      var e := entries[i];
      AscendingSnoc(entries, i);
      assert entries[..i] + [e] == entries[..i + 1];
      var a := w.Add(Some(e.key), e.value, e.seqno, e.deleted, entries[..i]);
      if !a.Done? {
        AscendingPrefix(entries, i + 1);
        return None;
      }
    }
    assert entries[..|entries|] == entries;
    var meta := w.Finish(hash, m, k, entries);
    return Some((w.file, meta.value));
  }

  lemma {:induction false} AscendingPrefix(es: seq<Entry>, n: nat)
    requires n <= |es| && !Ascending(es[..n])
    ensures !Ascending(es)
  {
    var i, j :| 0 <= i < j < n && Less(es[..n][j].key, es[..n][i].key);
    assert Less(es[j].key, es[i].key);
  }

  method EncodeEntry(shared: nat, key: Bytes, value: Bytes, seqno: nat, deleted: bool) returns (enc: Bytes)
    requires shared <= |key| && EntryFits(Entry(key, value, seqno, deleted))
    ensures enc == EntryBytes(shared, Entry(key, value, seqno, deleted))
  {
    hide V.Encode;
    enc := V.EncodeUint64([], shared);
    enc := V.EncodeUint64(enc, |key| - shared);
    enc := V.EncodeUint64(enc, |value|);
    enc := V.EncodeUint64(enc, seqno);
    enc := enc + [if deleted then 1 else 0];
    enc := enc + key[shared..];
    enc := enc + value;
  }

  method EncodeRec(dst: Bytes, rec: IndexRec) returns (b: Bytes)
    requires RecFits(rec)
    ensures b == dst + RecBytes(rec)
  {
    hide V.Encode;
    b := V.EncodeUint64(dst, |rec.lastKey|);
    b := b + rec.lastKey;
    b := V.EncodeUint64(b, rec.offset);
    b := V.EncodeUint64(b, rec.length);
  }

  method EncodeIndex(crc: Crc, index: seq<IndexRec>) returns (b: Bytes)
    requires |index| < TWO_64 && forall r | r in index :: RecFits(r)
    ensures b == IndexBytes(crc, index)
  {
    hide V.Encode, RecBytes, LE;
    b := V.EncodeUint64([], |index|);
    ghost var head := b;
    assert head == V.Encode(|index|);
    for i := 0 to |index|
      invariant b + RecsBytes(index[i..]) == head + RecsBytes(index)
    {
      var rec := index[i];
      assert rec in index;
      b := EncodeRec(b, rec);
      assert index[i..][1..] == index[i + 1..];
    }
    assert index[|index|..] == [] && b == head + RecsBytes(index);
    b := b + LE(crc(b), 4);
  }

  lemma {:induction false} DataSnoc(es: seq<Entry>, e: Entry, R: nat)
    requires R > 0
    ensures var n := |es|;
      && Data(es + [e], R) == Data(es, R) + EntryBytes(SharedAt(es + [e], R, n), e)
      && Restarts(es + [e], R) == Restarts(es, R) + if n % R == 0 then [|Data(es, R)| % TWO_32] else []
  {
    assert (es + [e])[..|es|] == es;
  }

  lemma {:induction false} DataOfNone(R: nat)
    requires R > 0
    ensures Data([], R) == [] && Restarts([], R) == []
  {
  }

  /** The entry added last ends the current block, if that is not empty. */
  lemma {:induction false} CutUpLast(es: seq<Entry>, B: nat, R: nat)
    requires R > 0
    ensures var cur := CutUp(es, B, R).cur; cur != [] ==> es != [] && cur[|cur| - 1] == es[|es| - 1]
  {
  }

  lemma {:induction false} CutUpSnoc(es: seq<Entry>, e: Entry, B: nat, R: nat)
    requires R > 0
    ensures var c := CutUp(es, B, R);
      CutUp(es + [e], B, R) ==
        if |Data(c.cur + [e], R)| >= B then Cut(c.done + [c.cur + [e]], []) else Cut(c.done, c.cur + [e])
  {
    assert (es + [e])[..|es|] == es;
  }

  lemma {:induction false} TotalsSnoc(es: seq<Entry>, e: Entry)
    ensures MaxSeqOf(es + [e]) == (if e.seqno > MaxSeqOf(es) then e.seqno else MaxSeqOf(es))
    ensures KeysOf(es + [e]) == KeysOf(es) + [e.key]
  {
    assert (es + [e])[..|es|] == es;
  }

  function KeysOf(es: seq<Entry>): (ks: seq<Bytes>)
    ensures |ks| == |es| && forall i | 0 <= i < |es| :: ks[i] == es[i].key
  {
    if es == [] then [] else KeysOf(es[..|es| - 1]) + [es[|es| - 1].key]
  }
}
