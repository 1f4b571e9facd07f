/** internal/sstable: the reader, its point lookup and its iterator. */
module Readers {
  import opened Bytes
  import opened Entries
  import opened Blocks
  import opened Sstables
  import V = Varint
  import F = Bloom

  // ---------- Where a key is ----------

  /** Index of the first block whose last key is not before t. */
  ghost function BlockOf(bs: seq<seq<Entry>>, t: Bytes): (i: nat)
    ensures i <= |bs|
    ensures forall j | 0 <= j < i :: Less(LastKey(bs[j]), t)
    ensures i < |bs| ==> !Less(LastKey(bs[i]), t)
  {
    if bs == [] || !Less(LastKey(bs[0]), t) then 0 else 1 + BlockOf(bs[1..], t)
  }

  ghost predicate NonEmpty(bs: seq<seq<Entry>>) {
    forall b | b in bs :: b != []
  }

  lemma {:induction false} ConcatSplits(bs: seq<seq<Entry>>, i: nat)
    requires i < |bs|
    ensures Concat(bs) == Concat(bs[..i]) + bs[i] + Concat(bs[i + 1..])
  {
    var n := |bs| - 1;
    if i < n {
      ConcatSplits(bs[..n], i);
      assert bs[..n][..i] == bs[..i] && bs[..n][i + 1..] == bs[i + 1..][..n - i - 1];
      assert bs[i + 1..][|bs[i + 1..]| - 1] == bs[n];
    } else {
      assert bs[i + 1..] == [];
    }
  }

  lemma {:induction false} ConcatSnoc(bs: seq<seq<Entry>>, i: nat)
    requires i < |bs|
    ensures Concat(bs[..i + 1]) == Concat(bs[..i]) + bs[i]
    ensures Concat(bs[..|bs|]) == Concat(bs)
  {
    assert bs[..i + 1][..i] == bs[..i] && bs[..|bs|] == bs;
  }

  /** Every block of a sorted table is sorted. */
  lemma {:induction false} BlockSorted(bs: seq<seq<Entry>>, i: nat)
    requires i < |bs| && Sorted(Concat(bs))
    ensures Sorted(bs[i])
  {
    hide Concat;
    var a, c := Concat(bs[..i]), Concat(bs);
    ConcatSplits(bs, i);
    forall j, k | 0 <= j < k < |bs[i]| ensures Less(bs[i][j].key, bs[i][k].key) {
      assert c[|a| + j] == bs[i][j] && c[|a| + k] == bs[i][k];
    }
  }

  /** All keys of the blocks before i are before t when their last keys are. */
  lemma {:induction false} KeysBefore(bs: seq<seq<Entry>>, i: nat, t: Bytes)
    requires i <= |bs| && NonEmpty(bs) && Sorted(Concat(bs))
    requires forall j | 0 <= j < i :: Less(LastKey(bs[j]), t)
    ensures |Concat(bs[..i])| <= |Concat(bs)|
    ensures forall p | 0 <= p < |Concat(bs[..i])| :: Less(Concat(bs)[p].key, t)
  {
    if i > 0 {
      var b := bs[i - 1];
      assert b in bs;
      ConcatSplits(bs, i - 1);
      ConcatSnoc(bs, i - 1);
      var all, before := Concat(bs), Concat(bs[..i]);
      assert all[..|before|] == before && all[|before| - 1] == b[|b| - 1];
      forall p | 0 <= p < |before| ensures Less(all[p].key, t) {
        if p < |before| - 1 {
          LessIsTransitive(all[p].key, all[|before| - 1].key, t);
        }
      }
    }
  }

  /** Searching the block the index names is searching the whole table. */
  lemma {:induction false} SearchInBlock(bs: seq<seq<Entry>>, t: Bytes)
    requires NonEmpty(bs) && Sorted(Concat(bs))
    ensures var i, p := BlockOf(bs, t), LowerBound(Concat(bs), t);
      if i == |bs| then p == |Concat(bs)|
      else p == |Concat(bs[..i])| + LowerBound(bs[i], t) && LowerBound(bs[i], t) < |bs[i]|
  {
    hide Concat, BlockOf, LowerBound;
    var i, all := BlockOf(bs, t), Concat(bs);
    KeysBefore(bs, i, t);
    if i == |bs| {
      assert bs[..i] == bs;
      LowerBoundSplits(all, t, |all|);
    } else {
      var b, a := bs[i], |Concat(bs[..i])|;
      assert b in bs;
      ConcatSplits(bs, i);
      BlockSorted(bs, i);
      var q := LowerBound(b, t);
      LowerBoundSplits(b, t, q);
      assert all[a + q] == b[q];
      assert q > 0 ==> all[a + q - 1] == b[q - 1];
      LowerBoundSplits(all, t, a + q);
    }
  }

  lemma {:induction false} LookupInBlock(bs: seq<seq<Entry>>, t: Bytes)
    requires NonEmpty(bs) && Sorted(Concat(bs))
    ensures var i := BlockOf(bs, t);
      Lookup(Concat(bs), t) == if i == |bs| then None else Lookup(bs[i], t)
  {
    hide Concat, BlockOf, LowerBound;
    SearchInBlock(bs, t);
    var i := BlockOf(bs, t);
    if i < |bs| {
      ConcatSplits(bs, i);
    }
  }

  // ---------- The reader ----------

  class Reader {
    const crc: Crc
    const hash: F.Hash
    const file: Bytes
    const index: seq<IndexRec>
    const filter: F.State
    const maxSeq: nat
    const entries: nat
    const maxKey: Option<Bytes>
    /** What the file was made from, if it was. */
    ghost const blocks: seq<seq<Entry>>
    ghost const R: nat

    ghost predicate Valid() {
      F.WellFormed(filter)
    }

    /** The file starts with the blocks, and index and filter are theirs. */
    ghost predicate Made() {
      && Valid() && R > 0 && NonEmpty(blocks)
      && (forall b | b in blocks :: Fits(b, R))
      && BlocksBytes(crc, R, blocks) <= file
      && index == IndexOf(crc, R, blocks)
      && (forall e | e in Contents() :: F.MayContain(hash, filter, e.key))
    }

    ghost function Contents(): seq<Entry> {
      Concat(blocks)
    }

    constructor (crc: Crc, hash: F.Hash, file: Bytes, t: Table, ghost blocks: seq<seq<Entry>>, ghost R: nat)
      requires F.WellFormed(t.filter)
      ensures Valid() && this.crc == crc && this.hash == hash && this.file == file && this.blocks == blocks
      ensures this.R == R
      ensures index == t.index && filter == t.filter && maxSeq == t.maxSeq && entries == t.entries
      ensures maxKey == if t.index == [] then None else Some(t.index[|t.index| - 1].lastKey)
    {
      this.crc, this.hash, this.file, this.blocks, this.R := crc, hash, file, blocks, R;
      index, filter, maxSeq, entries := t.index, t.filter, t.maxSeq, t.entries;
      maxKey := if |t.index| == 0 then None else Some(t.index[|t.index| - 1].lastKey);
    }

    method MayContain(key: Bytes) returns (r: bool)
      requires Valid()
      ensures r == F.MayContain(hash, filter, key)
    {
      r := F.MayContain(hash, filter, key);
    }

    /** The block of index record i, ready to iterate. */
    method OpenBlock(i: nat) returns (r: Result<BlockIter>)
      requires i < |index|
      ensures r.Ok? ==> fresh(r.value)
      ensures Made() ==> i < |blocks| && r.Ok? && r.value.Over(blocks[i], R) && r.value.On(blocks[i], R, 0)
    {
      hide Data, Restarts, BlocksBytes, IndexOf, ParseRestarts, ReadBlock, Fits, BlockIter.On;
      if Made() {
        assert blocks[i] in blocks;
        Drop(BlocksBytes(crc, R, blocks), file);
        ReadBlockOf(crc, R, blocks, i, file[|BlocksBytes(crc, R, blocks)|..]);
      }
      var block := ReadBlock(crc, file, index[i]);
      if block.Err? {
        return Err(block.error);
      }
      var it := NewBlockIter(block.value, if Made() then blocks[i] else [], R);
      if it == null {
        return Err(Corrupt);
      }
      return Ok(it);
    }

    /** sort.Search for the first index record with lastKey >= key. */
    method SearchIndex(key: Bytes) returns (idx: nat)
      ensures idx <= |index|
      ensures Made() && Sorted(Contents()) ==> idx == BlockOf(blocks, key)
    {
      idx := 0;
      var hi := |index|;
      while idx < hi
        invariant idx <= hi <= |index|
        invariant Made() && Sorted(Contents()) ==> idx <= BlockOf(blocks, key) <= hi
      {
        var mid := (idx + hi) / 2;
        if Made() && Sorted(Contents()) {
          IndexOrder(mid, key);
        }
        if Compare(index[mid].lastKey, key) >= 0 {
          hi := mid;
        } else {
          idx := mid + 1;
        }
      }
    }

    lemma {:induction false} IndexOrder(i: nat, key: Bytes)
      requires Made() && Sorted(Contents()) && i < |index|
      ensures Less(index[i].lastKey, key) <==> i < BlockOf(blocks, key)
    {
      hide BlockOf, IndexOf, BlocksBytes, Data, Concat;
      BlockAt(crc, R, blocks, i);
      var p := BlockOf(blocks, key);
      if p < i {
        LastKeysAscend(blocks, p, i);
        LessMixed(LastKey(blocks[p]), LastKey(blocks[i]), key);
        OrderIsTotal();
      }
    }

    /** Through filter, index search and block search: the entry of key among those written, for every key. */
    method Get(key: Bytes) returns (r: Result<Option<Entry>>)
      requires Valid()
      ensures Made() && Sorted(Contents()) ==> r == Ok(Lookup(Contents(), key))
    {
      hide BlockOf, IndexOf, BlocksBytes, Concat, F.MayContain, Landing, LowerBound, Fits;
      ghost var ok := Made() && Sorted(Contents());
      if ok {
        LookupExact(Contents(), key);
        LookupInBlock(blocks, key);
      }
      var may := MayContain(key);
      if !may {
        return Ok(None);
      }
      if |index| == 0 {
        return Ok(None);
      }
      var idx := SearchIndex(key);
      if idx >= |index| {
        return Ok(None);
      }
      var it := OpenBlock(idx);
      if it.Err? {
        return Err(it.error);
      }
      if ok {
        BlockSorted(blocks, idx);
        LandingSorted(blocks[idx], R, key);
      }
      it.value.Seek(key, if ok then blocks[idx] else [], R);
      if it.value.valid && it.value.key == key {
        return Ok(Some(it.value.Current()));
      }
      return Ok(None);
    }
  }

  lemma {:induction false} LastKeysAscend(bs: seq<seq<Entry>>, i: nat, j: nat)
    requires i < j < |bs| && NonEmpty(bs) && Sorted(Concat(bs))
    ensures Less(LastKey(bs[i]), LastKey(bs[j]))
  {
    hide Concat;
    assert bs[i] in bs && bs[j] in bs;
    ConcatSplits(bs, i);
    ConcatSplits(bs, j);
    ConcatSnoc(bs, i);
    PrefixLength(bs, i + 1, j);
    var all := Concat(bs);
    assert all[|Concat(bs[..i])| + |bs[i]| - 1] == bs[i][|bs[i]| - 1];
    assert all[|Concat(bs[..j])| + |bs[j]| - 1] == bs[j][|bs[j]| - 1];
  }

  lemma {:induction false} PrefixLength(bs: seq<seq<Entry>>, i: nat, j: nat)
    requires i <= j <= |bs|
    ensures |Concat(bs[..i])| <= |Concat(bs[..j])|
  {
    if i < j {
      PrefixLength(bs, i, j - 1);
      ConcatSnoc(bs, j - 1);
    }
  }

  lemma {:induction false} MadeMeans(r: Reader)
    requires r.Made()
    ensures r.R > 0 && NonEmpty(r.blocks) && |r.index| == |r.blocks|
  {
  }

  lemma {:induction false} Drop(a: Bytes, b: Bytes)
    requires a <= b
    ensures a + b[|a|..] == b
  {
  }

  // ---------- Opening ----------

  /** The index records read so far and those still to be read. */
  function Joined(out: seq<IndexRec>, rest: Option<seq<IndexRec>>): Option<seq<IndexRec>> {
    if rest.None? then None else Some(out + rest.value)
  }

  method DecodeIndex(crc: Crc, raw: Bytes) returns (r: Option<seq<IndexRec>>)
    ensures r == ReadIndex(crc, raw)
  {
    hide ReadRec, Unseal;
    var body := Unseal(crc, raw, 4);
    if body.None? {
      return None;
    }
    var n := V.Num(body.value);
    if n.None? {
      return None;
    }
    var rest, index, i := n.value.1, [], 0;
    ghost var all := ReadRecs(rest, n.value.0);
    assert all.Some? ==> [] + all.value == all.value;
    while i < n.value.0
      invariant i <= n.value.0
      invariant Joined(index, ReadRecs(rest, n.value.0 - i)) == all
    {
      var rec := ReadRec(rest);
      if rec.None? {
        return None;
      }
      ghost var more := ReadRecs(rec.value.1, n.value.0 - i - 1);
      assert more.Some? ==> index + ([rec.value.0] + more.value) == index + [rec.value.0] + more.value;
      index := index + [rec.value.0];
      rest := rec.value.1;
      i := i + 1;
    }
    assert index + [] == index;
    return Some(index);
  }

  /** Every key of the table passes the filter. */
  ghost predicate Admits(hash: F.Hash, filter: F.State, es: seq<Entry>) {
    F.WellFormed(filter) && forall e | e in es :: F.MayContain(hash, filter, e.key)
  }

  /** The writer's file of these blocks. */
  ghost predicate IsFileOf(crc: Crc, hash: F.Hash, file: Bytes, bs: seq<seq<Entry>>, R: nat, filter: F.State) {
    && R > 0 && Sized(crc, R, bs, filter) && file == FileBytes(crc, R, bs, filter)
    && Admits(hash, filter, Concat(bs))
  }

  method Open(crc: Crc, hash: F.Hash, file: Bytes, ghost bs: seq<seq<Entry>>, ghost R: nat, ghost filter: F.State)
    returns (r: Result<Reader>)
    ensures var t := OpenFile(crc, file);
      && (t.Err? ==> r == Err(t.error))
      && (t.Ok? ==> r.Ok? && fresh(r.value) && r.value.Valid() && r.value.file == file
                    && r.value.index == t.value.index
                    && r.value.maxSeq == t.value.maxSeq && r.value.entries == t.value.entries)
    ensures IsFileOf(crc, hash, file, bs, R, filter) ==>
      r.Ok? && r.value.Made() && r.value.Contents() == Concat(bs)
      && r.value.maxSeq == MaxSeqOf(Concat(bs)) && r.value.entries == |Concat(bs)|
  {
    hide ReadIndex, ReadRange, FromLE, F.Unmarshal, F.MayContain, FileBytes, Sized, BlocksBytes, IndexOf, Concat,
      MaxSeqOf, Fits;
    if IsFileOf(crc, hash, file, bs, R, filter) {
      FileOpens(crc, R, bs, filter);
      SizedFile(crc, R, bs, filter);
    }
    if |file| < FOOTER {
      return Err(Corrupt);
    }
    var f := file[|file| - FOOTER..];
    if FromLE(f[0..4]) != MAGIC || FromLE(f[52..56]) != MAGIC {
      return Err(BadMagic);
    }
    var bloomData := ReadRange(file, FromLE(f[20..28]), FromLE(f[28..36]));
    if bloomData.None? {
      return Err(ReadFailed);
    }
    var bf := F.Unmarshal(bloomData.value);
    if bf.None? {
      return Err(BadFilter);
    }
    var indexData := ReadRange(file, FromLE(f[4..12]), FromLE(f[12..20]));
    if indexData.None? {
      return Err(ReadFailed);
    }
    var index := DecodeIndex(crc, indexData.value);
    if index.None? {
      return Err(Corrupt);
    }
    var t := Table(index.value, bf.value, FromLE(f[36..44]), FromLE(f[44..52]));
    var reader := new Reader(crc, hash, file, t, bs, R);
    return Ok(reader);
  }

  lemma {:induction false} SizedFile(crc: Crc, R: nat, bs: seq<seq<Entry>>, filter: F.State)
    requires Sized(crc, R, bs, filter)
    ensures R > 0 && NonEmpty(bs) && (forall b | b in bs :: Fits(b, R))
    ensures BlocksBytes(crc, R, bs) <= FileBytes(crc, R, bs, filter)
  {
  }

  // ---------- The iterator ----------

  class Iterator {
    const r: Reader
    var bi: nat
    var blockIt: BlockIter?
    var err: Option<Error>
    ghost var at: nat

    /** On a file made by the writer: it stands on entry `at` of block bi or is past the last block. */
    ghost predicate Valid()
      reads this, blockIt
    {
      && r.Made() && err.None?
      && if bi < |r.index| then OnEntry(r.blocks[bi]) else blockIt == null
    }

    ghost predicate OnEntry(b: seq<Entry>)
      reads this, blockIt
    {
      blockIt != null && at < |b| && blockIt.Over(b, r.R) && blockIt.On(b, r.R, at)
    }

    /** The entries from where it stands. */
    ghost function Left(): seq<Entry>
      requires Valid()
      reads this, blockIt
    {
      if bi >= |r.index| then [] else r.blocks[bi][at..] + Concat(r.blocks[bi + 1..])
    }

    constructor (r: Reader)
      ensures this.r == r && (blockIt != null ==> fresh(blockIt))
      ensures r.Made() ==> Valid() && Left() == r.Contents()
    {
      this.r, bi, blockIt, err, at := r, 0, null, None, 0;
      new;
      NextBlock();
      if r.Made() {
        assert r.blocks[0..] == r.blocks;
      }
    }

    /** The loop of Next: opens the first block from bi on that has an entry. */
    method NextBlock()
      modifies this`bi, this`blockIt, this`err, this`at
      ensures blockIt != null ==> blockIt == old(blockIt) || fresh(blockIt)
      ensures r.Made() && old(err.None?) ==>
        Valid() && Left() == if old(bi) <= |r.index| then Concat(r.blocks[old(bi)..]) else []
    {
      hide BlockIter.On, BlockIter.Over, Fits, BlocksBytes, IndexOf, F.MayContain;
      ghost var ok := r.Made() && err.None?;
      while bi < |r.index|
        invariant bi >= old(bi) && err == old(err)
        invariant ok ==> bi == old(bi)
        invariant blockIt != null ==> blockIt == old(blockIt) || fresh(blockIt)
      {
        var bit := r.OpenBlock(bi);
        if bit.Err? {
          err := Some(bit.error);
          return;
        }
        blockIt := bit.value;
        at := 0;
        if ok {
          assert r.blocks[bi] in r.blocks;
          bit.value.OnMeans(r.blocks[bi], r.R, 0);
          ConcatFirst(r.blocks, bi);
        }
        if bit.value.valid {
          return;
        }
        bi := bi + 1;
      }
      blockIt := null;
      if ok && bi == |r.index| {
        assert r.blocks[bi..] == [];
      }
    }

    method IsValid() returns (v: bool)
      ensures v ==> blockIt != null && blockIt.valid
      ensures Valid() ==> v == (Left() != [])
    {
      v := err.None? && blockIt != null && blockIt.valid;
    }

    method Entry() returns (e: Entry)
      ensures Valid() && Left() != [] ==> e == Left()[0]
    {
      var v := IsValid();
      if !v {
        return Entries.Entry([], [], 0, false);
      }
      e := blockIt.Current();
    }

    method Next()
      modifies this, blockIt
      ensures blockIt != null ==> blockIt == old(blockIt) || fresh(blockIt)
      ensures old(Valid()) ==> Valid() && Left() == if old(Left()) == [] then [] else old(Left())[1..]
    {
      hide BlockIter.On, BlockIter.Over, BlockIter.At, Fits, BlocksBytes, IndexOf, F.MayContain, Concat, NonEmpty,
        Body, Data, OpenFile, FileBytes;
      if err.Some? {
        return;
      }
      ghost var ok := Valid() && bi < |r.index|;
      ghost var b := if ok then r.blocks[bi] else [];
      if blockIt != null {
        if ok {
          blockIt.OnMeans(b, r.R, at);
        }
        blockIt.Advance(b, r.R, at + 1);
        at := at + 1;
        if ok {
          blockIt.OnMeans(b, r.R, at);
        }
        if blockIt.valid {
          return;
        }
      }
      bi := bi + 1;
      NextBlock();
    }

    /** Stands on the first entry with key >= target. */
    method Seek(target: Bytes)
      modifies this
      ensures blockIt != null ==> blockIt == old(blockIt) || fresh(blockIt)
      ensures r.Made() && Sorted(r.Contents()) ==>
        Valid() && Left() == r.Contents()[LowerBound(r.Contents(), target)..]
    {
      hide BlockIter.On, BlockIter.Over, BlockIter.At, Reader.Made, LowerBound, BlockOf, Concat, Landing, NonEmpty,
        Sorted;
      ghost var ok := r.Made() && Sorted(r.Contents());
      err := None;
      if ok {
        MadeMeans(r);
        SearchInBlock(r.blocks, target);
      }
      if |r.index| == 0 {
        blockIt := null;
        return;
      }
      var idx := r.SearchIndex(target);
      if idx >= |r.index| {
        bi := |r.index|;
        blockIt := null;
        return;
      }
      bi := idx;
      var bit := r.OpenBlock(idx);
      if bit.Err? {
        err := Some(bit.error);
        return;
      }
      ghost var b := if ok then r.blocks[idx] else [];
      if ok {
        BlockSorted(r.blocks, idx);
        LandingSorted(b, r.R, target);
        ConcatSplits(r.blocks, idx);
        at := LowerBound(b, target);
      }
      bit.value.Seek(target, b, r.R);
      blockIt := bit.value;
      if ok {
        bit.value.OnMeans(b, r.R, at);
      }
      if !bit.value.valid {
        Next();
      }
    }
  }

  /** The loop DB.collectMerged and MergeFiles run over a table. */
  method Scan(r: Reader) returns (es: seq<Entry>)
    requires r.Made()
    ensures es == r.Contents()
  {
    hide Iterator.Valid, Iterator.Left, Iterator.OnEntry, Reader.Made, Reader.Contents;
    es := [];
    var it := new Iterator(r);
    var valid := it.IsValid();
    while valid
      invariant fresh(it) && (it.blockIt != null ==> fresh(it.blockIt)) && it.r == r
      invariant it.Valid() && es + it.Left() == r.Contents() && valid == (it.Left() != [])
      decreases |it.Left()|
    {
      var e := it.Entry();
      es := es + [e];
      it.Next();
      valid := it.IsValid();
    }
  }

  // ---------- A whole table ----------

  lemma {:induction false} KeysAdmitted(hash: F.Hash, es: seq<Entry>, m: nat, k: nat)
    requires m < TWO_64 && k < TWO_32
    ensures Admits(hash, F.Built(hash, KeysOf(es), m, k), es)
  {
    hide F.Built, F.MayContain;
    forall e | e in es ensures F.MayContain(hash, F.Built(hash, KeysOf(es), m, k), e.key) {
      var i :| 0 <= i < |es| && es[i] == e;
      assert KeysOf(es)[i] == e.key;
      F.BuiltAdmits(hash, KeysOf(es), m, k, e.key);
    }
  }

  /** What the writer makes of any entries, at any block size and restart interval, opens as a table whose blocks
      hold exactly these entries in order and whose filter admits all their keys. */
  lemma {:induction false} TableRoundTrip(crc: Crc, hash: F.Hash, es: seq<Entry>, B: nat, R: nat, m: nat, k: nat)
    requires R > 0 && m < TWO_64 && k < TWO_32
    requires Sized(crc, R, BlocksOf(es, B, R), F.Built(hash, KeysOf(es), m, k))
    ensures var bs, filter := BlocksOf(es, B, R), F.Built(hash, KeysOf(es), m, k);
      var file, index := FileBytes(crc, R, bs, filter), IndexOf(crc, R, bs);
      && OpenFile(crc, file) == Ok(Table(index, filter, MaxSeqOf(es), |es|))
      && Concat(bs) == es && Admits(hash, filter, es)
      && forall i | 0 <= i < |bs| :: ReadBlock(crc, file, index[i]) == Ok(Body(bs[i], R))
                                     && ParseRestarts(Body(bs[i], R)) == Some((Data(bs[i], R), Restarts(bs[i], R)))
  {
    hide BlocksOf, F.Built, FileBytes, Concat, IndexOf, OpenFile, MaxSeqOf, ReadBlock, ParseRestarts, BlocksBytes,
      Data, Restarts, F.MayContain;
    var bs, filter := BlocksOf(es, B, R), F.Built(hash, KeysOf(es), m, k);
    var file := FileBytes(crc, R, bs, filter);
    BlocksHold(es, B, R);
    FileOpens(crc, R, bs, filter);
    KeysAdmitted(hash, es, m, k);
    SizedFile(crc, R, bs, filter);
    Drop(BlocksBytes(crc, R, bs), file);
    forall i | 0 <= i < |bs|
      ensures ReadBlock(crc, file, IndexOf(crc, R, bs)[i]) == Ok(Body(bs[i], R))
      ensures ParseRestarts(Body(bs[i], R)) == Some((Data(bs[i], R), Restarts(bs[i], R)))
    {
      assert bs[i] in bs;
      ReadBlockOf(crc, R, bs, i, file[|BlocksBytes(crc, R, bs)|..]);
      BodyParses(bs[i], R);
    }
  }

  /** What a flush does with its snapshot: written and opened again, the table holds it. */
  method WriteAndOpen(crc: Crc, hash: F.Hash, entries: seq<Entry>, m: nat, k: nat) returns (r: Reader)
    requires forall e | e in entries :: EntryFits(e)
    requires m < TWO_64 && k < TWO_32 && Sorted(entries)
    requires Sized(crc, 16, BlocksOf(entries, 4096, 16), F.Built(hash, KeysOf(entries), m, k))
    ensures fresh(r) && r.Made() && r.Contents() == entries
    ensures r.maxSeq == MaxSeqOf(entries) && r.entries == |entries|
  {
    hide BlocksOf, F.Built, FileBytes, Concat, IndexOf, OpenFile, MaxSeqOf, BlocksBytes, F.MayContain, Sized, KeysOf;
    OrderIsTotal();
    var w := WriteFile(crc, hash, entries, 0, 0, m, k);
    BlocksHold(entries, 4096, 16);
    KeysAdmitted(hash, entries, m, k);
    var o := Open(crc, hash, w.value.0, BlocksOf(entries, 4096, 16), 16, F.Built(hash, KeysOf(entries), m, k));
    return o.value;
  }

  lemma {:induction false} ConcatFirst(bs: seq<seq<Entry>>, i: nat)
    requires i < |bs|
    ensures Concat(bs[i..]) == bs[i] + Concat(bs[i + 1..])
  {
    ConcatSplits(bs[i..], 0);
    assert bs[i..][..0] == [] && bs[i..][1..] == bs[i + 1..];
  }
}
