/** The tables of a store as files: readers of what the writer wrote take the place of the entry lists that Db and
    Compact speak of, in lookups, flushes, merges and scans. */
module Files {
  import opened Bytes
  import opened Entries
  import opened Blocks
  import opened Sstables
  import opened Readers
  import C = Compact
  import Crashes
  import I = Images
  import K = SkipLists
  import M = Manifest
  import S = Safety
  import D = Db
  import F = Bloom
  import P = Protocol
  import V = Varint
  import W = Wal

  type Bloom64 = x: nat | x < TWO_64
  type Bloom32 = x: nat | x < TWO_32

  // ---------- What the log accepts, a table can hold ----------

  lemma {:induction false} EntryLength(shared: nat, e: Entry)
    requires EntryFits(e) && shared <= |e.key|
    ensures |EntryBytes(shared, e)| <= 41 + |e.key| + |e.value|
  {
    hide V.Encode;
    V.EncodeLength(shared);
    V.EncodeLength(|e.key| - shared);
    V.EncodeLength(|e.value|);
    V.EncodeLength(e.seqno);
  }

  ghost predicate AllStorable(es: seq<Entry>) {
    forall e | e in es :: W.Storable(e)
  }

  /** No block grows past 32 bits. */
  lemma {:induction false} CutUpFits(es: seq<Entry>, B: nat, R: nat)
    requires R > 0 && B <= 0x8000_0000 && AllStorable(es)
    ensures var c := CutUp(es, B, R);
      && (forall b | b in c.done :: Fits(b, R))
      && (forall e | e in c.cur :: EntryFits(e)) && (c.cur != [] ==> |Data(c.cur, R)| < B)
  {
    hide Data;
    DataOfNone(R);
    if es != [] {
      var n := |es| - 1;
      assert es[n] in es && AllStorable(es[..n]);
      CutUpFits(es[..n], B, R);
      BlockGrows(CutUp(es[..n], B, R).cur, es[n], B, R);
    }
  }

  lemma {:induction false} BlockGrows(cur: seq<Entry>, e: Entry, B: nat, R: nat)
    requires R > 0 && B <= 0x8000_0000 && W.Storable(e)
    requires (forall x | x in cur :: EntryFits(x)) && (cur != [] ==> |Data(cur, R)| < B)
    ensures Fits(cur + [e], R)
  {
    hide Data, EntryBytes;
    DataOfNone(R);
    DataSnoc(cur, e, R);
    EntryLength(SharedAt(cur + [e], R, |cur|), e);
  }

  lemma {:induction false} BuiltCounts(hash: F.Hash, keys: seq<Bytes>, m: nat, k: nat)
    requires m < TWO_64 && k < TWO_32
    ensures F.Built(hash, keys, m, k).nAdded <= |keys|
  {
    if keys != [] {
      BuiltCounts(hash, keys[..|keys| - 1], m, k);
    }
  }

  /** The default sizes record every table of entries that went through the log, if the file is not longer than a
      file can be. */
  lemma {:induction false} StorableIsSized(crc: Crc, hash: F.Hash, es: seq<Entry>, m: nat, k: nat)
    requires m < TWO_64 && k < TWO_32 && AllStorable(es)
    requires |FileBytes(crc, 16, BlocksOf(es, 4096, 16), F.Built(hash, KeysOf(es), m, k))| < TWO_64
    ensures Sized(crc, 16, BlocksOf(es, 4096, 16), F.Built(hash, KeysOf(es), m, k))
    ensures forall e | e in es :: EntryFits(e)
  {
    hide Data, CutUp, F.Built, F.Marshal, IndexBytes, BlocksBytes, Concat, KeysOf;
    var bs := BlocksOf(es, 4096, 16);
    CutUpFits(es, 4096, 16);
    BlocksHold(es, 4096, 16);
    BuiltCounts(hash, KeysOf(es), m, k);
    ConcatLength(crc, 16, bs);
  }

  // ---------- Readers in the place of entry lists ----------

  /** The reader is of a file the writer made of these entries. */
  ghost predicate Holds(r: Reader, es: seq<Entry>) {
    r.Made() && r.Contents() == es && Sorted(es) && AllStorable(es)
  }

  /** A reader for every open table. */
  ghost predicate Filed(readers: map<Bytes, Reader>, tables: seq<P.OpenTable>) {
    forall t | t in tables :: t.name in readers && Holds(readers[t.name], t.entries)
  }

  /** The file of these entries is not longer than a file can be. */
  ghost predicate IsFile(crc: Crc, hash: F.Hash, es: seq<Entry>, m: nat, k: nat)
    requires m < TWO_64 && k < TWO_32
  {
    |FileBytes(crc, 16, BlocksOf(es, 4096, 16), F.Built(hash, KeysOf(es), m, k))| < TWO_64
  }

  /** The bytes are those the writer makes of these entries. */
  ghost predicate Written(crc: Crc, hash: F.Hash, file: Bytes, es: seq<Entry>, m: nat, k: nat)
    requires m < TWO_64 && k < TWO_32
  {
    && Sorted(es) && AllStorable(es) && IsFile(crc, hash, es, m, k)
    && file == FileBytes(crc, 16, BlocksOf(es, 4096, 16), F.Built(hash, KeysOf(es), m, k))
  }

  method OpenTable(crc: Crc, hash: F.Hash, file: Bytes, ghost es: seq<Entry>, ghost m: nat, ghost k: nat)
    returns (r: Result<Reader>)
    requires m < TWO_64 && k < TWO_32 && Written(crc, hash, file, es, m, k)
    ensures r.Ok? && fresh(r.value) && Holds(r.value, es)
  {
    hide Reader.Made, Reader.Contents, Sized, FileBytes, BlocksOf, F.Built, KeysOf, OpenFile, Concat;
    StorableIsSized(crc, hash, es, m, k);
    BlocksHold(es, 4096, 16);
    KeysAdmitted(hash, es, m, k);
    r := Open(crc, hash, file, BlocksOf(es, 4096, 16), 16, F.Built(hash, KeysOf(es), m, k));
  }

  /** openTables on the directory of a store: a reader for every file the manifest lists. `shape` gives size and
      probe count of each file's filter. */
  method OpenTables(crc: Crc, hash: F.Hash, dir: map<Bytes, Bytes>, names: seq<Bytes>,
    ghost ssts: map<Bytes, seq<Entry>>, ghost shape: Bytes -> (Bloom64, Bloom32))
    returns (r: Result<map<Bytes, Reader>>)
    requires forall name | name in names :: name in dir && name in ssts
    requires forall name | name in names :: Written(crc, hash, dir[name], ssts[name], shape(name).0, shape(name).1)
    ensures r.Ok? && forall name | name in names :: name in r.value && Holds(r.value[name], ssts[name])
  {
    hide Written, Holds;
    var readers: map<Bytes, Reader> := map[];
    for i := 0 to |names|
      invariant forall j | 0 <= j < i :: names[j] in readers && Holds(readers[names[j]], ssts[names[j]])
    {
      var name := names[i];
      var t := OpenTable(crc, hash, dir[name], ssts[name], shape(name).0, shape(name).1);
      match t {
        case Err(e) => return Err(e);
        case Ok(reader) => readers := readers[name := reader];
      }
    }
    return Ok(readers);
  }

  method WriteTable(crc: Crc, hash: F.Hash, es: seq<Entry>, m: nat, k: nat) returns (r: Reader)
    requires m < TWO_64 && k < TWO_32 && Sorted(es) && AllStorable(es) && IsFile(crc, hash, es, m, k)
    ensures fresh(r) && Holds(r, es)
  {
    hide Reader.Made, Reader.Contents, Sized, FileBytes, BlocksOf, F.Built, KeysOf;
    StorableIsSized(crc, hash, es, m, k);
    r := WriteAndOpen(crc, hash, es, m, k);
  }

  /** What a memtable holds has gone through the log. */
  lemma {:induction false} MemStorable(db: D.DB)
    requires db.Valid()
    ensures Sorted(db.mem.es) && AllStorable(db.mem.es)
  {
    hide W.AllEntries, Flat, Replay, W.AllFit;
    var log := db.sys.disk.log;
    S.MemCoversLog(log);
    I.FlatFrames(db.frames);
    forall e | e in db.mem.es ensures W.Storable(e) {
      assert e in Elements(Replay([], Flat(log)));
      assert e in S.InLog(log);
      I.LogStorable(db.frames, e);
    }
  }

  lemma {:induction false} MergeStorable(inputs: seq<seq<Entry>>)
    requires forall es | es in inputs :: AllStorable(es)
    ensures Sorted(C.Merge(inputs)) && AllStorable(C.Merge(inputs))
  {
    hide C.Merge, C.Versions;
    C.MergeCovers(inputs);
    forall e | e in C.Merge(inputs) ensures W.Storable(e) {
      assert e in Elements(C.Merge(inputs));
      C.VersionsMember(inputs, e);
      var i :| 0 <= i < |inputs| && e in inputs[i];
      assert inputs[i] in inputs;
    }
  }

  lemma {:induction false} HoldsMeans(r: Reader, es: seq<Entry>)
    requires Holds(r, es)
    ensures r.Valid() && r.Made() && r.Contents() == es && Sorted(es)
  {
  }

  /** DB.Get with readers for tables: every table lookup goes through filter, index and block search, and the answer
      is the store's. */
  method Get(db: D.DB, readers: map<Bytes, Reader>, key: Bytes) returns (r: Result<D.Answer>)
    requires db.Valid() && Filed(readers, db.tables)
    ensures r == Ok(if db.closed then D.DbClosed else
                    if key in db.Reads() then D.Found(db.Reads()[key]) else D.NotFound)
    ensures S.Settled(db.sys) ==> db.Reads() == db.Contents()
  {
    hide Reader.Made, Reader.Contents, Lookup, S.Inv, S.Settled, I.Reached, I.LogImage, Flat, MapOf, K.SkipList.Valid,
      AllStorable, Sorted, Holds, Filed, Reader.Valid, P.Best;
    D.ReadsAgreeExactly(db.sys);
    if db.closed {
      return Ok(D.DbClosed);
    }
    D.GetIsReadMap(db.sys, key);
    var e := db.mem.Get(key);
    if e.Some? {
      return Ok(if e.value.deleted then D.NotFound else D.Found(e.value.value));
    }
    var found := BestInFiles(db.tables, readers, key);
    match found {
      case Err(e) => return Err(e);
      case Ok(best) =>
        if best.None? || best.value.deleted {
          return Ok(D.NotFound);
        }
        return Ok(D.Found(best.value.value));
    }
  }

  /** The loop over the tables, last to first. */
  method BestInFiles(tables: seq<P.OpenTable>, readers: map<Bytes, Reader>,
      key: Bytes) returns (r: Result<Option<Entry>>)
    requires Filed(readers, tables)
    ensures r == Ok(P.Best(tables, 0, key))
  {
    hide Reader.Made, Reader.Contents, Lookup, Sorted, Holds, Reader.Valid;
    var best: Option<Entry> := None;
    var i: nat := |tables|;
    while i > 0
      invariant i <= |tables| && best == P.Best(tables, i, key)
    {
      i := i - 1;
      assert tables[i] in tables;
      HoldsMeans(readers[tables[i].name], tables[i].entries);
      var t := readers[tables[i].name].Get(key);
      match t {
        case Err(e) => return Err(e);
        case Ok(v) =>
          if v.Some? && (best.None? || v.value.seqno > best.value.seqno) {
            best := v;
          }
      }
    }
    return Ok(best);
  }

  /** collectMerged over the iterators of the table files: it lists the plain map. */
  method CollectMerged(db: D.DB, readers: map<Bytes, Reader>) returns (items: seq<Entry>)
    requires db.Valid() && Filed(readers, db.tables)
    ensures D.Lists(items, db.Contents())
  {
    hide Reader.Made, Reader.Contents, S.Inv, I.Reached, I.LogImage, Flat, IsTop, MapOf, K.SkipList.Valid, Holds, Filed,
      AllStorable, Sorted, D.PlainMap, D.Newest;
    D.NothingSeen();
    var snap := db.mem.Snapshot();
    var newest := D.Update(map[], snap, {});
    assert {} + Elements(db.mem.es) == Elements(db.mem.es) + S.AllOf(db.tables[..0]);
    for i := 0 to |db.tables|
      invariant D.Newest(newest, Elements(db.mem.es) + S.AllOf(db.tables[..i]))
    {
      assert db.tables[..i + 1][..i] == db.tables[..i];
      FiledAt(readers, db.tables, i);
      var es := Scan(readers[db.tables[i].name]);
      ghost var seen := Elements(db.mem.es) + S.AllOf(db.tables[..i]);
      newest := D.Update(newest, es, seen);
      assert seen + Elements(es) == Elements(db.mem.es) + S.AllOf(db.tables[..i + 1]);
    }
    assert db.tables[..|db.tables|] == db.tables;
    D.NewestKeys(newest, Elements(db.mem.es) + S.AllOf(db.tables));
    items := D.ListLive(newest);
    D.NewestIsPlainMap(db.sys, newest, items);
  }

  lemma {:induction false} FiledAt(readers: map<Bytes, Reader>, tables: seq<P.OpenTable>, i: nat)
    requires Filed(readers, tables) && i < |tables|
    ensures tables[i].name in readers
    ensures var r := readers[tables[i].name]; r.Made() && r.Contents() == tables[i].entries
  {
    assert tables[i] in tables;
  }

  /** A flush that writes the table file. */
  method Flush(db: D.DB, readers: map<Bytes, Reader>, crc: Crc, hash: F.Hash, m: nat, k: nat, size: nat)
    returns (ok: bool, readers': map<Bytes, Reader>)
    requires db.Valid() && !db.log.closed && Filed(readers, db.tables)
    requires m < TWO_64 && k < TWO_32 && IsFile(crc, hash, db.mem.es, m, k)
    modifies db`tables, db`ssts, db`sys, db`trace, db`frames, db.log, db.mem, db.manif
    ensures db.Valid() && db.Contents() == old(db.Contents()) && Filed(readers', db.tables)
    ensures ok == !db.nilKey
    ensures if ok then db.mem.es == [] && db.Reads() == db.Contents() else db.mem.es == old(db.mem.es)
  {
    hide Holds, S.Inv, S.Settled, I.Reached, I.LogImage, K.SkipList.Valid, AllStorable, IsFile, D.PlainMap, D.ReadMap,
      P.Do, Sorted, MaxSeqOf, Crashes.InWindow, P.MetaOf, D.AfterFlush, Lookup, M.FileName,
      D.Recorded, P.Describes;
    readers' := readers;
    var snap := db.mem.Snapshot();
    if snap != [] && !db.nilKey {
      MemStorable(db);
      NameIsNew(db);
      var r := WriteTable(crc, hash, snap, m, k);
      readers' := readers[M.FileName(db.manif.state.nextFile) := r];
    }
    ok := db.FlushLocked(size);
  }

  /** The next file name belongs to no open table. */
  lemma {:induction false} NameIsNew(db: D.DB)
    requires db.Valid()
    ensures forall t | t in db.tables :: t.name != M.FileName(db.manif.state.nextFile)
  {
    D.TablesAreOpen(db.sys);
    M.AllocKeepsNames(db.manif.state);
    var files := db.manif.state.files;
    forall t | t in db.tables ensures t.name != M.FileName(db.manif.state.nextFile) {
      var i :| 0 <= i < |db.tables| && db.tables[i] == t;
      assert files[i] in files;
    }
  }

  /** The readers of the tables a compaction picks. */
  ghost predicate FiledFiles(readers: map<Bytes, Reader>, files: seq<M.FileMeta>, ssts: map<Bytes, seq<Entry>>)
    requires P.HasAll(ssts, files)
  {
    forall f | f in files :: f.name in readers && Holds(readers[f.name], ssts[f.name])
  }

  lemma {:induction false} PickedAreFiled(db: D.DB, readers: map<Bytes, Reader>)
    requires db.Valid() && Filed(readers, db.tables)
    ensures P.HasAll(db.ssts, C.Picked(db.manif.state.files))
    ensures FiledFiles(readers, C.Picked(db.manif.state.files), db.ssts)
  {
    hide Holds;
    D.TablesAreOpen(db.sys);
    var files := db.manif.state.files;
    forall f | f in C.Picked(files) ensures f.name in readers && Holds(readers[f.name], db.ssts[f.name]) {
      var i :| 0 <= i < |files| && files[i] == f;
      S.OpenedAt(files, db.ssts, i);
      assert db.tables[i] in db.tables;
    }
  }

  /** The merge of tables read from their files. */
  method MergeReaders(picked: seq<M.FileMeta>, readers: map<Bytes, Reader>, ghost ssts: map<Bytes, seq<Entry>>)
    returns (out: seq<Entry>)
    requires P.HasAll(ssts, picked) && FiledFiles(readers, picked, ssts) && picked != []
    ensures out == C.Merge(P.Contents(picked, ssts)) && Sorted(out) && AllStorable(out)
  {
    hide Reader.Made, Reader.Contents, C.Merge, Sorted, AllStorable;
    var inputs: seq<seq<Entry>> := [];
    for i := 0 to |picked|
      invariant |inputs| == i && forall j | 0 <= j < i :: inputs[j] == ssts[picked[j].name]
    {
      assert picked[i] in picked && Holds(readers[picked[i].name], ssts[picked[i].name]);
      var es := Scan(readers[picked[i].name]);
      inputs := inputs + [es];
    }
    assert inputs == P.Contents(picked, ssts);
    forall es | es in inputs ensures Sorted(es) && AllStorable(es) {
      var j :| 0 <= j < |inputs| && inputs[j] == es;
      assert picked[j] in picked && Holds(readers[picked[j].name], ssts[picked[j].name]);
    }
    MergeStorable(inputs);
    var res := C.MergeFiles(inputs, false);
    out := res.value.out;
  }

  /** A compaction that reads its inputs from table files and writes one. */
  method Compact(db: D.DB, readers: map<Bytes, Reader>, crc: Crc, hash: F.Hash, m: nat, k: nat, size: nat)
    returns (r: D.Status, readers': map<Bytes, Reader>)
    requires db.Valid() && Filed(readers, db.tables) && m < TWO_64 && k < TWO_32
    requires var picked := C.Picked(db.manif.state.files);
      P.HasAll(db.ssts, picked) ==> IsFile(crc, hash, C.Merge(P.Contents(picked, db.ssts)), m, k)
    modifies db`tables, db`ssts, db`sys, db`trace, db.manif
    ensures db.Valid() && db.Contents() == old(db.Contents()) && db.Reads() == old(db.Reads())
    ensures Filed(readers', db.tables)
  {
    hide Holds, S.Inv, S.Settled, I.Reached, I.LogImage, K.SkipList.Valid, AllStorable, IsFile, D.PlainMap, D.ReadMap,
      P.Do, C.Merge, C.Picked, P.Contents, P.Opened, D.Compacted, C.IsChosen, C.IsLevelZero, C.TwoAtLevelZero, Lookup,
      Sorted, C.Chosen, D.NamesApart, M.FileName, P.NamesOf, Reader.Made, Reader.Contents;
    readers' := readers;
    NameIsNew(db);
    PickedAreFiled(db, readers);
    D.TablesAreOpen(db.sys);
    if !db.closed && !db.readOnly && |db.tables| >= db.compactThreshold && |db.tables| >= 2 {
      var picked := C.PickInputs(db.manif.state.files);
      var out := MergeReaders(picked.value, readers, db.ssts);
      var t := WriteTable(crc, hash, out, m, k);
      readers' := readers[M.FileName(db.manif.state.nextFile) := t];
    }
    ghost var files, was := db.manif.state.files, db.tables;
    ghost var merged := P.OpenTable(M.FileName(db.manif.state.nextFile), C.Merge(P.Contents(C.Picked(files), db.ssts)));
    r := db.Compact(size);
    if db.tables != was {
      D.ChosenGo(files, was, db.manif.state.files, db.tables, merged, size);
    }
  }
}
