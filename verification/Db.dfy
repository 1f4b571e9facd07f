/** lsmkv/db.go over the log, the skiplist and the manifest. Every durable effect is matched, in order, by a step
    of the protocol. A table is the list of its entries here; Files puts readers of table files in its place. */
module Db {
  import opened Bytes
  import opened Entries
  import opened Compact
  import opened Protocol
  import opened Safety
  import opened Crashes
  import opened Images
  import opened SkipLists
  import W = Wal
  import M = Manifest

  /** What randomLevel gives. */
  type Level = x: nat | 1 <= x <= MAX_LEVEL witness 1

  datatype Status = Done | Invalid | IsClosed | IsReadOnly | TooLarge | Unflushed

  /** The write is in the log and the memtable, whether or not the flush it set off has failed. */
  predicate Applies(r: Status) {
    r.Done? || r.Unflushed?
  }

  datatype Answer = Found(value: Bytes) | NotFound | DbClosed

  /** What a plain map holds after the writes. */
  function Applied(m: map<Bytes, Bytes>, ops: seq<Op>): map<Bytes, Bytes> {
    if ops == [] then m
    else
      var r, op := Applied(m, ops[..|ops| - 1]), ops[|ops| - 1];
      if op.deleted then r - {op.key} else r[op.key := op.value]
  }

  lemma {:induction false} MapOfConcat(es: seq<Entry>, ops: seq<Op>, next: nat)
    ensures MapOf(es + W.Allocated(ops, next)) == Applied(MapOf(es), ops)
  {
    if ops == [] {
      assert es + [] == es;
    } else {
      var n := |ops| - 1;
      var a := W.Allocated(ops[..n], next);
      var e := W.EntryOf(ops[n], next + n + 1);
      assert (es + (a + [e]))[..|es| + n] == es + a;
      MapOfConcat(es, ops[..n], next);
    }
  }

  /** The plain map of a system. */
  ghost function PlainMap(s: System): map<Bytes, Bytes> {
    MapOf(Flat(s.hist))
  }

  /** What Get answers in a system: the log is read as if it had been written once more after the history. */
  ghost function ReadMap(s: System): map<Bytes, Bytes> {
    MapOf(Flat(s.hist) + Flat(s.disk.log))
  }

  lemma {:induction false} GetIsReadMap(s: System, k: Bytes)
    requires Inv(s) && s.phase.Idle?
    ensures Protocol.Get(s.memory, k) == Value(ReadMap(s), k)
  {
    GetReads(s, k);
  }

  /** Get and the iterator, which lists the plain map, agree on every key if and only if the log gives the keys it
      writes their values in the history. They do in a settled store. */
  lemma {:induction false} ReadsAgreeExactly(s: System)
    requires Inv(s) && s.phase.Idle?
    ensures ReadMap(s) == PlainMap(s) <==> Tells(s.disk.log, s.hist)
    ensures Settled(s) ==> ReadMap(s) == PlainMap(s)
  {
    hide Flat, MapOf, Inv, Settled, Protocol.Get, Tells;
    GetIsPlainMap(s);
    forall k ensures Protocol.Get(s.memory, k) == Value(ReadMap(s), k) {
      GetReads(s, k);
    }
    if Shows(s.memory, Flat(s.hist)) {
      SameMap(ReadMap(s), PlainMap(s));
    }
  }

  lemma {:induction false} EmptyLogReads(s: System)
    requires s.disk.log == []
    ensures ReadMap(s) == PlainMap(s)
  {
    assert Flat(s.hist) + [] == Flat(s.hist);
  }

  lemma {:induction false} CommitMap(policy: Policy, s: System, ops: seq<Op>)
    requires Enabled(s, Commit(ops))
    ensures PlainMap(Do(policy, s, Commit(ops))) == Applied(PlainMap(s), ops)
    ensures ReadMap(Do(policy, s, Commit(ops))) == Applied(ReadMap(s), ops)
  {
    hide Flat, MapOf, Applied, W.Allocated, Replay;
    var f, h, log := W.Allocated(ops, s.memory.nextSeq), Flat(s.hist), Flat(s.disk.log);
    FlatSnoc(s.hist, f);
    FlatSnoc(s.disk.log, f);
    MapOfConcat(h, ops, s.memory.nextSeq);
    MapOfConcat(h + log, ops, s.memory.nextSeq);
    WrittenTwice(h, log, f);
  }

  /** Writing f at the end of the history and of the log reads as writing it at the end of both. */
  lemma {:induction false} WrittenTwice(h: seq<Entry>, log: seq<Entry>, f: seq<Entry>)
    ensures MapOf((h + f) + (log + f)) == MapOf((h + log) + f)
  {
    hide MapOf;
    forall k ensures Value(MapOf((h + f) + (log + f)), k) == Value(MapOf((h + log) + f), k) {
      MapConcat(h + f, log + f, k);
      MapConcat(h, f, k);
      MapConcat(log, f, k);
      MapConcat(h + log, f, k);
      MapConcat(h, log, k);
      assert Writes(log + f, k) <==> Writes(log, k) || Writes(f, k);
    }
    SameMap(MapOf((h + f) + (log + f)), MapOf((h + log) + f));
  }

  /** A frame appended and, if the policy says so, synced. */
  ghost function Committed(policy: Policy, s: System, ops: seq<Op>): System
    requires Enabled(s, Commit(ops))
  {
    var t := Do(policy, s, Commit(ops));
    if t.phase.Unsynced? then Do(policy, t, Sync) else t
  }

  lemma {:induction false} CommitDoes(policy: Policy, s: System, ops: seq<Op>)
    requires Enabled(s, Commit(ops))
    ensures var t := Do(policy, s, Commit(ops));
      && (t.phase.Unsynced? ==>
            Enabled(t, Sync) && var u := Do(policy, t, Sync);
            PlainMap(u) == PlainMap(t) && ReadMap(u) == ReadMap(t))
  {
    hide Flat, MapOf, Replay, W.Allocated, W.NeedsSync;
  }

  lemma {:induction false} CommittedIs(policy: Policy, s: System, ops: seq<Op>)
    requires Enabled(s, Commit(ops))
    ensures var t, f, m := Committed(policy, s, ops), W.Allocated(ops, s.memory.nextSeq), s.memory;
      var sync := W.NeedsSync(policy, m.appends + 1);
      && t.phase.Idle? && t.disk.log == s.disk.log + [f]
      && t.disk.synced == (if sync then |s.disk.log| + 1 else s.disk.synced)
      && t.disk.manifest == s.disk.manifest && t.disk.ssts == s.disk.ssts
      && t.memory == Memory(Replay(m.mem, f), m.tables, m.nextSeq + |ops|, m.appends + 1)
      && t.hist == s.hist + [f] && t.acked == |t.hist|
  {
  }

  lemma {:induction false} BurnDoes(policy: Policy, s: System, n: nat)
    requires s.phase.Idle?
    ensures var t := Do(policy, s, Burn(n));
      t == s.(memory := s.memory.(nextSeq := s.memory.nextSeq + n)) && PlainMap(t) == PlainMap(s)
      && ReadMap(t) == ReadMap(s)
  {
    hide Flat, MapOf;
  }

  lemma {:induction false} OneEntry(t: seq<Entry>, op: Op, next: nat)
    ensures W.Allocated([op], next) == [W.EntryOf(op, next + 1)]
    ensures Replay(t, W.Allocated([op], next)) == Upsert(t, W.EntryOf(op, next + 1))
    ensures forall m :: Applied(m, [op]) == if op.deleted then m - {op.key} else m[op.key := op.value]
  {
    var e := W.EntryOf(op, next + 1);
    assert [op][..0] == [] && [e][..0] == [];
    assert W.Allocated([op], next) == [] + [e];
  }

  lemma {:induction false} MemOrder(s: System)
    requires Inv(s) && s.phase.Idle?
    ensures Sorted(s.memory.mem) && MaxSeqOf(s.memory.mem) <= s.memory.nextSeq
  {
    MemCoversLog(s.disk.log);
    FlushAddLog(s, s.memory.nextSeq);
  }

  lemma {:induction false} CommitKeepsKey(policy: Policy, s: System, ops: seq<Op>)
    requires Inv(s) && Enabled(s, Commit(ops))
    ensures Lookup(s.memory.mem, []).Some? ==> Lookup(Committed(policy, s, ops).memory.mem, []).Some?
  {
    hide Inv, Do, Committed, Lookup, Sorted, Replay, W.Allocated, MaxSeqOf, Writes;
    MemOrder(s);
    CommittedIs(policy, s, ops);
    ReplayHas(s.memory.mem, W.Allocated(ops, s.memory.nextSeq), []);
  }

  /** No version in the memtable is numbered above the counter. */
  lemma {:induction false} OldVersions(s: System, key: Bytes)
    requires Inv(s) && s.phase.Idle?
    ensures Lookup(s.memory.mem, key).Some? ==> Lookup(s.memory.mem, key).value.seqno <= s.memory.nextSeq
  {
    hide Lookup, MaxSeqOf, Inv;
    MemOrder(s);
  }

  lemma {:induction false} FlushDoes(policy: Policy, s: System, size: nat)
    requires s.phase.Idle? && s.memory.mem != []
    ensures var s1 := Do(policy, s, FlushAlloc);
      var s2 := Do(policy, s1, FlushWrite);
      var s3 := InWindow(policy, s, size);
      var s4 := Do(policy, s3, FlushReset);
      var d, m, name := s.disk, s.memory, M.FileName(s.disk.manifest.nextFile);
      var f := MetaOf(name, 0, m.mem, size);
      var st, ssts := M.Alloc(d.manifest), d.ssts[name := m.mem];
      && s3 == Do(policy, s2, FlushAdd(size))
      && Enabled(s, FlushAlloc) && Enabled(s1, FlushWrite) && Enabled(s2, FlushAdd(size)) && Enabled(s3, FlushReset)
      && s1.disk == d.(manifest := st) && s2.disk == d.(manifest := st, ssts := ssts)
      && s3.disk == d.(manifest := M.Add(st, f, f.maxSeq), ssts := ssts)
      && s4.disk == Disk([], 0, M.Add(st, f, f.maxSeq), ssts)
      && s4.memory == Memory([], m.tables + [OpenTable(name, m.mem)], M.Max(m.nextSeq, f.maxSeq), 0)
      && s4.hist == s.hist && s4.acked == s.acked && s4.phase.Idle? && f.maxSeq == MaxSeqOf(m.mem)
  {
  }

  /** A flush that ends when the writer refuses a key: only a file name is used up. */
  ghost function Refused(policy: Policy, s: System): System
    requires s.phase.Idle? && s.memory.mem != []
  {
    Do(policy, Do(policy, s, FlushAlloc), FlushFail)
  }

  lemma {:induction false} RefusedDoes(policy: Policy, s: System)
    requires s.phase.Idle? && s.memory.mem != []
    ensures var s1 := Do(policy, s, FlushAlloc);
      && Enabled(s1, FlushFail) && Refused(policy, s) == Do(policy, s1, FlushFail)
      && Refused(policy, s) == s.(disk := s.disk.(manifest := M.Alloc(s.disk.manifest)))
  {
  }

  lemma {:induction false} RefusedReads(policy: Policy, s: System)
    requires s.phase.Idle? && s.memory.mem != []
    ensures var t := Refused(policy, s);
      && PlainMap(t) == PlainMap(s) && ReadMap(t) == ReadMap(s) && t.memory == s.memory && t.phase.Idle?
      && t.hist == s.hist && t.acked == s.acked && t.disk.manifest.files == s.disk.manifest.files
  {
    hide Do, Flat, MapOf, Refused;
    RefusedDoes(policy, s);
  }

  lemma {:induction false} EmptyMemReads(s: System)
    requires Inv(s) && s.phase.Idle? && s.memory.mem == []
    ensures ReadMap(s) == PlainMap(s)
  {
    hide Flat, MapOf, Inv;
    EmptyMemIsSettled(s);
    assert Flat(s.hist) + [] == Flat(s.hist);
  }

  /** The state after the steps of a flush, which takes none when the memtable is empty. */
  ghost function AfterFlush(policy: Policy, s: System, size: nat): System
    requires s.phase.Idle?
  {
    if s.memory.mem == [] then s else Do(policy, InWindow(policy, s, size), FlushReset)
  }

  /** A flush settles any store, and whatever Get answered before, afterwards it answers what the iterator lists. */
  lemma {:induction false} FlushSettles(policy: Policy, s: System, size: nat)
    requires Inv(s) && s.phase.Idle?
    ensures var t := AfterFlush(policy, s, size);
      Settled(t) && t.phase.Idle? && t.memory.mem == [] && PlainMap(t) == PlainMap(s) && ReadMap(t) == PlainMap(s)
  {
    hide Inv, Settled, InWindow, Flat, MapOf, Do;
    if s.memory.mem == [] {
      EmptyMemIsSettled(s);
      assert Flat(s.hist) + [] == Flat(s.hist);
    } else {
      var w := InWindow(policy, s, size);
      assert Settled(w) && Enabled(w, FlushReset) by {
        WindowIsSettled(policy, s, size);
      }
      StepSettled(policy, w, FlushReset);
      FlushDoes(policy, s, size);
      EmptyLogReads(Do(policy, w, FlushReset));
    }
  }

  lemma {:induction false} WindowIsSettled(policy: Policy, s: System, size: nat)
    requires Inv(s) && s.phase.Idle? && s.memory.mem != []
    ensures Settled(InWindow(policy, s, size)) && Enabled(InWindow(policy, s, size), FlushReset)
  {
    hide Inv, InWindow;
    WindowKeeps(policy, s, size);
  }

  /** The manifest has gained a record of the table t, at level 0 and under the next name. */
  ghost predicate Recorded(st: M.State, files: seq<M.FileMeta>, t: seq<Entry>, size: nat) {
    && |files| == |st.files| + 1 && files[..|st.files|] == st.files
    && var f := files[|st.files|];
      f.name == M.FileName(st.nextFile) && f.level == 0 && f.fileSize == size && Describes(f, t)
  }

  lemma {:induction false} FlushRecords(policy: Policy, s: System, size: nat)
    requires Inv(s) && s.phase.Idle? && s.memory.mem != []
    ensures Recorded(s.disk.manifest, AfterFlush(policy, s, size).disk.manifest.files, s.memory.mem, size)
    ensures Refused(policy, s).disk.manifest.files == s.disk.manifest.files
  {
    hide Inv, Describes, Sorted, InWindow, Do, MetaOf, Refused;
    MemOrder(s);
    FlushDoes(policy, s, size);
    RefusedDoes(policy, s);
    MetaDescribes(M.FileName(s.disk.manifest.nextFile), 0, s.memory.mem, size);
  }

  /** The positions of the files a compaction leaves alone. */
  ghost predicate TakesOthers(files: seq<M.FileMeta>, at: seq<nat>) {
    forall i | 0 <= i < |files| :: i in at <==> !Chosen(files, i)
  }

  /** After a compaction tables and records are those of the files the rule does not choose, in their order, and behind
      them the merged table, recorded at level 1. */
  ghost predicate Compacted(files: seq<M.FileMeta>, was: seq<OpenTable>, files': seq<M.FileMeta>, now: seq<OpenTable>,
    merged: OpenTable, size: nat)
  {
    var n := |now| - 1;
    && n >= 0 && |files'| == n + 1
    && (exists at: seq<nat> ::
          M.IsSelection(was, now[..n], at) && M.IsSelection(files, files'[..n], at) && TakesOthers(files, at))
    && now[n] == merged
    && files'[n].name == merged.name && files'[n].level == 1 && files'[n].fileSize == size
    && Describes(files'[n], merged.entries)
  }

  ghost predicate NamesApart(tables: seq<OpenTable>, other: OpenTable) {
    && (forall i, j | 0 <= i < j < |tables| :: tables[i].name != tables[j].name)
    && forall t | t in tables :: t.name != other.name
  }

  /** So every table is an old one or the merged one, and when names are told apart, no table the rule chooses is left
      and every other one is. */
  lemma {:induction false} ChosenGo(files: seq<M.FileMeta>, was: seq<OpenTable>, files': seq<M.FileMeta>,
    now: seq<OpenTable>, merged: OpenTable, size: nat)
    requires |was| == |files| && Compacted(files, was, files', now, merged, size)
    ensures forall t | t in now :: t in was || t == merged
    ensures NamesApart(was, merged) ==> forall i | 0 <= i < |was| :: was[i] in now <==> !Chosen(files, i)
  {
    hide Chosen, Describes;
    var n := |now| - 1;
    var at: seq<nat> :|
      M.IsSelection(was, now[..n], at) && M.IsSelection(files, files'[..n], at) && TakesOthers(files, at);
    forall t | t in now ensures t in was || t == merged {
      var j :| 0 <= j <= n && now[j] == t;
      assert j < n ==> now[..n][j] == was[at[j]];
    }
    if NamesApart(was, merged) {
      forall i | 0 <= i < |was| ensures was[i] in now <==> i in at {
        if i in at {
          var j :| 0 <= j < |at| && at[j] == i;
          assert now[j] == now[..n][j] == was[i];
        }
        if was[i] in now {
          var j :| 0 <= j <= n && now[j] == was[i];
          assert was[i] in was;
          assert now[j] == now[..n][j] == was[at[j]];
        }
      }
    }
  }

  /** The names of the picked files are those of the files the rule chooses. */
  lemma {:induction false} ChosenNames(files: seq<M.FileMeta>)
    requires M.Distinct(files) && |files| >= 2
    ensures forall i | 0 <= i < |files| :: files[i].name in NamesOf(Picked(files)) <==> Chosen(files, i)
  {
    hide Picked, Chosen;
    PickedIsChosen(files);
    var picked := Picked(files);
    var at: seq<nat> :| M.IsSelection(files, picked, at) && TakesChosen(files, at);
    forall i | 0 <= i < |files| ensures files[i].name in NamesOf(picked) <==> i in at {
      if i in at {
        var j :| 0 <= j < |at| && at[j] == i;
        assert picked[j] in picked;
      }
      if g :| g in picked && g.name == files[i].name {
        var j :| 0 <= j < |picked| && picked[j] == g;
        assert files[at[j]].name == files[i].name && at[j] == i;
      }
    }
  }

  /** The tables of selected files are selected likewise. */
  lemma {:induction false} OpenedSelects(files: seq<M.FileMeta>, kept: seq<M.FileMeta>, ssts: map<Bytes, seq<Entry>>,
      at: seq<nat>)
    requires HasAll(ssts, files) && HasAll(ssts, kept) && M.IsSelection(files, kept, at)
    ensures M.IsSelection(Opened(files, ssts), Opened(kept, ssts), at)
  {
    hide Opened;
    forall j | 0 <= j < |at| ensures Opened(kept, ssts)[j] == Opened(files, ssts)[at[j]] {
      OpenedAt(kept, ssts, j);
      OpenedAt(files, ssts, at[j]);
    }
  }

  lemma {:induction false} IsCompacted(files: seq<M.FileMeta>, ssts: map<Bytes, seq<Entry>>, name: Bytes,
      out: seq<Entry>, size: nat)
    requires HasAll(ssts, files) && M.Distinct(files) && |files| >= 2 && Sorted(out)
    ensures var kept := M.Without(files, NamesOf(Picked(files)));
      && HasAll(ssts, kept)
      && Compacted(files, Opened(files, ssts), kept + [MetaOf(name, 1, out, size)],
                   Opened(kept, ssts) + [OpenTable(name, out)], OpenTable(name, out), size)
  {
    hide Opened, M.Without, Picked, Describes, MetaOf, Sorted, Chosen;
    var kept := M.Without(files, NamesOf(Picked(files)));
    var at := M.WithoutSelects(files, NamesOf(Picked(files)));
    ChosenNames(files);
    OpenedSelects(files, kept, ssts, at);
    MetaDescribes(name, 1, out, size);
    assert TakesOthers(files, at);
    var now, files' := Opened(kept, ssts) + [OpenTable(name, out)], kept + [MetaOf(name, 1, out, size)];
    assert now[..|now| - 1] == Opened(kept, ssts) && files'[..|now| - 1] == kept;
  }

  /** What a newer version of a key does to the size of the memtable t: a new key adds its length, that of the value
      and 16, a known one the difference of the values' lengths. */
  ghost function Growth(t: seq<Entry>, op: Op): int {
    var cur := Lookup(t, op.key);
    if cur.None? then |op.key| + |op.value| + 16 else |op.value| - |cur.value.value|
  }

  /** And what a batch does, operation by operation. */
  ghost function BatchGrowth(t: seq<Entry>, batch: seq<Op>, next: nat): int {
    if batch == [] then 0
    else
      var n := |batch| - 1;
      BatchGrowth(t, batch[..n], next) + Growth(Replay(t, W.Allocated(batch[..n], next)), batch[n])
  }

  lemma {:induction false} NoGrowth(t: seq<Entry>, next: nat)
    ensures BatchGrowth(t, [], next) == 0
  {
  }

  lemma {:induction false} GrowthNext(t: seq<Entry>, batch: seq<Op>, next: nat, i: nat)
    requires Sorted(t) && MaxSeqOf(t) <= next && i < |batch|
    ensures var was := Replay(t, W.Allocated(batch, next)[..i]);
      var cur := Lookup(was, batch[i].key);
      && BatchGrowth(t, batch[..i + 1], next) == BatchGrowth(t, batch[..i], next)
           + (if cur.None? then |batch[i].key| + |batch[i].value| + 16 else |batch[i].value| - |cur.value.value|)
      && (cur.Some? ==> cur.value.seqno <= next + i)
  {
    hide Replay, Lookup, MaxSeqOf;
    assert batch[..i + 1][..i] == batch[..i];
    AllocatedPrefix(batch, next, i);
    var was, es := Replay(t, W.Allocated(batch, next)[..i]), W.Allocated(batch, next)[..i];
    W.AllocatedAt(batch, next);
    ReplayCovers(t, es);
    if Lookup(was, batch[i].key).Some? {
      var e := Lookup(was, batch[i].key).value;
      assert e in Elements(was) && e in Elements(t) + Elements(es);
    }
  }

  lemma {:induction false} AllocatedPrefix(batch: seq<Op>, next: nat, i: nat)
    requires i <= |batch|
    ensures W.Allocated(batch, next)[..i] == W.Allocated(batch[..i], next)
  {
    if i < |batch| {
      AllocatedPrefix(batch[..|batch| - 1], next, i);
      assert batch[..|batch| - 1][..i] == batch[..i];
    } else {
      assert batch[..i] == batch;
    }
  }

  class DB {
    const readOnly: bool
    const compactThreshold: nat
    const memtableBytes: int
    const log: W.Log
    const mem: SkipList
    const manif: M.Manifest
    var tables: seq<OpenTable>
    /** The table files of the directory. */
    var ssts: map<Bytes, seq<Entry>>
    var closed: bool
    /** The empty key of the memtable came from the log: decoding makes it nil, and the table writer refuses nil. */
    var nilKey: bool
    /** The protocol state this store is in, the steps that led there and the frames of the log. */
    ghost var sys: System
    ghost var trace: seq<Action>
    ghost var frames: seq<W.Content>

    ghost predicate Tied()
      reads this, log, mem, mem.Repr(), manif
    {
      && log.Valid() && mem.Valid() && manif.Valid()
      && LogImage(log.crc, log.file, log.durable, frames, sys.disk.log, sys.disk.synced)
      && sys.disk.manifest == manif.state && sys.disk.ssts == ssts
      && sys.memory == Memory(mem.es, tables, log.nextSeq, log.appends)
      && (nilKey ==> Lookup(mem.es, []).Some?)
    }

    /** Between operations. */
    ghost predicate Up()
      reads this, log, mem, mem.Repr(), manif
    {
      Tied() && sys.phase.Idle? && (log.closed ==> closed)
    }

    /** In a state that some run of the protocol reaches, through any number of crashes. */
    ghost predicate Valid()
      reads this, log, mem, mem.Repr(), manif
    {
      Up() && Reached(log.opts, trace, sys) && Inv(sys)
    }

    /** The last write of every key: what the iterator lists. */
    ghost function Contents(): map<Bytes, Bytes>
      reads this
    {
      PlainMap(sys)
    }

    /** What Get answers. */
    ghost function Reads(): map<Bytes, Bytes>
      reads this
    {
      ReadMap(sys)
    }

    /** How a write ends that brought the memtable to `total` bytes and the entries `es`: a full memtable is flushed,
        which a nil key makes fail. */
    ghost predicate Ends(r: Status, total: int, es: seq<Entry>)
      reads this`nilKey, mem
    {
      && r == (if total >= memtableBytes && nilKey then Unflushed else Done)
      && mem.es == (if total >= memtableBytes && !nilKey then [] else es)
      && mem.bytes == if total >= memtableBytes && !nilKey then 0 else total
    }

    /** Nothing recovered yet but the manifest and the log file. */
    constructor (crc: W.Crc, opts: W.Options, readOnly: bool, memtableBytes: int, compactThreshold: nat,
      file: Bytes, manifest: Option<M.State>, ssts: map<Bytes, seq<Entry>>,
      ghost down: System, ghost trace: seq<Action>, ghost frames: seq<W.Content>)
      ensures fresh(log) && fresh(mem) && fresh(mem.Repr()) && fresh(manif)
      ensures log.Valid() && !log.closed && log.appends == 0 && log.durable == log.size && log.crc == crc
      ensures log.opts == opts
      ensures log.file == file[..|file| - |W.Scan(crc, file, 0).0|] && log.nextSeq == W.Scan(crc, file, 0).1
      ensures mem.Valid() && mem.es == []
      ensures manif.Valid() && manif.state == if manifest.Some? then manifest.value else M.INITIAL
      ensures this.readOnly == readOnly && this.compactThreshold == compactThreshold
      ensures this.memtableBytes == memtableBytes
      ensures this.ssts == ssts && !closed && !nilKey && sys == down && this.trace == trace && this.frames == frames
    {
      this.readOnly, this.compactThreshold, this.memtableBytes := readOnly, compactThreshold, memtableBytes;
      manif := new M.Manifest(manifest);
      log := new W.Log(crc, opts, file);
      mem := new SkipList();
      tables, this.ssts, closed, nilKey := [], ssts, false, false;
      sys, this.trace, this.frames := down, trace, frames;
    }

    ghost predicate Recovering()
      reads this, log, mem, mem.Repr(), manif
    {
      && log.Valid() && !log.closed && log.appends == 0 && mem.Valid() && mem.es == [] && manif.Valid()
      && LogImage(log.crc, log.file, log.durable, frames, sys.disk.log, sys.disk.synced)
      && log.nextSeq == MaxSeqOf(Flat(sys.disk.log))
      && W.ReplayAll(log.crc, log.file) == Some(W.Records(Flat(sys.disk.log))) && Clean(Flat(sys.disk.log))
      && sys.phase.Down? && sys.disk.manifest == manif.state && sys.disk.ssts == ssts
    }

    /** Fails if a file of the manifest is missing. */
    method Recover(levels: nat -> Level) returns (ok: bool)
      requires Recovering() && !closed && !nilKey
      requires manif.state.logSeq < TWO_64 && forall f | f in manif.state.files :: f.maxSeq < TWO_64
      modifies this`tables, this`nilKey, this`sys, this`trace, log, mem, mem.Repr()
      ensures ok <==> HasAll(ssts, manif.state.files)
      ensures ok ==> Up() && !closed && !log.closed && (nilKey <==> Writes(Flat(sys.disk.log), []))
      ensures ok ==> Enabled(old(sys), Action.Open) && sys == Do(log.opts, old(sys), Action.Open)
      ensures ok && old(Reached(log.opts, trace, sys)) ==> Reached(log.opts, trace, sys)
      ensures fresh(mem.Repr() - old(mem.Repr()))
    {
      hide Reached, LogImage, SkipList.Valid, Do, Replay, Opened, Clean, Flat, W.ReplayAll, W.Records, MaxSeqOf,
        M.MaxSeqAmong, W.Log.Valid, M.Manifest.Valid, Lookup, Writes;
      RecoverSeq();
      ok := OpenTables();
      if !ok {
        return;
      }
      OpenDoes(log.opts, sys);
      ReplayWal(levels);
      TakeOpen();
    }

    /** Memtable, tables and counter are those of the protocol's open step. */
    ghost method TakeOpen()
      requires log.Valid() && mem.Valid() && manif.Valid() && !log.closed
      requires LogImage(log.crc, log.file, log.durable, frames, sys.disk.log, sys.disk.synced)
      requires sys.disk.manifest == manif.state && sys.disk.ssts == ssts && Enabled(sys, Action.Open)
      requires Do(log.opts, sys, Action.Open).memory == Memory(mem.es, tables, log.nextSeq, log.appends)
      requires nilKey ==> Lookup(mem.es, []).Some?
      modifies this`sys, this`trace
      ensures Up() && sys == Do(log.opts, old(sys), Action.Open)
      ensures old(Reached(log.opts, trace, sys)) ==> Reached(log.opts, trace, sys)
    {
      hide Reached, LogImage, SkipList.Valid, Do, Flat, W.Log.Valid, M.Manifest.Valid, Lookup;
      OpenDoes(log.opts, sys);
      if Reached(log.opts, trace, sys) {
        ReachedNext(log.opts, trace, sys, Action.Open);
      }
      trace := trace + [Action.Open];
      sys := Do(log.opts, sys, Action.Open);
    }

    /** One step of the protocol, which keeps the invariant. */
    ghost method Take(a: Action)
      requires Reached(log.opts, trace, sys) && Inv(sys) && Enabled(sys, a) && !a.Crash?
      modifies this`sys, this`trace
      ensures Reached(log.opts, trace, sys) && Inv(sys) && sys == Do(log.opts, old(sys), a)
      ensures Settled(old(sys)) ==> Settled(sys)
    {
      hide Reached, Inv, Settled, Do;
      StepKeeps(log.opts, sys, a);
      if Settled(sys) {
        StepSettled(log.opts, sys, a);
      }
      ReachedNext(log.opts, trace, sys, a);
      trace := trace + [a];
      sys := Do(log.opts, sys, a);
    }

    /** The steps of a write: the frame is appended and, when it is time, synced. */
    ghost method Commit(ops: seq<Op>)
      requires Reached(log.opts, trace, sys) && Inv(sys) && Enabled(sys, Action.Commit(ops))
      modifies this`sys, this`trace
      ensures sys == Committed(log.opts, old(sys), ops)
      ensures Reached(log.opts, trace, sys) && Inv(sys)
      ensures Contents() == Applied(old(Contents()), ops) && Reads() == Applied(old(Reads()), ops)
      ensures Settled(old(sys)) ==> Settled(sys)
      ensures Lookup(old(sys).memory.mem, []).Some? ==> Lookup(sys.memory.mem, []).Some?
    {
      hide Do, Inv, Settled, Reached, Flat, Lookup, PlainMap, ReadMap, Applied, Replay, W.Allocated, W.NeedsSync;
      CommitMap(log.opts, sys, ops);
      CommitDoes(log.opts, sys, ops);
      CommitKeepsKey(log.opts, sys, ops);
      Take(Action.Commit(ops));
      if sys.phase.Unsynced? {
        Take(Action.Sync);
      }
    }

    /** Appends to the log and sets the memtable. */
    method PutLogged(key: Bytes, value: Bytes, level: Level) returns (ok: bool)
      requires Valid() && !closed && log.nextSeq + 1 < TWO_64 && |key| < TWO_64 && |value| < TWO_64
      modifies this`sys, this`trace, this`frames, log, mem, mem.Repr()
      ensures Valid() && fresh(mem.Repr() - old(mem.Repr()))
      ensures ok == (|W.SingleBytes(Entry(key, value, old(log.nextSeq) + 1, false))| <= W.MAX_PAYLOAD)
      ensures mem.es == if ok then Upsert(old(mem.es), Entry(key, value, old(log.nextSeq) + 1, false)) else old(mem.es)
      ensures Contents() == if ok then old(Contents())[key := value] else old(Contents())
      ensures Reads() == if ok then old(Reads())[key := value] else old(Reads())
      ensures Settled(old(sys)) ==> Settled(sys)
      ensures var cur := Lookup(old(mem.es), key);
        mem.bytes == old(mem.bytes) + if !ok then 0
                                      else if cur.None? then |key| + |value| + 16 else |value| - |cur.value.value|
      ensures sys.hist == old(sys.hist) + if ok then [[Entry(key, value, old(log.nextSeq) + 1, false)]] else []
      ensures sys.acked == if ok then |sys.hist| else old(sys.acked)
    {
      hide Inv, Settled, Reached, LogImage, SkipList.Valid, Do, Flat, Upsert, W.SingleBytes, W.FrameOf, MapOf,
        W.Allocated,
        Replay, PlainMap, ReadMap, Lookup, Sorted, MaxSeqOf, Committed,
        W.NeedsSync;
      ghost var c := W.Single(Entry(key, value, log.nextSeq + 1, false));
      ghost var file, durable := log.file, log.durable;
      OldVersions(sys, key);
      var s := log.AppendPut(key, value);
      if s.None? {
        BurnDoes(log.opts, sys, 1);
        Take(Burn(1));
        return false;
      }
      OneEntry(mem.es, Set(key, value), log.nextSeq - 1);
      ImageCommit(log.crc, file, durable, frames, sys.disk.log, sys.disk.synced, c, W.NeedsSync(log.opts, log.appends));
      frames := frames + [c];
      CommittedIs(log.opts, sys, [Set(key, value)]);
      Commit([Set(key, value)]);
      mem.Set(key, value, s.value, false, level);
      return true;
    }

    method ShouldFlush() returns (full: bool)
      requires Valid()
      ensures full == (mem.bytes >= memtableBytes)
    {
      full := mem.bytes >= memtableBytes;
    }

    /** How every write ends. */
    method FlushIfFull(size: nat) returns (r: Status)
      requires Valid() && !log.closed
      modifies this`tables, this`ssts, this`sys, this`trace, this`frames, log, mem, manif
      ensures Valid() && fresh(mem.Repr() - old(mem.Repr())) && Contents() == old(Contents())
      ensures old(mem.bytes) < memtableBytes ==> r.Done? && mem.es == old(mem.es) && mem.bytes == old(mem.bytes)
      ensures old(mem.bytes) >= memtableBytes ==>
        if nilKey then r.Unflushed? && mem.es == old(mem.es) && mem.bytes == old(mem.bytes)
        else r.Done? && mem.es == [] && mem.bytes == 0
      ensures sys.hist == old(sys.hist) && sys.acked == old(sys.acked)
      ensures Reads() == if mem.es == [] then Contents() else old(Reads())
      ensures Settled(old(sys)) || mem.es == [] ==> Settled(sys)
    {
      hide Inv, Settled, Reached, LogImage, SkipList.Valid, Do, Flat, PlainMap, ReadMap;
      if mem.es == [] {
        EmptyMemReads(sys);
        EmptyMemIsSettled(sys);
      }
      var full := ShouldFlush();
      if full {
        var flushed := FlushLocked(size);
        return if flushed then Done else Unflushed;
      }
      return Done;
    }

    method Put(key: Bytes, value: Bytes, level: Level, size: nat) returns (r: Status)
      requires Valid() && log.nextSeq + 1 < TWO_64 && |key| < TWO_64 && |value| < TWO_64
      modifies this`tables, this`ssts, this`sys, this`trace, this`frames, log, mem, mem.Repr(), manif
      ensures Valid() && fresh(mem.Repr() - old(mem.Repr()))
      ensures if key == [] then r == Invalid else if closed then r == IsClosed else if readOnly then r == IsReadOnly
              else if |W.SingleBytes(Entry(key, value, old(log.nextSeq) + 1, false))| > W.MAX_PAYLOAD then r == TooLarge
              else
                var cur := Lookup(old(mem.es), key);
                var total := old(mem.bytes) + if cur.None? then |key| + |value| + 16 else |value| - |cur.value.value|;
                Ends(r, total, Upsert(old(mem.es), Entry(key, value, old(log.nextSeq) + 1, false)))
      ensures !Applies(r) ==> mem.es == old(mem.es) && mem.bytes == old(mem.bytes)
      ensures Contents() == if Applies(r) then old(Contents())[key := value] else old(Contents())
      ensures Reads() == if !Applies(r) then old(Reads())
                         else if mem.es == [] then Contents() else old(Reads())[key := value]
      ensures sys.hist == old(sys.hist) + if Applies(r) then [[Entry(key, value, old(log.nextSeq) + 1, false)]] else []
      ensures sys.acked == if Applies(r) then |sys.hist| else old(sys.acked)
      ensures Settled(old(sys)) || (Applies(r) && mem.es == []) ==> Settled(sys)
    {
      hide Inv, Settled, Reached, LogImage, SkipList.Valid, Do, Flat, W.SingleBytes, PlainMap, ReadMap, Tied,
        Upsert, Lookup;
      if |key| == 0 {
        return Invalid;
      }
      if closed {
        return IsClosed;
      }
      if readOnly {
        return IsReadOnly;
      }
      var ok := PutLogged(key, value, level);
      if !ok {
        return TooLarge;
      }
      r := FlushIfFull(size);
    }

    method DeleteLogged(key: Bytes, level: Level) returns (ok: bool)
      requires Valid() && !closed && log.nextSeq + 1 < TWO_64 && |key| < TWO_64
      modifies this`sys, this`trace, this`frames, log, mem, mem.Repr()
      ensures Valid() && fresh(mem.Repr() - old(mem.Repr()))
      ensures ok == (|W.SingleBytes(Entry(key, [], old(log.nextSeq) + 1, true))| <= W.MAX_PAYLOAD)
      ensures mem.es == if ok then Upsert(old(mem.es), Entry(key, [], old(log.nextSeq) + 1, true)) else old(mem.es)
      ensures Contents() == if ok then old(Contents()) - {key} else old(Contents())
      ensures Reads() == if ok then old(Reads()) - {key} else old(Reads())
      ensures Settled(old(sys)) ==> Settled(sys)
      ensures var cur := Lookup(old(mem.es), key);
        mem.bytes == old(mem.bytes) + if !ok then 0
                                      else if cur.None? then |key| + 16 else -|cur.value.value|
      ensures sys.hist == old(sys.hist) + if ok then [[Entry(key, [], old(log.nextSeq) + 1, true)]] else []
      ensures sys.acked == if ok then |sys.hist| else old(sys.acked)
    {
      hide Inv, Settled, Reached, LogImage, SkipList.Valid, Do, Flat, Upsert, W.SingleBytes, W.FrameOf, MapOf,
        W.Allocated,
        Replay, PlainMap, ReadMap, Lookup, Sorted, MaxSeqOf, Committed,
        W.NeedsSync;
      ghost var c := W.Single(Entry(key, [], log.nextSeq + 1, true));
      ghost var file, durable := log.file, log.durable;
      OldVersions(sys, key);
      var s := log.AppendDelete(key);
      if s.None? {
        BurnDoes(log.opts, sys, 1);
        Take(Burn(1));
        return false;
      }
      OneEntry(mem.es, Remove(key), log.nextSeq - 1);
      ImageCommit(log.crc, file, durable, frames, sys.disk.log, sys.disk.synced, c, W.NeedsSync(log.opts, log.appends));
      frames := frames + [c];
      CommittedIs(log.opts, sys, [Remove(key)]);
      Commit([Remove(key)]);
      mem.Set(key, [], s.value, true, level);
      return true;
    }

    method Delete(key: Bytes, level: Level, size: nat) returns (r: Status)
      requires Valid() && log.nextSeq + 1 < TWO_64 && |key| < TWO_64
      modifies this`tables, this`ssts, this`sys, this`trace, this`frames, log, mem, mem.Repr(), manif
      ensures Valid() && fresh(mem.Repr() - old(mem.Repr()))
      ensures if key == [] then r == Invalid else if closed then r == IsClosed else if readOnly then r == IsReadOnly
              else if |W.SingleBytes(Entry(key, [], old(log.nextSeq) + 1, true))| > W.MAX_PAYLOAD then r == TooLarge
              else
                var cur := Lookup(old(mem.es), key);
                var total := old(mem.bytes) + if cur.None? then |key| + 16 else -|cur.value.value|;
                Ends(r, total, Upsert(old(mem.es), Entry(key, [], old(log.nextSeq) + 1, true)))
      ensures !Applies(r) ==> mem.es == old(mem.es) && mem.bytes == old(mem.bytes)
      ensures Contents() == if Applies(r) then old(Contents()) - {key} else old(Contents())
      ensures Reads() == if !Applies(r) then old(Reads())
                         else if mem.es == [] then Contents() else old(Reads()) - {key}
      ensures sys.hist == old(sys.hist) + if Applies(r) then [[Entry(key, [], old(log.nextSeq) + 1, true)]] else []
      ensures sys.acked == if Applies(r) then |sys.hist| else old(sys.acked)
      ensures Settled(old(sys)) || (Applies(r) && mem.es == []) ==> Settled(sys)
    {
      hide Inv, Settled, Reached, LogImage, SkipList.Valid, Do, Flat, W.SingleBytes, PlainMap, ReadMap, Tied,
        Upsert, Lookup;
      if |key| == 0 {
        return Invalid;
      }
      if closed {
        return IsClosed;
      }
      if readOnly {
        return IsReadOnly;
      }
      var ok := DeleteLogged(key, level);
      if !ok {
        return TooLarge;
      }
      r := FlushIfFull(size);
    }

    /** Appends one frame for the batch and sets its entries under the numbers just below NextSeq. */
    method WriteLogged(batch: seq<Op>, levels: nat -> Level) returns (ok: bool)
      requires Valid() && !closed && batch != [] && log.nextSeq + |batch| < TWO_64 && Acceptable(batch)
      modifies this`sys, this`trace, this`frames, log, mem, mem.Repr()
      ensures Valid() && fresh(mem.Repr() - old(mem.Repr()))
      ensures ok == (|W.Payload(W.Batch(W.Allocated(batch, old(log.nextSeq))))| <= W.MAX_PAYLOAD)
      ensures mem.es == if ok then Replay(old(mem.es), W.Allocated(batch, old(log.nextSeq))) else old(mem.es)
      ensures Contents() == if ok then Applied(old(Contents()), batch) else old(Contents())
      ensures Reads() == if ok then Applied(old(Reads()), batch) else old(Reads())
      ensures Settled(old(sys)) ==> Settled(sys)
      ensures mem.bytes == old(mem.bytes) + if ok then BatchGrowth(old(mem.es), batch, old(log.nextSeq)) else 0
      ensures sys.hist == if ok then old(sys.hist) + [W.Allocated(batch, old(log.nextSeq))] else old(sys.hist)
      ensures sys.acked == if ok then |sys.hist| else old(sys.acked)
    {
      hide Inv, Settled, Reached, LogImage, SkipList.Valid, Do, Flat, W.Payload, W.FrameOf, MapOf, W.Allocated, Replay,
        Applied, PlainMap, ReadMap, Lookup, Sorted, MaxSeqOf, BatchGrowth, Committed, W.NeedsSync;
      ghost var next, was := log.nextSeq, mem.es;
      ghost var c := W.Batch(W.Allocated(batch, next));
      ghost var file, durable := log.file, log.durable;
      BatchFits(batch, next);
      MemOrder(sys);
      var s := log.AppendBatch(batch);
      if s.None? {
        BurnDoes(log.opts, sys, |batch|);
        Take(Burn(|batch|));
        return false;
      }
      ImageCommit(log.crc, file, durable, frames, sys.disk.log, sys.disk.synced, c, W.NeedsSync(log.opts, log.appends));
      frames := frames + [c];
      CommittedIs(log.opts, sys, batch);
      Commit(batch);
      SetBatch(batch, levels, next);
      return true;
    }

    method SetBatch(batch: seq<Op>, levels: nat -> Level, ghost next: nat)
      requires mem.Valid() && log.Valid() && log.nextSeq == next + |batch|
      requires forall op | op in batch :: op.deleted ==> op.value == []
      requires Sorted(mem.es) && MaxSeqOf(mem.es) <= next
      modifies mem, mem.Repr()
      ensures mem.Valid() && fresh(mem.Repr() - old(mem.Repr()))
      ensures mem.es == Replay(old(mem.es), W.Allocated(batch, next))
      ensures mem.bytes == old(mem.bytes) + BatchGrowth(old(mem.es), batch, next)
    {
      hide SkipList.Valid, Upsert, Replay, W.Allocated, BatchGrowth, Sorted, Lookup, MaxSeqOf;
      ghost var es := W.Allocated(batch, next);
      W.AllocatedAt(batch, next);
      var n := log.NextSeq();
      var last := n - 1;
      var first := last - |batch| + 1;
      ReplayFrom(old(mem.es), es, 0);
      NoGrowth(old(mem.es), next);
      assert batch[..0] == [];
      for i := 0 to |batch|
        invariant mem.Valid() && fresh(mem.Repr() - old(mem.Repr()))
        invariant mem.es == Replay(old(mem.es), es[..i])
        invariant mem.bytes == old(mem.bytes) + BatchGrowth(old(mem.es), batch[..i], next)
      {
        var e := batch[i];
        var seqno := first + i;
        assert es[i] == W.EntryOf(e, seqno) && e in batch;
        ReplayFrom(old(mem.es), es, i);
        GrowthNext(old(mem.es), batch, next, i);
        if e.deleted {
          mem.Set(e.key, [], seqno, true, levels(i));
        } else {
          mem.Set(e.key, e.value, seqno, false, levels(i));
        }
      }
      assert es[..|batch|] == es && batch[..|batch|] == batch;
    }

    /** Applies a batch as one frame: all of it or nothing. */
    method Write(batch: seq<Op>, levels: nat -> Level, size: nat) returns (r: Status)
      requires Valid() && log.nextSeq + |batch| < TWO_64 && Acceptable(batch)
      modifies this`tables, this`ssts, this`sys, this`trace, this`frames, log, mem, mem.Repr(), manif
      ensures Valid() && fresh(mem.Repr() - old(mem.Repr()))
      ensures if batch == [] then r == Done else if closed then r == IsClosed else if readOnly then r == IsReadOnly
              else if |W.Payload(W.Batch(W.Allocated(batch, old(log.nextSeq))))| > W.MAX_PAYLOAD then r == TooLarge
              else Ends(r, old(mem.bytes) + BatchGrowth(old(mem.es), batch, old(log.nextSeq)),
                        Replay(old(mem.es), W.Allocated(batch, old(log.nextSeq))))
      ensures !Applies(r) || batch == [] ==> mem.es == old(mem.es) && mem.bytes == old(mem.bytes)
      ensures Contents() == if Applies(r) then Applied(old(Contents()), batch) else old(Contents())
      ensures Reads() == if !Applies(r) || batch == [] then old(Reads())
                         else if mem.es == [] then Contents() else Applied(old(Reads()), batch)
      ensures if !Applies(r) || batch == [] then sys.hist == old(sys.hist) && sys.acked == old(sys.acked)
              else sys.hist == old(sys.hist) + [W.Allocated(batch, old(log.nextSeq))] && sys.acked == |sys.hist|
      ensures Settled(old(sys)) || (Applies(r) && batch != [] && mem.es == []) ==> Settled(sys)
    {
      hide Inv, Settled, Reached, LogImage, SkipList.Valid, Do, Flat, W.Payload, PlainMap, ReadMap, Tied, W.Allocated,
        Replay, BatchGrowth;
      if |batch| == 0 {
        return Done;
      }
      if closed {
        return IsClosed;
      }
      if readOnly {
        return IsReadOnly;
      }
      var ok := WriteLogged(batch, levels);
      if !ok {
        return TooLarge;
      }
      r := FlushIfFull(size);
    }

    method Sync() returns (r: Status)
      requires Valid()
      modifies this`sys, this`trace, log
      ensures Valid() && Contents() == old(Contents()) && Reads() == old(Reads())
      ensures Settled(old(sys)) ==> Settled(sys)
      ensures r == if closed then IsClosed else Done
      ensures r.Done? ==> log.durable == |log.file| && sys.disk.synced == |sys.disk.log| && sys.acked == |sys.hist|
    {
      hide Inv, Settled, Reached, LogImage, SkipList.Valid, Flat, MapOf;
      if closed {
        return IsClosed;
      }
      ImageSync(log.crc, log.file, log.durable, frames, sys.disk.log, sys.disk.synced);
      var ok := log.Sync();
      Take(Action.Sync);
      return Done;
    }

    /** Empties the memtable unless a nil key is in it; afterwards Get answers what the iterator lists. */
    method Flush(size: nat) returns (r: Status)
      requires Valid()
      modifies this`tables, this`ssts, this`sys, this`trace, this`frames, log, mem, manif
      ensures Valid() && fresh(mem.Repr() - old(mem.Repr())) && Contents() == old(Contents())
      ensures r == if closed then IsClosed else if readOnly then IsReadOnly else if nilKey then Unflushed else Done
      ensures r.Done? ==> mem.es == [] && Reads() == Contents() && Settled(sys)
      ensures !r.Done? ==> mem.es == old(mem.es) && tables == old(tables) && ssts == old(ssts)
      ensures !r.Done? ==> Reads() == old(Reads())
      ensures Settled(old(sys)) ==> Settled(sys)
    {
      hide Inv, Settled, Reached, LogImage, SkipList.Valid, PlainMap, ReadMap, Tied;
      if closed {
        return IsClosed;
      }
      if readOnly {
        return IsReadOnly;
      }
      var flushed := FlushLocked(size);
      return if flushed then Done else Unflushed;
    }

    /** The loop that matches the open tables with their manifest records. */
    method Refs() returns (refs: seq<M.FileMeta>)
      requires M.Distinct(manif.state.files) && |tables| == |manif.state.files|
      requires forall i | 0 <= i < |tables| :: tables[i].name == manif.state.files[i].name
      ensures refs == manif.state.files
    {
      var files := manif.state.files;
      var byName: map<Bytes, M.FileMeta> := map[];
      for i := 0 to |files|
        invariant forall j | 0 <= j < i :: files[j].name in byName && byName[files[j].name] == files[j]
      {
        byName := byName[files[i].name := files[i]];
      }
      refs := [];
      for i := 0 to |tables|
        invariant refs == files[..i]
      {
        refs := refs + [byName[tables[i].name]];
      }
    }

    /** Parts the open tables into those merged, by name, and those kept. */
    method Part(removeSet: set<Bytes>) returns (kept: seq<OpenTable>, removeNames: seq<Bytes>)
      requires HasAll(ssts, manif.state.files) && tables == Opened(manif.state.files, ssts)
      requires forall name | name in removeSet ::
        exists i :: 0 <= i < |manif.state.files| && manif.state.files[i].name == name
      ensures (set n | n in removeNames) == removeSet
      ensures HasAll(ssts, M.Without(manif.state.files, removeSet))
      ensures kept == Opened(M.Without(manif.state.files, removeSet), ssts)
    {
      hide Opened, M.Without;
      var files := manif.state.files;
      kept, removeNames := [], [];
      OpenedWithout(files, 0, removeSet, ssts);
      for i := 0 to |tables|
        invariant HasAll(ssts, M.Without(files[..i], removeSet))
        invariant kept == Opened(M.Without(files[..i], removeSet), ssts)
        invariant forall n | n in removeNames :: n in removeSet
        invariant forall j | 0 <= j < i && files[j].name in removeSet :: files[j].name in removeNames
      {
        var t := tables[i];
        OpenedAt(files, ssts, i);
        OpenedWithout(files, i, removeSet, ssts);
        if t.name in removeSet {
          removeNames := removeNames + [t.name];
        } else {
          kept := kept + [t];
        }
      }
      assert files[..|files|] == files;
      assert forall n | n in removeSet :: n in removeNames;
    }

    method Inputs(picked: seq<M.FileMeta>) returns (inputs: seq<seq<Entry>>)
      requires HasAll(ssts, picked)
      ensures inputs == Protocol.Contents(picked, ssts)
    {
      inputs := [];
      for i := 0 to |picked|
        invariant HasAll(ssts, picked[..i]) && inputs == Protocol.Contents(picked[..i], ssts)
      {
        assert picked[..i + 1][..i] == picked[..i] && picked[i] in picked;
        inputs := inputs + [ssts[picked[i].name]];
      }
      assert picked[..|picked|] == picked;
    }

    /** Removes the merged files one by one. */
    method RemoveFiles(doomed: set<Bytes>)
      requires Reached(log.opts, trace, sys) && Inv(sys) && sys.phase == CompactReplaced(doomed)
      requires sys.disk.ssts == ssts
      modifies this`ssts, this`sys, this`trace
      ensures Reached(log.opts, trace, sys) && Inv(sys) && sys.phase.Idle? && sys.disk.ssts == ssts
      ensures sys.memory == old(sys.memory) && sys.hist == old(sys.hist) && sys.acked == old(sys.acked)
      ensures sys.disk.(ssts := map[]) == old(sys.disk).(ssts := map[])
      ensures ssts == old(ssts) - doomed && (Settled(old(sys)) ==> Settled(sys))
    {
      hide Reached, Inv, Settled;
      var left := doomed;
      while left != {}
        invariant Reached(log.opts, trace, sys) && Inv(sys) && sys.phase == CompactReplaced(left)
        invariant sys.disk.ssts == ssts
        invariant sys.memory == old(sys.memory) && sys.hist == old(sys.hist) && sys.acked == old(sys.acked)
        invariant sys.disk.(ssts := map[]) == old(sys.disk).(ssts := map[])
        invariant Settled(old(sys)) ==> Settled(sys)
        invariant left <= doomed && ssts == old(ssts) - (doomed - left)
        decreases left
      {
        var p :| p in left;
        ssts := ssts - {p};
        Take(CompactRemove(p));
        left := left - {p};
      }
      Take(CompactDone);
    }

    /** CompactDir: merges the picked tables into a new file. */
    method WriteMerged(picked: seq<M.FileMeta>, size: nat) returns (name: Bytes, out: seq<Entry>)
      requires Valid() && |manif.state.files| >= 2 && picked == Picked(manif.state.files) && |picked| >= 2
      modifies this`ssts, this`sys, this`trace, manif
      ensures manif.Valid() && OnDisk() && Reached(log.opts, trace, sys) && Inv(sys)
      ensures HasAll(old(ssts), picked) && out == Merge(Protocol.Contents(picked, old(ssts)))
      ensures name == M.FileName(old(manif.state.nextFile)) && ssts == old(ssts)[name := out]
      ensures sys == MergeWritten(log.opts, old(sys)) && (Settled(old(sys)) ==> Settled(sys))
    {
      hide Inv, Settled, Reached, LogImage, SkipList.Valid, Do, Flat, Opened, M.Without, Merge, Protocol.Contents,
        Picked,
        MetaOf, M.FileName;
      CompactDoes(log.opts, sys, size);
      TablesAreOpen(sys);
      name := manif.AllocFileName();
      Take(CompactAlloc);
      assert OnDisk();
      var inputs := Inputs(picked);
      var res := MergeFiles(inputs, false);
      out := res.value.out;
      ssts := ssts[name := out];
      Take(CompactWrite);
    }

    /** Puts the new table in the place of the merged ones, in memory and in the manifest, and removes their
        files. */
    method Install(picked: seq<M.FileMeta>, size: nat, name: Bytes, out: seq<Entry>)
      requires manif.Valid() && OnDisk() && Reached(log.opts, trace, sys) && Inv(sys)
      requires HasAll(ssts, manif.state.files) && tables == Opened(manif.state.files, ssts)
      requires picked == Picked(manif.state.files) && name in ssts && out == ssts[name]
      requires sys.phase == CompactWritten(name)
      modifies this`tables, this`ssts, this`sys, this`trace, manif
      ensures manif.Valid() && OnDisk() && Reached(log.opts, trace, sys) && Inv(sys)
      ensures sys.phase.Idle? && sys.hist == old(sys.hist) && sys.disk.log == old(sys.disk.log)
      ensures Settled(old(sys)) ==> Settled(sys)
      ensures sys.memory == old(sys.memory).(tables := tables)
      ensures tables == Opened(M.Without(old(manif.state.files), NamesOf(picked)), old(ssts)) + [OpenTable(name, out)]
      ensures ssts == old(ssts) - NamesOf(picked)
      ensures manif.state.files == M.Without(old(manif.state.files), NamesOf(picked)) + [MetaOf(name, 1, out, size)]
      ensures sys.acked == old(sys.acked)
    {
      hide Inv, Settled, Reached, LogImage, Do, Opened, M.Without, Picked, MetaOf, M.IsKept, Chosen, Lookup;
      var removeSet := set f | f in picked :: f.name;
      PickedNames(manif.state.files);
      var kept, removeNames := Part(removeSet);
      kept := kept + [OpenTable(name, out)];
      var f := MetaOf(name, 1, out, size);
      ReplaceDoes(log.opts, sys, size);
      manif.ReplaceFiles(removeNames, [f], f.maxSeq);
      Take(CompactReplace(size));
      assert OnDisk();
      RemoveFiles(removeSet);
      tables := kept;
    }

    /** Merges the picked tables into a new one that takes their place. After each durable effect the protocol
        takes its step. */
    method CompactTables(picked: seq<M.FileMeta>, size: nat)
      requires Valid() && |manif.state.files| >= 2 && picked == Picked(manif.state.files) && |picked| >= 2
      modifies this`tables, this`ssts, this`sys, this`trace, manif
      ensures Valid() && Contents() == old(Contents()) && Reads() == old(Reads()) && |tables| < |old(tables)|
      ensures Settled(old(sys)) ==> Settled(sys)
      ensures sys.hist == old(sys.hist) && sys.acked == old(sys.acked)
      ensures HasAll(old(ssts), picked)
      ensures var name, out := M.FileName(old(manif.state.nextFile)), Merge(Protocol.Contents(picked, old(ssts)));
        && ssts == old(ssts)[name := out] - NamesOf(picked)
        && Compacted(old(manif.state.files), old(tables), manif.state.files, tables, OpenTable(name, out), size)
    {
      hide Inv, Settled, Reached, LogImage, SkipList.Valid, Do, Flat, MapOf, Opened, M.Without, Merge,
        Protocol.Contents, Picked, MetaOf, M.FileName, MergeWritten, Compacted, Sorted, Covers, Lookup, MaxSeqOf;
      CompactDoes(log.opts, sys, size);
      TablesAreOpen(sys);
      CompactionShrinks(manif.state.files, MetaOf([], 1, [], size));
      ghost var files, doomed := manif.state.files, NamesOf(picked);
      var name, out := WriteMerged(picked, size);
      MergeCovers(Protocol.Contents(picked, old(ssts)));
      IsCompacted(files, ssts, name, out, size);
      Install(picked, size, name, out);
    }

    method Compact(size: nat) returns (r: Status)
      requires Valid()
      modifies this`tables, this`ssts, this`sys, this`trace, manif
      ensures Valid() && Contents() == old(Contents()) && Reads() == old(Reads())
      ensures Settled(old(sys)) ==> Settled(sys)
      ensures sys.hist == old(sys.hist) && sys.acked == old(sys.acked)
      ensures r == if closed then IsClosed else if readOnly then IsReadOnly else Done
      ensures r.Done? && |old(tables)| >= compactThreshold && |old(tables)| >= 2 ==> |tables| < |old(tables)|
      ensures if r.Done? && |old(tables)| >= compactThreshold && |old(tables)| >= 2 then
          var files, picked := old(manif.state.files), Picked(old(manif.state.files));
          IsChosen(files, picked) && HasAll(old(ssts), picked) &&
          var name, out := M.FileName(old(manif.state.nextFile)), Merge(Protocol.Contents(picked, old(ssts)));
          && ssts == old(ssts)[name := out] - NamesOf(picked)
          && Compacted(files, old(tables), manif.state.files, tables, OpenTable(name, out), size)
        else tables == old(tables) && ssts == old(ssts) && manif.state.files == old(manif.state.files)
    {
      hide Inv, Settled, Reached, LogImage, SkipList.Valid, Do, Flat, MapOf, Opened, Picked, PlainMap, ReadMap, Lookup,
        Merge, Protocol.Contents, M.FileName, Compacted, IsChosen;
      if closed {
        return IsClosed;
      }
      if readOnly {
        return IsReadOnly;
      }
      if |tables| < compactThreshold {
        return Done;
      }
      TablesAreOpen(sys);
      var refs := Refs();
      var picked := PickInputs(refs);
      if picked.None? {
        return Done;
      }
      CompactTables(picked.value, size);
      return Done;
    }

    /** collectMerged: the live keys of the plain map in ascending order with their values, whatever order the tables
        are visited in and whatever the log hides from Get. */
    method CollectMerged() returns (items: seq<Entry>)
      requires Valid()
      ensures Lists(items, Contents())
    {
      hide Inv, Settled, Reached, LogImage, SkipList.Valid, Flat, IsTop, MapOf;
      NothingSeen();
      var snap := mem.Snapshot();
      var newest := Update(map[], snap, {});
      assert {} + Elements(mem.es) == Elements(mem.es) + AllOf(tables[..0]);
      for i := 0 to |tables|
        invariant Newest(newest, Elements(mem.es) + AllOf(tables[..i]))
      {
        assert tables[..i + 1][..i] == tables[..i];
        ghost var seen := Elements(mem.es) + AllOf(tables[..i]);
        newest := Update(newest, tables[i].entries, seen);
        assert seen + Elements(tables[i].entries) == Elements(mem.es) + AllOf(tables[..i + 1]);
      }
      assert tables[..|tables|] == tables;
      NewestKeys(newest, Elements(mem.es) + AllOf(tables));
      items := ListLive(newest);
      NewestIsPlainMap(sys, newest, items);
    }

    method NewIterator() returns (it: Iterator)
      requires Valid()
      ensures fresh(it) && Lists(it.items, Contents()) && it.idx == -1
    {
      var items := CollectMerged();
      it := new Iterator(items);
    }

    /** Flushes what the memtable holds and closes the log, whether or not the flush succeeds. */
    method Close(size: nat) returns (r: Status)
      requires Valid()
      modifies this`tables, this`ssts, this`closed, this`sys, this`trace, this`frames, log, mem, manif
      ensures Valid() && closed && Contents() == old(Contents())
      ensures r == if old(closed) || readOnly || !nilKey then Done else Unflushed
      ensures old(closed) || (log.closed && log.durable == |log.file|)
      ensures if old(closed) || readOnly || nilKey then mem.es == old(mem.es) && Reads() == old(Reads())
              else mem.es == [] && Reads() == Contents()
      ensures Settled(old(sys)) ==> Settled(sys)
    {
      hide Inv, Settled, Reached, LogImage, SkipList.Valid, PlainMap, ReadMap, AfterFlush;
      if closed {
        return Done;
      }
      closed := true;
      r := Done;
      var n := mem.Len();
      if !readOnly && n > 0 {
        var flushed := FlushLocked(size);
        if !flushed {
          r := Unflushed;
        }
      } else if !readOnly {
        EmptyMemReads(sys);
      }
      CloseLog();
    }

    /** Syncs and closes the log. */
    method CloseLog()
      requires Valid() && closed && !log.closed
      modifies this`sys, this`trace, log
      ensures Valid() && log.closed && log.durable == |log.file|
      ensures Contents() == old(Contents()) && Reads() == old(Reads()) && (Settled(old(sys)) ==> Settled(sys))
    {
      hide Inv, Settled, Reached, LogImage, SkipList.Valid, Flat, MapOf;
      ImageSync(log.crc, log.file, log.durable, frames, sys.disk.log, sys.disk.synced);
      log.Close();
      Take(Action.Sync);
    }

    /** Memtable first, then the newest of all tables. */
    method Get(key: Bytes) returns (r: Answer)
      requires Valid()
      ensures r == if closed then DbClosed else if key in Reads() then Found(Reads()[key]) else NotFound
      ensures Settled(sys) ==> Reads() == Contents()
    {
      hide Inv, Settled, Reached, LogImage, SkipList.Valid, Flat, MapOf, Lookup;
      ReadsAgreeExactly(sys);
      if closed {
        return DbClosed;
      }
      GetReads(sys, key);
      var e := mem.Get(key);
      if e.Some? {
        if e.value.deleted {
          return NotFound;
        }
        return Found(e.value.value);
      }
      var best: Option<Entry> := None;
      var i: nat := |tables|;
      while i > 0
        invariant i <= |tables| && best == Best(tables, i, key)
      {
        i := i - 1;
        var t := Lookup(tables[i].entries, key);
        if t.Some? && (best.None? || t.value.seqno > best.value.seqno) {
          best := t;
        }
      }
      if best.None? || best.value.deleted {
        return NotFound;
      }
      return Found(best.value.value);
    }

    /** What is on disk is what the protocol says, whatever the phase. */
    ghost predicate OnDisk()
      reads this, log, manif
    {
      && LogImage(log.crc, log.file, log.durable, frames, sys.disk.log, sys.disk.synced)
      && sys.disk.manifest == manif.state && sys.disk.ssts == ssts
    }

    /** Writes the memtable to a new table and empties it and the log, or fails because of a nil key. After each durable
        effect the protocol takes its step. */
    method FlushLocked(size: nat) returns (ok: bool)
      requires Valid() && !log.closed
      modifies this`tables, this`ssts, this`sys, this`trace, this`frames, log, mem, manif
      ensures Valid() && fresh(mem.Repr() - old(mem.Repr())) && !log.closed && Contents() == old(Contents())
      ensures ok == !nilKey
      ensures ok ==> mem.es == [] && mem.bytes == 0 && Reads() == Contents() && Settled(sys)
      ensures ok ==> sys == AfterFlush(log.opts, old(sys), size)
      ensures sys.hist == old(sys.hist) && sys.acked == old(sys.acked)
      ensures tables == if old(mem.es) == [] || !ok then old(tables)
                        else old(tables) + [OpenTable(M.FileName(old(manif.state.nextFile)), old(mem.es))]
      ensures if old(mem.es) == [] || !ok then manif.state.files == old(manif.state.files)
              else Recorded(old(manif.state), manif.state.files, old(mem.es), size)
      ensures !ok ==> mem.es == old(mem.es) && mem.bytes == old(mem.bytes)
      ensures !ok ==> ssts == old(ssts) && Reads() == old(Reads())
      ensures Settled(old(sys)) ==> Settled(sys)
    {
      hide Inv, Settled, Reached, LogImage, SkipList.Valid, Do, Flat, MaxSeqOf, MapOf, InWindow, PlainMap, ReadMap,
        Recorded, M.FileName, Lookup, MetaOf, Refused, M.Max;
      FlushSettles(log.opts, sys, size);
      var snap := mem.Snapshot();
      if |snap| == 0 {
        mem.EmptyBytes();
        return true;
      }
      FlushDoes(log.opts, sys, size);
      FlushRecords(log.opts, sys, size);
      RefusedReads(log.opts, sys);
      var name, maxSeq;
      ok, name, maxSeq := WriteTable(snap, size);
      if !ok {
        return false;
      }
      tables := tables + [OpenTable(name, snap)];
      mem.Clear();
      ResetLog(maxSeq);
    }

    /** A new table with the snapshot, made live in the manifest; or, with a nil key, no more than a name used up. */
    method WriteTable(snap: seq<Entry>, size: nat) returns (ok: bool, name: Bytes, maxSeq: nat)
      requires Valid() && snap == mem.es && snap != []
      modifies this`ssts, this`sys, this`trace, manif
      ensures manif.Valid() && OnDisk() && Reached(log.opts, trace, sys) && Inv(sys)
      ensures ok == !nilKey && (Settled(old(sys)) ==> Settled(sys))
      ensures sys == if ok then InWindow(log.opts, old(sys), size) else Refused(log.opts, old(sys))
      ensures !ok ==> ssts == old(ssts)
      ensures ok ==> name == M.FileName(old(manif.state.nextFile)) && maxSeq == MaxSeqOf(snap) && maxSeq <= log.nextSeq
    {
      hide Inv, Settled, Reached, LogImage, SkipList.Valid, Do, Flat, MaxSeqOf, M.FileName, InWindow, Lookup;
      MemOrder(sys);
      FlushDoes(log.opts, sys, size);
      RefusedDoes(log.opts, sys);
      name := manif.AllocFileName();
      Take(FlushAlloc);
      assert OnDisk();
      var minKey, maxKey;
      minKey, maxKey, maxSeq := Bounds(snap);
      if nilKey {
        Take(FlushFail);
        return false, name, maxSeq;
      }
      var f := M.FileMeta(name, 0, minKey.value, maxKey.value, maxSeq, |snap|, size);
      ssts := ssts[name := snap];
      Take(FlushWrite);
      assert OnDisk();
      manif.AddFile(f, maxSeq);
      Take(FlushAdd(size));
      ok := true;
    }

    /** Empties the log, which the new table has made superfluous, and keeps the counter above it. */
    method ResetLog(maxSeq: nat)
      requires log.Valid() && !log.closed && maxSeq < TWO_64
      requires Reached(log.opts, trace, sys) && Inv(sys) && Enabled(sys, FlushReset)
      modifies this`frames, this`sys, this`trace, log
      ensures log.Valid() && !log.closed && Reached(log.opts, trace, sys) && Inv(sys)
      ensures sys == Do(log.opts, old(sys), FlushReset)
      ensures LogImage(log.crc, log.file, log.durable, frames, [], 0)
      ensures log.nextSeq == M.Max(old(log.nextSeq), maxSeq) && log.appends == 0
    {
      hide Inv, Settled, Reached, LogImage, Do;
      log.Reset();
      log.SetNextSeq(maxSeq);
      frames := [];
      NoLog(log.crc);
      Take(FlushReset);
    }

    /** The loop of flushLocked: highest sequence number, first and last key. */
    method Bounds(snap: seq<Entry>) returns (minKey: Option<Bytes>, maxKey: Option<Bytes>, maxSeq: nat)
      requires Sorted(snap) && snap != []
      ensures minKey == Some(snap[0].key) && maxKey == Some(snap[|snap| - 1].key) && maxSeq == MaxSeqOf(snap)
    {
      hide Less, MaxSeqOf, Sorted;
      maxSeq := 0;
      minKey, maxKey := None, None;
      DescribeFirst(snap, 0);
      for i := 0 to |snap|
        invariant maxSeq == MaxSeqOf(snap[..i])
        invariant minKey == if i == 0 then None else Some(snap[0].key)
        invariant maxKey == if i == 0 then None else Some(snap[i - 1].key)
      {
        DescribeFirst(snap, i);
        var e := snap[i];
        if e.seqno > maxSeq {
          maxSeq := e.seqno;
        }
        if minKey.None? || Less(e.key, minKey.value) {
          minKey := Some(e.key);
        }
        if maxKey.None? || Less(maxKey.value, e.key) {
          maxKey := Some(e.key);
        }
      }
    }

    /** Sequence continuity: the counter is raised to what the manifest knows. */
    method RecoverSeq()
      requires log.Valid() && manif.state.logSeq < TWO_64 && forall f | f in manif.state.files :: f.maxSeq < TWO_64
      modifies log`nextSeq
      ensures log.Valid()
      ensures log.nextSeq == M.Max(old(log.nextSeq), M.Max(M.MaxSeqAmong(manif.state.files), manif.state.logSeq))
    {
      var maxSeq := manif.MaxSeqAmongFiles();
      if manif.state.logSeq > maxSeq {
        maxSeq := manif.state.logSeq;
      }
      log.SetNextSeq(maxSeq);
    }

    method OpenTables() returns (ok: bool)
      modifies this`tables
      ensures ok <==> HasAll(ssts, manif.state.files)
      ensures ok ==> tables == Opened(manif.state.files, ssts)
    {
      var files := manif.state.files;
      var readers: seq<OpenTable> := [];
      for i := 0 to |files|
        invariant HasAll(ssts, files[..i]) && readers == Opened(files[..i], ssts)
      {
        assert files[..i + 1][..i] == files[..i] && files[i] in files;
        if files[i].name !in ssts {
          return false;
        }
        readers := readers + [OpenTable(files[i].name, ssts[files[i].name])];
      }
      assert files[..|files|] == files;
      tables := readers;
      return true;
    }

    method ReplayWal(levels: nat -> Level)
      requires log.Valid() && mem.Valid() && mem.es == [] && !log.closed
      requires W.ReplayAll(log.crc, log.file) == Some(W.Records(Flat(sys.disk.log))) && Clean(Flat(sys.disk.log))
      requires !nilKey
      modifies this`nilKey, mem, mem.Repr()
      ensures mem.Valid() && mem.es == Replay([], Flat(sys.disk.log))
      ensures (nilKey <==> Writes(Flat(sys.disk.log), [])) && (nilKey ==> Lookup(mem.es, []).Some?)
      ensures fresh(mem.Repr() - old(mem.Repr()))
    {
      hide Replay, Upsert, W.ReplayAll, W.Records, SkipList.Valid, Flat, Lookup, Writes;
      ghost var es := Flat(sys.disk.log);
      ReplayFrom([], es, 0);
      var recs := log.Replay();
      RecordsAre(es);
      assert es[..0] == [] && !Writes([], []) by {
        WritesNone([]);
      }
      for i := 0 to |recs.value|
        invariant mem.Valid() && mem.es == Replay([], es[..i])
        invariant fresh(mem.Repr() - old(mem.Repr())) && (nilKey <==> Writes(es[..i], []))
      {
        var e := recs.value[i].e;
        assert e == es[i] && e in es;
        ReplayFrom([], es, i);
        WritesNext(es, i, []);
        nilKey := nilKey || |e.key| == 0;
        if e.deleted {
          mem.Set(e.key, [], e.seqno, true, levels(i));
        } else {
          mem.Set(e.key, e.value, e.seqno, false, levels(i));
        }
      }
      assert es[..|es|] == es;
      ReplayHas([], es, []);
    }
  }

  /** Open on the directory of a store that is down: reads the manifest, recovers the log, opens the tables and
      replays the log; fails if a table is missing. What any run and any crash leave opens, as the protocol's open step
      says. */
  method Open(crc: W.Crc, opts: W.Options, readOnly: bool, memtableBytes: int, compactThreshold: nat,
    file: Bytes, manifest: Option<M.State>, ssts: map<Bytes, seq<Entry>>, levels: nat -> Level,
    ghost cs: seq<W.Content>, ghost cut: nat, ghost down: System, ghost trace: seq<Action>)
    returns (r: Option<DB>)
    requires var st := if manifest.Some? then manifest.value else M.INITIAL;
      && DiskImage(crc, cs, cut, file, st, ssts, down)
      && st.logSeq < TWO_64 && forall f | f in st.files :: f.maxSeq < TWO_64
    ensures r.Some? <==> HasAll(ssts, if manifest.Some? then manifest.value.files else [])
    ensures r.Some? ==> var db := r.value;
      && fresh(db) && fresh(db.log) && fresh(db.mem) && fresh(db.mem.Repr()) && fresh(db.manif)
      && db.Up() && !db.closed && !db.log.closed && db.readOnly == readOnly && db.log.opts == opts
      && (db.nilKey <==> Writes(Flat(down.disk.log), []))
      && Enabled(down, Action.Open) && db.sys == Do(opts, down, Action.Open)
    ensures Reached(opts, trace, down) ==>
      && r.Some? && r.value.Valid() && r.value.Contents() == PlainMap(down) && r.value.Reads() == ReadMap(down)
      && (Settled(down) ==> Settled(r.value.sys))
  {
    hide Inv, Settled, Reached, LogImage, SkipList.Valid, Flat, W.ReplayAll, W.Records, W.Scan, W.LogBytes, DB.Up,
      W.Whole, Do, MapOf, Clean, PlainMap, ReadMap, Writes, W.Log.Valid, M.Manifest.Valid, Opened, Replay,
      MaxSeqOf;
    ghost var st := if manifest.Some? then manifest.value else M.INITIAL;
    RecoveredLog(crc, cs, cut, file, st, ssts, down);
    if Reached(opts, trace, down) {
      ReachedOpens(opts, trace, down);
    }
    if Enabled(down, Action.Open) {
      OpenDoes(opts, down);
    }
    var db := new DB(crc, opts, readOnly, memtableBytes, compactThreshold, file, manifest, ssts, down, trace,
      cs[..W.Whole(crc, cs, cut)]);
    var ok := db.Recover(levels);
    if !ok {
      return None;
    }
    return Some(db);
  }

  lemma {:induction false} ReachedOpens(policy: Policy, trace: seq<Action>, down: System)
    requires Reached(policy, trace, down) && down.phase.Down?
    ensures Enabled(down, Action.Open)
    ensures var s := Do(policy, down, Action.Open);
      Inv(s) && PlainMap(s) == PlainMap(down) && ReadMap(s) == ReadMap(down)
    ensures Settled(down) ==> Settled(Do(policy, down, Action.Open))
  {
    hide Inv, Reached, Settled, Do, Flat, MapOf;
    ReachedInv(policy, trace, down);
    OpenKeeps(policy, down);
    OpenDoes(policy, down);
    if Settled(down) {
      StepSettled(policy, down, Action.Open);
    }
  }

  /** Open on an empty directory: an empty store. */
  method OpenNew(crc: W.Crc, opts: W.Options, readOnly: bool, memtableBytes: int, compactThreshold: nat,
    levels: nat -> Level) returns (db: DB)
    ensures fresh(db) && fresh(db.log) && fresh(db.mem) && fresh(db.mem.Repr()) && fresh(db.manif)
    ensures db.Valid() && !db.closed && db.readOnly == readOnly && !db.nilKey
    ensures Settled(db.sys) && db.Contents() == db.Reads() == map[]
  {
    hide Inv, Settled, Reached, DiskImage, Flat, MapOf, Do, DB.Valid, PlainMap, ReadMap, Writes;
    NewStore(crc, opts);
    var r := Open(crc, opts, readOnly, memtableBytes, compactThreshold, [], None, map[], levels, [], 0, INIT, []);
    return r.value;
  }

  lemma {:induction false} NewStore(crc: W.Crc, policy: Policy)
    ensures DiskImage(crc, [], 0, [], M.INITIAL, map[], INIT) && Reached(policy, [], INIT) && Settled(INIT)
    ensures !Writes(Flat(INIT.disk.log), []) && PlainMap(INIT) == ReadMap(INIT) == map[]
  {
    hide Settled, DiskImage, Do, Enabled;
    InitSettled();
    NewImage(crc);
    EmptyLog([]);
    assert Flat(INIT.hist) + Flat(INIT.disk.log) == [];
  }

  lemma {:induction false} NewImage(crc: W.Crc)
    ensures DiskImage(crc, [], 0, [], M.INITIAL, map[], INIT)
  {
    assert W.Whole(crc, [], 0) == 0 && W.LogBytes(crc, []) == [];
  }

  lemma {:induction false} WritesNone(k: Bytes)
    ensures !Writes([], k)
  {
  }

  lemma {:induction false} WritesNext(es: seq<Entry>, i: nat, k: Bytes)
    requires i < |es|
    ensures Writes(es[..i + 1], k) <==> Writes(es[..i], k) || es[i].key == k
  {
    assert es[..i + 1] == es[..i] + [es[i]];
    assert es[i] in es[..i + 1];
  }

  lemma {:induction false} RecordsAre(es: seq<Entry>)
    ensures |W.Records(es)| == |es|
    ensures forall i | 0 <= i < |es| :: W.Records(es)[i].e == es[i]
  {
    if es != [] {
      RecordsAre(es[1..]);
    }
  }

  lemma {:induction false} OpenDoes(policy: Policy, s: System)
    requires Enabled(s, Action.Open)
    ensures var s', d := Do(policy, s, Action.Open), s.disk;
      && s'.disk == d && s'.phase.Idle? && s'.hist == s.hist
      && s'.memory == Memory(Replay([], Flat(d.log)), Opened(d.manifest.files, d.ssts),
           M.Max(MaxSeqOf(Flat(d.log)), M.Max(M.MaxSeqAmong(d.manifest.files), d.manifest.logSeq)), 0)
  {
  }

  lemma {:induction false} DescribeFirst(snap: seq<Entry>, i: nat)
    requires Sorted(snap) && i <= |snap|
    ensures MaxSeqOf(snap[..0]) == 0 && snap[..|snap|] == snap
    ensures i < |snap| ==>
      MaxSeqOf(snap[..i + 1]) == if snap[i].seqno > MaxSeqOf(snap[..i]) then snap[i].seqno else MaxSeqOf(snap[..i])
    ensures 0 < i < |snap| ==> !Less(snap[i].key, snap[0].key) && Less(snap[i - 1].key, snap[i].key)
  {
    hide Compare, Sorted;
    if 0 < i < |snap| {
      SortedFirst(snap, i);
    }
    if i < |snap| {
      assert snap[..i + 1][..i] == snap[..i];
    }
  }

  lemma {:induction false} SortedFirst(snap: seq<Entry>, i: nat)
    requires Sorted(snap) && 0 < i < |snap|
    ensures !Less(snap[i].key, snap[0].key) && Less(snap[i - 1].key, snap[i].key)
  {
    hide Compare;
    CompareIsAntisymmetric(snap[i].key, snap[0].key);
    assert Less(snap[0].key, snap[i].key);
  }

  /** What the API lets into a batch: lengths are 64-bit and a delete has no value. */
  ghost predicate Acceptable(batch: seq<Op>) {
    forall op | op in batch :: |op.key| < TWO_64 && |op.value| < TWO_64 && (op.deleted ==> op.value == [])
  }

  lemma {:induction false} BatchFits(batch: seq<Op>, next: nat)
    requires Acceptable(batch) && next + |batch| < TWO_64
    ensures var c := W.Batch(W.Allocated(batch, next));
      Clean(W.EntriesIn(c)) && (|W.Payload(c)| <= W.MAX_PAYLOAD ==> W.Fits(c))
  {
    hide W.Payload;
    W.AllocatedAt(batch, next);
    var es := W.Allocated(batch, next);
    forall e | e in es ensures EntryFits(e) && (e.deleted ==> e.value == []) {
      var i :| 0 <= i < |es| && es[i] == e;
      assert batch[i] in batch;
    }
  }

  lemma {:induction false} ReplayFrom(t: seq<Entry>, es: seq<Entry>, i: nat)
    requires i <= |es|
    ensures Replay(t, es[..0]) == t
    ensures i < |es| ==> Replay(t, es[..i + 1]) == Upsert(Replay(t, es[..i]), es[i])
  {
    assert i < |es| ==> es[..i + 1][..i] == es[..i];
  }

  /** Without and Opened, one file at a time. */
  lemma {:induction false} OpenedWithout(files: seq<M.FileMeta>, i: nat, names: set<Bytes>, ssts: map<Bytes,
      seq<Entry>>)
    requires HasAll(ssts, files) && i <= |files|
    ensures HasAll(ssts, M.Without(files[..i], names))
    ensures M.Without(files[..0], names) == [] && Opened([], ssts) == []
    ensures i < |files| ==>
      && HasAll(ssts, M.Without(files[..i + 1], names))
      && Opened(M.Without(files[..i + 1], names), ssts) ==
        Opened(M.Without(files[..i], names), ssts)
        + if files[i].name in names then [] else [OpenTable(files[i].name, ssts[files[i].name])]
  {
    if i < |files| {
      assert files[..i + 1][..i] == files[..i] && files[i] in files;
      if files[i].name !in names {
        LiveSnoc(M.Without(files[..i], names), files[i], ssts);
      }
    }
  }

  /** The open tables are those of the manifest, in its order. */
  lemma {:induction false} TablesAreOpen(s: System)
    requires Inv(s) && s.phase.Idle?
    ensures var files, ssts := s.disk.manifest.files, s.disk.ssts;
      && HasAll(ssts, files) && M.Distinct(files) && s.memory.tables == Opened(files, ssts)
      && (forall i | 0 <= i < |files| :: s.memory.tables[i].name == files[i].name)
      && (forall name | name in ssts :: Sorted(ssts[name]))
      && HasAll(ssts, Picked(files))
      && forall name | name in NamesOf(Picked(files)) :: exists i :: 0 <= i < |files| && files[i].name == name
  {
    var files, ssts := s.disk.manifest.files, s.disk.ssts;
    forall i | 0 <= i < |files| ensures s.memory.tables[i].name == files[i].name {
      OpenedAt(files, ssts, i);
    }
  }

  /** The steps up to the merged file. */
  ghost function MergeWritten(policy: Policy, s: System): System
    requires s.phase.Idle? && |s.disk.manifest.files| >= 2 && HasAll(s.disk.ssts, s.disk.manifest.files)
  {
    Do(policy, Do(policy, s, CompactAlloc), CompactWrite)
  }

  lemma {:induction false} CompactDoes(policy: Policy, s: System, size: nat)
    requires Inv(s) && s.phase.Idle? && |s.disk.manifest.files| >= 2
    ensures var d, m, name := s.disk, s.memory, M.FileName(s.disk.manifest.nextFile);
      var files := d.manifest.files;
      HasAll(d.ssts, files) && HasAll(d.ssts, Picked(files)) &&
      var out := Merge(Contents(Picked(files), d.ssts));
      var st, ssts := M.Alloc(d.manifest), d.ssts[name := out];
      Enabled(s, CompactAlloc) &&
      var s1 := Do(policy, s, CompactAlloc);
      Enabled(s1, CompactWrite) &&
      var s2 := MergeWritten(policy, s);
      && s2 == Do(policy, s1, CompactWrite) && s1.disk == d.(manifest := st)
      && s2.disk == d.(manifest := st, ssts := ssts) && s2.memory == m && s2.hist == s.hist && s2.acked == s.acked
      && s2.phase == CompactWritten(name)
      && HasAll(ssts, files) && Opened(files, ssts) == Opened(files, d.ssts)
  {
    var d, name := s.disk, M.FileName(s.disk.manifest.nextFile);
    var files := d.manifest.files;
    M.AllocKeepsNames(d.manifest);
    OpenedSame(files, d.ssts, d.ssts[name := Merge(Contents(Picked(files), d.ssts))]);
  }

  lemma {:induction false} ReplaceDoes(policy: Policy, s: System, size: nat)
    requires s.phase.CompactWritten? && s.phase.name in s.disk.ssts && HasAll(s.disk.ssts, s.disk.manifest.files)
    ensures var d, name, doomed := s.disk, s.phase.name, NamesOf(Picked(s.disk.manifest.files));
      var f := MetaOf(name, 1, d.ssts[name], size);
      HasAll(d.ssts, M.Without(d.manifest.files, doomed)) && Enabled(s, CompactReplace(size)) &&
      var t := Do(policy, s, CompactReplace(size));
      && t.disk == d.(manifest := M.Replace(d.manifest, doomed, [f], f.maxSeq))
      && t.memory == s.memory.(
           tables := Opened(M.Without(d.manifest.files, doomed), d.ssts) + [OpenTable(name, d.ssts[name])])
      && t.phase == CompactReplaced(doomed) && t.hist == s.hist && t.acked == s.acked
  {
  }

  lemma {:induction false} PickedNames(files: seq<M.FileMeta>)
    ensures forall name | name in NamesOf(Picked(files)) :: exists i :: 0 <= i < |files| && files[i].name == name
  {
  }

  /** A crash at any moment of any operation in any run, and whatever part of the unsynced log bytes it leaves: the
      directory is what Open asks for. What comes up lists the plain map of the first frames of the history, among them
      all that were durable, and reads as if the frames left in the log had been written once more. */
  lemma {:induction false} CrashAnywhere(policy: Policy, crc: W.Crc, file: Bytes, durable: nat, cs: seq<W.Content>,
    s: System, trace: seq<Action>, cut: nat)
    requires Reached(policy, trace, s)
    requires LogImage(crc, file, durable, cs, s.disk.log, s.disk.synced) && durable <= cut <= |file|
    ensures var p := W.Whole(crc, cs, cut);
      Enabled(s, Crash(p)) &&
      var down, n := Do(policy, s, Crash(p)), Survivors(s, p);
      && DiskImage(crc, cs, cut, file[..cut], s.disk.manifest, s.disk.ssts, down)
      && Reached(policy, trace + [Crash(p)], down) && n >= Durable(s)
      && PlainMap(down) == MapOf(Flat(s.hist[..n]))
      && ReadMap(down) == MapOf(Flat(s.hist[..n]) + Flat(s.disk.log[..p]))
      && (Safe(s) ==> Settled(down) && ReadMap(down) == PlainMap(down))
  {
    hide Reached, Safe, Settled, Inv, Do, LogImage, DiskImage, Flat, MapOf, W.Whole, W.LogBytes, Survivors, Durable;
    var p := W.Whole(crc, cs, cut);
    ReachedInv(policy, trace, s);
    CrashImage(policy, crc, file, durable, cs, s, cut);
    SurvivorsDurable(s, p);
    ReachedNext(policy, trace, s, Crash(p));
    CrashDoes(policy, s, p);
    if Safe(s) {
      SafeCrash(policy, s, p);
    }
  }

  lemma {:induction false} CrashDoes(policy: Policy, s: System, p: nat)
    requires Enabled(s, Crash(p))
    ensures var down := Do(policy, s, Crash(p));
      down.phase.Down? && down.hist == s.hist[..Survivors(s, p)] && down.disk.log == s.disk.log[..p]
  {
  }

  lemma {:induction false} SafeCrash(policy: Policy, s: System, p: nat)
    requires Safe(s) && Enabled(s, Crash(p))
    ensures var down := Do(policy, s, Crash(p));
      Settled(down) && ReadMap(down) == PlainMap(down)
  {
    hide Flat, MapOf, Inv, Settled, Safe, Do;
    var down := Do(policy, s, Crash(p));
    StepKeepsSafe(policy, s, Crash(p));
    SafeMeans(down);
    CrashDoes(policy, s, p);
    OpenKeeps(policy, down);
    StepSettled(policy, down, Action.Open);
    OpenDoes(policy, down);
    ReadsAgreeExactly(Do(policy, down, Action.Open));
  }

  /** Between operations a settled store is one that no crash can harm. */
  lemma {:induction false} IdleIsSafe(s: System)
    requires Settled(s) && s.phase.Idle?
    ensures Safe(s)
  {
    hide TablesOk, MemoryOk, LogOk, LogSafe, NoRewrite;
  }

  /** A crash of a store between operations. */
  lemma {:induction false} CrashAndReopen(db: DB, cut: nat)
    requires db.Valid() && db.log.durable <= cut <= |db.log.file|
    ensures var p, s := W.Whole(db.log.crc, db.frames, cut), db.sys;
      Enabled(s, Crash(p)) &&
      var down, n := Do(db.log.opts, s, Crash(p)), Survivors(s, p);
      && DiskImage(db.log.crc, db.frames, cut, db.log.file[..cut], db.manif.state, db.ssts, down)
      && Reached(db.log.opts, db.trace + [Crash(p)], down) && n >= Durable(s)
      && PlainMap(down) == MapOf(Flat(s.hist[..n]))
      && ReadMap(down) == MapOf(Flat(s.hist[..n]) + Flat(s.disk.log[..p]))
      && (Settled(s) ==> Settled(down) && ReadMap(down) == PlainMap(down))
  {
    hide Reached, Inv, Settled, Safe, Do, LogImage, DiskImage, Flat, MapOf, W.Whole, W.LogBytes, Survivors, Durable;
    if Settled(db.sys) {
      IdleIsSafe(db.sys);
    }
    CrashAnywhere(db.log.opts, db.log.crc, db.log.file, db.log.durable, db.frames, db.sys, db.trace, cut);
  }

  /** With every write synced, nothing that was written between operations can be lost: all log bytes are durable,
      and what reopens after a crash is the map there was. */
  lemma {:induction false} SyncFullLosesNothing(db: DB, cut: nat)
    requires db.Valid() && db.log.opts == SYNC_FULL && db.log.durable <= cut <= |db.log.file|
    ensures db.log.durable == |db.log.file|
    ensures var p := W.Whole(db.log.crc, db.frames, cut);
      Enabled(db.sys, Crash(p)) &&
      var down := Do(SYNC_FULL, db.sys, Crash(p));
      down.hist == db.sys.hist && PlainMap(down) == ReadMap(down) == db.Contents() == db.Reads()
  {
    hide Safe, Flat, MapOf, W.Whole, W.LogBytes, Do, Inv, Settled, Reached;
    var s := db.sys;
    ReachedFull(db.trace, s);
    SafeMeans(s);
    ReadsAgreeExactly(s);
    assert db.frames[..|db.frames|] == db.frames;
    CrashAndReopen(db, cut);
    CrashDoes(SYNC_FULL, s, W.Whole(db.log.crc, db.frames, cut));
    AllSurvive(s, W.Whole(db.log.crc, db.frames, cut));
  }

  /** Syncing after every N-th append, a crash between operations takes no more frames than were appended since the last
      such sync, fewer than N, whether or not the calls that wrote them have returned: what comes up is the map of all
      the others. */
  lemma {:induction false} SyncBatchLosesFew(db: DB, cut: nat)
    requires db.Valid() && db.log.opts.syncEveryN > 0 && db.log.durable <= cut <= |db.log.file|
    ensures var p, s, n := W.Whole(db.log.crc, db.frames, cut), db.sys, db.log.opts.syncEveryN;
      Enabled(s, Crash(p)) && Lost(s, p) <= db.log.appends % n < n &&
      PlainMap(Do(db.log.opts, s, Crash(p))) == MapOf(Flat(s.hist[..|s.hist| - Lost(s, p)]))
  {
    hide Flat, MapOf, W.Whole, W.LogBytes, Do, Inv, Settled, Survivors, LogImage;
    CrashAndReopen(db, cut);
    SyncBatchLoss(db.log.opts, db.trace, W.Whole(db.log.crc, db.frames, cut));
  }

  /** As long as Sync is not called that is exact: some crash takes as many. */
  lemma {:induction false} SyncBatchLosesExactly(db: DB)
    requires db.Valid() && db.log.opts.syncEveryN > 0 && NoSyncCalls(db.log.opts, INIT, db.trace)
    ensures db.log.durable <= |db.log.file|
    ensures Lost(db.sys, W.Whole(db.log.crc, db.frames, db.log.durable)) == db.log.appends % db.log.opts.syncEveryN
  {
    hide Flat, MapOf, W.Whole, W.LogBytes, Do, Inv, Survivors, LogImage;
    DurableIsSynced(db.log.crc, db.log.file, db.log.durable, db.frames, db.sys.disk.log, db.sys.disk.synced);
    SyncBatchLossExact(db.log.opts, db.trace);
  }

  /** Reopening does not help a store that cannot flush: the log still writes the empty key. */
  lemma {:induction false} NilKeyStays(db: DB)
    requires db.Valid() && db.nilKey
    ensures Writes(Flat(db.sys.disk.log), [])
  {
    hide Replay, Lookup;
    ReplayHas([], Flat(db.sys.disk.log), []);
    assert Lookup([], []).None? by {
      LookupExact([], []);
    }
  }

  lemma {:induction false} ReachedFull(trace: seq<Action>, s: System)
    requires Reached(SYNC_FULL, trace, s)
    ensures Full(s) && Safe(s)
  {
    hide Do;
    InitSettled();
    assert CrashSafe(INIT);
    FullRun(INIT, trace);
  }

  lemma {:induction false} AllSurvive(s: System, p: nat)
    requires Inv(s) && |s.disk.log| <= s.disk.synced <= p
    ensures s.hist[..Survivors(s, p)] == s.hist
  {
    hide Merge, Protocol.Contents, Opened, Replay, Flat, TablesOk, MemoryOk, CrashSafe;
  }

  // ---------- Iterating ----------

  /** Each key comes before the next in dictionary order. */
  ghost predicate Ascending(items: seq<Entry>) {
    forall i, j | 0 <= i < j < |items| :: Precedes(items[i].key, items[j].key)
  }

  lemma {:induction false} AscendingIsSorted(items: seq<Entry>)
    ensures Ascending(items) <==> Sorted(items)
  {
    hide Less, Precedes;
    forall i, j | 0 <= i < j < |items|
      ensures Less(items[i].key, items[j].key) <==> Precedes(items[i].key, items[j].key)
    {
      LessExact(items[i].key, items[j].key);
    }
  }

  /** Exactly the keys of the map with their values, ascending. */
  ghost predicate Lists(items: seq<Entry>, m: map<Bytes, Bytes>) {
    && Ascending(items)
    && (forall e | e in items :: e.key in m && m[e.key] == e.value)
    && (forall k | k in m :: exists e :: e in items && e.key == k)
  }

  /** The newest version seen of every key. */
  ghost predicate Newest(newest: map<Bytes, Entry>, seen: set<Entry>) {
    forall k {:trigger IsTop(seen, k, MapAt(newest, k))} :: IsTop(seen, k, MapAt(newest, k))
  }

  function MapAt(m: map<Bytes, Entry>, k: Bytes): Option<Entry> {
    if k in m then Some(m[k]) else None
  }

  lemma {:induction false} NewestKeys(newest: map<Bytes, Entry>, seen: set<Entry>)
    requires Newest(newest, seen)
    ensures forall k | k in newest :: newest[k].key == k
  {
    forall k | k in newest ensures newest[k].key == k {
      assert IsTop(seen, k, MapAt(newest, k));
    }
  }

  lemma {:induction false} NothingSeen()
    ensures Newest(map[], {})
  {
    forall k ensures IsTop({}, k, MapAt(map[], k)) {
    }
  }

  /** Offers one more version: only a higher sequence number replaces. */
  lemma {:induction false} NewestStep(newest: map<Bytes, Entry>, seen: set<Entry>, e: Entry)
    requires Newest(newest, seen)
    ensures Newest(if e.key in newest && newest[e.key].seqno >= e.seqno then newest else newest[e.key := e], seen + {e})
  {
    var m := if e.key in newest && newest[e.key].seqno >= e.seqno then newest else newest[e.key := e];
    forall k ensures IsTop(seen + {e}, k, MapAt(m, k)) {
      assert IsTop(seen, k, MapAt(newest, k));
    }
  }

  method Update(given: map<Bytes, Entry>, es: seq<Entry>, ghost seen: set<Entry>) returns (newest: map<Bytes, Entry>)
    requires Newest(given, seen)
    ensures Newest(newest, seen + Elements(es))
  {
    hide Newest, MapAt;
    newest := given;
    assert seen + Elements(es[..0]) == seen;
    for i := 0 to |es|
      invariant Newest(newest, seen + Elements(es[..i]))
    {
      var e := es[i];
      NewestStep(newest, seen + Elements(es[..i]), e);
      assert es[..i + 1] == es[..i] + [e];
      assert seen + Elements(es[..i]) + {e} == seen + Elements(es[..i + 1]);
      if !(e.key in newest && newest[e.key].seqno >= e.seqno) {
        newest := newest[e.key := e];
      }
    }
    assert es[..|es|] == es;
  }

  /** The entries that are not deleted, in key order: inserting each where its key belongs stands for collecting
      the keys and sorting them. */
  method ListLive(newest: map<Bytes, Entry>) returns (items: seq<Entry>)
    requires forall k | k in newest :: newest[k].key == k
    ensures Sorted(items)
    ensures forall e :: e in items <==> e.key in newest && newest[e.key] == e && !e.deleted
  {
    hide Put;
    items := [];
    var left := newest.Keys;
    while left != {}
      invariant left <= newest.Keys && Sorted(items)
      invariant forall e :: e in items <==> e.key in newest && e.key !in left && newest[e.key] == e && !e.deleted
      decreases left
    {
      var k :| k in left;
      left := left - {k};
      if !newest[k].deleted {
        PutSorted(items, newest[k]);
        items := Put(items, newest[k]);
      }
    }
  }

  /** What collectMerged lists is the plain map. */
  lemma {:induction false} NewestIsPlainMap(s: System, newest: map<Bytes, Entry>, items: seq<Entry>)
    requires Inv(s) && s.phase.Idle? && Newest(newest, Elements(s.memory.mem) + AllOf(s.memory.tables))
    requires Sorted(items) && forall e :: e in items <==> e.key in newest && newest[e.key] == e && !e.deleted
    ensures Lists(items, PlainMap(s))
  {
    hide Inv, MapOf, Flat, IsTop, Sorted, Ascending;
    AscendingIsSorted(items);
    forall k ensures Shown(MapAt(newest, k)) == Value(PlainMap(s), k) {
      MergedTop(s, k, MapAt(newest, k));
    }
    forall e | e in items ensures e.key in PlainMap(s) && PlainMap(s)[e.key] == e.value {
      assert MapAt(newest, e.key) == Some(e);
    }
    forall k | k in PlainMap(s) ensures exists e :: e in items && e.key == k {
      assert Shown(MapAt(newest, k)).Some?;
      TopHasKey(Elements(s.memory.mem) + AllOf(s.memory.tables), k, MapAt(newest, k));
      assert newest[k] in items && newest[k].key == k;
    }
  }

  lemma {:induction false} TopHasKey(s: set<Entry>, k: Bytes, o: Option<Entry>)
    requires IsTop(s, k, o)
    ensures o.Some? ==> o.value.key == k
  {
  }

  /** The newest version over memtable and tables, in whatever way it was found, shows what the plain map holds. */
  lemma {:induction false} MergedTop(s: System, k: Bytes, o: Option<Entry>)
    requires Inv(s) && s.phase.Idle? && IsTop(Elements(s.memory.mem) + AllOf(s.memory.tables), k, o)
    ensures Shown(o) == Value(PlainMap(s), k)
  {
    MemAndTablesCover(s);
    CoverTop(Elements(s.memory.mem) + AllOf(s.memory.tables), InLog(s.hist), k, o);
    TopIsLastWrite(Flat(s.hist), k, o);
  }

  /** A store reopened after a crash in the window of a flush that kept the first of three unsynced frames: Get answers
      the first value of the key, the iterator lists the second, and the next flush makes Get answer the second. */
  lemma {:induction false} IteratorDisagrees(s: System, e1: Entry, e2: Entry, e3: Entry, size: nat, size': nat)
    requires Inv(s) && s.phase.Idle? && s.disk.synced <= 1
    requires s.hist == s.disk.log == [[e1], [e2], [e3]]
    requires !e1.deleted && !e2.deleted && !e3.deleted && e1.key == e2.key != e3.key
    ensures s.memory.mem != []
    ensures var w := InWindow(SYNC_NONE, s, size);
      && HasAll(w.disk.ssts, w.disk.manifest.files) && w.disk.synced <= 1 <= |w.disk.log|
      && DisagreeAt(Reopened(SYNC_NONE, w, 1), e1.key, e1.value, e2.value, size')
  {
    hide Inv, InWindow, Reopened, MapOf, Flat, DisagreeAt;
    MixedReads(s, e1, e2, e3, size);
    Disagree(Reopened(SYNC_NONE, InWindow(SYNC_NONE, s, size), 1), e1.key, e1.value, e2.value, size');
  }

  /** Get answers a, and so does a new iterator b, as does Get once the store has been flushed. */
  ghost predicate DisagreeAt(r: System, k: Bytes, a: Bytes, b: Bytes, size: nat) {
    && Inv(r) && r.phase.Idle? && Protocol.Get(r.memory, k) == Some(a)
    && (forall o | IsTop(Elements(r.memory.mem) + AllOf(r.memory.tables), k, o) :: Shown(o) == Some(b))
    && Protocol.Get(AfterFlush(SYNC_NONE, r, size).memory, k) == Some(b)
  }

  lemma {:induction false} Disagree(r: System, k: Bytes, a: Bytes, b: Bytes, size: nat)
    requires Inv(r) && r.phase.Idle? && Protocol.Get(r.memory, k) == Some(a) && Value(PlainMap(r), k) == Some(b)
    ensures DisagreeAt(r, k, a, b, size)
  {
    hide Inv, MapOf, Flat, IsTop, Protocol.Get, AfterFlush, Settled;
    forall o | IsTop(Elements(r.memory.mem) + AllOf(r.memory.tables), k, o) ensures Shown(o) == Some(b) {
      MergedTop(r, k, o);
    }
    FlushSettles(SYNC_NONE, r, size);
    var t := AfterFlush(SYNC_NONE, r, size);
    assert Inv(t) by {
      SettledMeans(t);
    }
    GetIsReadMap(t, k);
  }

  lemma {:induction false} SettledMeans(s: System)
    requires Settled(s)
    ensures Inv(s)
  {
    hide Inv;
  }

  /** It happens, in the run of UnsyncedFlushReached. */
  lemma {:induction false} DisagreementReached(k: Bytes, j: Bytes, a: Bytes, b: Bytes, c: Bytes, size: nat, size': nat)
    requires k != j
    ensures Do(SYNC_NONE, INIT, Action.Open).phase.Idle?
    ensures var s := WriteEach(Do(SYNC_NONE, INIT, Action.Open), [Set(k, a), Set(k, b), Set(j, c)]);
      && s.memory.mem != []
      && var w := InWindow(SYNC_NONE, s, size);
        && HasAll(w.disk.ssts, w.disk.manifest.files) && w.disk.synced <= 1 <= |w.disk.log|
        && Reachable(SYNC_NONE, Reopened(SYNC_NONE, w, 1))
        && DisagreeAt(Reopened(SYNC_NONE, w, 1), k, a, b, size')
  {
    hide Inv, WriteEach, InWindow, Reopened, Flat, DisagreeAt, Reachable, Do;
    FreshStore();
    FreshReachable(SYNC_NONE);
    var ops, s := [Set(k, a), Set(k, b), Set(j, c)], Do(SYNC_NONE, INIT, Action.Open);
    var r := WriteEach(s, ops);
    WriteThree(s, ops, r.hist);
    WriteEachLog(s, ops);
    WriteEachKeeps(s, ops);
    WriteEachReachable(s, ops);
    IteratorDisagrees(r, r.hist[0][0], r.hist[1][0], r.hist[2][0], size, size');
    ReopenedReachable(SYNC_NONE, r, size, 1);
  }

  lemma {:induction false} CompareIs(a: Bytes, b: Bytes)
    ensures Compare(a, b) >= 0 <==> !Less(a, b)
  {
  }

  /** The iterator over a snapshot of the merged items. */
  class Iterator {
    const items: seq<Entry>
    var idx: int

    predicate Valid()
      reads this
    {
      0 <= idx < |items|
    }

    constructor (items: seq<Entry>)
      ensures this.items == items && idx == -1
    {
      this.items, idx := items, -1;
    }

    method SeekToFirst()
      modifies this
      ensures idx == if items == [] then -1 else 0
    {
      idx := if |items| == 0 then -1 else 0;
    }

    /** Stands on the first key that does not come before the target. */
    method Seek(target: Bytes)
      requires Ascending(items)
      modifies this
      ensures -1 <= idx < |items| && (idx >= 0 ==> !Precedes(items[idx].key, target))
      ensures forall j | 0 <= j < if idx == -1 then |items| else idx :: Precedes(items[j].key, target)
    {
      hide Less, Precedes, Sorted;
      AscendingIsSorted(items);
      var lo: nat, hi: nat := 0, |items|;
      while lo < hi
        invariant lo <= hi <= |items|
        invariant lo == 0 || Less(items[lo - 1].key, target)
        invariant hi == |items| || !Less(items[hi].key, target)
      {
        var mid := (lo + hi) / 2;
        CompareIs(items[mid].key, target);
        if Compare(items[mid].key, target) >= 0 {
          hi := mid;
        } else {
          lo := mid + 1;
        }
      }
      LowerBoundSplits(items, target, lo);
      forall j | 0 <= j < |items| ensures Precedes(items[j].key, target) <==> j < lo {
        LessExact(items[j].key, target);
      }
      idx := if lo >= |items| then -1 else lo;
    }

    method Next()
      modifies this
      ensures idx == if old(idx) < 0 then old(idx) else if old(idx) + 1 < |items| then old(idx) + 1 else -1
    {
      if idx < 0 {
        return;
      }
      idx := idx + 1;
      if idx >= |items| {
        idx := -1;
      }
    }
  }
}
