/** What every step of the protocol keeps, and what follows for reads and for crashes. */
module Safety {
  import opened Bytes
  import opened Entries
  import opened Compact
  import opened Protocol
  import M = Manifest
  import W = Wal

  // ---------- Flattened logs ----------

  lemma {:induction false} FlatConcat(a: seq<Frame>, b: seq<Frame>)
    ensures Flat(a + b) == Flat(a) + Flat(b)
  {
    if b == [] {
      assert a + b == a;
    } else {
      var n := |b| - 1;
      assert (a + b)[..|a + b| - 1] == a + b[..n];
      FlatConcat(a, b[..n]);
    }
  }

  lemma {:induction false} FlatSnoc(a: seq<Frame>, f: Frame)
    ensures Flat(a + [f]) == Flat(a) + f
  {
    assert (a + [f])[..|a|] == a;
  }

  lemma {:induction false} FlatPrefix(a: seq<Frame>, n: nat)
    requires n <= |a|
    ensures Flat(a[..n]) <= Flat(a)
    ensures Flat(a) == Flat(a[..n]) + Flat(a[n..])
  {
    assert a == a[..n] + a[n..];
    FlatConcat(a[..n], a[n..]);
  }

  lemma {:induction false} FlatMember(log: seq<Frame>, e: Entry)
    ensures e in Flat(log) <==> exists i | 0 <= i < |log| :: e in log[i]
  {
    if log != [] {
      var n := |log| - 1;
      FlatMember(log[..n], e);
      if e in Flat(log[..n]) {
        var i :| 0 <= i < n && e in log[..n][i];
        assert e in log[i];
      }
      if i :| 0 <= i < |log| && e in log[i] {
        assert i == n || e in log[..n][i];
      }
    }
  }

  ghost function InLog(log: seq<Frame>): set<Entry> {
    Elements(Flat(log))
  }

  lemma {:induction false} InLogSplit(log: seq<Frame>, n: nat)
    requires n <= |log|
    ensures InLog(log) == InLog(log[..n]) + InLog(log[n..])
  {
    FlatPrefix(log, n);
    ElementsConcat(Flat(log[..n]), Flat(log[n..]));
  }

  // ---------- Open tables ----------

  function AllOf(tables: seq<OpenTable>): set<Entry> {
    if tables == [] then {} else AllOf(tables[..|tables| - 1]) + Elements(tables[|tables| - 1].entries)
  }

  lemma {:induction false} AllOfMember(tables: seq<OpenTable>, e: Entry)
    ensures e in AllOf(tables) <==> exists i | 0 <= i < |tables| :: e in tables[i].entries
  {
    if tables != [] {
      var n := |tables| - 1;
      AllOfMember(tables[..n], e);
      if e in AllOf(tables[..n]) {
        var i :| 0 <= i < n && e in tables[..n][i].entries;
        assert e in tables[i].entries;
      }
      if i :| 0 <= i < |tables| && e in tables[i].entries {
        assert i == n || e in tables[..n][i].entries;
      }
    }
  }

  lemma {:induction false} AllOfFirst(tables: seq<OpenTable>)
    requires tables != []
    ensures AllOf(tables) == Elements(tables[0].entries) + AllOf(tables[1..])
  {
    var n := |tables| - 1;
    if n > 0 {
      AllOfFirst(tables[..n]);
      assert tables[..n][1..] == tables[1..][..n - 1];
    } else {
      assert tables[..0] == [] && tables[1..] == [];
    }
  }

  lemma {:induction false} OpenedAt(files: seq<M.FileMeta>, ssts: map<Bytes, seq<Entry>>, i: nat)
    requires HasAll(ssts, files) && i < |files|
    ensures Opened(files, ssts)[i] == OpenTable(files[i].name, ssts[files[i].name])
  {
    if i < |files| - 1 {
      OpenedAt(files[..|files| - 1], ssts, i);
    }
  }

  /** All versions in the files a manifest lists. */
  ghost function Live(files: seq<M.FileMeta>, ssts: map<Bytes, seq<Entry>>): (r: set<Entry>)
    requires HasAll(ssts, files)
  {
    AllOf(Opened(files, ssts))
  }

  lemma {:induction false} LiveMember(files: seq<M.FileMeta>, ssts: map<Bytes, seq<Entry>>, e: Entry)
    requires HasAll(ssts, files)
    ensures e in Live(files, ssts) <==> exists f :: f in files && e in ssts[f.name]
  {
    var t := Opened(files, ssts);
    AllOfMember(t, e);
    if e in Live(files, ssts) {
      var i :| 0 <= i < |t| && e in t[i].entries;
      OpenedAt(files, ssts, i);
      assert files[i] in files;
    }
    if f :| f in files && e in ssts[f.name] {
      var i :| 0 <= i < |files| && files[i] == f;
      OpenedAt(files, ssts, i);
      assert e in t[i].entries;
    }
  }

  /** Files that are not live may come and go. */
  lemma {:induction false} OpenedSame(files: seq<M.FileMeta>, a: map<Bytes, seq<Entry>>, b: map<Bytes, seq<Entry>>)
    requires HasAll(a, files) && HasAll(b, files)
    requires forall f | f in files :: a[f.name] == b[f.name]
    ensures Opened(files, a) == Opened(files, b)
  {
    if files != [] {
      OpenedSame(files[..|files| - 1], a, b);
    }
  }

  lemma {:induction false} LiveSnoc(files: seq<M.FileMeta>, f: M.FileMeta, ssts: map<Bytes, seq<Entry>>)
    requires HasAll(ssts, files + [f])
    ensures HasAll(ssts, files)
    ensures Opened(files + [f], ssts) == Opened(files, ssts) + [OpenTable(f.name, ssts[f.name])]
    ensures Live(files + [f], ssts) == Live(files, ssts) + Elements(ssts[f.name])
  {
    assert forall g | g in files :: g in files + [f];
    assert f in files + [f];
    assert (files + [f])[..|files|] == files;
    var t := Opened(files, ssts) + [OpenTable(f.name, ssts[f.name])];
    assert t[..|t| - 1] == Opened(files, ssts);
  }

  /** The table scan finds the newest version over all tables. */
  lemma {:induction false} BestIsTop(tables: seq<OpenTable>, n: nat, k: Bytes)
    requires n <= |tables| && forall t | t in tables :: Sorted(t.entries)
    ensures IsTop(AllOf(tables[n..]), k, Best(tables, n, k))
    decreases |tables| - n
  {
    if n < |tables| {
      BestIsTop(tables, n + 1, k);
      var t := tables[n];
      LookupTop(t.entries, k);
      assert tables[n..][1..] == tables[n + 1..];
      AllOfFirst(tables[n..]);
    }
  }

  // ---------- The invariant ----------

  /** Every version the live tables stand for. */
  ghost function Flushed(hist: seq<Frame>, flushed: nat): set<Entry>
    requires flushed <= |hist|
  {
    InLog(hist[..flushed])
  }

  ghost predicate HistoryOk(hist: seq<Frame>, flushed: nat, acked: nat) {
    flushed <= |hist| && acked <= |hist| && Increasing(Flat(hist))
  }

  /** The log ends in the frames that are not flushed; what comes before them is flushed already. */
  ghost predicate LogOk(log: seq<Frame>, synced: nat, hist: seq<Frame>, flushed: nat)
    requires flushed <= |hist|
  {
    var r := |log| - (|hist| - flushed);
    && synced <= |log|
    && 0 <= r <= |log|
    && log[r..] == hist[flushed..]
    && InLog(log[..r]) <= Flushed(hist, flushed)
    && Increasing(Flat(log))
  }

  /** The live tables are sorted and hold the newest of `all` versions of every key. */
  ghost predicate TablesOk(st: M.State, ssts: map<Bytes, seq<Entry>>, all: set<Entry>) {
    && M.ValidNames(st)
    && HasAll(ssts, st.files)
    && (forall name | name in ssts :: Sorted(ssts[name]) && M.Allocated(name, st.nextFile))
    && (forall f | f in st.files :: f.maxSeq == MaxSeqOf(ssts[f.name]))
    && Covers(Live(st.files, ssts), all)
    && (forall e | e in all :: e.seqno <= st.logSeq)
  }

  /** A cut of the log to any length a crash allows replays no version older than the tables have. */
  ghost predicate LogSafe(log: seq<Frame>, synced: nat, all: set<Entry>) {
    forall p | synced <= p <= |log| :: Dominates(InLog(log[..p]), all)
  }

  /** What memory holds when the store is up. */
  ghost predicate MemoryOk(m: Memory, mem: seq<Entry>, st: M.State, ssts: map<Bytes, seq<Entry>>, hist: seq<Frame>) {
    && (forall e | e in Flat(hist) :: e.seqno <= m.nextSeq)
    && m.mem == mem
    && HasAll(ssts, st.files)
    && m.tables == Opened(st.files, ssts)
  }

  ghost predicate IsNew(st: M.State, name: Bytes) {
    M.Allocated(name, st.nextFile) && forall f | f in st.files :: f.name != name
  }

  ghost predicate PhaseOk(s: System) {
    var st, ssts, m := s.disk.manifest, s.disk.ssts, s.memory;
    match s.phase
    case FlushNamed(name) => IsNew(st, name) && m.mem != []
    case FlushWritten(name) => IsNew(st, name) && m.mem != [] && name in ssts && ssts[name] == m.mem
    case FlushAdded(maxSeq) => s.flushed == |s.hist| && maxSeq <= m.nextSeq
    case CompactNamed(name) => IsNew(st, name)
    case CompactWritten(name) => IsNew(st, name) && name in ssts && HasAll(ssts, st.files)
      && ssts[name] == Merge(Contents(Picked(st.files), ssts))
    case CompactReplaced(doomed) => forall f | f in st.files :: f.name !in doomed
    case _ => true
  }

  /** The invariant of every run, wherever it crashes. */
  ghost predicate Inv(s: System) {
    && HistoryOk(s.hist, s.flushed, s.acked)
    && LogOk(s.disk.log, s.disk.synced, s.hist, s.flushed)
    && TablesOk(s.disk.manifest, s.disk.ssts, Flushed(s.hist, s.flushed))
    && (s.phase.Down? || MemoryOk(s.memory, if s.phase.FlushAdded? then [] else Replay([], Flat(s.disk.log)),
                                  s.disk.manifest, s.disk.ssts, s.hist))
    && PhaseOk(s)
  }

  /** No crash now can leave a log that hides a newer version in a table. */
  ghost predicate CrashSafe(s: System)
    requires s.flushed <= |s.hist|
  {
    LogSafe(s.disk.log, s.disk.synced, Flushed(s.hist, s.flushed))
  }

  /** The log hides nothing, nor does what a crash leaves of it. Only a crash between the manifest update and the
      reset of the log, in a flush, can end this; the next flush brings it back. */
  ghost predicate Settled(s: System) {
    Inv(s) && (s.phase.FlushAdded? || CrashSafe(s))
  }

  lemma {:induction false} InitSettled()
    ensures Settled(INIT)
  {
    hide Flat, InLog, Covers, Dominates, Replay, Merge, Protocol.Contents, Increasing;
    EmptyLog([]);
    CoversItself({});
    DominatesNothing({});
    assert Live([], map[]) == {};
  }

  lemma {:induction false} MemNotEmpty(s: System)
    requires Inv(s) && s.phase.Idle? && Flat(s.disk.log) != []
    ensures s.memory.mem != []
  {
    MemCoversLog(s.disk.log);
    assert Flat(s.disk.log)[0] in InLog(s.disk.log);
    assert Beaten(Elements(s.memory.mem), Flat(s.disk.log)[0]);
  }

  /** A store with nothing in the memtable has nothing in the log that could hide anything. */
  lemma {:induction false} EmptyMemIsSettled(s: System)
    requires Inv(s) && s.phase.Idle? && s.memory.mem == []
    ensures Settled(s) && Flat(s.disk.log) == []
  {
    hide Flat, Replay, TablesOk, Flushed;
    var log := s.disk.log;
    if Flat(log) != [] {
      MemNotEmpty(s);
    }
    forall p | s.disk.synced <= p <= |log| ensures Dominates(InLog(log[..p]), Flushed(s.hist, s.flushed)) {
      InLogSplit(log, p);
      assert InLog(log[..p]) == {};
      DominatesNothing(Flushed(s.hist, s.flushed));
    }
  }

  // ---------- Reads ----------

  /** The memtable of a store that is up, unless it has just been flushed. */
  lemma {:induction false} MemCoversLog(log: seq<Frame>)
    ensures Sorted(Replay([], Flat(log)))
    ensures Covers(Elements(Replay([], Flat(log))), InLog(log))
  {
    ReplayCovers([], Flat(log));
    assert Elements([]) + InLog(log) == InLog(log);
  }

  /** Log and flushed part make up the history. */
  lemma {:induction false} LogAndFlushed(s: System)
    requires HistoryOk(s.hist, s.flushed, s.acked) && LogOk(s.disk.log, s.disk.synced, s.hist, s.flushed)
    ensures InLog(s.disk.log) + Flushed(s.hist, s.flushed) == InLog(s.hist)
  {
    InLogSplit(s.disk.log, Residue(s));
    InLogSplit(s.hist, s.flushed);
  }

  ghost predicate AllSorted(tables: seq<OpenTable>) {
    forall t | t in tables :: Sorted(t.entries)
  }

  lemma {:induction false} OpenedSorted(s: System)
    requires s.flushed <= |s.hist| && TablesOk(s.disk.manifest, s.disk.ssts, Flushed(s.hist, s.flushed))
    ensures AllSorted(Opened(s.disk.manifest.files, s.disk.ssts))
  {
    var files, ssts := s.disk.manifest.files, s.disk.ssts;
    forall t | t in Opened(files, ssts) ensures Sorted(t.entries) {
      var i :| 0 <= i < |files| && Opened(files, ssts)[i] == t;
      OpenedAt(files, ssts, i);
      assert files[i] in files;
    }
  }

  /** Every read finds the newest version there is in memtable and tables. */
  ghost predicate ReadsNewest(m: Memory) {
    forall k :: IsTop(Elements(m.mem) + AllOf(m.tables), k, Found(m, k))
  }

  /** Asking the memtable first is right exactly when no table has a newer version of one of its keys. */
  lemma {:induction false} ReadsNewestExact(m: Memory)
    requires Sorted(m.mem) && AllSorted(m.tables)
    ensures ReadsNewest(m) <==> Dominates(Elements(m.mem), AllOf(m.tables))
  {
    FirstLookExact(m.mem, AllOf(m.tables));
    assert m.tables[0..] == m.tables;
    if Dominates(Elements(m.mem), AllOf(m.tables)) {
      forall k ensures IsTop(Elements(m.mem) + AllOf(m.tables), k, Found(m, k)) {
        BestIsTop(m.tables, 0, k);
        LookupExact(m.mem, k);
      }
    }
    if ReadsNewest(m) {
      forall k, e | Lookup(m.mem, k) == Some(e) ensures IsTop(Elements(m.mem) + AllOf(m.tables), k, Some(e)) {
        assert Found(m, k) == Some(e);
      }
    }
  }

  /** Memtable and tables hold the newest version of every key in the history. */
  lemma {:induction false} MemAndTablesCover(s: System)
    requires Inv(s) && s.phase.Idle?
    ensures Covers(Elements(s.memory.mem) + AllOf(s.memory.tables), InLog(s.hist))
  {
    hide Covers, Replay, Flat, Flushed, Opened;
    MemCoversLog(s.disk.log);
    LogAndFlushed(s);
    var live := Live(s.disk.manifest.files, s.disk.ssts);
    CoversUnion(Elements(s.memory.mem), InLog(s.disk.log), live, Flushed(s.hist, s.flushed));
  }

  /** What Get finds is one of the versions there are. */
  lemma {:induction false} FoundIsVersion(m: Memory, k: Bytes)
    requires Sorted(m.mem) && AllSorted(m.tables)
    ensures Found(m, k).Some? ==> Found(m, k).value in Elements(m.mem) + AllOf(m.tables)
  {
    LookupExact(m.mem, k);
    assert m.tables[0..] == m.tables;
    BestIsTop(m.tables, 0, k);
  }

  /** Every read finds the newest version in the history. */
  ghost predicate ReadsHistory(m: Memory, hist: seq<Frame>) {
    forall k :: IsTop(InLog(hist), k, Found(m, k))
  }

  /** Between operations every read finds the newest version in the history, exactly when no table has a newer version
      of a key of the log. */
  lemma {:induction false} FindsNewest(s: System)
    requires Inv(s) && s.phase.Idle?
    ensures ReadsHistory(s.memory, s.hist) <==> Dominates(InLog(s.disk.log), Flushed(s.hist, s.flushed))
    ensures Settled(s) ==> ReadsHistory(s.memory, s.hist)
  {
    hide Found, Replay, Flat, InLog, Covers, Dominates, Opened, IsTop;
    var m, log, all := s.memory, s.disk.log, Flushed(s.hist, s.flushed);
    MemCoversLog(log);
    OpenedSorted(s);
    MemAndTablesCover(s);
    ReadsNewestExact(m);
    SameReads(m, s.hist);
    DominatesCover(Elements(m.mem), InLog(log), AllOf(m.tables));
    DominatesCovered(InLog(log), AllOf(m.tables), all);
    assert log[..|log|] == log;
  }

  lemma {:induction false} SameReads(m: Memory, hist: seq<Frame>)
    requires Sorted(m.mem) && AllSorted(m.tables) && Covers(Elements(m.mem) + AllOf(m.tables), InLog(hist))
    ensures ReadsNewest(m) <==> ReadsHistory(m, hist)
  {
    hide Found, InLog;
    var seen := Elements(m.mem) + AllOf(m.tables);
    forall k ensures IsTop(seen, k, Found(m, k)) <==> IsTop(InLog(hist), k, Found(m, k)) {
      FoundIsVersion(m, k);
      if IsTop(seen, k, Found(m, k)) {
        CoverTop(seen, InLog(hist), k, Found(m, k));
      }
    }
  }

  lemma {:induction false} DominatesLess(m: set<Entry>, t: set<Entry>, u: set<Entry>)
    requires Dominates(m, t) && u <= t
    ensures Dominates(m, u)
  {
  }

  /** Looking a key up in a replayed log shows its last write. */
  lemma {:induction false} ReplayShows(log: seq<Frame>, k: Bytes)
    requires Increasing(Flat(log))
    ensures var e := Lookup(Replay([], Flat(log)), k);
      && (e.Some? <==> Writes(Flat(log), k))
      && (e.Some? ==> Shown(e) == Value(MapOf(Flat(log)), k))
  {
    hide Replay, Flat, MapOf, LowerBound;
    var mem := Replay([], Flat(log));
    MemCoversLog(log);
    LookupTop(mem, k);
    CoverTop(Elements(mem), InLog(log), k, Lookup(mem, k));
    TopIsLastWrite(Flat(log), k, Lookup(mem, k));
  }

  /** What Get answers in every state between operations, whatever crashes there have been: the store reads as if the
      log had been written once more at the end of the history. */
  lemma {:induction false} GetReads(s: System, k: Bytes)
    requires Inv(s) && s.phase.Idle?
    ensures Get(s.memory, k) == Value(MapOf(Flat(s.hist) + Flat(s.disk.log)), k)
  {
    hide Flat, MapOf, Replay, TablesOk, Lookup, Best;
    var m := s.memory;
    ReplayShows(s.disk.log, k);
    MapConcat(Flat(s.hist), Flat(s.disk.log), k);
    if Lookup(m.mem, k).None? {
      OpenedSorted(s);
      MemCoversLog(s.disk.log);
      MemAndTablesCover(s);
      TablesTop(m, k);
      CoverTop(Elements(m.mem) + AllOf(m.tables), InLog(s.hist), k, Best(m.tables, 0, k));
      TopIsLastWrite(Flat(s.hist), k, Best(m.tables, 0, k));
    }
  }

  /** For a key the memtable does not have, the newest version is in the tables. */
  lemma {:induction false} TablesTop(m: Memory, k: Bytes)
    requires Sorted(m.mem) && AllSorted(m.tables) && Lookup(m.mem, k).None?
    ensures IsTop(Elements(m.mem) + AllOf(m.tables), k, Best(m.tables, 0, k))
  {
    LookupExact(m.mem, k);
    assert m.tables[0..] == m.tables;
    BestIsTop(m.tables, 0, k);
  }

  /** The log gives every key it writes the value the history gives it. */
  ghost predicate Tells(log: seq<Frame>, hist: seq<Frame>) {
    forall k | Writes(Flat(log), k) :: Value(MapOf(Flat(log)), k) == Value(MapOf(Flat(hist)), k)
  }

  /** Every read answers as a plain map does after the writes `es`. */
  ghost predicate Shows(m: Memory, es: seq<Entry>) {
    forall k :: Get(m, k) == Value(MapOf(es), k)
  }

  /** Refinement: between operations Get answers for every key as a plain map that holds its last write, if and only if
      the log gives the keys it writes their values in the history. */
  lemma {:induction false} GetIsPlainMap(s: System)
    requires Inv(s) && s.phase.Idle?
    ensures Shows(s.memory, Flat(s.hist)) <==> Tells(s.disk.log, s.hist)
    ensures Settled(s) ==> Shows(s.memory, Flat(s.hist))
  {
    hide Flat, MapOf, Inv, Get, Found, Writes, CrashSafe;
    forall k ensures Get(s.memory, k) == if Writes(Flat(s.disk.log), k) then Value(MapOf(Flat(s.disk.log)), k)
                                         else Value(MapOf(Flat(s.hist)), k) {
      GetReads(s, k);
      MapConcat(Flat(s.hist), Flat(s.disk.log), k);
    }
    if Settled(s) {
      forall k ensures Get(s.memory, k) == Value(MapOf(Flat(s.hist)), k) {
        SettledGet(s, k);
      }
    }
  }

  lemma {:induction false} SettledGet(s: System, k: Bytes)
    requires Settled(s) && s.phase.Idle?
    ensures Get(s.memory, k) == Value(MapOf(Flat(s.hist)), k)
  {
    hide Flat, MapOf, IsTop, Found, TablesOk, MemoryOk, LogOk, CrashSafe;
    FindsNewest(s);
    TopIsLastWrite(Flat(s.hist), k, Found(s.memory, k));
  }

  // ---------- Steps: writing ----------

  lemma {:induction false} NumberedAt(ops: seq<Op>, next: nat)
    ensures Increasing(W.Allocated(ops, next))
    ensures forall e | e in W.Allocated(ops, next) :: next < e.seqno <= next + |ops|
  {
    W.AllocatedAt(ops, next);
  }

  lemma {:induction false} IncreasingConcat(a: seq<Entry>, b: seq<Entry>, m: nat)
    requires Increasing(a) && Increasing(b)
    requires (forall e | e in a :: e.seqno <= m) && (forall e | e in b :: e.seqno > m)
    ensures Increasing(a + b)
  {
    var c := a + b;
    forall i, j | 0 <= i < j < |c| ensures c[i].seqno < c[j].seqno {
      if i < |a| <= j {
        assert c[i] in a && c[j] in b;
      }
    }
  }

  lemma {:induction false} LogBelow(s: System, next: nat)
    requires HistoryOk(s.hist, s.flushed, s.acked) && LogOk(s.disk.log, s.disk.synced, s.hist, s.flushed)
    requires forall e | e in Flat(s.hist) :: e.seqno <= next
    ensures forall e | e in Flat(s.disk.log) :: e.seqno <= next
  {
    LogAndFlushed(s);
    forall e | e in Flat(s.disk.log) ensures e.seqno <= next {
      assert e in InLog(s.disk.log) + Flushed(s.hist, s.flushed);
      assert e in InLog(s.hist);
    }
  }

  /** Appending a frame of new entries to log and history. */
  lemma {:induction false} AppendKeepsLog(s: System, s': System, f: Frame, next: nat)
    requires HistoryOk(s.hist, s.flushed, s.acked) && LogOk(s.disk.log, s.disk.synced, s.hist, s.flushed)
    requires Increasing(f) && (forall e | e in f :: e.seqno > next) && (forall e | e in Flat(s.hist) :: e.seqno <= next)
    requires s'.hist == s.hist + [f] && s'.disk.log == s.disk.log + [f]
    requires s'.disk.synced == s.disk.synced && s'.flushed == s.flushed && s'.acked <= |s.hist| + 1
    ensures HistoryOk(s'.hist, s'.flushed, s'.acked)
    ensures LogOk(s'.disk.log, s'.disk.synced, s'.hist, s'.flushed)
    ensures Flushed(s'.hist, s'.flushed) == Flushed(s.hist, s.flushed)
  {
    var log, r := s.disk.log, Residue(s);
    FlatSnoc(s.hist, f);
    FlatSnoc(log, f);
    LogBelow(s, next);
    IncreasingConcat(Flat(s.hist), f, next);
    IncreasingConcat(Flat(log), f, next);
    assert s'.hist[..s.flushed] == s.hist[..s.flushed];
    assert s'.disk.log[..r] == log[..r];
    assert s'.disk.log[r..] == log[r..] + [f];
    assert s'.hist[s.flushed..] == s.hist[s.flushed..] + [f];
  }

  lemma {:induction false} AppendKeepsSafe(s: System, s': System, f: Frame, next: nat)
    requires HistoryOk(s.hist, s.flushed, s.acked)
    requires LogOk(s.disk.log, s.disk.synced, s.hist, s.flushed)
    requires LogSafe(s.disk.log, s.disk.synced, Flushed(s.hist, s.flushed))
    requires (forall e | e in f :: e.seqno > next) && (forall e | e in Flat(s.hist) :: e.seqno <= next)
    requires s'.disk.log == s.disk.log + [f] && s'.disk.synced == s.disk.synced
    requires s'.flushed == s.flushed <= |s'.hist| && Flushed(s'.hist, s'.flushed) == Flushed(s.hist, s.flushed)
    ensures LogSafe(s'.disk.log, s'.disk.synced, Flushed(s'.hist, s'.flushed))
  {
    var log := s.disk.log;
    forall p | s.disk.synced <= p <= |log| + 1 ensures Dominates(InLog(s'.disk.log[..p]), Flushed(s.hist, s.flushed)) {
      if p <= |log| {
        assert (log + [f])[..p] == log[..p];
      } else {
        assert (log + [f])[..p] == log + [f] && log[..|log|] == log;
        FlatSnoc(log, f);
        ElementsConcat(Flat(log), f);
        NewerDominates(InLog(log), Elements(f), Flushed(s.hist, s.flushed), next, s.hist, s.flushed);
      }
    }
  }

  lemma {:induction false} CommitKeeps(policy: Policy, s: System, ops: seq<Op>)
    requires Inv(s) && Enabled(s, Commit(ops))
    ensures Inv(Do(policy, s, Commit(ops)))
  {
    hide Flat, Replay, TablesOk, LogOk, LogSafe, Flushed, InLog, W.Allocated, Opened, Merge, Protocol.Contents, Upsert;
    var s', next, f := Do(policy, s, Commit(ops)), s.memory.nextSeq, W.Allocated(ops, s.memory.nextSeq);
    NumberedAt(ops, next);
    AppendKeepsLog(s, s', f, next);
    FlatSnoc(s.hist, f);
    FlatSnoc(s.disk.log, f);
    ReplayConcat([], Flat(s.disk.log), f);
  }

  lemma {:induction false} NewerDominates(m: set<Entry>, n: set<Entry>, t: set<Entry>, next: nat, hist: seq<Frame>,
      k: nat)
    requires Dominates(m, t) && forall e | e in n :: e.seqno > next
    requires k <= |hist| && t == InLog(hist[..k]) && forall e | e in Flat(hist) :: e.seqno <= next
    ensures Dominates(m + n, t)
  {
    InLogSplit(hist, k);
    forall x, y | x in m + n && y in t && x.key == y.key ensures Beaten(m + n, y) {
      assert y in InLog(hist);
      if x in n {
        assert Beats(x, y);
      } else {
        assert Beaten(m, y);
        var z :| z in m && Beats(z, y);
        assert z in m + n;
      }
    }
  }

  lemma {:induction false} SyncKeeps(policy: Policy, s: System)
    requires Inv(s) && Enabled(s, Sync)
    ensures Inv(Do(policy, s, Sync))
  {
    hide TablesOk, MemoryOk, Dominates, Flat, InLog, Flushed, Replay, Opened, Merge, Protocol.Contents;
  }

  lemma {:induction false} BurnKeeps(policy: Policy, s: System, n: nat)
    requires Inv(s) && Enabled(s, Burn(n))
    ensures Inv(Do(policy, s, Burn(n)))
  {
  }

  // ---------- Steps: flushing ----------

  lemma {:induction false} AllocKeeps(policy: Policy, s: System, a: Action)
    requires Inv(s) && Enabled(s, a) && (a.FlushAlloc? || a.CompactAlloc?)
    ensures Inv(Do(policy, s, a))
  {
    hide Flat, InLog, Replay, LogSafe, LogOk, Opened, Merge, Protocol.Contents, Covers, MaxSeqOf, M.FileName;
    M.AllocKeepsNames(s.disk.manifest);
    M.NextNameIsFresh(s.disk.manifest.nextFile);
  }

  /** Files that are not live may be written or removed. */
  lemma {:induction false} TablesKept(st: M.State, a: map<Bytes, seq<Entry>>, b: map<Bytes, seq<Entry>>,
      all: set<Entry>)
    requires TablesOk(st, a, all)
    requires forall f | f in st.files :: f.name in b && b[f.name] == a[f.name]
    requires forall name | name in b :: Sorted(b[name]) && M.Allocated(name, st.nextFile)
    ensures TablesOk(st, b, all)
    ensures Opened(st.files, b) == Opened(st.files, a)
  {
    OpenedSame(st.files, a, b);
  }

  lemma {:induction false} WriteKept(st: M.State, ssts: map<Bytes, seq<Entry>>, all: set<Entry>, name: Bytes,
      t: seq<Entry>)
    requires TablesOk(st, ssts, all) && IsNew(st, name) && Sorted(t)
    ensures TablesOk(st, ssts[name := t], all)
    ensures Opened(st.files, ssts[name := t]) == Opened(st.files, ssts)
  {
    TablesKept(st, ssts, ssts[name := t], all);
  }

  lemma {:induction false} RemoveKept(st: M.State, ssts: map<Bytes, seq<Entry>>, all: set<Entry>, name: Bytes)
    requires TablesOk(st, ssts, all) && forall f | f in st.files :: f.name != name
    ensures TablesOk(st, ssts - {name}, all)
    ensures Opened(st.files, ssts - {name}) == Opened(st.files, ssts)
  {
    TablesKept(st, ssts, ssts - {name}, all);
  }

  lemma {:induction false} FlushWriteKeeps(policy: Policy, s: System)
    requires Inv(s) && Enabled(s, FlushWrite)
    ensures Inv(Do(policy, s, FlushWrite))
  {
    MemCoversLog(s.disk.log);
    WriteKept(s.disk.manifest, s.disk.ssts, Flushed(s.hist, s.flushed), s.phase.name, s.memory.mem);
  }

  lemma {:induction false} MaxSeqCovers(t: seq<Entry>, s: set<Entry>, e: Entry)
    requires Covers(Elements(t), s) && e in s
    ensures e.seqno <= MaxSeqOf(t)
  {
    assert Beaten(Elements(t), e);
    var x :| x in Elements(t) && Beats(x, e);
  }

  /** With the new table live, everything in the history is flushed. */
  lemma {:induction false} FlushAddCovers(s: System)
    requires HistoryOk(s.hist, s.flushed, s.acked)
    requires LogOk(s.disk.log, s.disk.synced, s.hist, s.flushed)
    requires TablesOk(s.disk.manifest, s.disk.ssts, Flushed(s.hist, s.flushed))
    ensures var mem := Replay([], Flat(s.disk.log));
      && Covers(Live(s.disk.manifest.files, s.disk.ssts) + Elements(mem), InLog(s.hist))
      && forall e | e in InLog(s.hist) :: e.seqno <= M.Max(s.disk.manifest.logSeq, MaxSeqOf(mem))
  {
    var mem := Replay([], Flat(s.disk.log));
    MemCoversLog(s.disk.log);
    LogAndFlushed(s);
    CoversUnion(Live(s.disk.manifest.files, s.disk.ssts), Flushed(s.hist, s.flushed), Elements(mem), InLog(s.disk.log));
    assert Flushed(s.hist, s.flushed) + InLog(s.disk.log) == InLog(s.hist);
    forall e | e in InLog(s.hist) ensures e.seqno <= M.Max(s.disk.manifest.logSeq, MaxSeqOf(mem)) {
      if e !in Flushed(s.hist, s.flushed) {
        MaxSeqCovers(mem, InLog(s.disk.log), e);
      }
    }
  }

  lemma {:induction false} FlushAddTables(s: System, f: M.FileMeta)
    requires HistoryOk(s.hist, s.flushed, s.acked)
    requires LogOk(s.disk.log, s.disk.synced, s.hist, s.flushed)
    requires TablesOk(s.disk.manifest, s.disk.ssts, Flushed(s.hist, s.flushed))
    requires IsNew(s.disk.manifest, f.name) && f.name in s.disk.ssts
    requires s.disk.ssts[f.name] == Replay([], Flat(s.disk.log)) && f.maxSeq == MaxSeqOf(s.disk.ssts[f.name])
    ensures var st := M.Add(s.disk.manifest, f, f.maxSeq);
      && TablesOk(st, s.disk.ssts, InLog(s.hist))
      && Opened(st.files, s.disk.ssts)
         == Opened(s.disk.manifest.files, s.disk.ssts) + [OpenTable(f.name, s.disk.ssts[f.name])]
  {
    var st := s.disk.manifest;
    FlushAddCovers(s);
    M.AddKeepsNames(st, f, f.maxSeq);
    LiveSnoc(st.files, f, s.disk.ssts);
  }

  lemma {:induction false} FlushAddLog(s: System, next: nat)
    requires forall e | e in Flat(s.hist) :: e.seqno <= next
    requires HistoryOk(s.hist, s.flushed, s.acked)
    requires LogOk(s.disk.log, s.disk.synced, s.hist, s.flushed)
    ensures Flushed(s.hist, |s.hist|) == InLog(s.hist)
    ensures LogOk(s.disk.log, s.disk.synced, s.hist, |s.hist|)
    ensures MaxSeqOf(Replay([], Flat(s.disk.log))) <= next
  {
    var log := s.disk.log;
    LogAndFlushed(s);
    MemCoversLog(log);
    assert s.hist[..|s.hist|] == s.hist;
    assert log[..|log|] == log && log[|log|..] == [] && s.hist[|s.hist|..] == [];
    forall e | e in Replay([], Flat(log)) ensures e in Flat(s.hist) {
      assert e in Elements(Replay([], Flat(log))) && e in InLog(log) && e in InLog(s.hist);
    }
  }

  lemma {:induction false} FlushAddKeeps(policy: Policy, s: System, size: nat)
    requires Inv(s) && Enabled(s, FlushAdd(size))
    ensures Inv(Do(policy, s, FlushAdd(size)))
  {
    hide Flat, Replay, TablesOk, LogOk, LogSafe, Flushed, InLog, Opened, Merge, Protocol.Contents, MaxSeqOf, Live;
    FlushAddTables(s, MetaOf(s.phase.name, 0, s.memory.mem, size));
    FlushAddLog(s, s.memory.nextSeq);
  }

  lemma {:induction false} FlushFailKeeps(policy: Policy, s: System)
    requires Inv(s) && Enabled(s, FlushFail)
    ensures Inv(Do(policy, s, FlushFail))
  {
    hide TablesOk, MemoryOk, LogOk, HistoryOk;
  }

  lemma {:induction false} FlushResetKeeps(policy: Policy, s: System)
    requires Inv(s) && Enabled(s, FlushReset)
    ensures Inv(Do(policy, s, FlushReset))
  {
    hide TablesOk, Merge, Protocol.Contents, Opened;
    EmptyLog(s.hist);
  }

  lemma {:induction false} EmptyLog(hist: seq<Frame>)
    ensures Flat([]) == [] && InLog([]) == {} && Increasing(Flat([])) && Replay([], Flat([])) == []
    ensures hist[|hist|..] == [] && hist[..|hist|] == hist
  {
  }

  lemma {:induction false} DominatesNothing(t: set<Entry>)
    ensures Dominates({}, t)
  {
  }

  // ---------- Steps: compaction ----------

  lemma {:induction false} ContentsSame(files: seq<M.FileMeta>, a: map<Bytes, seq<Entry>>, b: map<Bytes, seq<Entry>>)
    requires HasAll(a, files) && HasAll(b, files)
    requires forall f | f in files :: a[f.name] == b[f.name]
    ensures Contents(files, a) == Contents(files, b)
  {
    assert forall i | 0 <= i < |files| :: files[i] in files;
  }

  lemma {:induction false} CompactWriteKeeps(policy: Policy, s: System)
    requires Inv(s) && Enabled(s, CompactWrite)
    ensures Inv(Do(policy, s, CompactWrite))
  {
    hide LogOk, TablesOk, Merge, Replay, Flat, Flushed;
    var s', picked := Do(policy, s, CompactWrite), Picked(s.disk.manifest.files);
    var out := Merge(Contents(picked, s.disk.ssts));
    MergeCovers(Contents(picked, s.disk.ssts));
    WriteKept(s.disk.manifest, s.disk.ssts, Flushed(s.hist, s.flushed), s.phase.name, out);
    ContentsSame(picked, s.disk.ssts, s'.disk.ssts);
  }

  lemma {:induction false} VersionsOfContents(files: seq<M.FileMeta>, ssts: map<Bytes, seq<Entry>>, e: Entry)
    requires HasAll(ssts, files)
    ensures e in Versions(Contents(files, ssts)) <==> exists f :: f in files && e in ssts[f.name]
  {
    var c := Contents(files, ssts);
    VersionsMember(c, e);
    if e in Versions(c) {
      var i :| 0 <= i < |c| && e in c[i];
      assert files[i] in files;
    }
    if f :| f in files && e in ssts[f.name] {
      var i :| 0 <= i < |files| && files[i] == f;
      assert e in c[i];
    }
  }

  /** Compaction is invisible: replacing any tables by their merge keeps the newest version of every key. */
  lemma {:induction false} CompactionCovers(files: seq<M.FileMeta>, chosen: seq<M.FileMeta>, ssts: map<Bytes,
      seq<Entry>>)
    requires HasAll(ssts, files) && forall f | f in chosen :: f in files
    ensures var kept := M.Without(files, NamesOf(chosen));
      && HasAll(ssts, kept)
      && Covers(Live(kept, ssts) + Elements(Merge(Contents(chosen, ssts))), Live(files, ssts))
  {
    var kept, ins := M.Without(files, NamesOf(chosen)), Contents(chosen, ssts);
    MergeCovers(ins);
    CoversItself(Live(kept, ssts));
    CoversUnion(Live(kept, ssts), Live(kept, ssts), Elements(Merge(ins)), Versions(ins));
    forall e ensures e in Live(kept, ssts) + Versions(ins) <==> e in Live(files, ssts) {
      LiveMember(kept, ssts, e);
      LiveMember(files, ssts, e);
      VersionsOfContents(chosen, ssts, e);
      if f :| f in files && e in ssts[f.name] {
        if f.name in NamesOf(chosen) {
          var g :| g in chosen && g.name == f.name;
          assert e in ssts[g.name];
        } else {
          assert f in kept;
        }
      }
    }
    assert Live(kept, ssts) + Versions(ins) == Live(files, ssts);
  }

  /** The files after a compaction, with what they hold. */
  lemma {:induction false} CompactReplaceFiles(st: M.State, ssts: map<Bytes, seq<Entry>>, f: M.FileMeta,
      all: set<Entry>)
    requires TablesOk(st, ssts, all) && IsNew(st, f.name) && f.name in ssts
    requires f.maxSeq == MaxSeqOf(ssts[f.name])
    requires ssts[f.name] == Merge(Contents(Picked(st.files), ssts))
    ensures var doomed := NamesOf(Picked(st.files));
      var kept := M.Without(st.files, doomed);
      && TablesOk(M.Replace(st, doomed, [f], f.maxSeq), ssts, all)
      && Opened(kept + [f], ssts) == Opened(kept, ssts) + [OpenTable(f.name, ssts[f.name])]
      && (forall g | g in kept + [f] :: g.name !in doomed)
  {
    var chosen := Picked(st.files);
    var doomed := NamesOf(chosen);
    var kept := M.Without(st.files, doomed);
    M.ReplaceKeepsNames(st, doomed, f, f.maxSeq);
    CompactionCovers(st.files, chosen, ssts);
    LiveSnoc(kept, f, ssts);
    CoversTransitive(Live(kept + [f], ssts), Live(st.files, ssts), all);
    assert forall g | g in chosen :: g in st.files;
  }

  lemma {:induction false} CompactReplaceKeeps(policy: Policy, s: System, size: nat)
    requires Inv(s) && Enabled(s, CompactReplace(size))
    ensures Inv(Do(policy, s, CompactReplace(size)))
  {
    var name := s.phase.name;
    var f := MetaOf(name, 1, s.disk.ssts[name], size);
    CompactReplaceFiles(s.disk.manifest, s.disk.ssts, f, Flushed(s.hist, s.flushed));
  }

  lemma {:induction false} CompactRemoveKeeps(policy: Policy, s: System, name: Bytes)
    requires Inv(s) && Enabled(s, CompactRemove(name))
    ensures Inv(Do(policy, s, CompactRemove(name)))
  {
    hide LogOk, TablesOk, Merge, Contents, Replay, Flat, InLog, LogSafe;
    RemoveKept(s.disk.manifest, s.disk.ssts, Flushed(s.hist, s.flushed), name);
  }

  lemma {:induction false} CompactDoneKeeps(policy: Policy, s: System)
    requires Inv(s) && Enabled(s, CompactDone)
    ensures Inv(Do(policy, s, CompactDone))
  {
  }

  lemma {:induction false} WithoutShorter(files: seq<M.FileMeta>, names: set<Bytes>, i: int, j: int)
    requires -1 <= i <= j < |files| && (i == j ==> i == -1)
    requires i >= 0 ==> files[i].name in names
    requires j >= 0 ==> files[j].name in names
    ensures |M.Without(files, names)| + (if i >= 0 then 1 else 0) + (if j >= 0 then 1 else 0) <= |files|
  {
    if files != [] {
      var n := |files| - 1;
      if j == n {
        WithoutShorter(files[..n], names, -1, if i >= 0 then i else -1);
      } else {
        WithoutShorter(files[..n], names, i, j);
      }
    }
  }

  lemma {:induction false} LevelZeroTwo(files: seq<M.FileMeta>) returns (i: int, j: int)
    ensures |LevelZero(files)| >= 1 ==> 0 <= j < |files| && files[j].level == 0
    ensures |LevelZero(files)| >= 2 ==> 0 <= i < j && files[i].level == 0
  {
    i, j := -1, -1;
    if files != [] {
      var n := |files| - 1;
      i, j := LevelZeroTwo(files[..n]);
      if files[n].level == 0 {
        i, j := j, n;
      }
    }
  }

  /** A compaction of two or more tables leaves fewer tables than it found. */
  lemma {:induction false} CompactionShrinks(files: seq<M.FileMeta>, f: M.FileMeta)
    requires |files| >= 2
    ensures |M.Without(files, NamesOf(Picked(files))) + [f]| < |files|
  {
    var names := NamesOf(Picked(files));
    if |LevelZero(files)| >= 2 {
      var i, j := LevelZeroTwo(files);
      assert files[i] in LevelZero(files) && files[j] in LevelZero(files);
      WithoutShorter(files, names, i, j);
    } else {
      assert files[0] in files[..2] && files[1] in files[..2];
      WithoutShorter(files, names, 0, 1);
    }
  }

  /** A compaction that keeps tombstones leaves the highest sequence number over the files what it was. */
  lemma {:induction false} CompactionKeepsMaxSeq(s: System, e: Entry, size: nat)
    requires Inv(s) && Enabled(s, CompactReplace(size))
    requires e in Live(s.disk.manifest.files, s.disk.ssts)
    ensures e.seqno <= M.MaxSeqAmong(Do(SYNC_FULL, s, CompactReplace(size)).disk.manifest.files)
  {
    var s' := Do(SYNC_FULL, s, CompactReplace(size));
    CompactReplaceKeeps(SYNC_FULL, s, size);
    var files, files', ssts := s.disk.manifest.files, s'.disk.manifest.files, s.disk.ssts;
    var f := MetaOf(s.phase.name, 1, ssts[s.phase.name], size);
    CompactionCovers(files, Picked(files), ssts);
    LiveSnoc(M.Without(files, NamesOf(Picked(files))), f, ssts);
    assert Beaten(Live(files', ssts), e);
    var x :| x in Live(files', ssts) && Beats(x, e);
    LiveMember(files', ssts, x);
    var g :| g in files' && x in ssts[g.name];
    assert g.maxSeq == MaxSeqOf(ssts[g.name]);
  }

  // ---------- Steps: crash and reopen ----------

  lemma {:induction false} IncreasingPrefix(es: seq<Entry>, n: nat)
    requires Increasing(es) && n <= |es|
    ensures Increasing(es[..n])
  {
  }

  lemma {:induction false} CutIncreasing(log: seq<Frame>, n: nat)
    requires Increasing(Flat(log)) && n <= |log|
    ensures Increasing(Flat(log[..n]))
  {
    FlatPrefix(log, n);
    IncreasingPrefix(Flat(log), |Flat(log[..n])|);
  }

  lemma {:induction false} CutKeepsLog(log: seq<Frame>, synced: nat, hist: seq<Frame>, flushed: nat, cut: nat, n: nat)
    requires flushed <= |hist| && LogOk(log, synced, hist, flushed) && synced <= cut <= |log|
    requires var r := |log| - (|hist| - flushed); n == if cut > r then flushed + cut - r else flushed
    ensures n <= |hist| && hist[..n][..flushed] == hist[..flushed]
    ensures LogOk(log[..cut], cut, hist[..n], flushed)
  {
    var r := |log| - (|hist| - flushed);
    CutIncreasing(log, cut);
    assert |hist[flushed..]| == |log[r..]|;
    assert hist[..n][..flushed] == hist[..flushed];
    if cut > r {
      assert log[..cut][r..] == log[r..][..cut - r];
      assert hist[..n][flushed..] == hist[flushed..][..cut - r];
      assert log[..cut][..r] == log[..r];
    } else {
      assert log[..cut][cut..] == [] && hist[..n][flushed..] == [];
      assert log[..cut][..cut] == log[..r][..cut];
      InLogSplit(log[..r], cut);
    }
  }

  lemma {:induction false} CrashKeepsLog(policy: Policy, s: System, cut: nat)
    requires HistoryOk(s.hist, s.flushed, s.acked)
    requires LogOk(s.disk.log, s.disk.synced, s.hist, s.flushed) && Enabled(s, Crash(cut))
    ensures var s' := Do(policy, s, Crash(cut));
      && HistoryOk(s'.hist, s'.flushed, s'.acked)
      && LogOk(s'.disk.log, s'.disk.synced, s'.hist, s'.flushed)
      && Flushed(s'.hist, s'.flushed) == Flushed(s.hist, s.flushed)
  {
    CutKeepsLog(s.disk.log, s.disk.synced, s.hist, s.flushed, cut, Survivors(s, cut));
    CutIncreasing(s.hist, Survivors(s, cut));
  }

  /** A crash keeps the invariant, whatever it leaves of the unsynced frames. */
  lemma {:induction false} CrashKeeps(policy: Policy, s: System, cut: nat)
    requires Inv(s) && Enabled(s, Crash(cut))
    ensures Inv(Do(policy, s, Crash(cut)))
  {
    hide Flat, Replay, TablesOk, Flushed, InLog, Opened, Merge, Protocol.Contents, Increasing;
    CrashKeepsLog(policy, s, cut);
  }

  lemma {:induction false} OpenKeeps(policy: Policy, s: System)
    requires Inv(s) && s.phase.Down?
    ensures Enabled(s, Open) && Inv(Do(policy, s, Open))
  {
    LogAndFlushed(s);
    forall e | e in Flat(s.hist) ensures e.seqno <= Do(policy, s, Open).memory.nextSeq {
      assert e in InLog(s.disk.log) + Flushed(s.hist, s.flushed);
    }
  }

  /** Every step keeps the invariant, a crash at any point and with any cut included. */
  lemma {:induction false} StepKeeps(policy: Policy, s: System, a: Action)
    requires Inv(s) && Enabled(s, a)
    ensures Inv(Do(policy, s, a))
  {
    match a
    case Commit(ops) => CommitKeeps(policy, s, ops);
    case Burn(n) => BurnKeeps(policy, s, n);
    case Sync => SyncKeeps(policy, s);
    case FlushAlloc => AllocKeeps(policy, s, a);
    case FlushWrite => FlushWriteKeeps(policy, s);
    case FlushAdd(size) => FlushAddKeeps(policy, s, size);
    case FlushFail => FlushFailKeeps(policy, s);
    case FlushReset => FlushResetKeeps(policy, s);
    case CompactAlloc => AllocKeeps(policy, s, a);
    case CompactWrite => CompactWriteKeeps(policy, s);
    case CompactReplace(size) => CompactReplaceKeeps(policy, s, size);
    case CompactRemove(name) => CompactRemoveKeeps(policy, s, name);
    case CompactDone => CompactDoneKeeps(policy, s);
    case Crash(cut) => CrashKeeps(policy, s, cut);
    case Open => OpenKeeps(policy, s);
  }

  // ---------- Steps: what the log hides ----------

  lemma {:induction false} CommitSettled(policy: Policy, s: System, ops: seq<Op>)
    requires Settled(s) && Enabled(s, Commit(ops))
    ensures var t := Do(policy, s, Commit(ops)); t.flushed <= |t.hist| && CrashSafe(t)
  {
    hide Flat, Replay, TablesOk, LogOk, LogSafe, Flushed, InLog, W.Allocated;
    var s', next, f := Do(policy, s, Commit(ops)), s.memory.nextSeq, W.Allocated(ops, s.memory.nextSeq);
    NumberedAt(ops, next);
    AppendKeepsLog(s, s', f, next);
    AppendKeepsSafe(s, s', f, next);
  }

  lemma {:induction false} CrashSettled(policy: Policy, s: System, cut: nat)
    requires Inv(s) && Enabled(s, Crash(cut))
    ensures var t := Do(policy, s, Crash(cut));
      && t.flushed <= |t.hist|
      && (CrashSafe(t) <==> Dominates(InLog(s.disk.log[..cut]), Flushed(s.hist, s.flushed)))
  {
    hide Flat, TablesOk, MemoryOk, Flushed, InLog, Dominates, Increasing;
    CrashKeepsLog(policy, s, cut);
    assert s.disk.log[..cut][..cut] == s.disk.log[..cut];
  }

  lemma {:induction false} ResetSettled(policy: Policy, s: System)
    requires Inv(s) && Enabled(s, FlushReset)
    ensures var t := Do(policy, s, FlushReset); t.flushed <= |t.hist| && CrashSafe(t)
  {
    hide TablesOk, MemoryOk, Dominates;
    EmptyLog(s.hist);
    DominatesNothing(Flushed(s.hist, s.flushed));
  }

  /** The other steps leave the frames of log and history alone, and none is synced that was lost. */
  lemma {:induction false} OtherSettled(policy: Policy, s: System, a: Action)
    requires Settled(s) && Enabled(s, a) && !a.Commit? && !a.FlushAdd? && !a.FlushReset? && !a.Crash?
    ensures var t := Do(policy, s, a); t.flushed <= |t.hist| && CrashSafe(t)
  {
    hide TablesOk, MemoryOk, Dominates, Flat, InLog, Flushed, Replay, Opened, Merge, Protocol.Contents, MaxSeqOf,
      MetaOf, W.NeedsSync, W.Allocated, Picked, NamesOf, Increasing, Survivors, M.MaxSeqAmong, HasAll;
  }

  /** Every step keeps a store settled but a crash that leaves a log with an older version of one of its keys than a
      table has. */
  lemma {:induction false} StepSettled(policy: Policy, s: System, a: Action)
    requires Settled(s) && Enabled(s, a)
    requires a.Crash? ==> Dominates(InLog(s.disk.log[..a.cut]), Flushed(s.hist, s.flushed))
    ensures Settled(Do(policy, s, a))
  {
    hide Inv, CrashSafe;
    StepKeeps(policy, s, a);
    match a
    case Commit(ops) => CommitSettled(policy, s, ops);
    case FlushAdd(size) =>
    case FlushReset => ResetSettled(policy, s);
    case Crash(cut) => CrashSettled(policy, s, cut);
    case _ => OtherSettled(policy, s, a);
  }

  /** Every sequence number in memtable, log and live tables is below the next one handed out. */
  lemma {:induction false} SequenceFresh(s: System, e: Entry)
    requires Inv(s) && !s.phase.Down?
    requires e in s.memory.mem || e in Flat(s.disk.log) || e in Live(s.disk.manifest.files, s.disk.ssts)
    ensures e.seqno < s.memory.nextSeq + 1
  {
    MemCoversLog(s.disk.log);
    LogAndFlushed(s);
    assert e in s.memory.mem ==> e in Elements(s.memory.mem) && e in InLog(s.disk.log);
    assert e in InLog(s.disk.log) + Flushed(s.hist, s.flushed);
    assert e in InLog(s.hist);
  }

  /** A sequence number of a key stands for one version only, wherever it is found: in the memtable, the log or a
      live table. */
  lemma {:induction false} VersionsAreUnique(s: System)
    requires Inv(s) && !s.phase.Down?
    ensures Coherent(Elements(s.memory.mem) + InLog(s.disk.log) + Live(s.disk.manifest.files, s.disk.ssts))
  {
    MemCoversLog(s.disk.log);
    LogAndFlushed(s);
    IncreasingCoherent(Flat(s.hist));
    assert Elements(s.memory.mem) <= InLog(s.disk.log);
    assert Elements(s.memory.mem) + InLog(s.disk.log) + Live(s.disk.manifest.files, s.disk.ssts) <= InLog(s.hist);
  }
}
