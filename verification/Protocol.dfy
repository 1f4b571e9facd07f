/** The store as a state machine: every durable effect of lsmkv/db.go, internal/wal and internal/manifest
    is a step of its own, and a crash may come between any two. Lists of bytes are abstracted to what they
    encode: the log to its frames, an SSTable to its entries. */
module Protocol {
  import opened Bytes
  import opened Entries
  import opened Compact
  import M = Manifest
  import W = Wal

  // ---------- State ----------

  /** What is on disk. The first `synced` frames of the log survive a crash. */
  datatype Disk = Disk(log: seq<Frame>, synced: nat, manifest: M.State, ssts: map<Bytes, seq<Entry>>)

  datatype OpenTable = OpenTable(name: Bytes, entries: seq<Entry>)

  /** What is lost in a crash: memtable, open tables, sequence and append counters. */
  datatype Memory = Memory(mem: seq<Entry>, tables: seq<OpenTable>, nextSeq: nat, appends: nat)

  /** How far the operation under way has come. */
  datatype Phase =
    | Down
    | Idle
    | Unsynced
    | FlushNamed(name: Bytes)
    | FlushWritten(name: Bytes)
    | FlushAdded(maxSeq: nat)
    | CompactNamed(name: Bytes)
    | CompactWritten(name: Bytes)
    | CompactReplaced(doomed: set<Bytes>)

  /** `hist` lists the frames the store has taken and not lost, `flushed` of them are in live tables, and the
      calls that wrote the first `acked` have returned. */
  datatype System = System(disk: Disk, memory: Memory, phase: Phase, hist: seq<Frame>, flushed: nat, acked: nat)

  type Policy = W.Options

  const SYNC_FULL := W.Options(0, true)

  type Op = W.BatchEntry

  function Set(key: Bytes, value: Bytes): Op {
    W.BatchEntry(key, value, false)
  }

  function Remove(key: Bytes): Op {
    W.BatchEntry(key, [], true)
  }

  datatype Action =
    | Commit(ops: seq<Op>)
    | Burn(n: nat)
    | Sync
    | FlushAlloc
    | FlushWrite
    | FlushAdd(fileSize: nat)
    | FlushFail
    | FlushReset
    | CompactAlloc
    | CompactWrite
    | CompactReplace(fileSize: nat)
    | CompactRemove(name: Bytes)
    | CompactDone
    | Crash(cut: nat)
    | Open

  const NO_MEMORY := Memory([], [], 0, 0)
  const INIT := System(Disk([], 0, M.INITIAL, map[]), NO_MEMORY, Down, [], 0, 0)

  // ---------- Steps ----------

  function MetaOf(name: Bytes, level: nat, t: seq<Entry>, fileSize: nat): M.FileMeta {
    var lo, hi := if t == [] then [] else t[0].key, if t == [] then [] else t[|t| - 1].key;
    M.FileMeta(name, level, lo, hi, MaxSeqOf(t), |t|, fileSize)
  }

  /** The record of a file says what the file holds: how many entries, their highest sequence number, least and
      greatest key. */
  ghost predicate Describes(f: M.FileMeta, t: seq<Entry>) {
    && f.entries == |t| && f.maxSeq == MaxSeqOf(t)
    && (forall e | e in t :: !Less(e.key, f.minKey) && !Less(f.maxKey, e.key))
    && (t != [] ==> (exists e :: e in t && e.key == f.minKey) && exists e :: e in t && e.key == f.maxKey)
  }

  lemma {:induction false} MetaDescribes(name: Bytes, level: nat, t: seq<Entry>, size: nat)
    requires Sorted(t)
    ensures var f := MetaOf(name, level, t, size);
      Describes(f, t) && f.name == name && f.level == level && f.fileSize == size && f.maxSeq == MaxSeqOf(t)
  {
    hide MaxSeqOf, Compare;
    OrderIsTotal();
    if t != [] {
      assert t[0] in t && t[|t| - 1] in t;
    }
  }

  predicate HasAll(ssts: map<Bytes, seq<Entry>>, files: seq<M.FileMeta>) {
    forall f | f in files :: f.name in ssts
  }

  /** openTables: a reader on every file of the manifest, in its order. */
  function Opened(files: seq<M.FileMeta>, ssts: map<Bytes, seq<Entry>>): (r: seq<OpenTable>)
    requires HasAll(ssts, files)
    ensures |r| == |files|
  {
    if files == [] then []
    else
      var n := |files| - 1;
      Opened(files[..n], ssts) + [OpenTable(files[n].name, ssts[files[n].name])]
  }

  function Contents(files: seq<M.FileMeta>, ssts: map<Bytes, seq<Entry>>): (r: seq<seq<Entry>>)
    requires HasAll(ssts, files)
    ensures |r| == |files| && forall i | 0 <= i < |r| :: r[i] == ssts[files[i].name]
  {
    if files == [] then [] else Contents(files[..|files| - 1], ssts) + [ssts[files[|files| - 1].name]]
  }

  function NamesOf(files: seq<M.FileMeta>): set<Bytes> {
    set f | f in files :: f.name
  }

  /** How many frames of the log replay what live tables hold already. */
  function Residue(s: System): int {
    |s.disk.log| - (|s.hist| - s.flushed)
  }

  /** How many frames of the history no crash can take away. */
  function Durable(s: System): int {
    s.flushed + if s.disk.synced > Residue(s) then s.disk.synced - Residue(s) else 0
  }

  /** How many frames of the history are left when the log is cut to `cut` frames. */
  function Survivors(s: System, cut: nat): (n: nat)
    ensures n <= |s.hist|
  {
    var n := if cut > Residue(s) then s.flushed + cut - Residue(s) else s.flushed;
    if n > |s.hist| then |s.hist| else n
  }

  predicate Enabled(s: System, a: Action) {
    match a
    case Commit(ops) => s.phase.Idle? && ops != []
    case Burn(_) => s.phase.Idle?
    case Sync => s.phase.Idle? || s.phase.Unsynced?
    case FlushAlloc => s.phase.Idle? && s.memory.mem != []
    case FlushWrite => s.phase.FlushNamed?
    case FlushAdd(_) => s.phase.FlushWritten?
    case FlushFail => s.phase.FlushNamed?
    case FlushReset => s.phase.FlushAdded?
    case CompactAlloc => s.phase.Idle? && |s.disk.manifest.files| >= 2
    case CompactWrite => s.phase.CompactNamed? && HasAll(s.disk.ssts, s.disk.manifest.files)
    case CompactReplace(_) => s.phase.CompactWritten? && s.phase.name in s.disk.ssts
      && HasAll(s.disk.ssts, s.disk.manifest.files)
    case CompactRemove(name) => s.phase.CompactReplaced? && name in s.phase.doomed
    case CompactDone => s.phase.CompactReplaced? && s.phase.doomed == {}
    case Crash(cut) => s.disk.synced <= cut <= |s.disk.log|
    case Open => s.phase.Down? && HasAll(s.disk.ssts, s.disk.manifest.files)
  }

  function Do(policy: Policy, s: System, a: Action): System
    requires Enabled(s, a)
  {
    var d, m := s.disk, s.memory;
    match a
    case Commit(ops) =>
      // Append one frame, then set its entries in the memtable.
      var f := W.Allocated(ops, m.nextSeq);
      var sync := W.NeedsSync(policy, m.appends + 1);
      s.(disk := d.(log := d.log + [f]),
         memory := m.(mem := Replay(m.mem, f), nextSeq := m.nextSeq + |ops|, appends := m.appends + 1),
         phase := if sync then Unsynced else Idle,
         hist := s.hist + [f],
         acked := if sync then s.acked else |s.hist| + 1)
    case Burn(n) =>
      // An append that failed has used up its sequence numbers.
      s.(memory := m.(nextSeq := m.nextSeq + n))
    case Sync =>
      s.(disk := d.(synced := |d.log|), phase := Idle, acked := |s.hist|)
    case FlushAlloc =>
      s.(disk := d.(manifest := M.Alloc(d.manifest)), phase := FlushNamed(M.FileName(d.manifest.nextFile)))
    case FlushWrite =>
      s.(disk := d.(ssts := d.ssts[s.phase.name := m.mem]), phase := FlushWritten(s.phase.name))
    case FlushAdd(size) =>
      var f := MetaOf(s.phase.name, 0, m.mem, size);
      s.(disk := d.(manifest := M.Add(d.manifest, f, f.maxSeq)),
         memory := m.(mem := [], tables := m.tables + [OpenTable(f.name, m.mem)]),
         phase := FlushAdded(f.maxSeq),
         flushed := |s.hist|)
    case FlushFail =>
      // The writer has refused a key: only the name is used up.
      s.(phase := Idle)
    case FlushReset =>
      s.(disk := d.(log := [], synced := 0),
         memory := m.(nextSeq := M.Max(m.nextSeq, s.phase.maxSeq), appends := 0),
         phase := Idle)
    case CompactAlloc =>
      s.(disk := d.(manifest := M.Alloc(d.manifest)), phase := CompactNamed(M.FileName(d.manifest.nextFile)))
    case CompactWrite =>
      var out := Merge(Contents(Picked(d.manifest.files), d.ssts));
      s.(disk := d.(ssts := d.ssts[s.phase.name := out]), phase := CompactWritten(s.phase.name))
    case CompactReplace(size) =>
      var doomed := NamesOf(Picked(d.manifest.files));
      var f := MetaOf(s.phase.name, 1, d.ssts[s.phase.name], size);
      var kept := Opened(M.Without(d.manifest.files, doomed), d.ssts);
      s.(disk := d.(manifest := M.Replace(d.manifest, doomed, [f], f.maxSeq)),
         memory := m.(tables := kept + [OpenTable(f.name, d.ssts[f.name])]),
         phase := CompactReplaced(doomed))
    case CompactRemove(name) =>
      s.(disk := d.(ssts := d.ssts - {name}), phase := CompactReplaced(s.phase.doomed - {name}))
    case CompactDone =>
      s.(phase := Idle)
    case Crash(cut) =>
      // Memory goes, and all but a prefix of the log that holds at least what was synced.
      var hist := s.hist[..Survivors(s, cut)];
      s.(disk := d.(log := d.log[..cut], synced := cut), memory := NO_MEMORY, phase := Down,
         hist := hist, acked := if s.acked < |hist| then s.acked else |hist|)
    case Open =>
      var next := M.Max(MaxSeqOf(Flat(d.log)), M.Max(M.MaxSeqAmong(d.manifest.files), d.manifest.logSeq));
      s.(memory := Memory(Replay([], Flat(d.log)), Opened(d.manifest.files, d.ssts), next, 0), phase := Idle)
  }

  // ---------- Reading ----------

  /** The loop of Get over the tables, last to first, down to index n. */
  function Best(tables: seq<OpenTable>, n: nat, k: Bytes): Option<Entry>
    requires n <= |tables|
    decreases |tables| - n
  {
    if n == |tables| then None
    else
      var best, e := Best(tables, n + 1, k), Lookup(tables[n].entries, k);
      if e.Some? && (best.None? || e.value.seqno > best.value.seqno) then e else best
  }

  /** The version Get finds: the memtable's if it has one. */
  function Found(m: Memory, k: Bytes): Option<Entry> {
    var e := Lookup(m.mem, k);
    if e.Some? then e else Best(m.tables, 0, k)
  }

  function Get(m: Memory, k: Bytes): Option<Bytes> {
    Shown(Found(m, k))
  }
}
