/** File names and sequence numbers over every run, whatever the sync policy and wherever it crashes: what is handed
    out next has not been used. */
module Counters {
  import opened Bytes
  import opened Entries
  import opened Compact
  import opened Protocol
  import opened Safety
  import opened Crashes
  import M = Manifest
  import W = Wal

  /** Live files are there, sorted, and recorded with what they hold. */
  ghost predicate FilesOk(st: M.State, ssts: map<Bytes, seq<Entry>>) {
    && M.ValidNames(st)
    && (forall f | f in st.files :: f.name in ssts && Describes(f, ssts[f.name]))
    && (forall name | name in ssts :: Sorted(ssts[name]))
  }

  ghost predicate AtMostAll(es: seq<Entry>, next: nat) {
    forall e | e in es :: e.seqno <= next
  }

  /** Nothing the store knows of is above the counter. */
  ghost predicate CounterOk(mem: seq<Entry>, log: seq<Frame>, files: seq<M.FileMeta>, next: nat) {
    && Sorted(mem) && AtMostAll(mem, next) && AtMostAll(Flat(log), next)
    && (forall f | f in files :: f.maxSeq <= next)
  }

  ghost predicate StepOk(s: System) {
    var st, ssts := s.disk.manifest, s.disk.ssts;
    match s.phase
    case FlushNamed(name) => IsNew(st, name)
    case FlushWritten(name) => IsNew(st, name) && name in ssts && ssts[name] == s.memory.mem
    case CompactNamed(name) => IsNew(st, name)
    case CompactWritten(name) => IsNew(st, name) && name in ssts && AtMostAll(ssts[name], s.memory.nextSeq)
    case CompactReplaced(doomed) => forall f | f in st.files :: f.name !in doomed
    case _ => true
  }

  ghost predicate Counted(s: System) {
    && FilesOk(s.disk.manifest, s.disk.ssts) && StepOk(s)
    && (s.phase.Down? || CounterOk(s.memory.mem, s.disk.log, s.disk.manifest.files, s.memory.nextSeq))
  }

  lemma {:induction false} CommitCounted(policy: Policy, s: System, ops: seq<Op>)
    requires Counted(s) && Enabled(s, Commit(ops))
    ensures Counted(Do(policy, s, Commit(ops)))
  {
    hide Replay, Flat, W.Allocated;
    var f := W.Allocated(ops, s.memory.nextSeq);
    NumberedAt(ops, s.memory.nextSeq);
    FlatSnoc(s.disk.log, f);
    ReplayCovers(s.memory.mem, f);
    ReplayBelow(s.memory.mem, f, s.memory.nextSeq + |ops|);
  }

  lemma {:induction false} ReplayBelow(t: seq<Entry>, es: seq<Entry>, next: nat)
    requires Sorted(t) && AtMostAll(t, next) && AtMostAll(es, next)
    ensures Sorted(Replay(t, es)) && AtMostAll(Replay(t, es), next)
  {
    hide Replay;
    ReplayCovers(t, es);
    forall e | e in Replay(t, es) ensures e.seqno <= next {
      assert e in Elements(Replay(t, es));
      assert e in Elements(t) + Elements(es);
    }
  }

  lemma {:induction false} MergeBelow(files: seq<M.FileMeta>, ssts: map<Bytes, seq<Entry>>, next: nat)
    requires HasAll(ssts, files) && forall name | name in ssts :: Sorted(ssts[name])
    requires forall f | f in files :: AtMostAll(ssts[f.name], next)
    ensures Sorted(Merge(Contents(files, ssts))) && AtMostAll(Merge(Contents(files, ssts)), next)
  {
    hide Merge, Versions;
    var ins := Contents(files, ssts);
    assert forall i | 0 <= i < |ins| :: ins[i] == ssts[files[i].name] && files[i] in files;
    MergeCovers(ins);
    forall e | e in Merge(ins) ensures e.seqno <= next {
      assert e in Elements(Merge(ins));
      VersionsOfContents(files, ssts, e);
    }
  }

  lemma {:induction false} AllocCounted(policy: Policy, s: System, a: Action)
    requires Counted(s) && Enabled(s, a) && (a.FlushAlloc? || a.CompactAlloc?)
    ensures Counted(Do(policy, s, a))
  {
    hide Flat, AtMostAll;
    M.AllocKeepsNames(s.disk.manifest);
  }

  lemma {:induction false} FlushCounted(policy: Policy, s: System, a: Action)
    requires Counted(s) && Enabled(s, a) && (a.FlushWrite? || a.FlushAdd? || a.FlushReset?)
    ensures Counted(Do(policy, s, a))
  {
    hide Describes, MetaOf;
    if a.FlushAdd? {
      var f := MetaOf(s.phase.name, 0, s.memory.mem, a.fileSize);
      MetaDescribes(s.phase.name, 0, s.memory.mem, a.fileSize);
      M.AddKeepsNames(s.disk.manifest, f, f.maxSeq);
    }
  }

  lemma {:induction false} MergeCounted(policy: Policy, s: System)
    requires Counted(s) && Enabled(s, CompactWrite)
    ensures Counted(Do(policy, s, CompactWrite))
  {
    hide Flat, Merge, Protocol.Contents, Opened;
    MergeBelow(Picked(s.disk.manifest.files), s.disk.ssts, s.memory.nextSeq);
  }

  lemma {:induction false} ReplaceCounted(policy: Policy, s: System, size: nat)
    requires Counted(s) && Enabled(s, CompactReplace(size))
    ensures Counted(Do(policy, s, CompactReplace(size)))
  {
    hide Flat, Opened, Picked, Sorted, Describes, MetaOf;
    var st, ssts := s.disk.manifest, s.disk.ssts;
    var f := MetaOf(s.phase.name, 1, ssts[s.phase.name], size);
    MetaDescribes(s.phase.name, 1, ssts[s.phase.name], size);
    M.ReplaceKeepsNames(st, NamesOf(Picked(st.files)), f, f.maxSeq);
    PickedInFiles(st.files, f);
  }

  lemma {:induction false} RemoveCounted(policy: Policy, s: System, a: Action)
    requires Counted(s) && Enabled(s, a) && (a.CompactRemove? || a.CompactDone?)
    ensures Counted(Do(policy, s, a))
  {
    hide Flat;
  }

  lemma {:induction false} PickedInFiles(files: seq<M.FileMeta>, f: M.FileMeta)
    requires forall g | g in files :: g.name != f.name
    ensures f.name !in NamesOf(Picked(files))
  {
  }

  lemma {:induction false} CrashCounted(policy: Policy, s: System, cut: nat)
    requires Counted(s) && Enabled(s, Crash(cut))
    ensures Counted(Do(policy, s, Crash(cut)))
  {
    hide Flat;
  }

  lemma {:induction false} OpenCounted(policy: Policy, s: System)
    requires Counted(s) && Enabled(s, Open)
    ensures Counted(Do(policy, s, Open))
  {
    hide Replay, Flat, Opened;
    ReplayBelow([], Flat(s.disk.log), Do(policy, s, Open).memory.nextSeq);
  }

  /** Every step keeps the counters ahead, a crash at any point included. */
  lemma {:induction false} StepCounted(policy: Policy, s: System, a: Action)
    requires Counted(s) && Enabled(s, a)
    ensures Counted(Do(policy, s, a))
  {
    hide FilesOk, CounterOk, Do;
    match a
    case Commit(ops) => CommitCounted(policy, s, ops);
    case Burn(n) => QuietCounted(policy, s, a);
    case Sync => QuietCounted(policy, s, a);
    case FlushAlloc => AllocCounted(policy, s, a);
    case FlushWrite => FlushCounted(policy, s, a);
    case FlushAdd(_) => FlushCounted(policy, s, a);
    case FlushFail => QuietCounted(policy, s, a);
    case FlushReset => FlushCounted(policy, s, a);
    case CompactAlloc => AllocCounted(policy, s, a);
    case CompactWrite => MergeCounted(policy, s);
    case CompactReplace(size) => ReplaceCounted(policy, s, size);
    case CompactRemove(_) => RemoveCounted(policy, s, a);
    case CompactDone => RemoveCounted(policy, s, a);
    case Crash(cut) => CrashCounted(policy, s, cut);
    case Open => OpenCounted(policy, s);
  }

  lemma {:induction false} QuietCounted(policy: Policy, s: System, a: Action)
    requires Counted(s) && Enabled(s, a) && (a.Burn? || a.Sync? || a.FlushFail?)
    ensures Counted(Do(policy, s, a))
  {
    hide Flat;
  }

  lemma {:induction false} RunCounted(policy: Policy, s: System, acts: seq<Action>)
    requires Counted(s) && CanRun(policy, s, acts)
    ensures Counted(Run(policy, s, acts))
    decreases |acts|
  {
    hide Counted, Do;
    if acts != [] {
      StepCounted(policy, s, acts[0]);
      RunCounted(policy, Do(policy, s, acts[0]), acts[1..]);
    }
  }

  /** After any run with any crashes: live names are distinct and were all handed out, the next name is none of
      them, and while the store is up the next sequence number is above every one in the memtable, the log and
      the live tables. */
  lemma {:induction false} NothingReused(policy: Policy, acts: seq<Action>)
    requires CanRun(policy, INIT, acts)
    ensures var s := Run(policy, INIT, acts);
      var st, ssts := s.disk.manifest, s.disk.ssts;
      && M.Distinct(st.files)
      && (forall f | f in st.files :: M.Allocated(f.name, st.nextFile) && f.name != M.FileName(st.nextFile))
      && (forall f | f in st.files :: f.name in ssts && Describes(f, ssts[f.name]))
      && (!s.phase.Down? ==> forall e |
            e in s.memory.mem || e in Flat(s.disk.log) || (exists f :: f in st.files && e in ssts[f.name]) ::
            e.seqno < s.memory.nextSeq + 1)
  {
    hide Do, Flat, MaxSeqOf, Compare;
    RunCounted(policy, INIT, acts) by {
      assert Counted(INIT);
    }
    var s := Run(policy, INIT, acts);
    M.AllocKeepsNames(s.disk.manifest);
  }
}
