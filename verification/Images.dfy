/** Which bytes on disk stand for which state of the protocol, and that a cut of the bytes is a crash of the
    protocol. */
module Images {
  import opened Bytes
  import opened Entries
  import opened Protocol
  import opened Safety
  import opened Crashes
  import W = Wal
  import M = Manifest

  function FramesOf(cs: seq<W.Content>): (r: seq<Frame>)
    ensures |r| == |cs|
  {
    if cs == [] then [] else FramesOf(cs[..|cs| - 1]) + [W.EntriesIn(cs[|cs| - 1])]
  }

  lemma {:induction false} FramesSnoc(cs: seq<W.Content>, c: W.Content)
    ensures FramesOf(cs + [c]) == FramesOf(cs) + [W.EntriesIn(c)]
  {
    assert (cs + [c])[..|cs|] == cs;
  }

  lemma {:induction false} FramesPrefix(cs: seq<W.Content>, p: nat)
    requires p <= |cs|
    ensures FramesOf(cs[..p]) == FramesOf(cs)[..p]
  {
    if p < |cs| {
      assert cs[..|cs| - 1][..p] == cs[..p];
      FramesPrefix(cs[..|cs| - 1], p);
    } else {
      assert cs[..p] == cs;
    }
  }

  lemma {:induction false} EntriesSnoc(cs: seq<W.Content>, c: W.Content)
    ensures W.AllEntries(cs + [c]) == W.AllEntries(cs) + W.EntriesIn(c)
  {
    hide W.EntriesIn;
    if cs == [] {
      assert [c][1..] == [] && cs + [c] == [c];
      assert W.AllEntries([c]) == W.EntriesIn(c) + W.AllEntries([]);
    } else {
      EntriesSnoc(cs[1..], c);
      assert (cs + [c])[1..] == cs[1..] + [c];
    }
  }

  lemma {:induction false} FlatFrames(cs: seq<W.Content>)
    ensures Flat(FramesOf(cs)) == W.AllEntries(cs)
  {
    if cs != [] {
      var n := |cs| - 1;
      FlatFrames(cs[..n]);
      EntriesSnoc(cs[..n], cs[n]);
      assert cs == cs[..n] + [cs[n]];
    }
  }

  /** A deleted entry has no value: Delete and WriteBatch.Delete take none. */
  ghost predicate Clean(es: seq<Entry>) {
    forall e | e in es && e.deleted :: e.value == []
  }

  /** The bytes of the log file and how many of them are on stable storage, against the frames. */
  ghost predicate LogImage(crc: W.Crc, file: Bytes, durable: nat, cs: seq<W.Content>, log: seq<Frame>, synced: nat) {
    && W.AllFit(cs) && Clean(W.AllEntries(cs))
    && file == W.LogBytes(crc, cs) && log == FramesOf(cs)
    && synced <= |cs| && durable == |W.LogBytes(crc, cs[..synced])|
  }

  /** What the log holds went through a frame. */
  lemma {:induction false} LogStorable(cs: seq<W.Content>, e: Entry)
    requires W.AllFit(cs) && e in W.AllEntries(cs)
    ensures W.Storable(e)
  {
    hide W.Fits, W.EntriesIn, W.Storable;
    if e in W.EntriesIn(cs[0]) {
      W.FrameStorable(cs[0], e);
    } else {
      LogStorable(cs[1..], e);
    }
  }

  lemma {:induction false} NoLog(crc: W.Crc)
    ensures LogImage(crc, [], 0, [], [], 0)
  {
  }

  lemma {:induction false} ImageAppend(
    crc: W.Crc, file: Bytes, durable: nat, cs: seq<W.Content>, log: seq<Frame>, synced: nat, c: W.Content)
    requires LogImage(crc, file, durable, cs, log, synced) && W.Fits(c) && Clean(W.EntriesIn(c))
    ensures LogImage(crc, file + W.FrameOf(crc, c), durable, cs + [c], log + [W.EntriesIn(c)], synced)
  {
    hide W.FrameOf, W.Fits, W.EntriesIn, W.AllEntries;
    FramesSnoc(cs, c);
    EntriesSnoc(cs, c);
    W.LogConcat(crc, cs, [c]);
    assert [c][1..] == [] && [c][0] == c;
    assert W.LogBytes(crc, [c]) == W.FrameOf(crc, c) + W.LogBytes(crc, []);
    assert (cs + [c])[..synced] == cs[..synced];
  }

  lemma {:induction false} ImageSync(
    crc: W.Crc, file: Bytes, durable: nat, cs: seq<W.Content>, log: seq<Frame>, synced: nat)
    requires LogImage(crc, file, durable, cs, log, synced)
    ensures LogImage(crc, file, |file|, cs, log, |log|)
  {
    assert cs[..|cs|] == cs;
  }

  /** One more frame, synced or not. */
  lemma {:induction false} ImageCommit(
    crc: W.Crc, file: Bytes, durable: nat, cs: seq<W.Content>, log: seq<Frame>, synced: nat, c: W.Content, sync: bool)
    requires LogImage(crc, file, durable, cs, log, synced) && W.Fits(c) && Clean(W.EntriesIn(c))
    ensures var file' := file + W.FrameOf(crc, c);
      LogImage(crc, file', if sync then |file'| else durable, cs + [c], log + [W.EntriesIn(c)],
               if sync then |log| + 1 else synced)
  {
    hide LogImage, W.Fits, W.EntriesIn, W.FrameOf, Clean;
    ImageAppend(crc, file, durable, cs, log, synced, c);
    ImageSync(crc, file + W.FrameOf(crc, c), durable, cs + [c], log + [W.EntriesIn(c)], synced);
  }

  lemma {:induction false} PrefixLength(crc: W.Crc, cs: seq<W.Content>, a: nat, b: nat)
    requires a <= b <= |cs|
    ensures |W.LogBytes(crc, cs[..a])| <= |W.LogBytes(crc, cs[..b])|
  {
    hide W.LogBytes;
    W.LogPrefix(crc, cs[..b], a);
    assert cs[..b][..a] == cs[..a];
  }

  /** Whatever part of the unsynced bytes survives, the frames that are whole in it are a crash the protocol
      allows. */
  lemma {:induction false} CutIsCrash(
    crc: W.Crc, file: Bytes, durable: nat, cs: seq<W.Content>, log: seq<Frame>, synced: nat, cut: nat)
    requires LogImage(crc, file, durable, cs, log, synced) && durable <= cut <= |file|
    ensures synced <= W.Whole(crc, cs, cut) <= |log|
  {
    hide W.FrameOf, W.Whole, W.LogBytes;
    var p := W.Whole(crc, cs, cut);
    W.WholeIsLargest(crc, cs, cut);
    if p < synced {
      PrefixLength(crc, cs, p + 1, synced);
    }
  }

  /** A cut right behind the durable bytes leaves the synced frames and no other. */
  lemma {:induction false} DurableIsSynced(
    crc: W.Crc, file: Bytes, durable: nat, cs: seq<W.Content>, log: seq<Frame>, synced: nat)
    requires LogImage(crc, file, durable, cs, log, synced)
    ensures durable <= |file| && W.Whole(crc, cs, durable) == synced
  {
    hide W.FrameOf, W.Whole, W.LogBytes;
    assert cs[..|cs|] == cs;
    PrefixLength(crc, cs, synced, |cs|);
    CutIsCrash(crc, file, durable, cs, log, synced, durable);
    var p := W.Whole(crc, cs, durable);
    W.WholeIsLargest(crc, cs, durable);
    if synced < p {
      PrefixLength(crc, cs, synced + 1, p);
      OneMoreFrame(crc, cs, synced);
    }
  }

  lemma {:induction false} OneMoreFrame(crc: W.Crc, cs: seq<W.Content>, p: nat)
    requires p < |cs|
    ensures |W.LogBytes(crc, cs[..p])| < |W.LogBytes(crc, cs[..p + 1])|
  {
    hide W.LogBytes;
    W.LogPrefix(crc, cs[..p + 1], p);
    var last := cs[..p + 1][p..];
    assert cs[..p + 1][..p] == cs[..p] && last == [cs[p]] && last[1..] == [];
    assert |W.LogBytes(crc, last)| >= W.HEADER_SIZE by {
      FrameLength(crc, cs[p]);
    }
  }

  lemma {:induction false} FrameLength(crc: W.Crc, c: W.Content)
    ensures |W.LogBytes(crc, [c])| >= W.HEADER_SIZE
  {
    assert [c][1..] == [];
  }

  /** The directory of a store that is down: log bytes, manifest and tables. */
  ghost predicate DiskImage(
    crc: W.Crc, cs: seq<W.Content>, cut: nat, file: Bytes, st: M.State, ssts: map<Bytes, seq<Entry>>, down: System)
  {
    && W.AllFit(cs) && Clean(W.AllEntries(cs))
    && cut <= |W.LogBytes(crc, cs)| && file == W.LogBytes(crc, cs)[..cut]
    && var p := W.Whole(crc, cs, cut);
      down.phase.Down? && down.disk == Disk(FramesOf(cs[..p]), p, st, ssts)
  }

  /** What a crash leaves on disk is the image of the crashed system. */
  lemma {:induction false} CrashImage(policy: Policy, crc: W.Crc, file: Bytes, durable: nat, cs: seq<W.Content>,
      s: System, cut: nat)
    requires LogImage(crc, file, durable, cs, s.disk.log, s.disk.synced) && durable <= cut <= |file|
    ensures var p := W.Whole(crc, cs, cut);
      && Enabled(s, Crash(p))
      && DiskImage(crc, cs, cut, file[..cut], s.disk.manifest, s.disk.ssts, Do(policy, s, Crash(p)))
  {
    hide W.Whole, W.LogBytes, W.AllFit, W.AllEntries;
    CutIsCrash(crc, file, durable, cs, s.disk.log, s.disk.synced, cut);
    FramesPrefix(cs, W.Whole(crc, cs, cut));
  }

  /** Recovery of the log file: the torn tail is cut off, what is left is the image of the frames that survive, and
      the recovered sequence number is the highest among them. */
  lemma {:induction false} RecoveredLog(
    crc: W.Crc, cs: seq<W.Content>, cut: nat, file: Bytes, st: M.State, ssts: map<Bytes, seq<Entry>>, down: System)
    requires DiskImage(crc, cs, cut, file, st, ssts, down)
    ensures var r, p := W.Scan(crc, file, 0), W.Whole(crc, cs, cut);
      var kept := file[..|file| - |r.0|];
      && LogImage(crc, kept, |kept|, cs[..p], down.disk.log, p)
      && r.1 == MaxSeqOf(Flat(down.disk.log)) && Clean(Flat(down.disk.log))
      && W.ReplayAll(crc, kept) == Some(W.Records(Flat(down.disk.log)))
  {
    hide W.Whole, W.LogBytes, W.Scan, W.FrameOf, W.EntriesIn, W.Fits, W.ReplayAll, W.Records, FramesOf, Flat;
    var p := W.Whole(crc, cs, cut);
    W.TornTailExact(crc, cs, cut);
    FlatFrames(cs[..p]);
    W.ReplayExact(crc, cs[..p]);
    CleanPrefix(cs, p);
    assert cs[..p][..p] == cs[..p];
  }

  lemma {:induction false} CleanPrefix(cs: seq<W.Content>, p: nat)
    requires p <= |cs| && Clean(W.AllEntries(cs))
    ensures Clean(W.AllEntries(cs[..p]))
  {
    hide W.EntriesIn;
    if p < |cs| {
      var n := |cs| - 1;
      EntriesSnoc(cs[..n], cs[n]);
      assert cs == cs[..n] + [cs[n]] && cs[..n][..p] == cs[..p];
      CleanPrefix(cs[..n], p);
    } else {
      assert cs[..p] == cs;
    }
  }

  // ---------- Reached states ----------

  /** The protocol can get to s by this list of steps. */
  ghost predicate Reached(policy: Policy, trace: seq<Action>, s: System) {
    CanRun(policy, INIT, trace) && Run(policy, INIT, trace) == s
  }

  lemma {:induction false} ReachedInv(policy: Policy, trace: seq<Action>, s: System)
    requires Reached(policy, trace, s)
    ensures Inv(s)
  {
    hide Do, Inv;
    InitSettled();
    RunKeeps(policy, INIT, trace);
  }

  lemma {:induction false} RunSnoc(policy: Policy, from: System, trace: seq<Action>, a: Action)
    requires CanRun(policy, from, trace) && Enabled(Run(policy, from, trace), a)
    ensures CanRun(policy, from, trace + [a])
    ensures Run(policy, from, trace + [a]) == Do(policy, Run(policy, from, trace), a)
    decreases |trace|
  {
    hide Do, Enabled;
    if trace == [] {
      assert [] + [a] == [a] && [a][1..] == [];
    } else {
      RunSnoc(policy, Do(policy, from, trace[0]), trace[1..], a);
      assert (trace + [a])[1..] == trace[1..] + [a];
    }
  }

  lemma {:induction false} ReachedNext(policy: Policy, trace: seq<Action>, s: System, a: Action)
    requires Reached(policy, trace, s) && Enabled(s, a)
    ensures Reached(policy, trace + [a], Do(policy, s, a))
  {
    hide Do, Enabled, Run, CanRun;
    RunSnoc(policy, INIT, trace, a);
  }

  /** Some run gets to s. */
  ghost predicate Reachable(policy: Policy, s: System) {
    exists trace :: Reached(policy, trace, s)
  }

  lemma {:induction false} ReachableNext(policy: Policy, s: System, a: Action)
    requires Reachable(policy, s) && Enabled(s, a)
    ensures Reachable(policy, Do(policy, s, a))
  {
    hide Do, Enabled, Reached;
    var trace :| Reached(policy, trace, s);
    ReachedNext(policy, trace, s, a);
  }

  lemma {:induction false} FreshReachable(policy: Policy)
    ensures Reachable(policy, Do(policy, INIT, Open))
  {
    assert Reached(policy, [], INIT);
    ReachableNext(policy, INIT, Open);
  }

  lemma {:induction false} WriteEachReachable(s: System, ops: seq<Op>)
    requires Reachable(SYNC_NONE, s) && s.phase.Idle?
    ensures Reachable(SYNC_NONE, WriteEach(s, ops))
  {
    hide Do, Reachable;
    if ops != [] {
      var n := |ops| - 1;
      WriteEachReachable(s, ops[..n]);
      ReachableNext(SYNC_NONE, WriteEach(s, ops[..n]), Commit([ops[n]]));
    }
  }

  lemma {:induction false} ReopenedReachable(policy: Policy, s: System, size: nat, cut: nat)
    requires Reachable(policy, s) && s.phase.Idle? && s.memory.mem != []
    requires var w := InWindow(policy, s, size);
      w.disk.synced <= cut <= |w.disk.log| && HasAll(w.disk.ssts, w.disk.manifest.files)
    ensures Reachable(policy, Reopened(policy, InWindow(policy, s, size), cut))
  {
    hide Reachable, Replay, Flat, Opened, MaxSeqOf;
    var s1 := Do(policy, s, FlushAlloc);
    ReachableNext(policy, s, FlushAlloc);
    ReachableNext(policy, s1, FlushWrite);
    ReachableNext(policy, Do(policy, s1, FlushWrite), FlushAdd(size));
    var w := InWindow(policy, s, size);
    ReachableNext(policy, w, Crash(cut));
    ReachableNext(policy, Do(policy, w, Crash(cut)), Open);
  }
}
