/** Crash safety over whole runs: when it holds without a condition, and the exact condition otherwise. */
module Crashes {
  import opened Bytes
  import opened Entries
  import opened Compact
  import opened Protocol
  import opened Safety
  import W = Wal

  // ---------- Runs ----------

  predicate CanRun(policy: Policy, s: System, acts: seq<Action>)
    decreases |acts|
  {
    acts == [] || (Enabled(s, acts[0]) && CanRun(policy, Do(policy, s, acts[0]), acts[1..]))
  }

  function Run(policy: Policy, s: System, acts: seq<Action>): System
    requires CanRun(policy, s, acts)
    decreases |acts|
  {
    if acts == [] then s else Run(policy, Do(policy, s, acts[0]), acts[1..])
  }

  /** No frame from index `synced` on writes a key an earlier frame of the log has written: a test on the log
      that can be made before a flush. A log synced in full passes it. */
  ghost predicate NoRewrite(log: seq<Frame>, synced: nat) {
    forall i, e, d | synced <= i < |log| && e in log[i] && d in Flat(log[..i]) :: e.key != d.key
  }

  /** Every flush of the run starts with a log that passes the test. */
  ghost predicate Careful(policy: Policy, s: System, acts: seq<Action>)
    requires CanRun(policy, s, acts)
    decreases |acts|
  {
    acts == [] ||
    (&& (acts[0].FlushAlloc? ==> NoRewrite(s.disk.log, s.disk.synced))
     && Careful(policy, Do(policy, s, acts[0]), acts[1..]))
  }

  // ---------- The exact condition ----------

  lemma {:induction false} IncreasingFrames(log: seq<Frame>, i: nat, e: Entry, z: Entry)
    requires Increasing(Flat(log)) && i < |log| && e in log[i] && z in Flat(log[..i])
    ensures z.seqno < e.seqno
  {
    FlatPrefix(log, i);
    assert log[i..] == [log[i]] + log[i + 1..];
    FlatConcat([log[i]], log[i + 1..]);
    FlatSnoc([], log[i]);
    assert [] + [log[i]] == [log[i]];
    var a, b := Flat(log[..i]), Flat(log[i..]);
    var p :| 0 <= p < |a| && a[p] == z;
    assert e in b;
    var q :| 0 <= q < |b| && b[q] == e;
    assert Flat(log)[p] == z && Flat(log)[|a| + q] == e;
  }

  lemma {:induction false} PrefixMember(log: seq<Frame>, p: nat, i: nat, e: Entry)
    requires p <= i <= |log| && e in Flat(log[..p])
    ensures e in Flat(log[..i])
  {
    assert log[..i][..p] == log[..p];
    FlatPrefix(log[..i], p);
  }

  lemma {:induction false} SafeMeansNoRewrite(log: seq<Frame>, synced: nat, all: set<Entry>)
    requires Increasing(Flat(log)) && LogSafe(log, synced, all) && InLog(log) <= all
    ensures NoRewrite(log, synced)
  {
    forall i, e, d | synced <= i < |log| && e in log[i] && d in Flat(log[..i]) ensures e.key != d.key {
      FlatMember(log, e);
      assert e in InLog(log);
      assert Dominates(InLog(log[..i]), all);
      if e.key == d.key {
        assert Beaten(InLog(log[..i]), e);
        var z :| z in InLog(log[..i]) && Beats(z, e);
        IncreasingFrames(log, i, e, z);
      }
    }
  }

  lemma {:induction false} NoRewriteMeansSafe(log: seq<Frame>, synced: nat, all: set<Entry>)
    requires LogSafe(log, synced, all) && NoRewrite(log, synced)
    ensures LogSafe(log, synced, all + InLog(log))
  {
    forall p | synced <= p <= |log| ensures Dominates(InLog(log[..p]), all + InLog(log)) {
      var m := InLog(log[..p]);
      assert Dominates(m, all);
      forall x, y | x in m && y in all + InLog(log) && x.key == y.key ensures Beaten(m, y) {
        if y !in all {
          FlatMember(log, y);
          var i :| 0 <= i < |log| && y in log[i];
          if i < p {
            FlatMember(log[..p], y);
            assert log[..p][i] == log[i];
            assert Beats(y, y);
          } else {
            PrefixMember(log, p, i, x);
          }
        }
      }
    }
  }

  /** Once the flushed table is live, every crash is harmless exactly when it was before and no frame that may be lost
      rewrites a key of the log. */
  lemma {:induction false} FlushWindowExact(s: System)
    requires HistoryOk(s.hist, s.flushed, s.acked) && LogOk(s.disk.log, s.disk.synced, s.hist, s.flushed)
    ensures LogSafe(s.disk.log, s.disk.synced, InLog(s.hist))
      <==> CrashSafe(s) && NoRewrite(s.disk.log, s.disk.synced)
  {
    hide Dominates, Flat, NoRewrite;
    LogAndFlushed(s);
    var log, all := s.disk.log, Flushed(s.hist, s.flushed);
    assert all + InLog(log) == InLog(s.hist);
    if CrashSafe(s) && NoRewrite(log, s.disk.synced) {
      NoRewriteMeansSafe(log, s.disk.synced, all);
    }
    if LogSafe(log, s.disk.synced, InLog(s.hist)) {
      SafeMeansNoRewrite(log, s.disk.synced, InLog(s.hist));
      forall p | s.disk.synced <= p <= |log| ensures Dominates(InLog(log[..p]), all) {
        DominatesLess(InLog(log[..p]), InLog(s.hist), all);
      }
    }
  }

  /** The store in the window of a flush: the new table is live and the log not yet reset. */
  function InWindow(policy: Policy, s: System, size: nat): System
    requires s.phase.Idle? && s.memory.mem != []
  {
    Do(policy, Do(policy, Do(policy, s, FlushAlloc), FlushWrite), FlushAdd(size))
  }

  function Reopened(policy: Policy, s: System, cut: nat): System
    requires s.disk.synced <= cut <= |s.disk.log| && HasAll(s.disk.ssts, s.disk.manifest.files)
  {
    Do(policy, Do(policy, s, Crash(cut)), Open)
  }

  /** All of the history is in live tables and the log is still what it was in s. */
  ghost predicate Window(s: System, w: System) {
    && Inv(w) && w.phase.FlushAdded? && w.hist == s.hist && w.flushed == |s.hist|
    && w.disk.log == s.disk.log && w.disk.synced == s.disk.synced
  }

  lemma {:induction false} WindowKeeps(policy: Policy, s: System, size: nat)
    requires Inv(s) && s.phase.Idle? && s.memory.mem != []
    ensures Window(s, InWindow(policy, s, size))
  {
    var s1 := Do(policy, s, FlushAlloc);
    StepKeeps(policy, s, FlushAlloc);
    StepKeeps(policy, s1, FlushWrite);
    StepKeeps(policy, Do(policy, s1, FlushWrite), FlushAdd(size));
  }

  /** What a reopened store reads, when the crash left `cut` frames of the log. */
  lemma {:induction false} ReopenedReads(policy: Policy, w: System, cut: nat)
    requires Inv(w) && Enabled(w, Crash(cut))
    ensures HasAll(w.disk.ssts, w.disk.manifest.files)
    ensures var m := Reopened(policy, w, cut).memory;
      && m.mem == Replay([], Flat(w.disk.log[..cut]))
      && m.tables == Opened(w.disk.manifest.files, w.disk.ssts)
      && (ReadsNewest(m) <==> Dominates(InLog(w.disk.log[..cut]), Flushed(w.hist, w.flushed)))
  {
    var m, live := Reopened(policy, w, cut).memory, Live(w.disk.manifest.files, w.disk.ssts);
    MemCoversLog(w.disk.log[..cut]);
    OpenedSorted(w);
    ReadsNewestExact(m);
    DominatesCover(Elements(m.mem), InLog(w.disk.log[..cut]), live);
    DominatesCovered(InLog(w.disk.log[..cut]), live, Flushed(w.hist, w.flushed));
  }

  /** After a crash that leaves `cut` frames of the log, lookups find the newest version of every key. */
  ghost predicate RightAfter(policy: Policy, w: System, cut: nat) {
    && Enabled(w, Crash(cut)) && HasAll(w.disk.ssts, w.disk.manifest.files)
    && ReadsNewest(Reopened(policy, w, cut).memory)
  }

  /** The exact condition on versions: whatever a crash in the window of a flush leaves of the log, the reopened
      store finds the version with the highest sequence number of every key, if and only if that was so before the
      flush and no frame that is not synced when the flush starts rewrites a key that is already in the log. */
  lemma {:induction false} FlushCrashExact(policy: Policy, s: System, size: nat)
    requires Inv(s) && s.phase.Idle? && s.memory.mem != []
    ensures (forall cut | s.disk.synced <= cut <= |s.disk.log| :: RightAfter(policy, InWindow(policy, s, size), cut))
      <==> CrashSafe(s) && NoRewrite(s.disk.log, s.disk.synced)
  {
    hide InWindow, Reopened, ReadsNewest, Dominates, NoRewrite, TablesOk, MemoryOk, Replay, Flat;
    var w, log := InWindow(policy, s, size), s.disk.log;
    WindowKeeps(policy, s, size);
    FlushWindowExact(s);
    assert s.hist[..|s.hist|] == s.hist;
    forall cut | s.disk.synced <= cut <= |log|
      ensures RightAfter(policy, w, cut) <==> Dominates(InLog(log[..cut]), InLog(s.hist))
    {
      ReopenedReads(policy, w, cut);
    }
    if CrashSafe(s) && NoRewrite(log, s.disk.synced) {
      forall cut | s.disk.synced <= cut <= |log| ensures RightAfter(policy, w, cut) {
        assert Dominates(InLog(log[..cut]), InLog(s.hist));
      }
    } else {
      var p :| s.disk.synced <= p <= |log| && !Dominates(InLog(log[..p]), InLog(s.hist));
      assert !RightAfter(policy, w, p);
    }
  }

  // ---------- The exact conditions on what is shown ----------

  /** A crash at any point leaves a store that opens, with the frames that survive as its history. */
  lemma {:induction false} ReopenedKeeps(policy: Policy, s: System, cut: nat)
    requires Inv(s) && Enabled(s, Crash(cut))
    ensures HasAll(s.disk.ssts, s.disk.manifest.files)
    ensures var r := Reopened(policy, s, cut);
      && Inv(r) && r.phase.Idle? && r.disk.log == s.disk.log[..cut] && r.disk.synced == cut
      && r.hist == s.hist[..Survivors(s, cut)] && |r.hist| >= Durable(s)
  {
    hide Inv, Survivors, Durable;
    LiveFiles(s);
    SurvivorsDurable(s, cut);
    StepKeeps(policy, s, Crash(cut));
    OpenKeeps(policy, Do(policy, s, Crash(cut)));
  }

  /** What any crash comes to: the reopened store reads as if the frames left in the log had been written once more
      at the end of the history that survives. */
  lemma {:induction false} CrashShows(policy: Policy, s: System, cut: nat, k: Bytes)
    requires Inv(s) && Enabled(s, Crash(cut))
    ensures HasAll(s.disk.ssts, s.disk.manifest.files)
    ensures Get(Reopened(policy, s, cut).memory, k)
            == Value(MapOf(Flat(s.hist[..Survivors(s, cut)]) + Flat(s.disk.log[..cut])), k)
  {
    hide Inv, Survivors, Reopened, Flat, MapOf, Get;
    ReopenedKeeps(policy, s, cut);
    GetReads(Reopened(policy, s, cut), k);
  }

  /** A crash that keeps `cut` frames of the log is recovered from. */
  ghost predicate Recovers(policy: Policy, s: System, cut: nat) {
    && Enabled(s, Crash(cut)) && HasAll(s.disk.ssts, s.disk.manifest.files)
    && RecoversPrefix(s, Reopened(policy, s, cut))
  }

  /** The exact condition for any crash at any point: it is recovered from if and only if the frames it leaves in the
      log give the keys they write the values these have in the history that survives. */
  lemma {:induction false} CrashRecoversExact(policy: Policy, s: System, cut: nat)
    requires Inv(s) && Enabled(s, Crash(cut))
    ensures Recovers(policy, s, cut) <==> Tells(s.disk.log[..cut], s.hist[..Survivors(s, cut)])
  {
    hide Inv, Survivors, Durable, Reopened, Flat, MapOf, Get, Tells;
    ReopenedKeeps(policy, s, cut);
    GetIsPlainMap(Reopened(policy, s, cut));
  }

  lemma {:induction false} RunKeeps(policy: Policy, s: System, acts: seq<Action>)
    requires Inv(s) && CanRun(policy, s, acts)
    ensures Inv(Run(policy, s, acts))
    decreases |acts|
  {
    hide Inv, Do;
    if acts != [] {
      StepKeeps(policy, s, acts[0]);
      RunKeeps(policy, Do(policy, s, acts[0]), acts[1..]);
    }
  }

  /** In every state of every run, whatever it has been through and whatever the sync policy, that is the exact
      condition. */
  lemma {:induction false} RunRecoversExact(policy: Policy, acts: seq<Action>, cut: nat)
    requires CanRun(policy, INIT, acts) && Enabled(Run(policy, INIT, acts), Crash(cut))
    ensures var s := Run(policy, INIT, acts);
      Recovers(policy, s, cut) <==> Tells(s.disk.log[..cut], s.hist[..Survivors(s, cut)])
  {
    hide Inv, Run, Do, Recovers, Tells;
    InitSettled();
    RunKeeps(policy, INIT, acts);
    CrashRecoversExact(policy, Run(policy, INIT, acts), cut);
  }

  /** In the window all frames are in live tables, so none is taken out of the history. */
  lemma {:induction false} WholeHistory(w: System, cut: nat)
    requires Inv(w) && w.flushed == |w.hist| && Enabled(w, Crash(cut))
    ensures Durable(w) == |w.hist| && w.hist[..Survivors(w, cut)] == w.hist
  {
    hide Flat, Replay, Opened, MaxSeqOf, M.MaxSeqAmong, InLog, Live, TablesOk, MemoryOk;
  }

  /** A crash in the window of a flush: what is left in the log is written over the whole history. */
  lemma {:induction false} WindowRewrites(policy: Policy, w: System, cut: nat, k: Bytes)
    requires Inv(w) && w.flushed == |w.hist| && Enabled(w, Crash(cut))
    ensures HasAll(w.disk.ssts, w.disk.manifest.files)
    ensures Get(Reopened(policy, w, cut).memory, k) == Value(MapOf(Flat(w.hist) + Flat(w.disk.log[..cut])), k)
  {
    hide Inv, Survivors, Durable, Reopened, Flat, MapOf, Get;
    WholeHistory(w, cut);
    CrashShows(policy, w, cut, k);
  }

  lemma {:induction false} PrefixWrites(log: seq<Frame>, p: nat, k: Bytes)
    requires p <= |log| && Writes(Flat(log[..p]), k)
    ensures Writes(Flat(log), k)
  {
    hide Flat;
    var e :| e in Flat(log[..p]) && e.key == k;
    PrefixMember(log, p, |log|, e);
    assert log[..|log|] == log;
  }

  /** The value of a key when the first p frames of the log are written over the history. */
  ghost function Overlaid(s: System, p: nat, k: Bytes): Option<Bytes>
    requires p <= |s.disk.log|
  {
    var kept := Flat(s.disk.log[..p]);
    if Writes(kept, k) then Value(MapOf(kept), k) else Value(MapOf(Flat(s.hist)), k)
  }

  lemma {:induction false} OverlaidElsewhere(s: System, p: nat, k: Bytes)
    requires p <= |s.disk.log| && !Writes(Flat(s.disk.log), k)
    ensures Overlaid(s, p, k) == Value(MapOf(Flat(s.hist)), k)
  {
    hide Flat, MapOf, Writes;
    if Writes(Flat(s.disk.log[..p]), k) {
      PrefixWrites(s.disk.log, p, k);
    }
  }

  lemma {:induction false} WindowShows(policy: Policy, s: System, w: System, p: nat, k: Bytes)
    requires Window(s, w) && s.disk.synced <= p <= |s.disk.log|
    ensures HasAll(w.disk.ssts, w.disk.manifest.files)
    ensures Get(Reopened(policy, w, p).memory, k) == Overlaid(s, p, k)
  {
    hide Flat, MapOf, Inv, Get, Writes, Reopened;
    WindowRewrites(policy, w, p, k);
    MapConcat(Flat(s.hist), Flat(s.disk.log[..p]), k);
  }

  /** The exact condition: every crash in the window of a flush is recovered from if and only if, when the flush
      starts, every part of the log that holds the synced frames gives the keys it writes their present values. */
  lemma {:induction false} FlushRecoversExact(policy: Policy, s: System, size: nat)
    requires Inv(s) && s.phase.Idle? && s.memory.mem != []
    ensures (forall cut | s.disk.synced <= cut <= |s.disk.log| :: Recovers(policy, InWindow(policy, s, size), cut))
      <==> (forall p | s.disk.synced <= p <= |s.disk.log| :: Tells(s.disk.log[..p], s.hist))
  {
    hide Recovers, Tells, InWindow, Inv, Survivors, Durable;
    var w := InWindow(policy, s, size);
    WindowKeeps(policy, s, size);
    forall p | s.disk.synced <= p <= |s.disk.log|
      ensures Recovers(policy, w, p) <==> Tells(s.disk.log[..p], s.hist)
    {
      WholeHistory(w, p);
      CrashRecoversExact(policy, w, p);
    }
  }

  /** A log that tells its keys' values and whose unsynced frames rewrite no key of it meets the condition. */
  lemma {:induction false} NoRewriteTells(log: seq<Frame>, hist: seq<Frame>, synced: nat, p: nat)
    requires Tells(log, hist) && NoRewrite(log, synced) && synced <= p <= |log|
    ensures Tells(log[..p], hist)
  {
    hide Flat, MapOf;
    FlatPrefix(log, p);
    forall k | Writes(Flat(log[..p]), k) ensures Value(MapOf(Flat(log[..p])), k) == Value(MapOf(Flat(hist)), k) {
      MapConcat(Flat(log[..p]), Flat(log[p..]), k);
      PrefixWrites(log, p, k);
      if Writes(Flat(log[p..]), k) {
        var d :| d in Flat(log[..p]) && d.key == k;
        var e :| e in Flat(log[p..]) && e.key == k;
        FlatMember(log[p..], e);
        var i :| 0 <= i < |log[p..]| && e in log[p..][i];
        PrefixMember(log, p, p + i, d);
      }
    }
  }

  // ---------- Some prefix of the history ----------

  /** What reopens after the crash is the map of some prefix of the history that has every frame that was durable
      when the flush started. */
  ghost predicate ShowsPrefix(policy: Policy, s: System, w: System, cut: nat) {
    && Enabled(w, Crash(cut)) && HasAll(w.disk.ssts, w.disk.manifest.files)
    && exists n: nat :: Durable(s) <= n <= |s.hist| && Shows(Reopened(policy, w, cut).memory, Flat(s.hist[..n]))
  }

  /** The keys the log writes have, after the first n frames of the history, the value of their last write in the
      first p frames of the log or, if there is none, their present value. The other keys always do. */
  ghost predicate Explains(s: System, p: nat, n: nat)
    requires p <= |s.disk.log| && n <= |s.hist|
  {
    forall k | Writes(Flat(s.disk.log), k) :: Value(MapOf(Flat(s.hist[..n])), k) == Overlaid(s, p, k)
  }

  /** A key the log does not write has not changed since the last flush. */
  lemma {:induction false} UnwrittenSince(s: System, n: nat, k: Bytes)
    requires Inv(s) && s.phase.Idle? && Durable(s) <= n <= |s.hist| && !Writes(Flat(s.disk.log), k)
    ensures Value(MapOf(Flat(s.hist[..n])), k) == Value(MapOf(Flat(s.hist)), k)
  {
    hide Flat, MapOf, TablesOk, MemoryOk, LogSafe;
    var tail := s.hist[n..];
    FlatPrefix(s.hist, n);
    MapConcat(Flat(s.hist[..n]), Flat(tail), k);
    if Writes(Flat(tail), k) {
      var e :| e in Flat(tail) && e.key == k;
      FlatMember(tail, e);
      var i :| 0 <= i < |tail| && e in tail[i];
      var r, j := Residue(s), n - s.flushed + i;
      assert s.disk.log[r..][j] == s.hist[s.flushed..][j] == tail[i];
      assert e in s.disk.log[r + j];
      FlatMember(s.disk.log, e);
    }
  }

  lemma {:induction false} ExplainsMeansShows(policy: Policy, s: System, w: System, p: nat, n: nat)
    requires Inv(s) && s.phase.Idle? && Window(s, w) && s.disk.synced <= p <= |s.disk.log|
    requires Durable(s) <= n <= |s.hist|
    ensures HasAll(w.disk.ssts, w.disk.manifest.files)
    ensures Shows(Reopened(policy, w, p).memory, Flat(s.hist[..n])) <==> Explains(s, p, n)
  {
    hide Flat, MapOf, Inv, Get, Writes, Durable, Reopened;
    var log := s.disk.log;
    LiveFiles(w);
    forall k ensures Get(Reopened(policy, w, p).memory, k) == Overlaid(s, p, k) {
      WindowShows(policy, s, w, p, k);
    }
    forall k ensures !Writes(Flat(log), k) ==> Overlaid(s, p, k) == Value(MapOf(Flat(s.hist[..n])), k) {
      if !Writes(Flat(log), k) {
        OverlaidElsewhere(s, p, k);
        UnwrittenSince(s, n, k);
      }
    }
    if Shows(Reopened(policy, w, p).memory, Flat(s.hist[..n])) {
      forall k | Writes(Flat(log), k) ensures Value(MapOf(Flat(s.hist[..n])), k) == Overlaid(s, p, k) {
        assert Get(Reopened(policy, w, p).memory, k) == Overlaid(s, p, k);
      }
    }
  }

  /** Some prefix of the history with every durable frame explains the first p frames of the log. */
  ghost predicate Explained(s: System, p: nat)
    requires p <= |s.disk.log|
  {
    exists n: nat :: Durable(s) <= n <= |s.hist| && Explains(s, p, n)
  }

  lemma {:induction false} ExplainedMeansShowsPrefix(policy: Policy, s: System, size: nat, p: nat)
    requires Inv(s) && s.phase.Idle? && s.memory.mem != [] && s.disk.synced <= p <= |s.disk.log|
    ensures ShowsPrefix(policy, s, InWindow(policy, s, size), p) <==> Explained(s, p)
  {
    hide Explains, InWindow, Inv, Durable, Reopened, Shows, Flat;
    var w := InWindow(policy, s, size);
    WindowKeeps(policy, s, size);
    LiveFiles(w);
    forall n: nat | Durable(s) <= n <= |s.hist|
      ensures Shows(Reopened(policy, w, p).memory, Flat(s.hist[..n])) <==> Explains(s, p, n)
    {
      ExplainsMeansShows(policy, s, w, p, n);
    }
  }

  /** The exact condition for the weaker promise: every crash in the window leaves the map of some prefix with every
      durable frame if and only if, when the flush starts, each part of the log that can be left is explained by
      one. */
  lemma {:induction false} FlushPrefixExact(policy: Policy, s: System, size: nat)
    requires Inv(s) && s.phase.Idle? && s.memory.mem != []
    ensures
      (forall cut | s.disk.synced <= cut <= |s.disk.log| :: ShowsPrefix(policy, s, InWindow(policy, s, size), cut))
      <==> (forall p | s.disk.synced <= p <= |s.disk.log| :: Explained(s, p))
  {
    hide ShowsPrefix, Explained, InWindow, Inv;
    forall p | s.disk.synced <= p <= |s.disk.log|
      ensures ShowsPrefix(policy, s, InWindow(policy, s, size), p) <==> Explained(s, p)
    {
      ExplainedMeansShowsPrefix(policy, s, size, p);
    }
  }

  /** A part of the log that gives its keys their present values is explained by the whole history. */
  lemma {:induction false} TellsExplains(s: System, p: nat)
    requires Inv(s) && s.phase.Idle? && p <= |s.disk.log| && Tells(s.disk.log[..p], s.hist)
    ensures Explained(s, p)
  {
    hide Flat, MapOf, TablesOk, MemoryOk, Writes;
    assert s.hist[..|s.hist|] == s.hist;
    assert Explains(s, p, |s.hist|);
  }

  /** Rewriting a key is not always harmful: of two unsynced frames with one entry each, for one key, every crash
      leaves the map of a prefix, and if they write the same value the map of the whole history. So NoRewrite is
      enough for both promises and needed for neither. */
  lemma {:induction false} RewriteCanBeHarmless(policy: Policy, s: System, e1: Entry, e2: Entry, size: nat)
    requires Inv(s) && s.phase.Idle? && s.memory.mem != [] && s.disk.synced == 0 && s.flushed == 0
    requires s.hist == s.disk.log == [[e1], [e2]] && e1.key == e2.key && !e1.deleted && !e2.deleted
    ensures !NoRewrite(s.disk.log, 0)
    ensures forall cut | 0 <= cut <= 2 :: ShowsPrefix(policy, s, InWindow(policy, s, size), cut)
    ensures e1.value == e2.value ==> forall cut | 0 <= cut <= 2 :: Recovers(policy, InWindow(policy, s, size), cut)
  {
    hide InWindow, ShowsPrefix, Recovers;
    TwoWrites(s, e1, e2);
    FlushPrefixExact(policy, s, size);
    FlushRecoversExact(policy, s, size);
  }

  lemma {:induction false} TwoWrites(s: System, e1: Entry, e2: Entry)
    requires s.disk.synced == 0 && s.flushed == 0
    requires s.hist == s.disk.log == [[e1], [e2]] && e1.key == e2.key && !e1.deleted && !e2.deleted
    ensures !NoRewrite(s.disk.log, 0)
    ensures forall p | 0 <= p <= 2 :: Explained(s, p)
    ensures e1.value == e2.value ==> forall p | 0 <= p <= 2 :: Tells(s.disk.log[..p], s.hist)
  {
    hide Flat, MapOf;
    var log := s.disk.log;
    assert log[..0] == [] && log[..1] == [[e1]] && log[..2] == log;
    FlatThree(e1, e2, e2);
    MapsOf(e1, e2, e2);
    assert e2 in log[1] && e1 in Flat(log[..1]);
    TwoExplained(s, e1, e2, 0, 2);
    TwoExplained(s, e1, e2, 1, 1);
    TwoExplained(s, e1, e2, 2, 2);
  }

  lemma {:induction false} TwoExplained(s: System, e1: Entry, e2: Entry, p: nat, n: nat)
    requires s.disk.synced == 0 && s.flushed == 0 && p <= n <= 2 && (p == n || (p == 0 && n == 2))
    requires s.hist == s.disk.log == [[e1], [e2]] && e1.key == e2.key && !e1.deleted && !e2.deleted
    ensures Explained(s, p)
  {
    hide Flat, MapOf;
    var log := s.disk.log;
    assert log[..0] == [] && log[..1] == [[e1]] && log[..2] == log;
    FlatThree(e1, e2, e2);
    MapsOf(e1, e2, e2);
    if p == 0 {
      assert Explains(s, 0, 2);
    } else if p == 1 {
      assert Explains(s, 1, 1);
    } else {
      assert Explains(s, 2, 2);
    }
  }

  // ---------- Runs that start every flush with a good log ----------

  /** The invariant of careful runs: a crash is harmless in every state. */
  ghost predicate Safe(s: System) {
    && Settled(s) && CrashSafe(s)
    && (s.phase.FlushNamed? || s.phase.FlushWritten? ==> NoRewrite(s.disk.log, s.disk.synced))
  }

  lemma {:induction false} FlushPhases(policy: Policy, s: System, a: Action)
    requires Enabled(s, a)
    ensures var s' := Do(policy, s, a);
      && (s'.phase.FlushAdded? ==> a.FlushAdd?)
      && (s'.phase.FlushNamed? ==> a.FlushAlloc?)
      && (s'.phase.FlushWritten? ==> a.FlushWrite?)
      && (a.FlushAlloc? || a.FlushWrite? || a.FlushAdd? ==>
            s'.disk.log == s.disk.log && s'.disk.synced == s.disk.synced && s'.hist == s.hist)
      && (a.FlushAdd? ==> s'.flushed == |s.hist|)
  {
  }

  lemma {:induction false} FlushAddSafe(policy: Policy, s: System, size: nat)
    requires Safe(s) && Enabled(s, FlushAdd(size))
    ensures CrashSafe(Do(policy, s, FlushAdd(size)))
  {
    FlushWindowExact(s);
    assert s.hist[..|s.hist|] == s.hist;
  }

  lemma {:induction false} StepKeepsSafe(policy: Policy, s: System, a: Action)
    requires Safe(s) && Enabled(s, a)
    requires a.FlushAlloc? ==> NoRewrite(s.disk.log, s.disk.synced)
    ensures Safe(Do(policy, s, a))
  {
    var s' := Do(policy, s, a);
    assert Settled(s') by {
      StepSettled(policy, s, a);
    }
    FlushPhases(policy, s, a);
    if a.FlushAdd? {
      FlushAddSafe(policy, s, a.fileSize);
    }
  }

  lemma {:induction false} RunKeepsSafe(policy: Policy, s: System, acts: seq<Action>)
    requires Safe(s) && CanRun(policy, s, acts) && Careful(policy, s, acts)
    ensures Safe(Run(policy, s, acts))
    decreases |acts|
  {
    if acts != [] {
      StepKeepsSafe(policy, s, acts[0]);
      RunKeepsSafe(policy, Do(policy, s, acts[0]), acts[1..]);
    }
  }

  /** What a user finds after a crash: a plain map of the first frames of the history, among them every frame
      that was durable; frames are whole, so a batch is there in full or not at all. */
  ghost predicate RecoversPrefix(before: System, after: System) {
    && after.phase.Idle?
    && after.hist <= before.hist
    && |after.hist| >= Durable(before)
    && Shows(after.memory, Flat(after.hist))
  }

  lemma {:induction false} LiveFiles(s: System)
    requires Inv(s)
    ensures HasAll(s.disk.ssts, s.disk.manifest.files)
  {
    hide Merge, Protocol.Contents, Opened, Replay, Flat;
  }

  lemma {:induction false} SurvivorsDurable(s: System, cut: nat)
    requires Inv(s) && s.disk.synced <= cut <= |s.disk.log|
    ensures Survivors(s, cut) >= Durable(s)
  {
    hide Merge, Protocol.Contents, Opened, Replay, Flat, TablesOk, MemoryOk;
  }

  lemma {:induction false} SafeCrashRecovers(policy: Policy, s: System, cut: nat)
    requires Safe(s) && Enabled(s, Crash(cut))
    ensures HasAll(s.disk.ssts, s.disk.manifest.files)
    ensures Safe(Reopened(policy, s, cut)) && RecoversPrefix(s, Reopened(policy, s, cut))
  {
    hide Get, Value, MapOf, Flat, Inv, Settled, CrashSafe, LogSafe, NoRewrite, Survivors, Durable;
    assert Settled(s) && Inv(s) by {
      SafeMeans(s);
    }
    ReopenedKeeps(policy, s, cut);
    StepKeepsSafe(policy, s, Crash(cut));
    StepKeepsSafe(policy, Do(policy, s, Crash(cut)), Open);
    SafeMeans(Reopened(policy, s, cut));
    GetIsPlainMap(Reopened(policy, s, cut));
  }

  lemma {:induction false} SafeMeans(s: System)
    requires Safe(s)
    ensures Settled(s) && Inv(s)
  {
  }

  /** Crash safety: after any careful run, wherever it stands, a crash that leaves any length of log it may
      leave is recovered from. */
  lemma {:induction false} CrashSafety(policy: Policy, acts: seq<Action>, cut: nat)
    requires CanRun(policy, INIT, acts) && Careful(policy, INIT, acts)
    requires Enabled(Run(policy, INIT, acts), Crash(cut))
    ensures var s := Run(policy, INIT, acts);
      && HasAll(s.disk.ssts, s.disk.manifest.files)
      && RecoversPrefix(s, Reopened(policy, s, cut))
  {
    InitSettled();
    assert CrashSafe(INIT);
    RunKeepsSafe(policy, INIT, acts);
    SafeCrashRecovers(policy, Run(policy, INIT, acts), cut);
  }

  // ---------- SyncFull: no condition ----------

  /** With every append synced, the log is synced in full between operations and every acknowledged frame is
      durable. */
  ghost predicate Full(s: System) {
    && |s.disk.log| <= s.disk.synced + (if s.phase.Unsynced? then 1 else 0)
    && s.acked <= Durable(s)
  }

  lemma {:induction false} FullStep(s: System, a: Action)
    requires Safe(s) && Full(s) && Enabled(s, a)
    ensures a.FlushAlloc? ==> NoRewrite(s.disk.log, s.disk.synced)
    ensures Full(Do(SYNC_FULL, s, a))
  {
    hide TablesOk, MemoryOk, CrashSafe, Merge, Contents, Opened, Replay, Flat, InLog, MaxSeqOf;
  }

  lemma {:induction false} FullRun(s: System, acts: seq<Action>)
    requires Safe(s) && Full(s) && CanRun(SYNC_FULL, s, acts)
    ensures Careful(SYNC_FULL, s, acts)
    ensures Safe(Run(SYNC_FULL, s, acts)) && Full(Run(SYNC_FULL, s, acts))
    decreases |acts|
  {
    if acts != [] {
      FullStep(s, acts[0]);
      StepKeepsSafe(SYNC_FULL, s, acts[0]);
      FullRun(Do(SYNC_FULL, s, acts[0]), acts[1..]);
    }
  }

  /** Under SyncFull every run is careful: any crash of any run is recovered from, and no acknowledged write
      is lost. */
  lemma {:induction false} SyncFullCrashSafety(acts: seq<Action>, cut: nat)
    requires CanRun(SYNC_FULL, INIT, acts) && Enabled(Run(SYNC_FULL, INIT, acts), Crash(cut))
    ensures var s := Run(SYNC_FULL, INIT, acts);
      && HasAll(s.disk.ssts, s.disk.manifest.files)
      && RecoversPrefix(s, Reopened(SYNC_FULL, s, cut))
      && |Reopened(SYNC_FULL, s, cut).hist| >= s.acked
  {
    InitSettled();
    assert CrashSafe(INIT);
    FullRun(INIT, acts);
    SafeCrashRecovers(SYNC_FULL, Run(SYNC_FULL, INIT, acts), cut);
  }

  // ---------- SyncBatch: what can be lost ----------

  /** How many frames of the log a crash may take. */
  function Unsaved(s: System): int {
    |s.disk.log| - s.disk.synced
  }

  /** How many frames of the history a crash that leaves `cut` frames of the log takes. */
  function Lost(s: System, cut: nat): int {
    |s.hist| - Survivors(s, cut)
  }

  /** Syncing after every n-th append, fewer than n frames are unsynced between operations, no more than have been
      appended since; the last of n is not acknowledged before it is synced. Frames that are live in tables already are
      synced, but for the window of a flush. */
  ghost predicate Batched(s: System, n: nat)
    requires n > 0
  {
    && s.disk.synced <= |s.disk.log| && 0 <= Residue(s) && s.flushed <= |s.hist| && s.acked <= |s.hist|
    && (s.phase.Down? ==> Unsaved(s) == 0)
    && (s.phase.Unsynced? ==> Unsaved(s) <= n && s.acked < |s.hist|)
    && (!s.phase.Down? && !s.phase.Unsynced? ==> Unsaved(s) <= s.memory.appends % n)
    && (if s.phase.FlushAdded? then s.flushed == |s.hist| else Residue(s) <= s.disk.synced)
  }

  lemma {:induction false} BatchedStep(policy: Policy, s: System, a: Action)
    requires policy.syncEveryN > 0 && Batched(s, policy.syncEveryN) && Enabled(s, a)
    ensures Batched(Do(policy, s, a), policy.syncEveryN)
  {
    hide Replay, Merge, Protocol.Contents, Opened, MetaOf, Flat, MaxSeqOf, W.Allocated;
    NextModulo(s.memory.appends, policy.syncEveryN);
  }

  lemma {:induction false} BatchedRun(policy: Policy, s: System, acts: seq<Action>)
    requires policy.syncEveryN > 0 && Batched(s, policy.syncEveryN) && CanRun(policy, s, acts)
    ensures Batched(Run(policy, s, acts), policy.syncEveryN)
    decreases |acts|
  {
    hide Do, Batched;
    if acts != [] {
      BatchedStep(policy, s, acts[0]);
      BatchedRun(policy, Do(policy, s, acts[0]), acts[1..]);
    }
  }

  /** Syncing after every n-th append, no crash of any run takes n acknowledged frames: at most n - 1 are lost,
      and between operations, when every frame of the history may be that of a call that has returned, no more than were
      appended since the last sync. */
  lemma {:induction false} SyncBatchLoss(policy: Policy, acts: seq<Action>, cut: nat)
    requires policy.syncEveryN > 0 && CanRun(policy, INIT, acts)
    requires Enabled(Run(policy, INIT, acts), Crash(cut))
    ensures var s := Run(policy, INIT, acts);
      && s.acked - Survivors(s, cut) < policy.syncEveryN
      && (s.phase.Idle? ==> Lost(s, cut) <= s.memory.appends % policy.syncEveryN)
  {
    hide Do;
    BatchedRun(policy, INIT, acts);
  }

  /** No call of Sync: every sync of the run is one that an append asks for. */
  ghost predicate NoSyncCalls(policy: Policy, s: System, acts: seq<Action>)
    requires CanRun(policy, s, acts)
    decreases |acts|
  {
    acts == [] || ((acts[0].Sync? ==> s.phase.Unsynced?) && NoSyncCalls(policy, Do(policy, s, acts[0]), acts[1..]))
  }

  /** Then the unsynced frames are exactly those appended since the count was last divisible by n. */
  ghost predicate ExactlyBatched(s: System, n: nat)
    requires n > 0
  {
    && s.disk.synced <= |s.disk.log|
    && Unsaved(s) == (if s.phase.Down? then 0 else if s.phase.Unsynced? then n else s.memory.appends % n)
    && (s.phase.Unsynced? ==> s.memory.appends % n == 0)
  }

  lemma {:induction false} ExactCommit(policy: Policy, s: System, ops: seq<Op>)
    requires policy.syncEveryN > 0 && ExactlyBatched(s, policy.syncEveryN) && Enabled(s, Commit(ops))
    ensures ExactlyBatched(Do(policy, s, Commit(ops)), policy.syncEveryN)
  {
    hide Replay, Merge, Protocol.Contents, Opened, MetaOf, Flat, MaxSeqOf, W.Allocated, Survivors;
    NextModulo(s.memory.appends, policy.syncEveryN);
  }

  lemma {:induction false} ExactStep(policy: Policy, s: System, a: Action)
    requires policy.syncEveryN > 0 && ExactlyBatched(s, policy.syncEveryN) && Enabled(s, a)
    requires a.Sync? ==> s.phase.Unsynced?
    ensures ExactlyBatched(Do(policy, s, a), policy.syncEveryN)
  {
    hide Replay, Merge, Protocol.Contents, Opened, MetaOf, Flat, MaxSeqOf, W.Allocated, Survivors, W.NeedsSync;
    if a.Commit? {
      ExactCommit(policy, s, a.ops);
    }
  }

  lemma {:induction false} ExactRun(policy: Policy, s: System, acts: seq<Action>)
    requires policy.syncEveryN > 0 && ExactlyBatched(s, policy.syncEveryN)
    requires CanRun(policy, s, acts) && NoSyncCalls(policy, s, acts)
    ensures ExactlyBatched(Run(policy, s, acts), policy.syncEveryN)
    decreases |acts|
  {
    hide Do, ExactlyBatched;
    if acts != [] {
      ExactStep(policy, s, acts[0]);
      ExactRun(policy, Do(policy, s, acts[0]), acts[1..]);
    }
  }

  /** The bound is met: in a run without calls of Sync, between operations, exactly as many frames are unsynced as
      have been appended since the count was last divisible by n, and there is a crash that takes all of them. */
  lemma {:induction false} SyncBatchLossExact(policy: Policy, acts: seq<Action>)
    requires policy.syncEveryN > 0 && CanRun(policy, INIT, acts) && NoSyncCalls(policy, INIT, acts)
    requires Run(policy, INIT, acts).phase.Idle?
    ensures var s := Run(policy, INIT, acts);
      && Enabled(s, Crash(s.disk.synced))
      && Unsaved(s) == Lost(s, s.disk.synced) == s.memory.appends % policy.syncEveryN
  {
    hide Do;
    BatchedRun(policy, INIT, acts);
    ExactRun(policy, INIT, acts);
  }

  // ---------- A run that breaks the prefix property ----------

  const SYNC_NONE := W.Options(0, false)

  /** A store that has just opened an empty directory. */
  lemma {:induction false} FreshStore()
    ensures var s := Do(SYNC_NONE, INIT, Open);
      Inv(s) && Empty(s)
  {
    InitSettled();
    StepKeeps(SYNC_NONE, INIT, Open);
  }

  /** Unsynced writes, one call each. */
  function WriteEach(s: System, ops: seq<Op>): (r: System)
    requires s.phase.Idle?
    ensures r.phase.Idle?
  {
    if ops == [] then s
    else
      var n := |ops| - 1;
      Do(SYNC_NONE, WriteEach(s, ops[..n]), Commit([ops[n]]))
  }

  ghost predicate Empty(s: System) {
    s.phase.Idle? && s.hist == s.disk.log == [] && s.disk.synced == 0
  }

  lemma {:induction false} CommitOne(s: System, op: Op)
    requires Enabled(s, Commit([op]))
    ensures var t, f := Do(SYNC_NONE, s, Commit([op])), [W.EntryOf(op, s.memory.nextSeq + 1)];
      && t.hist == s.hist + [f] && t.disk == s.disk.(log := s.disk.log + [f])
      && t.memory.nextSeq == s.memory.nextSeq + 1
  {
    assert [op][..0] == [];
  }

  lemma {:induction false} WriteEachLog(s: System, ops: seq<Op>)
    requires Empty(s)
    ensures var r, n := WriteEach(s, ops), s.memory.nextSeq;
      && r.disk.synced == 0 && r.disk.log == r.hist && r.memory.nextSeq == n + |ops|
      && (ops != [] ==>
            r.hist == WriteEach(s, ops[..|ops| - 1]).hist + [[W.EntryOf(ops[|ops| - 1], n + |ops|)]])
  {
    hide Do;
    if ops != [] {
      var n := |ops| - 1;
      WriteEachLog(s, ops[..n]);
      CommitOne(WriteEach(s, ops[..n]), ops[n]);
    }
  }

  lemma {:induction false} WriteEachKeeps(s: System, ops: seq<Op>)
    requires Inv(s) && s.phase.Idle?
    ensures Inv(WriteEach(s, ops))
  {
    if ops != [] {
      var n := |ops| - 1;
      WriteEachKeeps(s, ops[..n]);
      StepKeeps(SYNC_NONE, WriteEach(s, ops[..n]), Commit([ops[n]]));
    }
  }

  /** The frames after a last write. */
  lemma {:induction false} WriteLast(s: System, ops: seq<Op>, n: nat)
    requires Empty(s) && n < |ops|
    ensures WriteEach(s, ops[..n + 1]).hist
            == WriteEach(s, ops[..n]).hist + [[W.EntryOf(ops[n], s.memory.nextSeq + n + 1)]]
  {
    assert ops[..n + 1][..n] == ops[..n];
    WriteEachLog(s, ops[..n + 1]);
  }

  lemma {:induction false} WriteThree(s: System, ops: seq<Op>, h: seq<Frame>)
    requires Empty(s) && |ops| == 3
    requires h == WriteEach(s, ops).hist
    ensures |h| == 3
    ensures forall i | 0 <= i < 3 :: h[i] == [W.EntryOf(ops[i], s.memory.nextSeq + i + 1)]
  {
    hide Do;
    assert ops[..3] == ops;
    WriteLast(s, ops, 2);
    WriteLast(s, ops, 1);
    WriteLast(s, ops, 0);
    assert WriteEach(s, ops[..0]).hist == [];
  }

  lemma {:induction false} FlatThree(e1: Entry, e2: Entry, e3: Entry)
    ensures Flat([]) == [] && Flat([[e1]]) == [e1] && Flat([[e1], [e2]]) == [e1, e2]
    ensures Flat([[e1], [e2], [e3]]) == [e1, e2, e3]
  {
    FlatSnoc([], [e1]);
    FlatSnoc([[e1]], [e2]);
    FlatSnoc([[e1], [e2]], [e3]);
    assert [] + [[e1]] == [[e1]] && [[e1]] + [[e2]] == [[e1], [e2]];
    assert [[e1], [e2]] + [[e3]] == [[e1], [e2], [e3]];
  }

  lemma {:induction false} ReplayOne(e: Entry)
    ensures Replay([], [e]) == [e]
    ensures Lookup([e], e.key) == Some(e)
  {
    LookupExact([e], e.key);
    assert e in [e];
    assert [e][..0] == [];
    assert Replay([], [e]) == Upsert([], e);
  }

  lemma {:induction false} ReopenedAfterFirst(s: System, e1: Entry, rest: seq<Frame>, size: nat)
    requires Inv(s) && s.phase.Idle? && s.disk.synced <= 1 && s.hist == s.disk.log == [[e1]] + rest
    ensures s.memory.mem != []
    ensures var w := InWindow(SYNC_NONE, s, size);
      && HasAll(w.disk.ssts, w.disk.manifest.files) && w.disk.synced <= 1 <= |w.disk.log|
      && var m := Reopened(SYNC_NONE, w, 1).memory;
        && Get(m, e1.key) == Shown(Some(e1))
        && forall k | k != e1.key :: Get(m, k) == Value(MapOf(Flat(s.hist)), k)
  {
    hide Do, InWindow, Inv, MapOf, Value, Dominates, Covers, ReadsNewest, Best;
    FlatConcat([[e1]], rest);
    FlatSnoc([], [e1]);
    assert [] + [[e1]] == [[e1]] && Flat([]) + [e1] == [e1];
    MemNotEmpty(s);
    var w := InWindow(SYNC_NONE, s, size);
    WindowKeeps(SYNC_NONE, s, size);
    ReopenedReads(SYNC_NONE, w, 1);
    assert s.disk.log[..1] == [[e1]];
    ReplayOne(e1);
    var m := Reopened(SYNC_NONE, w, 1).memory;
    forall k | k != e1.key ensures Get(m, k) == Value(MapOf(Flat(s.hist)), k) {
      WindowRewrites(SYNC_NONE, w, 1, k);
      MapConcat(Flat(s.hist), [e1], k);
    }
  }

  /** A crash in the window of a flush that keeps only the first of three unsynced frames: the reopened store
      shows the first value of a key next to the third write, which no first part of the history does. */
  lemma {:induction false} UnsyncedFlushMixes(s: System, e1: Entry, e2: Entry, e3: Entry, size: nat)
    requires Inv(s) && s.phase.Idle? && s.disk.synced <= 1
    requires s.hist == s.disk.log == [[e1], [e2], [e3]]
    requires !e1.deleted && !e2.deleted && !e3.deleted
    requires e1.key == e2.key != e3.key && e1.value != e2.value
    ensures s.memory.mem != []
    ensures var w := InWindow(SYNC_NONE, s, size);
      && HasAll(w.disk.ssts, w.disk.manifest.files) && w.disk.synced <= 1 <= |w.disk.log|
      && forall n | 0 <= n <= |s.hist| :: Differs(Reopened(SYNC_NONE, w, 1).memory, Flat(s.hist[..n]))
  {
    assert s.hist == [[e1]] + [[e2], [e3]];
    ReopenedAfterFirst(s, e1, [[e2], [e3]], size);
    var m := Reopened(SYNC_NONE, InWindow(SYNC_NONE, s, size), 1).memory;
    MixedDiffers(m, s.hist, e1, e2, e3);
  }

  /** That store reads the first value where its history has the second. */
  lemma {:induction false} MixedReads(s: System, e1: Entry, e2: Entry, e3: Entry, size: nat)
    requires Inv(s) && s.phase.Idle? && s.disk.synced <= 1
    requires s.hist == s.disk.log == [[e1], [e2], [e3]]
    requires !e1.deleted && !e2.deleted && !e3.deleted && e1.key == e2.key != e3.key
    ensures s.memory.mem != []
    ensures var w := InWindow(SYNC_NONE, s, size);
      && HasAll(w.disk.ssts, w.disk.manifest.files) && w.disk.synced <= 1 <= |w.disk.log|
      && var r := Reopened(SYNC_NONE, w, 1);
        && Inv(r) && r.phase.Idle? && Get(r.memory, e1.key) == Some(e1.value)
        && Value(MapOf(Flat(r.hist)), e1.key) == Some(e2.value)
  {
    hide Inv, InWindow, Reopened, MapOf, Flat, Survivors, Durable;
    assert s.hist == [[e1]] + [[e2], [e3]];
    ReopenedAfterFirst(s, e1, [[e2], [e3]], size);
    var w := InWindow(SYNC_NONE, s, size);
    WindowKeeps(SYNC_NONE, s, size);
    ReopenedKeeps(SYNC_NONE, w, 1);
    WholeHistory(w, 1);
    FlatThree(e1, e2, e3);
    MixedValues(e1, e2, e3);
  }

  lemma {:induction false} MixedDiffers(m: Memory, hist: seq<Frame>, e1: Entry, e2: Entry, e3: Entry)
    requires !e1.deleted && !e2.deleted && !e3.deleted
    requires e1.key == e2.key != e3.key && e1.value != e2.value && hist == [[e1], [e2], [e3]]
    requires Get(m, e1.key) == Some(e1.value) && Get(m, e3.key) == Value(MapOf(Flat(hist)), e3.key)
    ensures forall n | 0 <= n <= |hist| :: Differs(m, Flat(hist[..n]))
  {
    hide Get, MapOf, Flat, Differs;
    FlatThree(e1, e2, e3);
    MixedValues(e1, e2, e3);
    assert hist[..0] == [] && hist[..1] == [[e1]] && hist[..2] == [[e1], [e2]] && hist[..3] == hist;
    DiffersAt(m, Flat(hist[..0]), e3.key);
    DiffersAt(m, Flat(hist[..1]), e3.key);
    DiffersAt(m, Flat(hist[..2]), e3.key);
    DiffersAt(m, Flat(hist[..3]), e1.key);
  }

  lemma {:induction false} MixedValues(e1: Entry, e2: Entry, e3: Entry)
    requires !e1.deleted && !e2.deleted && !e3.deleted && e1.key == e2.key != e3.key
    ensures Value(MapOf([]), e3.key) == Value(MapOf([e1]), e3.key) == Value(MapOf([e1, e2]), e3.key) == None
    ensures Value(MapOf([e1, e2, e3]), e3.key) == Some(e3.value)
    ensures Value(MapOf([e1, e2, e3]), e1.key) == Some(e2.value)
  {
    MapsOf(e1, e2, e3);
  }

  /** UnsyncedFlushMixes happens: three writes to a new store, the second to the same key as the first. */
  lemma {:induction false} UnsyncedFlushReached(k: Bytes, j: Bytes, a: Bytes, b: Bytes, c: Bytes, size: nat)
    requires k != j && a != b
    ensures Do(SYNC_NONE, INIT, Open).phase.Idle?
    ensures var s := WriteEach(Do(SYNC_NONE, INIT, Open), [Set(k, a), Set(k, b), Set(j, c)]);
      && s.memory.mem != []
      && var w := InWindow(SYNC_NONE, s, size);
        && HasAll(w.disk.ssts, w.disk.manifest.files) && w.disk.synced <= 1 <= |w.disk.log|
        && forall n | 0 <= n <= |s.hist| :: Differs(Reopened(SYNC_NONE, w, 1).memory, Flat(s.hist[..n]))
  {
    FreshStore();
    MixesFrom(Do(SYNC_NONE, INIT, Open), k, j, a, b, c, size);
  }

  lemma {:induction false} MixesFrom(s: System, k: Bytes, j: Bytes, a: Bytes, b: Bytes, c: Bytes, size: nat)
    requires k != j && a != b && Inv(s) && Empty(s)
    ensures var r := WriteEach(s, [Set(k, a), Set(k, b), Set(j, c)]);
      && r.memory.mem != []
      && var w := InWindow(SYNC_NONE, r, size);
        && HasAll(w.disk.ssts, w.disk.manifest.files) && w.disk.synced <= 1 <= |w.disk.log|
        && forall n | 0 <= n <= |r.hist| :: Differs(Reopened(SYNC_NONE, w, 1).memory, Flat(r.hist[..n]))
  {
    hide Inv, WriteEach, InWindow, Reopened, Differs, Flat, HasAll;
    var ops, n := [Set(k, a), Set(k, b), Set(j, c)], s.memory.nextSeq;
    var r := WriteEach(s, ops);
    WriteThree(s, ops, r.hist);
    WriteEachLog(s, ops);
    WriteEachKeeps(s, ops);
    UnsyncedFlushMixes(r, r.hist[0][0], r.hist[1][0], r.hist[2][0], size);
  }

  /** Some key reads differently from what it was after the writes `es`. */
  ghost predicate Differs(m: Memory, es: seq<Entry>) {
    exists x :: Get(m, x) != Value(MapOf(es), x)
  }

  lemma {:induction false} DiffersAt(m: Memory, es: seq<Entry>, x: Bytes)
    requires Get(m, x) != Value(MapOf(es), x)
    ensures Differs(m, es)
  {
  }

  lemma {:induction false} MapsOf(e1: Entry, e2: Entry, e3: Entry)
    requires !e1.deleted && !e2.deleted && !e3.deleted
    ensures MapOf([e1]) == map[e1.key := e1.value]
    ensures MapOf([e1, e2]) == map[e1.key := e1.value][e2.key := e2.value]
    ensures MapOf([e1, e2, e3]) == map[e1.key := e1.value][e2.key := e2.value][e3.key := e3.value]
  {
    assert [e1][..0] == [];
    assert [e1, e2][..1] == [e1];
    assert [e1, e2, e3][..2] == [e1, e2];
  }
}
