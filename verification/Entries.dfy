/** Versioned entries, key-sorted tables of them, and which version of a key is the newest. */
module Entries {
  import opened Bytes

  /** One version of a key: memtable.Entry, sstable.Entry and wal.Record without its type byte. */
  datatype Entry = Entry(key: Bytes, value: Bytes, seqno: nat, deleted: bool)

  /** Numbers and lengths are 64-bit. */
  ghost predicate EntryFits(e: Entry) {
    e.seqno < TWO_64 && |e.key| < TWO_64 && |e.value| < TWO_64
  }

  // ---------- Sorted tables ----------

  /** Strictly ascending keys: what the skiplist keeps and one SSTable holds. */
  ghost predicate Sorted(t: seq<Entry>) {
    forall i, j | 0 <= i < j < |t| :: Less(t[i].key, t[j].key)
  }

  /** Index of the first entry with key >= k. */
  function LowerBound(t: seq<Entry>, k: Bytes): (p: nat)
    ensures p <= |t|
    ensures forall i | 0 <= i < p :: Less(t[i].key, k)
    ensures p < |t| ==> !Less(t[p].key, k)
  {
    if t == [] || !Less(t[0].key, k) then 0 else 1 + LowerBound(t[1..], k)
  }

  function Lookup(t: seq<Entry>, k: Bytes): (r: Option<Entry>)
    ensures r.Some? ==> r.value in t && r.value.key == k
  {
    var p := LowerBound(t, k);
    if p < |t| && t[p].key == k then Some(t[p]) else None
  }

  /** Replaces the entry of e's key or inserts e where its key belongs. */
  function Put(t: seq<Entry>, e: Entry): seq<Entry> {
    var p := LowerBound(t, e.key);
    if p < |t| && t[p].key == e.key then t[p := e] else t[..p] + [e] + t[p..]
  }

  /** memtable set: the higher sequence number wins, the later write on ties. */
  function Upsert(t: seq<Entry>, e: Entry): seq<Entry> {
    var cur := Lookup(t, e.key);
    if cur.Some? && e.seqno < cur.value.seqno then t else Put(t, e)
  }

  /** Merging: the higher sequence number wins, the entry already there on ties. */
  function Offer(t: seq<Entry>, e: Entry): seq<Entry> {
    var cur := Lookup(t, e.key);
    if cur.Some? && e.seqno <= cur.value.seqno then t else Put(t, e)
  }

  lemma {:induction false} LowerBoundSplits(t: seq<Entry>, k: Bytes, p: nat)
    requires Sorted(t) && p <= |t|
    requires p == 0 || Less(t[p - 1].key, k)
    requires p == |t| || !Less(t[p].key, k)
    ensures LowerBound(t, k) == p
    ensures forall i | 0 <= i < |t| :: Less(t[i].key, k) <==> i < p
  {
    OrderIsTotal();
    forall i | 0 <= i < |t| ensures Less(t[i].key, k) <==> i < p {
      if i < p {
        assert i == p - 1 || Less(t[i].key, t[p - 1].key);
      } else {
        assert i == p || Less(t[p].key, t[i].key);
      }
    }
  }

  /** In a sorted table Lookup finds exactly the entries that are there. */
  lemma {:induction false} LookupExact(t: seq<Entry>, k: Bytes)
    requires Sorted(t)
    ensures forall e :: Lookup(t, k) == Some(e) <==> e in t && e.key == k
  {
    OrderIsTotal();
    var p := LowerBound(t, k);
    LowerBoundSplits(t, k, p);
    forall e | e in t && e.key == k ensures Lookup(t, k) == Some(e) {
      var i :| 0 <= i < |t| && t[i] == e;
      assert forall j | 0 <= j < i :: Less(t[j].key, t[i].key);
    }
  }

  lemma {:induction false} PutSorted(t: seq<Entry>, e: Entry)
    requires Sorted(t)
    ensures Sorted(Put(t, e))
    ensures forall x :: x in Put(t, e) <==> x == e || (x in t && x.key != e.key)
  {
    OrderIsTotal();
    var p := LowerBound(t, e.key);
    LowerBoundSplits(t, e.key, p);
    if p < |t| && t[p].key == e.key {
      ReplaceAt(t, p, e);
    } else {
      assert forall x | x in t :: x.key != e.key;
      InsertAt(t, p, e);
    }
  }

  lemma {:induction false} ReplaceAt(t: seq<Entry>, p: nat, e: Entry)
    requires Sorted(t) && p < |t| && t[p].key == e.key
    ensures Sorted(t[p := e])
    ensures forall x :: x in t[p := e] <==> x == e || (x in t && x.key != e.key)
  {
    OrderIsTotal();
    var r := t[p := e];
    assert forall i | 0 <= i < |t| && i != p :: r[i] == t[i] && t[i].key != e.key;
    assert r[p] == e;
  }

  lemma {:induction false} InsertAt(t: seq<Entry>, p: nat, e: Entry)
    requires Sorted(t) && p <= |t|
    requires forall i | 0 <= i < p :: Less(t[i].key, e.key)
    requires forall i | p <= i < |t| :: Less(e.key, t[i].key)
    ensures Sorted(t[..p] + [e] + t[p..])
    ensures forall x :: x in t[..p] + [e] + t[p..] <==> x == e || x in t
  {
    assert t == t[..p] + t[p..];
  }

  /** After a set, its key holds the entry unless one with a higher sequence number was there; the other keys
      hold what they held. */
  lemma {:induction false} UpsertLookup(t: seq<Entry>, e: Entry, k: Bytes)
    requires Sorted(t)
    ensures Sorted(Upsert(t, e))
    ensures var cur := Lookup(t, e.key);
      Lookup(Upsert(t, e), k) ==
        if k != e.key || (cur.Some? && e.seqno < cur.value.seqno) then Lookup(t, k) else Some(e)
  {
    PutSorted(t, e);
    LookupExact(t, k);
    LookupExact(Put(t, e), k);
  }

  lemma {:induction false} SameElements(a: seq<Entry>, b: seq<Entry>)
    requires Sorted(a) && Sorted(b)
    requires forall e :: e in a <==> e in b
    ensures a == b
  {
    OrderIsTotal();
    assert a != [] ==> a[0] in a;
    assert b != [] ==> b[0] in b;
    if a != [] && b != [] {
      var i :| 0 <= i < |b| && b[i] == a[0];
      var j :| 0 <= j < |a| && a[j] == b[0];
      assert forall n | 0 < n < |b| :: Less(b[0].key, b[n].key);
      assert forall n | 0 < n < |a| :: Less(a[0].key, a[n].key);
      assert a[0] == b[0];
      SameTails(a, b);
      SameElements(a[1..], b[1..]);
      assert a == [a[0]] + a[1..] && b == [b[0]] + b[1..];
    }
  }

  lemma {:induction false} SameTails(a: seq<Entry>, b: seq<Entry>)
    requires Sorted(a) && Sorted(b) && a != [] && b != [] && a[0] == b[0]
    requires forall e :: e in a <==> e in b
    ensures forall e :: e in a[1..] <==> e in b[1..]
  {
    OrderIsTotal();
    forall e ensures e in a[1..] <==> e in a && e != a[0] {
      assert forall n | 0 < n < |a| :: Less(a[0].key, a[n].key);
    }
    forall e ensures e in b[1..] <==> e in b && e != b[0] {
      assert forall n | 0 < n < |b| :: Less(b[0].key, b[n].key);
    }
  }

  // ---------- Sets of versions ----------

  function Elements(es: seq<Entry>): (s: set<Entry>)
    ensures forall e :: e in s <==> e in es
  {
    set e | e in es
  }

  lemma {:induction false} ElementsConcat(a: seq<Entry>, b: seq<Entry>)
    ensures Elements(a + b) == Elements(a) + Elements(b)
  {
    assert forall e :: e in a + b <==> e in a || e in b;
  }

  predicate Beats(x: Entry, y: Entry) {
    x.key == y.key && x.seqno >= y.seqno
  }

  /** Some version in s is of y's key and at least as new. */
  ghost predicate Beaten(s: set<Entry>, y: Entry) {
    exists x :: x in s && Beats(x, y)
  }

  /** A sequence number of a key stands for one version only. */
  ghost predicate Coherent(s: set<Entry>) {
    forall x, y | x in s && y in s && x.key == y.key && x.seqno == y.seqno :: x == y
  }

  /** `o` is the newest version of k in s. */
  ghost predicate IsTop(s: set<Entry>, k: Bytes, o: Option<Entry>) {
    match o
    case None => forall x | x in s :: x.key != k
    case Some(e) => e in s && e.key == k && forall x | x in s && x.key == k :: x.seqno <= e.seqno
  }

  /** a holds only versions of b, and for every version of b one at least as new. */
  ghost predicate Covers(a: set<Entry>, b: set<Entry>) {
    a <= b && forall y {:trigger Beaten(a, y)} | y in b :: Beaten(a, y)
  }

  /** On the keys m has, m is at least as new as t. */
  ghost predicate Dominates(m: set<Entry>, t: set<Entry>) {
    forall x, y {:trigger x in m, Beaten(m, y)} | x in m && y in t && x.key == y.key :: Beaten(m, y)
  }

  /** Covering sets have the same newest versions. */
  lemma {:induction false} CoverTop(a: set<Entry>, b: set<Entry>, k: Bytes, o: Option<Entry>)
    requires Covers(a, b) && IsTop(a, k, o)
    ensures IsTop(b, k, o)
  {
    forall y | y in b && y.key == k ensures o.Some? && y.seqno <= o.value.seqno {
      assert Beaten(a, y);
      var x :| x in a && Beats(x, y);
      assert x.key == k;
    }
  }

  lemma {:induction false} CoversTransitive(a: set<Entry>, b: set<Entry>, c: set<Entry>)
    requires Covers(a, b) && Covers(b, c)
    ensures Covers(a, c)
  {
    forall z | z in c ensures Beaten(a, z) {
      assert Beaten(b, z);
      var y :| y in b && Beats(y, z);
      assert Beaten(a, y);
      var x :| x in a && Beats(x, y);
    }
  }

  lemma {:induction false} CoversUnion(a: set<Entry>, b: set<Entry>, c: set<Entry>, d: set<Entry>)
    requires Covers(a, b) && Covers(c, d)
    ensures Covers(a + c, b + d)
  {
    forall y | y in b + d ensures Beaten(a + c, y) {
      if y in b {
        assert Beaten(a, y);
        var x :| x in a && Beats(x, y);
        assert x in a + c;
      } else {
        assert Beaten(c, y);
        var x :| x in c && Beats(x, y);
        assert x in a + c;
      }
    }
  }

  lemma {:induction false} CoversItself(a: set<Entry>)
    ensures Covers(a, a)
  {
    forall y | y in a ensures Beaten(a, y) {
      assert Beats(y, y);
    }
  }

  /** A covering set dominates what the covered one does, and is dominated when it is. */
  lemma {:induction false} DominatesCover(m: set<Entry>, m': set<Entry>, t: set<Entry>)
    requires Covers(m, m')
    ensures Dominates(m, t) <==> Dominates(m', t)
  {
    if Dominates(m, t) {
      forall x, y | x in m' && y in t && x.key == y.key ensures Beaten(m', y) {
        assert Beaten(m, x);
        var w :| w in m && Beats(w, x);
        assert Beaten(m, y);
        var z :| z in m && Beats(z, y);
        assert z in m';
      }
    }
    if Dominates(m', t) {
      forall x, y | x in m && y in t && x.key == y.key ensures Beaten(m, y) {
        assert x in m';
        assert Beaten(m', y);
        var w :| w in m' && Beats(w, y);
        assert Beaten(m, w);
        var z :| z in m && Beats(z, w);
        assert Beats(z, y);
      }
    }
  }

  lemma {:induction false} DominatesCovered(m: set<Entry>, a: set<Entry>, b: set<Entry>)
    requires Covers(a, b)
    ensures Dominates(m, a) <==> Dominates(m, b)
  {
    if Dominates(m, a) {
      forall x, y | x in m && y in b && x.key == y.key ensures Beaten(m, y) {
        assert Beaten(a, y);
        var w :| w in a && Beats(w, y);
        assert Beaten(m, w);
        var z :| z in m && Beats(z, w);
        assert Beats(z, y);
      }
    }
  }

  /** Looking in m first and in t only for the keys m does not have finds the newest version of every
      key exactly when m dominates t. */
  lemma {:induction false} FirstLookExact(m: seq<Entry>, t: set<Entry>)
    requires Sorted(m)
    ensures Dominates(Elements(m), t) <==>
      forall k, e | Lookup(m, k) == Some(e) :: IsTop(Elements(m) + t, k, Some(e))
  {
    var s := Elements(m);
    forall k ensures forall e :: Lookup(m, k) == Some(e) <==> e in m && e.key == k {
      LookupExact(m, k);
    }
    if Dominates(s, t) {
      forall k, e | Lookup(m, k) == Some(e) ensures IsTop(s + t, k, Some(e)) {
        assert e in m && e.key == k;
        forall x | x in s + t && x.key == k ensures x.seqno <= e.seqno {
          if x in s {
            assert x in m && Lookup(m, k) == Some(x);
          } else {
            assert Beaten(s, x);
            var z :| z in s && Beats(z, x);
            assert z in m && Lookup(m, k) == Some(z);
          }
        }
      }
    }
    if forall k, e | Lookup(m, k) == Some(e) :: IsTop(s + t, k, Some(e)) {
      forall x, y | x in s && y in t && x.key == y.key ensures Beaten(s, y) {
        assert x in m && Lookup(m, x.key) == Some(x);
        assert y in s + t;
        assert Beats(x, y);
      }
    }
  }

  lemma {:induction false} LookupTop(t: seq<Entry>, k: Bytes)
    requires Sorted(t)
    ensures IsTop(Elements(t), k, Lookup(t, k))
  {
    LookupExact(t, k);
    forall x | x in t && x.key == k ensures Lookup(t, k) == Some(x) {
    }
  }

  // ---------- Replaying into a table ----------

  /** The memtable after setting the entries in order. */
  function Replay(t: seq<Entry>, es: seq<Entry>): seq<Entry> {
    if es == [] then t else Upsert(Replay(t, es[..|es| - 1]), es[|es| - 1])
  }

  lemma {:induction false} UpsertCovers(t: seq<Entry>, e: Entry)
    requires Sorted(t)
    ensures Sorted(Upsert(t, e))
    ensures Covers(Elements(Upsert(t, e)), Elements(t) + {e})
  {
    var r := Upsert(t, e);
    PutSorted(t, e);
    LookupExact(t, e.key);
    forall y | y in Elements(t) + {e} ensures Beaten(Elements(r), y) {
      if y in r {
        assert y in Elements(r) && Beats(y, y);
      } else if y == e {
        var cur := Lookup(t, e.key).value;
        assert cur in Elements(r) && Beats(cur, y);
      } else {
        assert e in Elements(r) && Beats(e, y);
      }
    }
  }

  /** A replayed table is sorted and holds the newest version of every key written. */
  lemma {:induction false} ReplayCovers(t: seq<Entry>, es: seq<Entry>)
    requires Sorted(t)
    ensures Sorted(Replay(t, es))
    ensures Covers(Elements(Replay(t, es)), Elements(t) + Elements(es))
  {
    if es == [] {
      CoversItself(Elements(t));
      assert Elements(t) + Elements(es) == Elements(t);
    } else {
      var n := |es| - 1;
      var before := Replay(t, es[..n]);
      ReplayCovers(t, es[..n]);
      UpsertCovers(before, es[n]);
      CoversItself({es[n]});
      CoversUnion(Elements(before), Elements(t) + Elements(es[..n]), {es[n]}, {es[n]});
      CoversTransitive(Elements(Replay(t, es)), Elements(before) + {es[n]},
                       Elements(t) + Elements(es[..n]) + {es[n]});
      assert es == es[..n] + [es[n]];
      ElementsConcat(es[..n], [es[n]]);
      assert Elements(t) + Elements(es[..n]) + {es[n]} == Elements(t) + Elements(es);
    }
  }

  lemma {:induction false} ReplayConcat(t: seq<Entry>, a: seq<Entry>, b: seq<Entry>)
    ensures Replay(t, a + b) == Replay(Replay(t, a), b)
  {
    if b == [] {
      assert a + b == a;
    } else {
      var n := |b| - 1;
      assert (a + b)[..|a + b| - 1] == a + b[..n];
      ReplayConcat(t, a, b[..n]);
    }
  }

  // ---------- The plain map ----------

  function ApplyTo(m: map<Bytes, Bytes>, e: Entry): map<Bytes, Bytes> {
    if e.deleted then m - {e.key} else m[e.key := e.value]
  }

  /** The last write per key, deleted keys left out. */
  function MapOf(es: seq<Entry>): map<Bytes, Bytes> {
    if es == [] then map[] else ApplyTo(MapOf(es[..|es| - 1]), es[|es| - 1])
  }

  ghost predicate Increasing(es: seq<Entry>) {
    forall i, j | 0 <= i < j < |es| :: es[i].seqno < es[j].seqno
  }

  /** What a reader shows for the newest version of a key. */
  function Shown(o: Option<Entry>): Option<Bytes> {
    if o.Some? && !o.value.deleted then Some(o.value.value) else None
  }

  function Value(m: map<Bytes, Bytes>, k: Bytes): Option<Bytes> {
    if k in m then Some(m[k]) else None
  }

  /** Equal values for every key make equal maps. */
  lemma {:induction false} SameMap(a: map<Bytes, Bytes>, b: map<Bytes, Bytes>)
    requires forall k :: Value(a, k) == Value(b, k)
    ensures a == b
  {
    forall k ensures k in a <==> k in b {
      assert Value(a, k) == Value(b, k);
    }
    forall k | k in a ensures a[k] == b[k] {
      assert Value(a, k) == Value(b, k);
    }
  }

  ghost predicate Writes(es: seq<Entry>, k: Bytes) {
    exists e :: e in es && e.key == k
  }

  /** A replay makes a table have a key exactly by writing it. */
  lemma {:induction false} ReplayHas(t: seq<Entry>, es: seq<Entry>, k: Bytes)
    requires Sorted(t)
    ensures Lookup(Replay(t, es), k).Some? <==> Lookup(t, k).Some? || Writes(es, k)
  {
    hide Replay, LowerBound;
    var r := Replay(t, es);
    ReplayCovers(t, es);
    LookupExact(t, k);
    LookupExact(r, k);
    forall e | (e in t || e in es) && e.key == k ensures Lookup(r, k).Some? {
      assert Beaten(Elements(r), e);
      var x :| x in Elements(r) && Beats(x, e);
      assert x in r && x.key == k;
    }
    forall e | e in r ensures e in t || e in es {
      assert e in Elements(r);
    }
  }

  /** Later writes hide earlier ones, key by key. */
  lemma {:induction false} MapConcat(a: seq<Entry>, b: seq<Entry>, k: Bytes)
    ensures Value(MapOf(a + b), k) == if Writes(b, k) then Value(MapOf(b), k) else Value(MapOf(a), k)
  {
    if b == [] {
      assert a + b == a;
    } else {
      var n := |b| - 1;
      assert (a + b)[..|a + b| - 1] == a + b[..n] && (a + b)[|a + b| - 1] == b[n];
      MapConcat(a, b[..n], k);
      assert b[n] in b && forall e :: e in b <==> e in b[..n] || e == b[n];
    }
  }

  lemma {:induction false} IncreasingCoherent(es: seq<Entry>)
    requires Increasing(es)
    ensures Coherent(Elements(es))
  {
    forall x, y | x in es && y in es && x.seqno == y.seqno ensures x == y {
      var i :| 0 <= i < |es| && es[i] == x;
      var j :| 0 <= j < |es| && es[j] == y;
      assert i == j;
    }
  }

  /** When sequence numbers follow the order of the writes, the newest version is the last write. */
  lemma {:induction false} TopIsLastWrite(es: seq<Entry>, k: Bytes, o: Option<Entry>)
    requires Increasing(es) && IsTop(Elements(es), k, o)
    ensures Shown(o) == Value(MapOf(es), k)
  {
    if es != [] {
      var n := |es| - 1;
      var e, rest := es[n], es[..n];
      assert forall x :: x in es <==> x in rest || x == e;
      if e.key == k {
        assert e in Elements(es);
        forall x | x in es && x.seqno >= e.seqno ensures x == e {
          var i :| 0 <= i < |es| && es[i] == x;
        }
        assert o == Some(e);
      } else {
        TopIsLastWrite(rest, k, o);
      }
    }
  }

  // ---------- Frames of entries ----------

  /** One WAL frame: the entries of a Put, a Delete or a whole batch. */
  type Frame = seq<Entry>

  function Flat(log: seq<Frame>): seq<Entry> {
    if log == [] then [] else Flat(log[..|log| - 1]) + log[|log| - 1]
  }

  function MaxSeqOf(es: seq<Entry>): (m: nat)
    ensures forall e | e in es :: e.seqno <= m
    ensures m == 0 || exists e :: e in es && e.seqno == m
  {
    if es == [] then 0
    else
      var e, m := es[|es| - 1], MaxSeqOf(es[..|es| - 1]);
      assert forall x :: x in es <==> x in es[..|es| - 1] || x == e;
      if e.seqno > m then e.seqno else m
  }
}
