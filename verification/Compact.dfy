/** internal/compact: which tables a compaction takes and the k-way heap merge. */
module Compact {
  import opened Bytes
  import opened Entries
  import M = Manifest

  // ---------- What a merge should produce ----------

  /** Offers the entries of es in order to t. */
  function OfferAll(t: seq<Entry>, es: seq<Entry>): seq<Entry> {
    if es == [] then t else Offer(OfferAll(t, es[..|es| - 1]), es[|es| - 1])
  }

  /** The newest version of every key of the inputs; the earlier input on ties. */
  function Merge(inputs: seq<seq<Entry>>): seq<Entry> {
    if inputs == [] then [] else OfferAll(Merge(inputs[..|inputs| - 1]), inputs[|inputs| - 1])
  }

  /** All versions in the inputs. */
  function Versions(inputs: seq<seq<Entry>>): set<Entry> {
    if inputs == [] then {} else Versions(inputs[..|inputs| - 1]) + Elements(inputs[|inputs| - 1])
  }

  lemma {:induction false} VersionsMember(inputs: seq<seq<Entry>>, e: Entry)
    ensures e in Versions(inputs) <==> exists i | 0 <= i < |inputs| :: e in inputs[i]
  {
    if inputs != [] {
      var n := |inputs| - 1;
      VersionsMember(inputs[..n], e);
      if e in Versions(inputs[..n]) {
        var i :| 0 <= i < n && e in inputs[..n][i];
        assert e in inputs[i];
      }
      if i :| 0 <= i < |inputs| && e in inputs[i] {
        assert i == n || e in inputs[..n][i];
      }
    }
  }

  /** The entries that are not tombstones, in order. */
  function NotDeleted(t: seq<Entry>): (r: seq<Entry>)
    ensures forall e :: e in r <==> e in t && !e.deleted
  {
    if t == [] then []
    else
      var e, rest := t[|t| - 1], NotDeleted(t[..|t| - 1]);
      if e.deleted then rest else rest + [e]
  }

  function Tombstones(t: seq<Entry>): nat {
    if t == [] then 0 else Tombstones(t[..|t| - 1]) + if t[|t| - 1].deleted then 1 else 0
  }

  function Total(inputs: seq<seq<Entry>>): nat {
    if inputs == [] then 0 else Total(inputs[..|inputs| - 1]) + |inputs[|inputs| - 1]|
  }

  lemma {:induction false} OfferCovers(t: seq<Entry>, e: Entry)
    requires Sorted(t)
    ensures Sorted(Offer(t, e))
    ensures Covers(Elements(Offer(t, e)), Elements(t) + {e})
  {
    var r := Offer(t, e);
    PutSorted(t, e);
    LookupExact(t, e.key);
    forall y | y in Elements(t) + {e} ensures Beaten(Elements(r), y) {
      if y in r {
        assert y in Elements(r) && Beats(y, y);
      } else if y == e {
        var cur := Lookup(t, e.key).value;
        assert cur in Elements(r) && Beats(cur, y);
      } else {
        assert e in Elements(r) && Beats(e, y);
      }
    }
  }

  lemma {:induction false} OfferAllCovers(t: seq<Entry>, es: seq<Entry>)
    requires Sorted(t)
    ensures Sorted(OfferAll(t, es))
    ensures Covers(Elements(OfferAll(t, es)), Elements(t) + Elements(es))
  {
    if es == [] {
      CoversItself(Elements(t));
      assert Elements(t) + Elements(es) == Elements(t);
    } else {
      var n := |es| - 1;
      var before := OfferAll(t, es[..n]);
      OfferAllCovers(t, es[..n]);
      OfferCovers(before, es[n]);
      CoversItself({es[n]});
      CoversUnion(Elements(before), Elements(t) + Elements(es[..n]), {es[n]}, {es[n]});
      CoversTransitive(Elements(OfferAll(t, es)), Elements(before) + {es[n]},
                       Elements(t) + Elements(es[..n]) + {es[n]});
      assert es == es[..n] + [es[n]];
      ElementsConcat(es[..n], [es[n]]);
      assert Elements(t) + Elements(es[..n]) + {es[n]} == Elements(t) + Elements(es);
    }
  }

  /** A merge that keeps tombstones is a sorted table with the newest version of every key. */
  lemma {:induction false} MergeCovers(inputs: seq<seq<Entry>>)
    ensures Sorted(Merge(inputs))
    ensures Covers(Elements(Merge(inputs)), Versions(inputs))
  {
    if inputs == [] {
      CoversItself({});
    } else {
      var n := |inputs| - 1;
      var before := Merge(inputs[..n]);
      MergeCovers(inputs[..n]);
      OfferAllCovers(before, inputs[n]);
      CoversItself(Elements(inputs[n]));
      CoversUnion(Elements(before), Versions(inputs[..n]), Elements(inputs[n]), Elements(inputs[n]));
      CoversTransitive(Elements(Merge(inputs)), Elements(before) + Elements(inputs[n]), Versions(inputs));
    }
  }

  lemma {:induction false} NotDeletedSorted(t: seq<Entry>)
    requires Sorted(t)
    ensures Sorted(NotDeleted(t))
  {
    if t != [] {
      var n := |t| - 1;
      NotDeletedSorted(t[..n]);
      var rest := NotDeleted(t[..n]);
      forall i, j | 0 <= i < j < |NotDeleted(t)| ensures Less(NotDeleted(t)[i].key, NotDeleted(t)[j].key) {
        if j == |rest| {
          assert rest[i] in t[..n];
        }
      }
    }
  }

  /** Dropping the tombstones of a merge of all tables changes no value a reader is shown: the key of a
      dropped tombstone has no older version left that could come back. */
  lemma {:induction false} DropTombstonesInvisible(inputs: seq<seq<Entry>>, k: Bytes)
    ensures Sorted(NotDeleted(Merge(inputs)))
    ensures Shown(Lookup(NotDeleted(Merge(inputs)), k)) == Shown(Lookup(Merge(inputs), k))
  {
    MergeCovers(inputs);
    var t := Merge(inputs);
    NotDeletedSorted(t);
    LookupExact(t, k);
    LookupExact(NotDeleted(t), k);
  }

  // ---------- The order of the heap ----------

  datatype Item = Item(idx: nat, e: Entry)

  /** mergeHeap.Less. */
  predicate Before(a: Item, b: Item) {
    var c := Compare(a.e.key, b.e.key);
    if c != 0 then c < 0
    else if a.e.seqno != b.e.seqno then a.e.seqno > b.e.seqno
    else a.idx < b.idx
  }

  predicate AtMost(a: Item, b: Item) {
    !Before(b, a)
  }

  lemma {:induction false} CompareChain(a: Bytes, b: Bytes, c: Bytes)
    requires Compare(a, b) <= 0 && Compare(b, c) <= 0
    ensures Compare(a, c) <= 0
    ensures Compare(a, c) == 0 ==> a == b == c
  {
    CompareIsAntisymmetric(a, b);
    CompareIsAntisymmetric(b, c);
    CompareIsAntisymmetric(a, c);
    if a != b && b != c {
      LessIsTransitive(a, b, c);
    }
  }

  lemma {:induction false} AtMostTransitive(a: Item, b: Item, c: Item)
    requires AtMost(a, b) && AtMost(b, c)
    ensures AtMost(a, c)
  {
    CompareIsAntisymmetric(a.e.key, b.e.key);
    CompareIsAntisymmetric(b.e.key, c.e.key);
    CompareIsAntisymmetric(a.e.key, c.e.key);
    CompareChain(a.e.key, b.e.key, c.e.key);
  }

  lemma {:induction false} AtMostTotal(a: Item, b: Item)
    ensures AtMost(a, b) || AtMost(b, a)
    ensures AtMost(a, b) ==> !Less(b.e.key, a.e.key)
    ensures AtMost(a, b) && a.e.key == b.e.key ==> a.e.seqno >= b.e.seqno
    ensures AtMost(a, b) && AtMost(b, a) ==> a.e.key == b.e.key && a.idx == b.idx
  {
    CompareIsAntisymmetric(a.e.key, b.e.key);
  }

  // ---------- container/heap on a slice of items ----------

  predicate Edge(p: int, c: int) {
    0 <= p && (c == 2 * p + 1 || c == 2 * p + 2)
  }

  /** The first n items are a heap. */
  ghost predicate IsHeap(s: seq<Item>, n: nat)
    requires n <= |s|
  {
    forall p, c | Edge(p, c) && c < n :: AtMost(s[p], s[c])
  }

  /** A heap but for the edge into j. */
  ghost predicate SiftingUp(s: seq<Item>, j: nat) {
    && (forall p, c | Edge(p, c) && c < |s| && c != j :: AtMost(s[p], s[c]))
    && (forall g, c | Edge(g, j) && Edge(j, c) && c < |s| :: AtMost(s[g], s[c]))
  }

  /** The first n items are a heap but for the edges out of i. */
  ghost predicate SiftingDown(s: seq<Item>, n: nat, i: nat)
    requires n <= |s|
  {
    && (forall p, c | Edge(p, c) && c < n && p != i :: AtMost(s[p], s[c]))
    && (forall g, c | Edge(g, i) && Edge(i, c) && c < n :: AtMost(s[g], s[c]))
  }

  lemma {:induction false} RootIsLeast(s: seq<Item>, j: nat)
    requires IsHeap(s, |s|) && j < |s|
    ensures AtMost(s[0], s[j])
  {
    if j == 0 {
      AtMostTotal(s[0], s[0]);
    } else {
      var p := (j - 1) / 2;
      assert Edge(p, j);
      RootIsLeast(s, p);
      AtMostTransitive(s[0], s[p], s[j]);
    }
  }

  function Swapped(s: seq<Item>, i: nat, j: nat): (r: seq<Item>)
    requires i < |s| && j < |s|
    ensures multiset(r) == multiset(s)
  {
    s[i := s[j]][j := s[i]]
  }

  lemma {:induction false} UpStep(s: seq<Item>, i: nat, j: nat)
    requires j < |s| && Edge(i, j) && SiftingUp(s, j) && Before(s[j], s[i])
    ensures SiftingUp(Swapped(s, i, j), i)
  {
    var r := Swapped(s, i, j);
    AtMostTotal(s[i], s[j]);
    forall p, c | Edge(p, c) && c < |s| && c != i ensures AtMost(r[p], r[c]) {
      if p == i && c != j {
        AtMostTransitive(s[j], s[i], s[c]);
      }
    }
    forall g, c | Edge(g, i) && Edge(i, c) && c < |s| ensures AtMost(r[g], r[c]) {
      if c != j {
        AtMostTransitive(s[g], s[i], s[c]);
      }
    }
  }

  lemma {:induction false} DownStep(s: seq<Item>, n: nat, i: nat, j: nat)
    requires n <= |s| && j < n && Edge(i, j) && SiftingDown(s, n, i) && Before(s[j], s[i])
    requires forall c | Edge(i, c) && c < n :: AtMost(s[j], s[c])
    ensures SiftingDown(Swapped(s, i, j), n, j)
  {
    AtMostTotal(s[i], s[j]);
  }

  lemma {:induction false} RootBeforeAll(s: seq<Item>)
    requires s != [] && IsHeap(s, |s|)
    ensures forall y | y in s :: AtMost(s[0], y)
  {
    forall y | y in s ensures AtMost(s[0], y) {
      var j :| 0 <= j < |s| && s[j] == y;
      RootIsLeast(s, j);
    }
  }

  lemma {:induction false} RootSwapped(s: seq<Item>, n: nat)
    requires n + 1 == |s| && IsHeap(s, |s|)
    ensures SiftingDown(Swapped(s, 0, n), n, 0)
  {
    var r := Swapped(s, 0, n);
    forall p, c | Edge(p, c) && c < n && p != 0 ensures AtMost(r[p], r[c]) {
      assert r[p] == s[p] && r[c] == s[c];
    }
  }

  lemma {:induction false} DropLast(s: seq<Item>, n: nat)
    requires n + 1 == |s|
    ensures multiset(s) == multiset(s[..n]) + multiset{s[n]}
    ensures IsHeap(s, n) ==> IsHeap(s[..n], n)
  {
    assert s == s[..n] + [s[n]];
  }

  class MergeHeap {
    var items: seq<Item>

    ghost predicate Valid()
      reads this
    {
      IsHeap(items, |items|)
    }

    constructor ()
      ensures Valid() && items == []
    {
      items := [];
    }

    method Push(x: Item)
      requires Valid()
      modifies this
      ensures Valid()
      ensures multiset(items) == multiset(old(items)) + multiset{x}
    {
      items := items + [x];
      Up(|items| - 1);
    }

    /** Sifts the last item up to its place. */
    method Up(last: nat)
      requires last == |items| - 1 && SiftingUp(items, last)
      modifies this
      ensures Valid()
      ensures multiset(items) == multiset(old(items))
    {
      var j: nat := last;
      while true
        invariant j < |items| && SiftingUp(items, j)
        invariant multiset(items) == multiset(old(items))
        decreases j
      {
        var i: nat := if j == 0 then 0 else (j - 1) / 2;
        assert j > 0 ==> Edge(i, j);
        assert forall p | Edge(p, j) :: p == i && j > 0;
        if i == j || !Before(items[j], items[i]) {
          break;
        }
        UpStep(items, i, j);
        items := Swapped(items, i, j);
        j := i;
      }
    }

    method Pop() returns (x: Item)
      requires Valid() && items != []
      modifies this
      ensures Valid()
      ensures multiset(old(items)) == multiset(items) + multiset{x}
      ensures forall y | y in old(items) :: AtMost(x, y)
    {
      var n := |items| - 1;
      RootBeforeAll(items);
      RootSwapped(items, n);
      items := Swapped(items, 0, n);
      Down(n);
      x := items[n];
      DropLast(items, n);
      items := items[..n];
    }

    /** Sifts the root down among the first n items. */
    method Down(n: nat)
      requires n + 1 == |items| && SiftingDown(items, n, 0)
      modifies this
      ensures |items| == n + 1 && items[n] == old(items[n]) && IsHeap(items, n)
      ensures multiset(items) == multiset(old(items))
    {
      var i: nat := 0;
      while true
        invariant |items| == n + 1 && items[n] == old(items[n]) && SiftingDown(items, n, i)
        invariant multiset(items) == multiset(old(items))
        decreases n - i
      {
        var j1 := 2 * i + 1;
        if j1 >= n {
          break;
        }
        var j := j1;
        var j2 := j1 + 1;
        if j2 < n && Before(items[j2], items[j1]) {
          j := j2;
        }
        LeastChild(items, n, i, j);
        if !Before(items[j], items[i]) {
          forall c | Edge(i, c) && c < n ensures AtMost(items[i], items[c]) {
            AtMostTransitive(items[i], items[j], items[c]);
          }
          break;
        }
        DownStep(items, n, i, j);
        items := Swapped(items, i, j);
        i := j;
      }
    }
  }

  lemma {:induction false} LeastChild(s: seq<Item>, n: nat, i: nat, j: nat)
    requires n <= |s| && 2 * i + 1 < n
    requires j == if 2 * i + 2 < n && Before(s[2 * i + 2], s[2 * i + 1]) then 2 * i + 2 else 2 * i + 1
    ensures Edge(i, j) && forall c | Edge(i, c) && c < n :: AtMost(s[j], s[c])
  {
    AtMostTotal(s[j], s[j]);
    if 2 * i + 2 < n {
      AtMostTotal(s[2 * i + 1], s[2 * i + 2]);
    }
  }

  // ---------- The merge holds the winners of the heap order ----------

  /** No input has an item of w's key that the heap order puts before w. */
  ghost predicate IsWinner(inputs: seq<seq<Entry>>, w: Item) {
    && w.idx < |inputs| && w.e in inputs[w.idx]
    && forall j, x | 0 <= j < |inputs| && x in inputs[j] && x.key == w.e.key :: AtMost(w, Item(j, x))
  }

  lemma {:induction false} OfferAllKeeps(t: seq<Entry>, es: seq<Entry>, e: Entry)
    requires Sorted(t) && e in t
    requires forall x | x in es && x.key == e.key :: x.seqno <= e.seqno
    ensures e in OfferAll(t, es)
  {
    if es != [] {
      var n := |es| - 1;
      OfferAllKeeps(t, es[..n], e);
      OfferAllCovers(t, es[..n]);
      var before := OfferAll(t, es[..n]);
      assert es[n] in es;
      PutSorted(before, es[n]);
      LookupExact(before, e.key);
    }
  }

  lemma {:induction false} OfferAllTakes(t: seq<Entry>, es: seq<Entry>, e: Entry)
    requires Sorted(t) && Sorted(es) && e in es
    requires forall x | x in t && x.key == e.key :: x.seqno < e.seqno
    ensures e in OfferAll(t, es)
  {
    hide Put, LowerBound;
    var n := |es| - 1;
    var before := OfferAll(t, es[..n]);
    OfferAllCovers(t, es[..n]);
    PutSorted(before, es[n]);
    LookupExact(before, es[n].key);
    OrderIsTotal();
    if e == es[n] {
      forall x | x in before && x.key == e.key ensures x in t {
        assert x in Elements(before);
      }
    } else {
      assert e in es[..n];
      OfferAllTakes(t, es[..n], e);
      assert forall i | 0 <= i < n :: Less(es[i].key, es[n].key);
      LookupExact(before, e.key);
    }
  }

  /** Of the versions of a key in all inputs the one with the highest number is in the merge; of equal ones that of the
      earliest input. */
  lemma {:induction false} EarliestWins(inputs: seq<seq<Entry>>, i: nat, e: Entry)
    requires forall j | 0 <= j < |inputs| :: Sorted(inputs[j])
    requires i < |inputs| && e in inputs[i]
    requires forall j, x | 0 <= j < |inputs| && x in inputs[j] && x.key == e.key ::
      x.seqno < e.seqno || (x.seqno == e.seqno && i <= j)
    ensures e in Merge(inputs)
  {
    hide Compare, Merge, Sorted;
    forall x: Item | x.idx < |inputs| && x.e in inputs[x.idx] && x.e.key == e.key ensures AtMost(Item(i, e), x) {
      CompareIsAntisymmetric(x.e.key, e.key);
    }
    MergeHoldsWinners(inputs, Item(i, e));
  }

  lemma {:induction false} MergeHoldsWinners(inputs: seq<seq<Entry>>, w: Item)
    requires forall i | 0 <= i < |inputs| :: Sorted(inputs[i])
    requires IsWinner(inputs, w)
    ensures w.e in Merge(inputs)
  {
    hide OfferAll, Compare, Versions;
    var n := |inputs| - 1;
    var before := Merge(inputs[..n]);
    MergeCovers(inputs[..n]);
    if w.idx < n {
      assert IsWinner(inputs[..n], w);
      MergeHoldsWinners(inputs[..n], w);
      forall x | x in inputs[n] && x.key == w.e.key ensures x.seqno <= w.e.seqno {
        AtMostTotal(w, Item(n, x));
      }
      OfferAllKeeps(before, inputs[n], w.e);
    } else {
      forall x | x in before && x.key == w.e.key ensures x.seqno < w.e.seqno {
        assert x in Elements(before) && x in Versions(inputs[..n]);
        VersionsMember(inputs[..n], x);
        var j :| 0 <= j < n && x in inputs[..n][j];
        assert x in inputs[j];
        assert AtMost(w, Item(j, x));
        CompareIsAntisymmetric(x.key, w.e.key);
      }
      OfferAllTakes(before, inputs[n], w.e);
    }
  }

  // ---------- The merge loop ----------

  datatype Result = Result(out: seq<Entry>, keptTombstones: nat, droppedObsolete: nat)

  /** The heads of the first k iterators, as heap items. */
  ghost function Heads(inputs: seq<seq<Entry>>, pos: seq<nat>, k: nat): multiset<Item>
    requires k <= |inputs| == |pos|
  {
    if k == 0 then multiset{}
    else Heads(inputs, pos, k - 1) + Head(inputs, pos, k - 1)
  }

  ghost function Head(inputs: seq<seq<Entry>>, pos: seq<nat>, i: nat): multiset<Item>
    requires i < |inputs| == |pos|
  {
    if pos[i] < |inputs[i]| then multiset{Item(i, inputs[i][pos[i]])} else multiset{}
  }

  ghost function Sum(pos: seq<nat>, k: nat): nat
    requires k <= |pos|
  {
    if k == 0 then 0 else Sum(pos, k - 1) + pos[k - 1]
  }

  lemma {:induction false} HeadsMember(inputs: seq<seq<Entry>>, pos: seq<nat>, k: nat, x: Item)
    requires k <= |inputs| == |pos|
    ensures x in Heads(inputs, pos, k) <==> x.idx < k && x in Head(inputs, pos, x.idx)
  {
    hide Head;
    if k > 0 {
      HeadsMember(inputs, pos, k - 1, x);
      HeadIndex(inputs, pos, k - 1, x);
      assert x in Heads(inputs, pos, k) <==> x in Heads(inputs, pos, k - 1) || x in Head(inputs, pos, k - 1);
    }
  }

  lemma {:induction false} HeadIndex(inputs: seq<seq<Entry>>, pos: seq<nat>, i: nat, x: Item)
    requires i < |inputs| == |pos|
    ensures x in Head(inputs, pos, i) ==> x.idx == i
  {
  }

  lemma {:induction false} HeadsSame(inputs: seq<seq<Entry>>, pos: seq<nat>, i: nat, k: nat)
    requires k <= i < |inputs| == |pos|
    ensures Heads(inputs, pos[i := pos[i] + 1], k) == Heads(inputs, pos, k)
  {
    if k > 0 {
      HeadsSame(inputs, pos, i, k - 1);
    }
  }

  /** Advancing iterator i replaces its head. */
  lemma {:induction false} HeadsAdvance(inputs: seq<seq<Entry>>, pos: seq<nat>, i: nat, k: nat)
    requires i < k <= |inputs| == |pos|
    ensures var next := pos[i := pos[i] + 1];
      Heads(inputs, next, k) + Head(inputs, pos, i) == Heads(inputs, pos, k) + Head(inputs, next, i)
  {
    hide Head;
    var next := pos[i := pos[i] + 1];
    if i == k - 1 {
      HeadsSame(inputs, pos, i, k - 1);
    } else {
      HeadsAdvance(inputs, pos, i, k - 1);
      HeadSame(inputs, pos, i, k - 1);
      AddBoth(Heads(inputs, next, k - 1), Head(inputs, pos, i), Heads(inputs, pos, k - 1), Head(inputs, next, i),
              Head(inputs, pos, k - 1));
    }
  }

  lemma {:induction false} HeadSame(inputs: seq<seq<Entry>>, pos: seq<nat>, i: nat, j: nat)
    requires i < j < |inputs| == |pos|
    ensures Head(inputs, pos[i := pos[i] + 1], j) == Head(inputs, pos, j)
  {
  }

  lemma {:induction false} AddBoth(
    a: multiset<Item>, x: multiset<Item>, b: multiset<Item>, y: multiset<Item>, h: multiset<Item>)
    requires a + x == b + y
    ensures (a + h) + x == (b + h) + y
  {
    assert (a + h) + x == (a + x) + h && (b + h) + y == (b + y) + h;
  }

  lemma {:induction false} SumAdvance(pos: seq<nat>, i: nat, k: nat)
    requires i < k <= |pos|
    ensures Sum(pos[i := pos[i] + 1], k) == Sum(pos, k) + 1
  {
    if i == k - 1 {
      SumSame(pos, i, k - 1);
    } else {
      SumAdvance(pos, i, k - 1);
    }
  }

  lemma {:induction false} SumSame(pos: seq<nat>, i: nat, k: nat)
    requires k <= i < |pos|
    ensures Sum(pos[i := pos[i] + 1], k) == Sum(pos, k)
  {
    if k > 0 {
      SumSame(pos, i, k - 1);
    }
  }

  lemma {:induction false} SumAtEnd(inputs: seq<seq<Entry>>, pos: seq<nat>, k: nat)
    requires k <= |inputs| == |pos|
    requires forall i | 0 <= i < |pos| :: pos[i] <= |inputs[i]|
    ensures Sum(pos, k) <= Total(inputs[..k])
    ensures (forall i | 0 <= i < k :: pos[i] == |inputs[i]|) ==> Sum(pos, k) == Total(inputs[..k])
    ensures (exists i | 0 <= i < k :: pos[i] < |inputs[i]|) ==> Sum(pos, k) < Total(inputs[..k])
  {
    if k > 0 {
      SumAtEnd(inputs, pos, k - 1);
      assert inputs[..k][..k - 1] == inputs[..k - 1];
    }
  }

  function EntriesOf(items: seq<Item>): seq<Entry> {
    if items == [] then [] else EntriesOf(items[..|items| - 1]) + [items[|items| - 1].e]
  }

  lemma {:induction false} EntriesOfAt(items: seq<Item>)
    ensures |EntriesOf(items)| == |items|
    ensures forall i | 0 <= i < |items| :: EntriesOf(items)[i] == items[i].e
  {
    if items != [] {
      EntriesOfAt(items[..|items| - 1]);
    }
  }

  ghost predicate InRange(inputs: seq<seq<Entry>>, pos: seq<nat>)
    requires |pos| == |inputs|
  {
    forall i | 0 <= i < |inputs| :: pos[i] <= |inputs[i]|
  }

  /** What the loop knows about the items it has taken off the heap: `won` are the ones that were the first
      of their key, `last` is the one taken last. */
  ghost predicate Progress(inputs: seq<seq<Entry>>, pos: seq<nat>, won: seq<Item>, last: Item)
    requires |pos| == |inputs|
  {
    && InRange(inputs, pos)
    && Sorted(EntriesOf(won))
    && (forall w | w in won :: IsWinner(inputs, w))
    && (forall i, p | 0 <= i < |inputs| && 0 <= p < pos[i] :: KeyWon(won, inputs[i][p].key))
    && (won != [] ==> won[|won| - 1].e.key == last.e.key)
    && (won != [] ==>
          forall i, p | 0 <= i < |inputs| && pos[i] <= p < |inputs[i]| :: AtMost(last, Item(i, inputs[i][p])))
  }

  ghost predicate KeyWon(won: seq<Item>, k: Bytes) {
    exists w :: w in won && w.e.key == k
  }

  /** The least head is the least of everything unread. */
  lemma {:induction false} LeastUnread(inputs: seq<seq<Entry>>, pos: seq<nat>, x: Item, i: nat, p: nat)
    requires |pos| == |inputs| && i < |inputs| && pos[i] <= p < |inputs[i]| && Sorted(inputs[i])
    requires forall y | y in Heads(inputs, pos, |inputs|) :: AtMost(x, y)
    ensures AtMost(x, Item(i, inputs[i][p]))
  {
    var h := Item(i, inputs[i][pos[i]]);
    HeadsMember(inputs, pos, |inputs|, h);
    OrderIsTotal();
    if pos[i] < p {
      assert Less(h.e.key, inputs[i][p].key);
      CompareIsAntisymmetric(h.e.key, inputs[i][p].key);
      AtMostTransitive(x, h, Item(i, inputs[i][p]));
    }
  }

  lemma {:induction false} KeysWonUpToLast(won: seq<Item>, k: Bytes)
    requires Sorted(EntriesOf(won)) && KeyWon(won, k)
    ensures won != [] && !Less(won[|won| - 1].e.key, k)
  {
    EntriesOfAt(won);
    var w :| w in won && w.e.key == k;
    var i :| 0 <= i < |won| && won[i] == w;
    OrderIsTotal();
    var es, n := EntriesOf(won), |won| - 1;
    assert i == n || Less(es[i].key, es[n].key);
  }

  /** x is the least of everything unread and `next` is pos after reading it. */
  ghost predicate Takes(inputs: seq<seq<Entry>>, pos: seq<nat>, next: seq<nat>, x: Item) {
    && |pos| == |inputs| && x.idx < |inputs|
    && pos[x.idx] < |inputs[x.idx]| && x.e == inputs[x.idx][pos[x.idx]]
    && next == pos[x.idx := pos[x.idx] + 1]
    && forall i, p | 0 <= i < |inputs| && pos[i] <= p < |inputs[i]| :: AtMost(x, Item(i, inputs[i][p]))
  }

  /** A further version of the key won last wins nothing. */
  lemma {:induction false} TakeAgain(inputs: seq<seq<Entry>>, pos: seq<nat>, next: seq<nat>, won: seq<Item>,
      last: Item, x: Item)
    requires Takes(inputs, pos, next, x) && Progress(inputs, pos, won, last)
    requires won != [] && won[|won| - 1].e.key == x.e.key
    ensures Progress(inputs, next, won, x)
  {
    TakeKeys(inputs, pos, next, won, won, x);
  }

  /** The least unread version of a new key wins it. */
  lemma {:induction false} TakeFirst(inputs: seq<seq<Entry>>, pos: seq<nat>, next: seq<nat>, won: seq<Item>,
      last: Item, x: Item)
    requires Takes(inputs, pos, next, x) && Progress(inputs, pos, won, last)
    requires won != [] ==> won[|won| - 1].e.key != x.e.key
    ensures Progress(inputs, next, won + [x], x)
    ensures EntriesOf(won + [x]) == EntriesOf(won) + [x.e]
  {
    if won != [] {
      AtMostTotal(last, Item(x.idx, inputs[x.idx][pos[x.idx]]));
      OrderIsTotal();
    }
    TakeWinner(inputs, pos, won, last, x);
    assert (won + [x])[..|won|] == won;
    TakeSorted(won, x);
    TakeKeys(inputs, pos, next, won, won + [x], x);
    forall w | w in won + [x] ensures IsWinner(inputs, w) {
      assert w in won || w == x;
    }
  }

  lemma {:induction false} TakeKeys(inputs: seq<seq<Entry>>, pos: seq<nat>, next: seq<nat>, won: seq<Item>,
      won': seq<Item>, x: Item)
    requires Takes(inputs, pos, next, x)
    requires forall i | 0 <= i < |inputs| :: pos[i] <= |inputs[i]|
    requires forall i, p | 0 <= i < |inputs| && 0 <= p < pos[i] :: KeyWon(won, inputs[i][p].key)
    requires won <= won' && won' != [] && won'[|won'| - 1].e.key == x.e.key
    ensures forall i, p | 0 <= i < |inputs| && 0 <= p < next[i] :: KeyWon(won', inputs[i][p].key)
  {
    forall i, p | 0 <= i < |inputs| && 0 <= p < next[i] ensures KeyWon(won', inputs[i][p].key) {
      if p < pos[i] {
        assert KeyWon(won, inputs[i][p].key);
        var w :| w in won && w.e.key == inputs[i][p].key;
        assert w in won';
      } else {
        assert won'[|won'| - 1] in won';
      }
    }
  }

  lemma {:induction false} TakeWinner(inputs: seq<seq<Entry>>, pos: seq<nat>, won: seq<Item>, last: Item, x: Item)
    requires |pos| == |inputs| && Progress(inputs, pos, won, last)
    requires x.idx < |inputs| && x.e in inputs[x.idx]
    requires forall i, p | 0 <= i < |inputs| && pos[i] <= p < |inputs[i]| :: AtMost(x, Item(i, inputs[i][p]))
    requires won != [] ==> Less(won[|won| - 1].e.key, x.e.key) || won[|won| - 1].e.key == x.e.key
    requires won != [] ==> won[|won| - 1].e.key != x.e.key
    ensures IsWinner(inputs, x)
  {
    forall j, y | 0 <= j < |inputs| && y in inputs[j] && y.key == x.e.key ensures AtMost(x, Item(j, y)) {
      var p :| 0 <= p < |inputs[j]| && inputs[j][p] == y;
      if p < pos[j] {
        assert KeyWon(won, inputs[j][p].key);
        KeysWonUpToLast(won, y.key);
      }
    }
  }

  lemma {:induction false} TakeSorted(won: seq<Item>, x: Item)
    requires Sorted(EntriesOf(won))
    requires won != [] ==> Less(won[|won| - 1].e.key, x.e.key)
    ensures Sorted(EntriesOf(won + [x]))
  {
    OrderIsTotal();
    assert (won + [x])[..|won|] == won;
    EntriesOfAt(won);
    var es, n := EntriesOf(won), |won|;
    forall i | 0 <= i < n ensures Less(es[i].key, x.e.key) {
      assert i == n - 1 || Less(es[i].key, es[n - 1].key);
    }
  }

  /** When everything is read the winners are the merge. */
  lemma {:induction false} ProgressAtEnd(inputs: seq<seq<Entry>>, pos: seq<nat>, won: seq<Item>, last: Item)
    requires |pos| == |inputs| && forall i | 0 <= i < |inputs| :: Sorted(inputs[i])
    requires Progress(inputs, pos, won, last)
    requires forall i | 0 <= i < |inputs| :: pos[i] == |inputs[i]|
    ensures EntriesOf(won) == Merge(inputs)
  {
    var a, b := EntriesOf(won), Merge(inputs);
    EntriesOfAt(won);
    MergeCovers(inputs);
    forall w | w in won ensures w.e in b {
      MergeHoldsWinners(inputs, w);
    }
    forall e | e in b ensures e in a {
      assert e in Elements(b) && e in Versions(inputs);
      VersionsMember(inputs, e);
      var i :| 0 <= i < |inputs| && e in inputs[i];
      var p :| 0 <= p < |inputs[i]| && inputs[i][p] == e;
      assert KeyWon(won, inputs[i][p].key);
      var w :| w in won && w.e.key == e.key;
      var n :| 0 <= n < |won| && won[n] == w;
      LookupExact(b, e.key);
      assert w.e == e;
    }
    SameElements(a, b);
  }

  /** Pops the least head, advances its iterator and pushes what comes next there. */
  method TakeNext(h: MergeHeap, inputs: seq<seq<Entry>>, pos: seq<nat>) returns (item: Item, next: seq<nat>)
    requires forall i | 0 <= i < |inputs| :: Sorted(inputs[i])
    requires |pos| == |inputs| && InRange(inputs, pos)
    requires h.Valid() && multiset(h.items) == Heads(inputs, pos, |inputs|) && h.items != []
    modifies h
    ensures Takes(inputs, pos, next, item)
    ensures h.Valid() && multiset(h.items) == Heads(inputs, next, |inputs|)
    ensures Sum(next, |pos|) == Sum(pos, |pos|) + 1 <= Total(inputs)
  {
    hide Heads, Sum, Total, Sorted, AtMost;
    ghost var heap := h.items;
    item := h.Pop();
    assert item in multiset(heap);
    HeadsMember(inputs, pos, |inputs|, item);
    forall y | y in Heads(inputs, pos, |inputs|) ensures AtMost(item, y) {
      assert y in multiset(heap);
    }
    forall i, p | 0 <= i < |inputs| && pos[i] <= p < |inputs[i]| ensures AtMost(item, Item(i, inputs[i][p])) {
      LeastUnread(inputs, pos, item, i, p);
    }
    var i := item.idx;
    HeadsAdvance(inputs, pos, i, |inputs|);
    SumAdvance(pos, i, |inputs|);
    next := pos[i := pos[i] + 1];
    SumAtEnd(inputs, next, |pos|);
    assert inputs[..|pos|] == inputs;
    assert Head(inputs, pos, i) == multiset{item};
    ghost var rest := multiset(h.items);
    if next[i] < |inputs[i]| {
      h.Push(Item(i, inputs[i][next[i]]));
    }
    assert multiset(h.items) == rest + Head(inputs, next, i);
    CancelItem(rest, Head(inputs, next, i), Heads(inputs, next, |inputs|), item);
  }

  lemma {:induction false} CancelItem(rest: multiset<Item>, head: multiset<Item>, all: multiset<Item>, x: Item)
    requires all + multiset{x} == rest + multiset{x} + head
    ensures all == rest + head
  {
    assert all == (all + multiset{x}) - multiset{x};
    assert rest + head == (rest + multiset{x} + head) - multiset{x};
  }

  /** What a compaction writes of the entries given to it. */
  function Written(dropTombstones: bool, given: seq<Entry>): seq<Entry> {
    if dropTombstones then NotDeleted(given) else given
  }

  /** MergeFiles on the entry lists its iterators walk. `None` is Writer.Add refusing a key, which sorted
      inputs never cause. Every input entry is written or counted as dropped. */
  method MergeFiles(inputs: seq<seq<Entry>>, dropTombstones: bool) returns (r: Option<Result>)
    requires forall i | 0 <= i < |inputs| :: Sorted(inputs[i])
    ensures inputs == [] <==> r.None?
    ensures r.Some? ==> r.value.out == Written(dropTombstones, Merge(inputs))
    ensures r.Some? ==> |r.value.out| + r.value.droppedObsolete == Total(inputs)
    ensures r.Some? ==> r.value.keptTombstones == Tombstones(r.value.out)
  {
    if |inputs| == 0 {
      return None;
    }
    var h, pos := Start(inputs);
    var out: seq<Entry>, kept: nat, dropped: nat := [], 0, 0;
    var lastKey: Option<Bytes> := None;
    ghost var won: seq<Item>, last := [], Item(0, Entry([], [], 0, false));
    MergingStarts(inputs, pos, dropTombstones, last);
    hide Merging, Heads, Sum, Total, Written, Tombstones, EntriesOf, Takes, Merge, Sorted;
    while |h.items| > 0
      invariant |pos| == |inputs| && Merging(inputs, pos, won, last, dropTombstones, lastKey, out, kept, dropped)
      invariant h.Valid() && multiset(h.items) == Heads(inputs, pos, |inputs|)
      decreases Total(inputs) - Sum(pos, |pos|)
    {
      ghost var before := pos;
      MergingInRange(inputs, pos, won, last, dropTombstones, lastKey, out, kept, dropped);
      var item;
      item, pos := TakeNext(h, inputs, pos);
      if lastKey == Some(item.e.key) {
        MergingAgain(inputs, before, pos, won, last, item, dropTombstones, lastKey, out, kept, dropped);
        dropped := dropped + 1;
      } else {
        MergingTakes(inputs, before, pos, won, last, item, dropTombstones, lastKey, out, kept, dropped);
        ghost var was := |out| + dropped;
        lastKey := Some(item.e.key);
        var ok;
        ok, out, kept, dropped := Write(dropTombstones, out, kept, dropped, item.e, EntriesOf(won));
        if !ok {
          return None;
        }
        MergingFirst(inputs, before, pos, won, last, item, dropTombstones, out, kept, dropped, was);
        won := won + [item];
      }
      last := item;
    }
    MergingEnds(inputs, pos, won, last, dropTombstones, lastKey, out, kept, dropped);
    return Some(Result(out, kept, dropped));
  }

  /** Where the merge stands: the winners so far, the last item taken and what the counters and the output are. */
  ghost predicate Merging(inputs: seq<seq<Entry>>, pos: seq<nat>, won: seq<Item>, last: Item,
    drop: bool, lastKey: Option<Bytes>, out: seq<Entry>, kept: nat, dropped: nat)
    requires |pos| == |inputs|
  {
    && Progress(inputs, pos, won, last)
    && lastKey == (if won == [] then None else Some(won[|won| - 1].e.key))
    && out == Written(drop, EntriesOf(won)) && kept == Tombstones(out)
    && |out| + dropped == Sum(pos, |pos|)
  }

  lemma {:induction false} MergingStarts(inputs: seq<seq<Entry>>, pos: seq<nat>, drop: bool, last: Item)
    requires |pos| == |inputs| && (forall i | 0 <= i < |pos| :: pos[i] == 0) && Sum(pos, |pos|) == 0
    ensures Merging(inputs, pos, [], last, drop, None, [], 0, 0)
  {
  }

  lemma {:induction false} MergingInRange(inputs: seq<seq<Entry>>, pos: seq<nat>, won: seq<Item>, last: Item,
    drop: bool, lastKey: Option<Bytes>, out: seq<Entry>, kept: nat, dropped: nat)
    requires |pos| == |inputs| && Merging(inputs, pos, won, last, drop, lastKey, out, kept, dropped)
    ensures InRange(inputs, pos)
  {
  }

  /** An item of the key taken last is obsolete. */
  lemma {:induction false} MergingAgain(inputs: seq<seq<Entry>>, pos: seq<nat>, next: seq<nat>, won: seq<Item>,
    last: Item, x: Item, drop: bool, lastKey: Option<Bytes>, out: seq<Entry>, kept: nat, dropped: nat)
    requires |pos| == |inputs| == |next| && Merging(inputs, pos, won, last, drop, lastKey, out, kept, dropped)
    requires Takes(inputs, pos, next, x) && Sum(next, |next|) == Sum(pos, |pos|) + 1 && lastKey == Some(x.e.key)
    ensures Merging(inputs, next, won, x, drop, lastKey, out, kept, dropped + 1)
  {
    hide Progress, Takes, Written, Tombstones, Sum, EntriesOf;
    TakeAgain(inputs, pos, next, won, last, x);
  }

  /** An item of another key is the next winner. */
  lemma {:induction false} MergingTakes(inputs: seq<seq<Entry>>, pos: seq<nat>, next: seq<nat>, won: seq<Item>,
    last: Item, x: Item, drop: bool, lastKey: Option<Bytes>, out: seq<Entry>, kept: nat, dropped: nat)
    requires |pos| == |inputs| == |next| && Merging(inputs, pos, won, last, drop, lastKey, out, kept, dropped)
    requires Takes(inputs, pos, next, x) && lastKey != Some(x.e.key) && Sum(next, |next|) == Sum(pos, |pos|) + 1
    ensures Progress(inputs, next, won + [x], x)
    ensures EntriesOf(won + [x]) == EntriesOf(won) + [x.e] && Sorted(EntriesOf(won) + [x.e])
    ensures out == Written(drop, EntriesOf(won)) && kept == Tombstones(out)
    ensures |out| + dropped + 1 == Sum(next, |next|)
  {
    hide Progress, Takes, Written, Tombstones, Sum, EntriesOf, Sorted;
    TakeFirst(inputs, pos, next, won, last, x);
    ProgressSorted(inputs, next, won + [x], x);
  }

  lemma {:induction false} ProgressSorted(inputs: seq<seq<Entry>>, pos: seq<nat>, won: seq<Item>, last: Item)
    requires |pos| == |inputs| && Progress(inputs, pos, won, last)
    ensures Sorted(EntriesOf(won))
  {
    hide Sorted, EntriesOf;
  }

  lemma {:induction false} MergingFirst(inputs: seq<seq<Entry>>, pos: seq<nat>, next: seq<nat>, won: seq<Item>,
    last: Item, x: Item, drop: bool, out: seq<Entry>, kept: nat, dropped: nat, was: nat)
    requires |pos| == |inputs| == |next| && Progress(inputs, next, won + [x], x)
    requires EntriesOf(won + [x]) == EntriesOf(won) + [x.e]
    requires out == Written(drop, EntriesOf(won) + [x.e]) && kept == Tombstones(out)
    requires |out| + dropped == was + 1 == Sum(next, |next|)
    ensures Merging(inputs, next, won + [x], x, drop, Some(x.e.key), out, kept, dropped)
  {
    hide Progress, Written, Tombstones, Sum, EntriesOf;
  }

  lemma {:induction false} MergingEnds(inputs: seq<seq<Entry>>, pos: seq<nat>, won: seq<Item>, last: Item,
    drop: bool, lastKey: Option<Bytes>, out: seq<Entry>, kept: nat, dropped: nat)
    requires |pos| == |inputs| && forall i | 0 <= i < |inputs| :: Sorted(inputs[i])
    requires Merging(inputs, pos, won, last, drop, lastKey, out, kept, dropped)
    requires Heads(inputs, pos, |inputs|) == multiset{}
    ensures out == Written(drop, Merge(inputs)) && kept == Tombstones(out) && |out| + dropped == Total(inputs)
  {
    hide Progress, Written, Tombstones, Sum, EntriesOf, Sorted, Heads, Total, Merge;
    NothingUnread(inputs, pos, won, last);
  }

  /** Opens an iterator on every input and pushes the heads. */
  method Start(inputs: seq<seq<Entry>>) returns (h: MergeHeap, pos: seq<nat>)
    ensures fresh(h) && h.Valid()
    ensures |pos| == |inputs| && (forall i | 0 <= i < |pos| :: pos[i] == 0) && Sum(pos, |pos|) == 0
    ensures multiset(h.items) == Heads(inputs, pos, |inputs|)
  {
    h := new MergeHeap();
    pos := Zeros(|inputs|);
    for i := 0 to |inputs|
      invariant h.Valid() && multiset(h.items) == Heads(inputs, pos, i)
    {
      if pos[i] < |inputs[i]| {
        h.Push(Item(i, inputs[i][pos[i]]));
      }
    }
    SumZero(pos, |pos|);
  }

  /** Writes e to the output or counts it as dropped. Fails only when Writer.Add would refuse the key as out
      of order, which ascending keys never make it do. */
  method Write(dropTombstones: bool, out: seq<Entry>, kept: nat, dropped: nat, e: Entry, ghost given: seq<Entry>)
    returns (ok: bool, out': seq<Entry>, kept': nat, dropped': nat)
    requires Sorted(given + [e])
    requires out == Written(dropTombstones, given) && kept == Tombstones(out)
    ensures ok
    ensures out' == Written(dropTombstones, given + [e]) && kept' == Tombstones(out')
    ensures |out'| + dropped' == |out| + dropped + 1
  {
    WriteStep(dropTombstones, given, e);
    ok, out', kept', dropped' := true, out, kept, dropped;
    if e.deleted && dropTombstones {
      dropped' := dropped + 1;
    } else if out != [] && Compare(e.key, out[|out| - 1].key) < 0 {
      ok := false;
    } else {
      if e.deleted {
        kept' := kept + 1;
      }
      out' := out + [e];
    }
  }

  lemma {:induction false} WriteStep(dropTombstones: bool, given: seq<Entry>, e: Entry)
    requires Sorted(given + [e])
    ensures var out, next := Written(dropTombstones, given), Written(dropTombstones, given + [e]);
      if e.deleted && dropTombstones then next == out
      else
        && next == out + [e]
        && Tombstones(next) == Tombstones(out) + (if e.deleted then 1 else 0)
        && (out != [] ==> Compare(e.key, out[|out| - 1].key) >= 0)
  {
    hide Compare, Sorted, Written, Tombstones;
    WriteNext(dropTombstones, given, e);
    var out := Written(dropTombstones, given);
    if out != [] {
      LastWritten(dropTombstones, given);
      LastIsGreatest(given, e, out[|out| - 1]);
    }
  }

  lemma {:induction false} WriteNext(dropTombstones: bool, given: seq<Entry>, e: Entry)
    ensures var out, next := Written(dropTombstones, given), Written(dropTombstones, given + [e]);
      if e.deleted && dropTombstones then next == out
      else next == out + [e] && Tombstones(next) == Tombstones(out) + (if e.deleted then 1 else 0)
  {
    var out := Written(dropTombstones, given);
    assert (given + [e])[..|given|] == given;
    assert (out + [e])[..|out|] == out;
  }

  lemma {:induction false} LastWritten(dropTombstones: bool, given: seq<Entry>)
    ensures var out := Written(dropTombstones, given); out != [] ==> out[|out| - 1] in given
  {
    var out := Written(dropTombstones, given);
    assert out != [] ==> out[|out| - 1] in out;
  }

  lemma {:induction false} LastIsGreatest(given: seq<Entry>, e: Entry, x: Entry)
    requires Sorted(given + [e]) && x in given
    ensures Compare(e.key, x.key) >= 0
  {
    hide Compare;
    var i :| 0 <= i < |given| && given[i] == x;
    assert (given + [e])[i] == x && (given + [e])[|given|] == e;
    CompareIsAntisymmetric(x.key, e.key);
  }

  function Zeros(n: nat): (r: seq<nat>)
    ensures |r| == n && forall i | 0 <= i < n :: r[i] == 0
  {
    if n == 0 then [] else Zeros(n - 1) + [0]
  }

  lemma {:induction false} SumZero(pos: seq<nat>, k: nat)
    requires k <= |pos| && forall i | 0 <= i < |pos| :: pos[i] == 0
    ensures Sum(pos, k) == 0
  {
    if k > 0 {
      SumZero(pos, k - 1);
    }
  }

  /** An empty heap means everything has been read. */
  lemma {:induction false} NothingUnread(inputs: seq<seq<Entry>>, pos: seq<nat>, won: seq<Item>, last: Item)
    requires |pos| == |inputs| && forall i | 0 <= i < |inputs| :: Sorted(inputs[i])
    requires Progress(inputs, pos, won, last) && Heads(inputs, pos, |inputs|) == multiset{}
    ensures EntriesOf(won) == Merge(inputs)
    ensures Sum(pos, |pos|) == Total(inputs)
  {
    forall i | 0 <= i < |inputs| ensures pos[i] == |inputs[i]| {
      if pos[i] < |inputs[i]| {
        HeadsMember(inputs, pos, |inputs|, Item(i, inputs[i][pos[i]]));
      }
    }
    SumAtEnd(inputs, pos, |pos|);
    assert inputs[..|pos|] == inputs;
    ProgressAtEnd(inputs, pos, won, last);
  }

  // ---------- Which tables a compaction takes ----------

  function LevelZero(files: seq<M.FileMeta>): (r: seq<M.FileMeta>)
    ensures forall f :: f in r <==> f in files && f.level == 0
    ensures |r| <= |files|
  {
    if files == [] then []
    else
      var f, rest := files[|files| - 1], LevelZero(files[..|files| - 1]);
      if f.level == 0 then rest + [f] else rest
  }

  /** Which files are at level 0. */
  function ZerosIn(files: seq<M.FileMeta>): set<nat> {
    set i: nat | i < |files| && files[i].level == 0
  }

  ghost predicate IsZeros(files: seq<M.FileMeta>, at: seq<nat>) {
    forall i | 0 <= i < |files| :: i in at <==> files[i].level == 0
  }

  /** `part` has exactly the level-0 files, each once and in order. */
  ghost predicate IsLevelZero(files: seq<M.FileMeta>, part: seq<M.FileMeta>) {
    exists at: seq<nat> :: M.IsSelection(files, part, at) && IsZeros(files, at)
  }

  lemma {:induction false} LevelZeroSelects(files: seq<M.FileMeta>) returns (at: seq<nat>)
    ensures M.IsSelection(files, LevelZero(files), at) && IsZeros(files, at)
  {
    hide IsZeros;
    if files == [] {
      at := [];
      NoZeros();
    } else {
      var n := |files| - 1;
      var f, rest := files[n], files[..n];
      at := LevelZeroSelects(rest);
      M.SelectMore(rest, LevelZero(rest), at, f, f.level == 0);
      ZerosMore(rest, at, f);
      assert files == rest + [f];
      if f.level == 0 {
        at := at + [n];
      }
    }
  }

  lemma {:induction false} NoZeros()
    ensures IsZeros([], [])
  {
  }

  lemma {:induction false} ZerosMore(files: seq<M.FileMeta>, at: seq<nat>, f: M.FileMeta)
    requires IsZeros(files, at) && |files| !in at
    ensures IsZeros(files + [f], if f.level == 0 then at + [|files|] else at)
  {
  }

  lemma {:induction false} LevelZeroCount(files: seq<M.FileMeta>)
    ensures |LevelZero(files)| == |ZerosIn(files)|
  {
    hide ZerosIn;
    if files == [] {
      NoZerosIn();
    } else {
      var n := |files| - 1;
      LevelZeroCount(files[..n]);
      ZerosSnoc(files[..n], files[n]);
      assert files == files[..n] + [files[n]];
    }
  }

  lemma {:induction false} NoZerosIn()
    ensures ZerosIn([]) == {}
  {
  }

  lemma {:induction false} ZerosSnoc(files: seq<M.FileMeta>, f: M.FileMeta)
    ensures |ZerosIn(files + [f])| == |ZerosIn(files)| + if f.level == 0 then 1 else 0
  {
    var n, zeros := |files|, ZerosIn(files);
    assert n !in zeros && ZerosIn(files + [f]) == if f.level == 0 then zeros + {n} else zeros;
  }

  method PlanLevel0(files: seq<M.FileMeta>, threshold: int) returns (out: seq<M.FileMeta>)
    ensures var t := if threshold <= 0 then 4 else threshold;
      out == if |LevelZero(files)| < t then [] else LevelZero(files)
    ensures var t := if threshold <= 0 then 4 else threshold;
      if |ZerosIn(files)| < t then out == [] else IsLevelZero(files, out)
  {
    hide ZerosIn;
    ghost var at := LevelZeroSelects(files);
    LevelZeroCount(files);
    var t := if threshold <= 0 then 4 else threshold;
    out := [];
    for i := 0 to |files|
      invariant out == LevelZero(files[..i])
    {
      assert files[..i + 1][..i] == files[..i];
      if files[i].level == 0 {
        out := out + [files[i]];
      }
    }
    assert files[..|files|] == files;
    if |out| < t {
      out := [];
    }
  }

  /** The inputs of CompactDir: all level-0 tables if there are two, else the first two tables. */
  function Picked(files: seq<M.FileMeta>): (r: seq<M.FileMeta>)
    ensures forall f | f in r :: f in files
    ensures |r| <= |files|
  {
    if |LevelZero(files)| >= 2 then LevelZero(files)
    else if |files| >= 2 then files[..2]
    else []
  }

  /** The rule CompactDir picks its inputs by: with two files at level 0 all that are, else the first two. */
  ghost predicate Chosen(files: seq<M.FileMeta>, i: nat)
    requires i < |files|
  {
    if TwoAtLevelZero(files) then files[i].level == 0 else i < 2
  }

  ghost predicate TwoAtLevelZero(files: seq<M.FileMeta>) {
    exists i, j :: 0 <= i < j < |files| && files[i].level == 0 && files[j].level == 0
  }

  /** `part` has exactly the files the rule chooses, each once and in order. */
  ghost predicate IsChosen(files: seq<M.FileMeta>, part: seq<M.FileMeta>) {
    exists at: seq<nat> :: M.IsSelection(files, part, at) && TakesChosen(files, at)
  }

  ghost predicate TakesChosen(files: seq<M.FileMeta>, at: seq<nat>) {
    forall i | 0 <= i < |files| :: i in at <==> Chosen(files, i)
  }

  lemma {:induction false} TwoMeans(files: seq<M.FileMeta>, part: seq<M.FileMeta>, at: seq<nat>)
    requires M.IsSelection(files, part, at) && IsZeros(files, at)
    ensures TwoAtLevelZero(files) <==> |part| >= 2
  {
    if i, j :| 0 <= i < j < |files| && files[i].level == 0 && files[j].level == 0 {
      assert i in at && j in at;
    }
    if |at| >= 2 {
      assert at[0] in at && at[1] in at && at[0] < at[1] < |files|;
      assert files[at[0]].level == 0 && files[at[1]].level == 0;
    }
  }

  lemma {:induction false} PickedIsChosen(files: seq<M.FileMeta>)
    requires |files| >= 2
    ensures IsChosen(files, Picked(files))
    ensures if TwoAtLevelZero(files) then IsLevelZero(files, Picked(files)) else Picked(files) == [files[0], files[1]]
  {
    hide LevelZero, TwoAtLevelZero;
    var at := LevelZeroSelects(files);
    TwoMeans(files, LevelZero(files), at);
    if TwoAtLevelZero(files) {
      assert TakesChosen(files, at);
    } else {
      assert M.IsSelection(files, files[..2], [0, 1]) && TakesChosen(files, [0, 1]);
    }
  }

  method PickInputs(files: seq<M.FileMeta>) returns (r: Option<seq<M.FileMeta>>)
    ensures r.None? <==> |files| < 2
    ensures r.Some? ==> IsChosen(files, r.value) && |r.value| >= 2
    ensures r.Some? ==> if TwoAtLevelZero(files) then IsLevelZero(files, r.value) else r.value == [files[0], files[1]]
    ensures r == if |files| < 2 then None else Some(Picked(files))
  {
    hide IsChosen, IsLevelZero, TwoAtLevelZero;
    if |files| >= 2 {
      PickedIsChosen(files);
    }
    var inputs := PlanLevel0(files, 2);
    if |inputs| == 0 {
      if |files| < 2 {
        return None;
      }
      inputs := [files[0], files[1]];
      assert inputs == files[..2];
    }
    return Some(inputs);
  }
}
