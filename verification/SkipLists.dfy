/** internal/memtable: the skiplist, as linked nodes spliced in place. */
module SkipLists {
  import opened Bytes
  import opened Entries

  const MAX_LEVEL: nat := 16

  // ---------- Shape: node heights and the links they call for ----------

  /** First position from q on whose height is above i; |hs| if there is none. */
  function From(hs: seq<nat>, q: nat, i: nat): (r: nat)
    requires q <= |hs|
    ensures q <= r <= |hs|
    ensures forall k | q <= k < r :: hs[k] <= i
    ensures r < |hs| ==> hs[r] > i
    decreases |hs| - q
  {
    if q == |hs| || hs[q] > i then q else From(hs, q + 1, i)
  }

  /** Where the level-i link of position p leads. */
  function Succ(hs: seq<nat>, p: nat, i: nat): nat
    requires p < |hs|
  {
    From(hs, p + 1, i)
  }

  /** The positions a walk along level i meets after p. */
  function Walk(hs: seq<nat>, p: nat, i: nat): seq<nat>
    requires p < |hs|
    decreases |hs| - p
  {
    var s := Succ(hs, p, i);
    if s == |hs| then [] else [s] + Walk(hs, s, i)
  }

  /** A walk along level i meets, in ascending order, exactly the nodes higher than i. So every level is a
      sublist of the level below, and level 0, where all heights count, reaches every node. */
  lemma {:induction false} WalkExact(hs: seq<nat>, p: nat, i: nat)
    requires p < |hs|
    ensures var w := Walk(hs, p, i);
      && (forall q :: q in w <==> p < q < |hs| && hs[q] > i)
      && (forall a, b | 0 <= a < b < |w| :: w[a] < w[b])
    decreases |hs| - p
  {
    var s := Succ(hs, p, i);
    if s < |hs| {
      WalkExact(hs, s, i);
      assert forall a | 0 < a < |Walk(hs, p, i)| :: Walk(hs, p, i)[a] in Walk(hs, s, i);
    }
  }

  function Inserted<T>(s: seq<T>, q: nat, x: T): (r: seq<T>)
    requires q <= |s|
    ensures |r| == |s| + 1 && r[q] == x
    ensures forall p | 0 <= p < q :: r[p] == s[p]
    ensures forall p | q < p < |r| :: r[p] == s[p - 1]
  {
    s[..q] + [x] + s[q..]
  }

  function Repeat<T>(n: nat, x: T): (r: seq<T>)
    ensures |r| == n && forall i | 0 <= i < n :: r[i] == x
  {
    if n == 0 then [] else Repeat(n - 1, x) + [x]
  }

  lemma {:induction false} InsertedMembers<T>(s: seq<T>, q: nat, x: T)
    requires q <= |s|
    ensures forall y :: y in Inserted(s, q, x) <==> y == x || y in s
  {
    assert s == s[..q] + s[q..];
  }

  /** Where a position is after an insertion at q. */
  function Shift(s: nat, q: nat): nat {
    if s >= q then s + 1 else s
  }

  /** The links an insertion changes: at each level below the new height, the link that led past q. */
  lemma {:induction false} SuccInserted(hs: seq<nat>, q: nat, h: nat, p: nat, i: nat)
    requires 0 < q <= |hs| && p <= |hs|
    ensures var hs' := Inserted(hs, q, h);
      Succ(hs', p, i) ==
        if p < q then (if i < h && Succ(hs, p, i) >= q then q else Shift(Succ(hs, p, i), q))
        else if p == q then From(hs, q, i) + 1
        else Succ(hs, p - 1, i) + 1
  {
    if p < q {
      SuccBefore(hs, q, h, p, i);
    } else if p == q {
      SameFrom(Inserted(hs, q, h), p + 1, i, From(hs, q, i) + 1);
    } else {
      SameFrom(Inserted(hs, q, h), p + 1, i, Succ(hs, p - 1, i) + 1);
    }
  }

  lemma {:induction false} SuccBefore(hs: seq<nat>, q: nat, h: nat, p: nat, i: nat)
    requires p < q <= |hs|
    ensures Succ(Inserted(hs, q, h), p, i) == if i < h && Succ(hs, p, i) >= q then q else Shift(Succ(hs, p, i), q)
  {
    hide From;
    var hs', t := Inserted(hs, q, h), Succ(hs, p, i);
    if t < q {
      SameFrom(hs', p + 1, i, t);
    } else if i < h {
      SameFrom(hs', p + 1, i, q);
    } else {
      SameFrom(hs', p + 1, i, t + 1);
    }
  }

  lemma {:induction false} SameFrom(hs: seq<nat>, q: nat, i: nat, s: nat)
    requires q <= s <= |hs|
    requires forall k | q <= k < s :: hs[k] <= i
    requires s < |hs| ==> hs[s] > i
    ensures From(hs, q, i) == s
  {
  }

  /** p is the last position before q that is higher than i. */
  predicate IsLast(hs: seq<nat>, q: nat, i: nat, p: nat) {
    p < q <= |hs| && hs[p] > i && Succ(hs, p, i) >= q
  }

  lemma {:induction false} LastIsUnique(hs: seq<nat>, q: nat, i: nat, p: nat, r: nat)
    requires IsLast(hs, q, i, p) && IsLast(hs, q, i, r)
    ensures p == r && Succ(hs, p, i) == From(hs, q, i)
  {
    SameFrom(hs, q, i, Succ(hs, p, i));
  }

  // ---------- Sizes ----------

  function EstimateBytes(e: Entry): nat {
    |e.key| + |e.value| + 16
  }

  function TotalBytes(es: seq<Entry>): nat {
    if es == [] then 0 else TotalBytes(es[..|es| - 1]) + EstimateBytes(es[|es| - 1])
  }

  lemma {:induction false} TotalConcat(a: seq<Entry>, b: seq<Entry>)
    ensures TotalBytes(a + b) == TotalBytes(a) + TotalBytes(b)
  {
    if b == [] {
      assert a + b == a;
    } else {
      assert (a + b)[..|a + b| - 1] == a + b[..|b| - 1];
      TotalConcat(a, b[..|b| - 1]);
    }
  }

  lemma {:induction false} TotalOne(e: Entry)
    ensures TotalBytes([e]) == EstimateBytes(e)
  {
    assert [e][..0] == [];
  }

  lemma {:induction false} TotalInserted(es: seq<Entry>, p: nat, e: Entry)
    requires p <= |es|
    ensures TotalBytes(es[..p] + [e] + es[p..]) == TotalBytes(es) + EstimateBytes(e)
  {
    assert es == es[..p] + es[p..];
    TotalConcat(es[..p], es[p..]);
    TotalConcat(es[..p] + [e], es[p..]);
    TotalConcat(es[..p], [e]);
    TotalOne(e);
  }

  lemma {:induction false} TotalReplaced(es: seq<Entry>, p: nat, e: Entry)
    requires p < |es|
    ensures TotalBytes(es[p := e]) == TotalBytes(es) - EstimateBytes(es[p]) + EstimateBytes(e)
  {
    var rest := es[..p] + es[p + 1..];
    assert es == rest[..p] + [es[p]] + rest[p..];
    assert es[p := e] == rest[..p] + [e] + rest[p..];
    TotalInserted(rest, p, es[p]);
    TotalInserted(rest, p, e);
  }

  /** The entries fn is called with: it stops the walk by answering false. */
  function Visited(es: seq<Entry>, fn: Entry -> bool): seq<Entry> {
    if es == [] then [] else if fn(es[0]) then [es[0]] + Visited(es[1..], fn) else [es[0]]
  }

  function VisitedRange(es: seq<Entry>, a: nat, b: nat, fn: Entry -> bool): seq<Entry>
    requires b <= |es|
  {
    if a <= b then Visited(es[a..b], fn) else []
  }

  /** The entries at a to b - 1 in order, up to and with the first on which fn answers false. */
  lemma {:induction false} VisitedExact(es: seq<Entry>, a: nat, b: nat, fn: Entry -> bool)
    requires b <= |es|
    ensures var out := VisitedRange(es, a, b, fn);
      if a > b then out == []
      else
        && |out| <= b - a && out == es[a..a + |out|]
        && (forall j | 0 <= j < |out| - 1 :: fn(out[j]))
        && (|out| < b - a ==> out != [] && !fn(out[|out| - 1]))
    decreases b - a
  {
    if a < b {
      VisitedExact(es, a + 1, b, fn);
      VisitedStep(es, a, b, fn);
    }
  }

  lemma {:induction false} VisitedStep(es: seq<Entry>, k: nat, b: nat, fn: Entry -> bool)
    requires k < |es| && b <= |es|
    ensures VisitedRange(es, k, b, fn) ==
      if k >= b then [] else if fn(es[k]) then [es[k]] + VisitedRange(es, k + 1, b, fn) else [es[k]]
  {
    if k < b {
      assert es[k..b][1..] == es[k + 1..b];
    }
  }

  lemma {:induction false} VisitedEnd(es: seq<Entry>, b: nat, fn: Entry -> bool)
    requires b <= |es|
    ensures VisitedRange(es, |es|, b, fn) == []
  {
  }

  // ---------- The list ----------

  class Node {
    var entry: Entry
    var next: seq<Node?>

    constructor (entry: Entry, height: nat)
      ensures this.entry == entry && |next| == height && forall i | 0 <= i < height :: next[i] == null
    {
      this.entry := entry;
      this.next := seq(height, i => null);
    }
  }

  function NodeAt(nodes: seq<Node>, p: nat): Node? {
    if p < |nodes| then nodes[p] else null
  }

  /** Heights and order. */
  ghost predicate ShapeOf(nodes: seq<Node>, hs: seq<nat>, es: seq<Entry>, head: Node, level: nat) {
    && |nodes| == |hs| == |es| + 1
    && nodes[0] == head
    && (forall p, q | 0 <= p < q < |nodes| :: nodes[p] != nodes[q])
    && hs[0] == MAX_LEVEL && 1 <= level <= MAX_LEVEL
    && (forall p | 0 < p < |hs| :: 1 <= hs[p] <= level)
    && Sorted(es)
  }

  /** Every link leads to the next node that is high enough. */
  ghost predicate LinksOf(nodes: seq<Node>, hs: seq<nat>)
    requires |nodes| == |hs|
    reads nodes
  {
    && (forall p | 0 <= p < |nodes| :: |nodes[p].next| == hs[p])
    && (forall p, i | 0 <= p < |nodes| && 0 <= i < hs[p] :: nodes[p].next[i] == NodeAt(nodes, Succ(hs, p, i)))
  }

  ghost predicate LinkedOf(nodes: seq<Node>, hs: seq<nat>, es: seq<Entry>)
    requires |nodes| == |hs| == |es| + 1
    reads nodes
  {
    LinksOf(nodes, hs) && forall p | 0 < p < |nodes| :: nodes[p].entry == es[p - 1]
  }

  lemma {:induction false} ShapeInserted(
    nodes: seq<Node>, hs: seq<nat>, es: seq<Entry>, head: Node, level: nat, q: nat, n: Node, lvl: nat, e: Entry)
    requires ShapeOf(nodes, hs, es, head, level) && 0 < q == LowerBound(es, e.key) + 1 && n !in nodes
    requires 1 <= lvl <= MAX_LEVEL && (q < |nodes| ==> es[q - 1].key != e.key)
    ensures ShapeOf(Inserted(nodes, q, n), Inserted(hs, q, lvl), Put(es, e), head, if lvl > level then lvl else level)
  {
    PutSorted(es, e);
  }

  lemma {:induction false} PutInserts(es: seq<Entry>, e: Entry)
    requires var p := LowerBound(es, e.key); p < |es| ==> es[p].key != e.key
    ensures Put(es, e) == Inserted(es, LowerBound(es, e.key), e)
    ensures TotalBytes(Put(es, e)) == TotalBytes(es) + EstimateBytes(e)
  {
    TotalInserted(es, LowerBound(es, e.key), e);
  }

  /** What a set does to the size: a new key adds its length, the value's and 16; a newer version of a key that is there
      the difference of the values' lengths. An empty table weighs nothing. */
  lemma {:induction false} UpsertBytes(t: seq<Entry>, e: Entry)
    requires Sorted(t)
    ensures TotalBytes([]) == 0
    ensures var cur := Lookup(t, e.key);
      TotalBytes(Upsert(t, e)) == TotalBytes(t)
        + if cur.None? then |e.key| + |e.value| + 16
          else if e.seqno < cur.value.seqno then 0
          else |e.value| - |cur.value.value|
  {
    hide TotalBytes;
    var p := LowerBound(t, e.key);
    EmptyTotal();
    if p < |t| && t[p].key == e.key {
      TotalReplaced(t, p, e);
    } else {
      TotalInserted(t, p, e);
    }
  }

  lemma {:induction false} EmptyTotal()
    ensures TotalBytes([]) == 0
  {
  }

  class SkipList {
    var head: Node
    var level: nat
    var size: nat
    var bytes: int
    /** The nodes in key order, the head first; their heights; the entries of all but the head. */
    ghost var nodes: seq<Node>
    ghost var hs: seq<nat>
    ghost var es: seq<Entry>

    ghost predicate Valid()
      reads this, nodes
    {
      && ShapeOf(nodes, hs, es, head, level)
      && LinkedOf(nodes, hs, es)
      && size == |es| && bytes == TotalBytes(es)
    }

    /** The nodes of the list. */
    ghost function Repr(): set<object>
      reads this
    {
      set n | n in nodes
    }

    constructor ()
      ensures Valid() && es == [] && bytes == 0 && fresh(Repr())
    {
      head := new Node(Entry([], [], 0, false), MAX_LEVEL);
      level, size, bytes := 1, 0, 0;
      new;
      nodes, hs, es := [head], [MAX_LEVEL], [];
    }

    /** Moves on level i from position p to the last node with a key below `key`. */
    method Advance(x: Node, i: nat, key: Bytes, ghost p: nat, ghost q: nat) returns (y: Node, ghost r: nat)
      requires Valid() && q == LowerBound(es, key) + 1
      requires p < q && nodes[p] == x && hs[p] > i
      ensures IsLast(hs, q, i, r) && nodes[r] == y
    {
      y, r := x, p;
      LowerBoundSplits(es, key, q - 1);
      while y.next[i] != null && Less(y.next[i].entry.key, key)
        invariant r < q && nodes[r] == y && hs[r] > i
        decreases q - r
      {
        y, r := y.next[i], Succ(hs, r, i);
      }
    }

    /** The search of set: on every level in use, the last node with a key below `key`. */
    method FindPath(key: Bytes, ghost q: nat) returns (update: seq<Node>, x: Node, ghost ps: seq<nat>)
      requires Valid() && q == LowerBound(es, key) + 1
      ensures |update| == |ps| == MAX_LEVEL
      ensures forall j | 0 <= j < level :: IsLast(hs, q, j, ps[j]) && update[j] == nodes[ps[j]]
      ensures x == update[0]
    {
      x := head;
      update, ps := Repeat(MAX_LEVEL, x), Repeat(MAX_LEVEL, 0);
      ghost var p: nat := 0;
      var i: nat := level;
      while i > 0
        invariant i <= level && |update| == |ps| == MAX_LEVEL
        invariant p < q <= |nodes| && nodes[p] == x && hs[p] >= i
        invariant forall j | i <= j < level :: IsLast(hs, q, j, ps[j]) && update[j] == nodes[ps[j]]
        invariant i < level ==> x == update[i]
      {
        i := i - 1;
        x, p := Advance(x, i, key, p, q);
        update, ps := update[i := x], ps[i := p];
      }
    }

    /** Inserts the entry, or replaces the one of its key unless that has a higher sequence number. `lvl` is
        the random level of a new node. */
    method Set(key: Bytes, value: Bytes, seqno: nat, deleted: bool, lvl: nat)
      requires Valid() && 1 <= lvl <= MAX_LEVEL
      modifies this, Repr()
      ensures Valid() && fresh(Repr() - old(Repr()))
      ensures es == Upsert(old(es), Entry(key, value, seqno, deleted))
      ensures var cur := Lookup(old(es), key);
        bytes == old(bytes) + if cur.None? then |key| + |value| + 16
                              else if seqno < cur.value.seqno then 0
                              else |value| - |cur.value.value|
    {
      hide Sorted, TotalBytes, From, LowerBound;
      ghost var es' := SetBytes(Entry(key, value, seqno, deleted));
      ghost var q := LowerBound(es, key) + 1;
      LowerBoundSplits(es, key, q - 1);
      var update, x, ps := FindPath(key, q);
      LastIsUnique(hs, q, 0, ps[0], ps[0]);
      SameFrom(hs, q, 0, q);
      var n := x.next[0];
      if n != null && n.entry.key == key {
        if seqno >= n.entry.seqno {
          ReplaceEntry(n, value, seqno, deleted, q);
        }
        return;
      }
      Insert(Entry(key, value, seqno, deleted), update, lvl, q, ps);
    }

    /** Links in a node for a key that is not there. */
    method Insert(e: Entry, path: seq<Node>, lvl: nat, ghost q: nat, ghost qs: seq<nat>)
      requires Valid() && 1 <= lvl <= MAX_LEVEL && |path| == |qs| == MAX_LEVEL
      requires q == LowerBound(es, e.key) + 1 && (q <= |es| ==> es[q - 1].key != e.key)
      requires forall j | 0 <= j < level :: IsLast(hs, q, j, qs[j]) && path[j] == nodes[qs[j]]
      modifies this, Repr()
      ensures Valid() && fresh(Repr() - old(Repr()))
      ensures es == Put(old(es), e)
    {
      hide LowerBound, Sorted, TotalBytes;
      var update, ps := ExtendPath(path, lvl, q, qs);
      var added := Splice(e, update, lvl, if lvl > level then lvl else level, q, ps);
      InsertedMembers(old(nodes), q, added);
    }

    /** On levels not in use yet the head comes before everything. */
    method ExtendPath(path: seq<Node>, lvl: nat, ghost q: nat, ghost qs: seq<nat>)
      returns (update: seq<Node>, ghost ps: seq<nat>)
      requires Valid() && 1 <= lvl <= MAX_LEVEL && 0 < q <= |nodes| && |path| == |qs| == MAX_LEVEL
      requires forall j | 0 <= j < level :: IsLast(hs, q, j, qs[j]) && path[j] == nodes[qs[j]]
      ensures |update| == |ps| == MAX_LEVEL
      ensures forall j | 0 <= j < lvl :: IsLast(hs, q, j, ps[j]) && update[j] == nodes[ps[j]]
    {
      update, ps := path, qs;
      var i := level;
      while i < lvl
        invariant level <= i && (i <= lvl || i == level) && |update| == |ps| == MAX_LEVEL
        invariant forall j | 0 <= j < i :: IsLast(hs, q, j, ps[j]) && update[j] == nodes[ps[j]]
      {
        HeadIsLast(hs, q, i);
        update, ps := update[i := head], ps[i := 0];
        i := i + 1;
      }
    }

    /** The entry of a key. */
    method Get(key: Bytes) returns (r: Option<Entry>)
      requires Valid()
      ensures r == Lookup(es, key)
    {
      ghost var q := LowerBound(es, key) + 1;
      var x := Descend(key, q);
      hide Sorted;
      if x != null && x.entry.key == key {
        return Some(x.entry);
      }
      return None;
    }

    /** The first node with a key not below `key`. */
    method Descend(key: Bytes, ghost q: nat) returns (y: Node?)
      requires Valid() && q == LowerBound(es, key) + 1
      ensures y == NodeAt(nodes, q)
    {
      var x := head;
      ghost var p: nat := 0;
      var i: nat := level;
      while i > 0
        invariant i <= level && p < q <= |nodes| && nodes[p] == x && hs[p] >= i
        invariant i < level ==> IsLast(hs, q, i, p)
      {
        i := i - 1;
        x, p := Advance(x, i, key, p, q);
      }
      LastIsUnique(hs, q, 0, p, p);
      SameFrom(hs, q, 0, q);
      return x.next[0];
    }

    /** Where the level-0 link of a node leads. */
    lemma {:induction false} NextNode(p: nat)
      requires Valid() && p <= |es|
      ensures p < |nodes| && |nodes[p].next| > 0 && nodes[p].next[0] == NodeAt(nodes, p + 1)
      ensures |nodes| == |es| + 1 && head == nodes[0] && (p > 0 ==> nodes[p].entry == es[p - 1])
    {
      SameFrom(hs, p + 1, 0, p + 1);
    }

    method Len() returns (n: nat)
      requires Valid()
      ensures n == |es|
    {
      n := size;
    }

    /** All entries in key order. */
    method Snapshot() returns (out: seq<Entry>)
      requires Valid()
      ensures out == es
    {
      hide Valid;
      out := [];
      NextNode(0);
      var n := head.next[0];
      while n != null
        invariant |out| <= |es| && out == es[..|out|] && n == NodeAt(nodes, |out| + 1)
        decreases |es| - |out|
      {
        NextNode(|out| + 1);
        out := out + [n.entry];
        n := n.next[0];
      }
    }

    /** Calls fn with the entries from `lo` on that are below `hi`, in order, until it answers false. */
    method AscendRange(lo: Option<Bytes>, hi: Option<Bytes>, fn: Entry -> bool) returns (out: seq<Entry>)
      requires Valid()
      ensures out == VisitedRange(es, if lo.Some? then LowerBound(es, lo.value) else 0,
                                  if hi.Some? then LowerBound(es, hi.value) else |es|, fn)
    {
      ghost var k := if lo.Some? then LowerBound(es, lo.value) else 0;
      ghost var b := if hi.Some? then LowerBound(es, hi.value) else |es|;
      if hi.Some? {
        LowerBoundSplits(es, hi.value, b);
      }
      NextNode(0);
      var n := head.next[0];
      if lo.Some? {
        n := Descend(lo.value, k + 1);
      }
      out := VisitFrom(n, hi, fn, k, b);
    }

    /** The visiting loop, from the node of index k. */
    method VisitFrom(start: Node?, hi: Option<Bytes>, fn: Entry -> bool, ghost k: nat, ghost b: nat)
      returns (out: seq<Entry>)
      requires Valid() && k <= |es| && b <= |es| && start == NodeAt(nodes, k + 1)
      requires forall i | 0 <= i < |es| :: hi.Some? && !Less(es[i].key, hi.value) <==> i >= b
      ensures out == VisitedRange(es, k, b, fn)
    {
      hide LowerBound, VisitedRange, Less, Valid;
      NextNode(k);
      out := [];
      var n := start;
      ghost var i := k;
      while n != null
        invariant i <= |es| && n == NodeAt(nodes, i + 1)
        invariant VisitedRange(es, k, b, fn) == out + VisitedRange(es, i, b, fn)
        decreases |es| - i
      {
        VisitedStep(es, i, b, fn);
        NextNode(i + 1);
        if hi.Some? && !Less(n.entry.key, hi.value) {
          return;
        }
        out := out + [n.entry];
        if !fn(n.entry) {
          return;
        }
        n := n.next[0];
        i := i + 1;
      }
      VisitedEnd(es, b, fn);
    }

    method MaxSeq() returns (max: nat)
      requires Valid()
      ensures max == MaxSeqOf(es)
    {
      hide Valid;
      max := 0;
      NextNode(0);
      var n := head.next[0];
      ghost var k := 0;
      while n != null
        invariant k <= |es| && n == NodeAt(nodes, k + 1) && max == MaxSeqOf(es[..k])
        decreases |es| - k
      {
        NextNode(k + 1);
        assert es[..k + 1][..k] == es[..k];
        if n.entry.seqno > max {
          max := n.entry.seqno;
        }
        n := n.next[0];
        k := k + 1;
      }
      assert es[..k] == es;
    }

    ghost method SetBytes(e: Entry) returns (es': seq<Entry>)
      requires Valid()
      ensures es' == Upsert(es, e) && bytes == TotalBytes(es)
      ensures var cur := Lookup(es, e.key);
        TotalBytes(es') == bytes + if cur.None? then |e.key| + |e.value| + 16
                                   else if e.seqno < cur.value.seqno then 0
                                   else |e.value| - |cur.value.value|
    {
      hide TotalBytes, Upsert, LinkedOf;
      UpsertBytes(es, e);
      es' := Upsert(es, e);
    }

    /** An empty memtable has no bytes. */
    ghost method EmptyBytes()
      requires Valid()
      ensures es == [] ==> bytes == 0
    {
      hide LinkedOf, ShapeOf;
    }

    method Clear()
      requires Valid()
      modifies this
      ensures Valid() && es == [] && bytes == 0 && fresh(Repr())
    {
      head := new Node(Entry([], [], 0, false), MAX_LEVEL);
      level, size, bytes := 1, 0, 0;
      nodes, hs, es := [head], [MAX_LEVEL], [];
    }

    method ReplaceEntry(n: Node, value: Bytes, seqno: nat, deleted: bool, ghost q: nat)
      requires Valid() && 0 < q < |nodes| && nodes[q] == n
      modifies this, n
      ensures Valid() && nodes == old(nodes)
      ensures es == old(es)[q - 1 := Entry(old(es)[q - 1].key, value, seqno, deleted)]
    {
      hide TotalBytes, EstimateBytes, Succ, From, NodeAt, LowerBound;
      var oldBytes := EstimateBytes(n.entry);
      var e := Entry(n.entry.key, value, seqno, deleted);
      TotalReplaced(es, q - 1, e);
      n.entry := e;
      bytes := bytes + EstimateBytes(n.entry) - oldBytes;
      es := es[q - 1 := e];
    }

    /** Links n in behind the nodes of `update`, level by level. */
    method LinkIn(n: Node, update: seq<Node>, lvl: nat, ghost q: nat, ghost ps: seq<nat>)
      requires |nodes| == |hs| && n !in nodes && q <= |hs| && |n.next| == lvl <= MAX_LEVEL
      requires forall p, r | 0 <= p < r < |nodes| :: nodes[p] != nodes[r]
      requires LinksOf(nodes, hs)
      requires |update| == |ps| == MAX_LEVEL
      requires forall j | 0 <= j < lvl :: IsLast(hs, q, j, ps[j]) && update[j] == nodes[ps[j]]
      modifies nodes, n
      ensures n.entry == old(n.entry) && forall p | 0 <= p < |nodes| :: nodes[p].entry == old(nodes[p].entry)
      ensures HalfLinked(nodes, hs, n, lvl, q, ps, lvl)
    {
      PathLinks(hs, q, lvl, ps);
      hide IsLast, Succ, From, NodeAt, Sorted, ShapeOf;
      var i: nat := 0;
      while i < lvl
        invariant i <= lvl && n.entry == old(n.entry)
        invariant forall p | 0 <= p < |nodes| :: nodes[p].entry == old(nodes[p].entry)
        invariant HalfLinked(nodes, hs, n, lvl, q, ps, i)
      {
        LinkLevel(n, update[i], i, nodes, hs, lvl, q, ps);
        i := i + 1;
      }
    }

    /** n.next[i], u.next[i] = u.next[i], n. */
    static method LinkLevel(n: Node, u: Node, i: nat, ghost nodes: seq<Node>, ghost hs: seq<nat>,
                            ghost lvl: nat, ghost q: nat, ghost ps: seq<nat>)
      requires |nodes| == |hs| && q <= |hs| && i < lvl <= |ps| && n !in nodes
      requires forall p, r | 0 <= p < r < |nodes| :: nodes[p] != nodes[r]
      requires ps[i] < |hs| && u == nodes[ps[i]] && hs[ps[i]] > i && Succ(hs, ps[i], i) == From(hs, q, i)
      requires HalfLinked(nodes, hs, n, lvl, q, ps, i)
      modifies u, n
      ensures HalfLinked(nodes, hs, n, lvl, q, ps, i + 1)
      ensures n.entry == old(n.entry) && u.entry == old(u.entry)
    {
      hide Succ, From, NodeAt;
      ghost var r := ps[i];
      n.next := n.next[i := u.next[i]];
      u.next := u.next[i := n];
      assert forall p | 0 <= p < |nodes| && p != r :: nodes[p].next == old(nodes[p].next);
      assert nodes[r].next == old(nodes[r].next)[i := n];
    }

    /** Adds a node for e at its place. */
    method Splice(e: Entry, update: seq<Node>, lvl: nat, level': nat, ghost q: nat, ghost ps: seq<nat>)
      returns (n: Node)
      requires Valid() && 1 <= lvl <= MAX_LEVEL && level' == (if lvl > level then lvl else level)
      requires q == LowerBound(es, e.key) + 1 && (q < |nodes| ==> es[q - 1].key != e.key)
      requires |update| == |ps| == MAX_LEVEL
      requires forall j | 0 <= j < lvl :: IsLast(hs, q, j, ps[j]) && update[j] == nodes[ps[j]]
      modifies this, nodes
      ensures Valid() && fresh(n) && q <= |old(nodes)| && nodes == Inserted(old(nodes), q, n)
      ensures es == Put(old(es), e)
    {
      n := new Node(e, lvl);
      assert |nodes| == |hs| == |es| + 1 && q <= |hs|;
      hide LinkedOf, ShapeOf, Put, TotalBytes, EstimateBytes, Inserted, IsLast, Succ, From, LowerBound, Sorted, NodeAt;
      ShapeInserted(nodes, hs, es, head, level, q, n, lvl, e);
      PutInserts(es, e);
      LinkNode(n, update, lvl, q, ps);
      Count(n, level', Inserted(nodes, q, n), Inserted(hs, q, lvl), Put(es, e));
    }

    /** Level, size and byte count after a node is linked in. */
    method Count(n: Node, level': nat, ghost nodes': seq<Node>, ghost hs': seq<nat>, ghost es': seq<Entry>)
      requires ShapeOf(nodes', hs', es', head, level') && LinkedOf(nodes', hs', es')
      requires |es'| == size + 1 && bytes + EstimateBytes(n.entry) == TotalBytes(es')
      modifies this
      ensures Valid() && nodes == nodes' && es == es'
    {
      hide LinkedOf, ShapeOf, TotalBytes, EstimateBytes;
      level := level';
      size := size + 1;
      bytes := bytes + EstimateBytes(n.entry);
      nodes, hs, es := nodes', hs', es';
    }

    /** Makes n a linked node at position q. */
    method LinkNode(n: Node, update: seq<Node>, lvl: nat, ghost q: nat, ghost ps: seq<nat>)
      requires ShapeOf(nodes, hs, es, head, level) && LinkedOf(nodes, hs, es)
      requires n !in nodes && 0 < q <= |hs| && |n.next| == lvl <= MAX_LEVEL
      requires |update| == |ps| == MAX_LEVEL
      requires forall j | 0 <= j < lvl :: IsLast(hs, q, j, ps[j]) && update[j] == nodes[ps[j]]
      modifies nodes, n
      ensures n.entry == old(n.entry)
      ensures LinkedOf(Inserted(nodes, q, n), Inserted(hs, q, lvl), Inserted(es, q - 1, n.entry))
    {
      hide IsLast, Succ, From, NodeAt, LinksOf, HalfLinked;
      LinkIn(n, update, lvl, q, ps);
      LinkedAfter(nodes, hs, es, n, lvl, q, ps);
    }
  }

  /** n is linked in on the levels below i. */
  ghost predicate HalfLinked(nodes: seq<Node>, hs: seq<nat>, n: Node, lvl: nat, q: nat, ps: seq<nat>, i: nat)
    requires |nodes| == |hs| && q <= |hs| && i <= lvl <= |ps|
    reads nodes, n
  {
    && |n.next| == lvl
    && (forall p | 0 <= p < |nodes| :: |nodes[p].next| == hs[p])
    && (forall p, j | 0 <= p < |nodes| && 0 <= j < hs[p] ::
          nodes[p].next[j] == if j < i && p == ps[j] then n else NodeAt(nodes, Succ(hs, p, j)))
    && (forall j | 0 <= j < i :: n.next[j] == NodeAt(nodes, From(hs, q, j)))
  }

  lemma {:induction false} PathLinks(hs: seq<nat>, q: nat, lvl: nat, ps: seq<nat>)
    requires lvl <= |ps| && q <= |hs| && forall j | 0 <= j < lvl :: IsLast(hs, q, j, ps[j])
    ensures forall j | 0 <= j < lvl :: ps[j] < |hs| && hs[ps[j]] > j && Succ(hs, ps[j], j) == From(hs, q, j)
  {
    forall j | 0 <= j < lvl ensures Succ(hs, ps[j], j) == From(hs, q, j) {
      LastIsUnique(hs, q, j, ps[j], ps[j]);
    }
  }

  /** When n is linked in on all its levels, the longer list is linked. */
  lemma {:induction false} LinkedAfter(
    nodes: seq<Node>, hs: seq<nat>, es: seq<Entry>, n: Node, lvl: nat, q: nat, ps: seq<nat>)
    requires |nodes| == |hs| == |es| + 1 && 0 < q <= |hs| && lvl <= |ps|
    requires forall j | 0 <= j < lvl :: IsLast(hs, q, j, ps[j])
    requires HalfLinked(nodes, hs, n, lvl, q, ps, lvl)
    requires forall p | 0 < p < |nodes| :: nodes[p].entry == es[p - 1]
    ensures LinkedOf(Inserted(nodes, q, n), Inserted(hs, q, lvl), Inserted(es, q - 1, n.entry))
  {
    SplicedLinks(nodes, n, hs, q, lvl, ps);
    PathBefore(hs, q, lvl, ps);
    hide IsLast, Succ, From, NodeAt;
  }

  lemma {:induction false} PathBefore(hs: seq<nat>, q: nat, lvl: nat, ps: seq<nat>)
    requires lvl <= |ps| && forall j | 0 <= j < lvl :: IsLast(hs, q, j, ps[j])
    ensures forall j | 0 <= j < lvl :: ps[j] < q
  {
  }

  /** The links of the longer list are those of the list before but for the ones LinkIn sets. */
  lemma {:induction false} SplicedLinks(was: seq<Node>, n: Node, hs: seq<nat>, q: nat, lvl: nat, ps: seq<nat>)
    requires |was| == |hs| && 0 < q <= |hs| && lvl <= |ps|
    requires forall j | 0 <= j < lvl :: IsLast(hs, q, j, ps[j])
    ensures var nodes, hs' := Inserted(was, q, n), Inserted(hs, q, lvl);
      && (forall p, j | 0 <= p < q && 0 <= j < hs[p] ::
            NodeAt(nodes, Succ(hs', p, j)) == if j < lvl && p == ps[j] then n else NodeAt(was, Succ(hs, p, j)))
      && (forall j | 0 <= j < lvl :: NodeAt(nodes, Succ(hs', q, j)) == NodeAt(was, From(hs, q, j)))
      && (forall p, j: nat | q < p < |nodes| :: NodeAt(nodes, Succ(hs', p, j)) == NodeAt(was, Succ(hs, p - 1, j)))
  {
    var nodes, hs' := Inserted(was, q, n), Inserted(hs, q, lvl);
    forall p, j | 0 <= p < q && 0 <= j < hs[p]
      ensures NodeAt(nodes, Succ(hs', p, j)) == if j < lvl && p == ps[j] then n else NodeAt(was, Succ(hs, p, j))
    {
      SuccInserted(hs, q, lvl, p, j);
      if j < lvl && Succ(hs, p, j) >= q {
        LastIsUnique(hs, q, j, p, ps[j]);
      }
    }
    forall j | 0 <= j < lvl ensures NodeAt(nodes, Succ(hs', q, j)) == NodeAt(was, From(hs, q, j)) {
      SuccInserted(hs, q, lvl, q, j);
    }
    forall p, j: nat | q < p < |nodes| ensures NodeAt(nodes, Succ(hs', p, j)) == NodeAt(was, Succ(hs, p - 1, j)) {
      SuccInserted(hs, q, lvl, p, j);
    }
  }

  lemma {:induction false} HeadIsLast(hs: seq<nat>, q: nat, i: nat)
    requires 0 < q <= |hs| && hs[0] > i && forall p | 0 < p < |hs| :: hs[p] <= i
    ensures IsLast(hs, q, i, 0)
  {
  }
}
