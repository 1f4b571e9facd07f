/** Blocks of internal/sstable: prefix-compressed entries with restart points, and the search over them. */
module Blocks {
  import opened Bytes
  import opened Entries
  import V = Varint

  type uint32 = x: nat | x < TWO_32
  /** crc32x.ChecksumCastagnoli. */
  type Crc = Bytes -> uint32

  // ---------- What a block holds ----------

  /** How many bytes of its key entry i takes from the key before it: none every R-th entry. */
  function SharedAt(es: seq<Entry>, R: nat, i: nat): (n: nat)
    requires R > 0 && i < |es|
    ensures n <= |es[i].key|
    ensures n == 0 || (i > 0 && n <= |es[i - 1].key| && es[i - 1].key[..n] == es[i].key[..n])
  {
    if i % R == 0 || i == 0 then 0 else SharedPrefixLen(es[i - 1].key, es[i].key)
  }

  /** Between restart points an entry takes all its key has in common with the key before it. */
  lemma {:induction false} SharedExact(es: seq<Entry>, R: nat, i: nat)
    requires R > 0 && i < |es|
    ensures var n := SharedAt(es, R, i);
      if i % R == 0 then n == 0
      else
        var a, b := es[i - 1].key, es[i].key;
        n <= |a| && n <= |b| && a[..n] == b[..n] && (n == |a| || n == |b| || a[n] != b[n])
  {
  }

  function Flag(e: Entry): byte {
    if e.deleted then 1 else 0
  }

  /** Four numbers, the flag, the rest of the key and the value. */
  function EntryBytes(shared: nat, e: Entry): Bytes
    requires shared <= |e.key|
  {
    V.Encode(shared) + (V.Encode(|e.key| - shared) + (V.Encode(|e.value|) + (V.Encode(e.seqno)
      + ([Flag(e)] + (e.key[shared..] + e.value)))))
  }

  /** The entry part of a block. */
  function Data(es: seq<Entry>, R: nat): Bytes
    requires R > 0
  {
    if es == [] then []
    else
      var n := |es| - 1;
      Data(es[..n], R) + EntryBytes(SharedAt(es, R, n), es[n])
  }

  /** Which of n entries are restart points. */
  function Starts(n: nat, R: nat): (s: seq<nat>)
    requires R > 0
    ensures |s| <= n && forall j | 0 <= j < |s| :: s[j] < n && s[j] % R == 0
    ensures forall i, j | 0 <= i < j < |s| :: s[i] < s[j]
    ensures n > 0 ==> |s| > 0 && s[0] == 0
  {
    if n == 0 then []
    else
      var rest := Starts(n - 1, R);
      if (n - 1) % R == 0 then rest + [n - 1] else rest
  }

  /** All multiples of R are. */
  lemma {:induction false} StartsExact(n: nat, R: nat, i: nat)
    requires R > 0 && i < n
    ensures i in Starts(n, R) <==> i % R == 0
  {
    if i < n - 1 {
      StartsExact(n - 1, R, i);
    }
  }

  /** Their offsets, cut to 32 bits. */
  function Restarts(es: seq<Entry>, R: nat): seq<uint32>
    requires R > 0
  {
    if es == [] then []
    else
      var n := |es| - 1;
      Restarts(es[..n], R) + if n % R == 0 then [|Data(es[..n], R)| % TWO_32] else []
  }

  function WordBytes(ws: seq<uint32>): (b: Bytes)
    ensures |b| == 4 * |ws|
  {
    if ws == [] then [] else LE(ws[0], 4) + WordBytes(ws[1..])
  }

  /** Entries, restart offsets and their number. */
  function Body(es: seq<Entry>, R: nat): Bytes
    requires R > 0
  {
    Data(es, R) + (WordBytes(Restarts(es, R)) + LE(|Restarts(es, R)|, 4))
  }

  function Seal(crc: Crc, body: Bytes): Bytes {
    body + LE(crc(body), 4)
  }

  ghost predicate Fits(es: seq<Entry>, R: nat)
    requires R > 0
  {
    |Data(es, R)| < TWO_32 && forall e | e in es :: EntryFits(e)
  }

  // ---------- Reading: each function returns what it has not read ----------

  datatype Head = Head(shared: nat, nonShared: nat, vlen: nat, seqno: nat)

  function ReadHead(b: Bytes): (r: Option<(Head, Bytes)>)
    ensures r.Some? ==> |r.value.1| < |b|
  {
    var s := V.Num(b);
    if s.None? then None
    else
      var n := V.Num(s.value.1);
      if n.None? then None
      else
        var v := V.Num(n.value.1);
        if v.None? then None
        else
          var q := V.Num(v.value.1);
          if q.None? then None else Some((Head(s.value.0, n.value.0, v.value.0, q.value.0), q.value.1))
  }

  /** What follows the head, when the key before it was prev: flag, rest of the key and value. Sharing more than prev
      has, which no block built by Writer does, is None. */
  function ReadBody(prev: Bytes, h: Head, b: Bytes): (r: Option<(Entry, Bytes)>)
    ensures r.Some? ==> |r.value.1| < |b|
  {
    if b == [] || h.nonShared + h.vlen > |b| - 1 || h.shared > |prev| then None
    else
      var rest := b[1..];
      Some((Entry(prev[..h.shared] + rest[..h.nonShared], rest[h.nonShared..h.nonShared + h.vlen], h.seqno, b[0] == 1),
            rest[h.nonShared + h.vlen..]))
  }

  /** The entry at the start of b. */
  function ReadEntry(prev: Bytes, b: Bytes): (r: Option<(Entry, Bytes)>)
    ensures r.Some? ==> |r.value.1| < |b|
  {
    var r := ReadHead(b);
    if r.None? then None else ReadBody(prev, r.value.0, r.value.1)
  }

  function Words(b: Bytes): seq<nat> {
    if |b| < 4 then [] else [FromLE(b[..4])] + Words(b[4..])
  }

  function ParseRestarts(b: Bytes): Option<(Bytes, seq<nat>)> {
    if |b| < 4 then None
    else
      var need := FromLE(b[|b| - 4..]) * 4 + 4;
      if |b| < need then None else Some((b[..|b| - need], Words(b[|b| - need..|b| - 4])))
  }

  /** Checks and removes a checksum of at least `min` bytes. */
  function Unseal(crc: Crc, raw: Bytes, min: nat): Option<Bytes>
    requires min >= 4
  {
    if |raw| < min || crc(raw[..|raw| - 4]) != FromLE(raw[|raw| - 4..]) then None else Some(raw[..|raw| - 4])
  }

  // ---------- Round trips ----------

  lemma {:induction false} HeadOf(shared: nat, e: Entry, rest: Bytes)
    requires EntryFits(e) && shared <= |e.key|
    ensures var tail := [Flag(e)] + (e.key[shared..] + e.value) + rest;
      ReadHead(EntryBytes(shared, e) + rest) == Some((Head(shared, |e.key| - shared, |e.value|, e.seqno), tail))
  {
    hide V.Num, V.Encode;
    var tail := [Flag(e)] + (e.key[shared..] + e.value) + rest;
    var q := V.Encode(e.seqno) + tail;
    var v := V.Encode(|e.value|) + q;
    var n := V.Encode(|e.key| - shared) + v;
    assert EntryBytes(shared, e) + rest == V.Encode(shared) + n;
    V.NumOf(shared, n);
    V.NumOf(|e.key| - shared, v);
    V.NumOf(|e.value|, q);
    V.NumOf(e.seqno, tail);
  }

  /** An entry is read back after any key it shares enough with. */
  lemma {:induction false} EntryOf(prev: Bytes, shared: nat, e: Entry, rest: Bytes)
    requires EntryFits(e) && shared <= |e.key| && shared <= |prev| && prev[..shared] == e.key[..shared]
    ensures ReadEntry(prev, EntryBytes(shared, e) + rest) == Some((e, rest))
  {
    hide ReadHead, EntryBytes;
    HeadOf(shared, e, rest);
    var k, v := e.key[shared..], e.value;
    var tail := [Flag(e)] + (k + v) + rest;
    assert tail[1..] == k + v + rest;
    assert tail[1..][..|k|] == k && tail[1..][|k|..|k| + |v|] == v && tail[1..][|k| + |v|..] == rest;
    assert e.key == e.key[..shared] + k;
  }

  /** The entry part from entry i on. */
  function Tail(es: seq<Entry>, R: nat, i: nat): Bytes
    requires R > 0 && i <= |es|
    decreases |es| - i
  {
    if i == |es| then [] else EntryBytes(SharedAt(es, R, i), es[i]) + Tail(es, R, i + 1)
  }

  lemma {:induction false} DataSplits(es: seq<Entry>, R: nat, i: nat)
    requires R > 0 && i <= |es|
    ensures Data(es, R) == Data(es[..i], R) + Tail(es, R, i)
    decreases |es| - i
  {
    hide EntryBytes, Data, SharedAt;
    if i == |es| {
      assert es[..i] == es;
    } else {
      DataSplits(es, R, i + 1);
      DataNext(es, R, i);
    }
  }

  lemma {:induction false} DataNext(es: seq<Entry>, R: nat, i: nat)
    requires R > 0 && i < |es|
    ensures Data(es[..i + 1], R) == Data(es[..i], R) + EntryBytes(SharedAt(es, R, i), es[i])
  {
    hide EntryBytes, SharedPrefixLen;
    var p := es[..i + 1];
    assert p[..i] == es[..i] && p[i] == es[i] && (i > 0 ==> p[i - 1] == es[i - 1]);
  }

  lemma {:induction false} TailAt(es: seq<Entry>, R: nat, i: nat)
    requires R > 0 && i <= |es|
    ensures var off := |Data(es[..i], R)|;
      off <= |Data(es, R)| && Data(es, R)[off..] == Tail(es, R, i)
    ensures i == 0 ==> Data(es[..i], R) == [] && Tail(es, R, 0) == Data(es, R)
  {
    hide Tail;
    DataSplits(es, R, i);
  }

  /** Reading at entry i gives entry i, after the entry before it or, at a restart point, after nothing. */
  lemma {:induction false} ReadAt(es: seq<Entry>, R: nat, i: nat, prev: Bytes)
    requires R > 0 && i < |es| && forall e | e in es :: EntryFits(e)
    requires i % R == 0 || (i > 0 && prev == es[i - 1].key)
    ensures ReadEntry(prev, Tail(es, R, i)) == Some((es[i], Tail(es, R, i + 1)))
  {
    hide EntryBytes, ReadEntry;
    EntryOf(prev, SharedAt(es, R, i), es[i], Tail(es, R, i + 1));
  }

  lemma {:induction false} TailEnd(es: seq<Entry>, R: nat)
    requires R > 0
    ensures Tail(es, R, |es|) == []
  {
  }

  lemma {:induction false} NothingToRead(prev: Bytes)
    ensures ReadEntry(prev, []).None?
  {
  }

  lemma {:induction false} RestartsAt(es: seq<Entry>, R: nat)
    requires R > 0
    ensures |Restarts(es, R)| == |Starts(|es|, R)|
    ensures forall j | 0 <= j < |Restarts(es, R)| ::
      Restarts(es, R)[j] == |Data(es[..Starts(|es|, R)[j]], R)| % TWO_32
  {
    hide Data;
    if es != [] {
      var n := |es| - 1;
      RestartsAt(es[..n], R);
      forall j | 0 <= j < |Restarts(es, R)|
        ensures Restarts(es, R)[j] == |Data(es[..Starts(|es|, R)[j]], R)| % TWO_32
      {
        if j < |Starts(n, R)| {
          assert es[..n][..Starts(n, R)[j]] == es[..Starts(n, R)[j]];
        }
      }
    }
  }

  /** The offset of restart j is where the entry it stands for begins. */
  lemma {:induction false} RestartTail(es: seq<Entry>, R: nat, j: nat)
    requires R > 0 && Fits(es, R) && j < |Restarts(es, R)|
    ensures j < |Starts(|es|, R)| && Restarts(es, R)[j] <= |Data(es, R)|
    ensures Data(es, R)[Restarts(es, R)[j]..] == Tail(es, R, Starts(|es|, R)[j])
  {
    hide Data, Restarts, Tail;
    RestartsAt(es, R);
    var s := Starts(|es|, R)[j];
    TailAt(es, R, s);
    Below32(|Data(es[..s], R)|);
  }

  lemma {:induction false} Below32(x: nat)
    requires x < TWO_32
    ensures x % TWO_32 == x
  {
  }

  lemma {:induction false} DataLength(es: seq<Entry>, R: nat)
    requires R > 0
    ensures |Data(es, R)| >= |es|
  {
    if es != [] {
      DataLength(es[..|es| - 1], R);
    }
  }

  lemma {:induction false} WordsOf(ws: seq<uint32>)
    ensures Words(WordBytes(ws)) == ws
  {
    hide LE;
    if ws != [] {
      Widths();
      LERoundTrip(ws[0], 4);
      var b := WordBytes(ws);
      assert b[..4] == LE(ws[0], 4) && b[4..] == WordBytes(ws[1..]);
      WordsOf(ws[1..]);
    }
  }

  lemma {:induction false} BodyParts(d: Bytes, ws: Bytes, n: Bytes)
    requires |n| == 4
    ensures var b := d + (ws + n);
      && b[|b| - 4..] == n && b[..|b| - (|ws| + 4)] == d && b[|b| - (|ws| + 4)..|b| - 4] == ws
  {
  }

  lemma {:induction false} ParseParts(d: Bytes, ws: Bytes, n: Bytes, k: nat)
    requires |n| == 4 && FromLE(n) == k && |ws| == 4 * k
    ensures ParseRestarts(d + (ws + n)) == Some((d, Words(ws)))
  {
    hide Words, FromLE;
    BodyParts(d, ws, n);
  }

  lemma {:induction false} BodyParses(es: seq<Entry>, R: nat)
    requires R > 0 && Fits(es, R)
    ensures ParseRestarts(Body(es, R)) == Some((Data(es, R), Restarts(es, R)))
  {
    hide Data, Restarts, Words, LE, FromLE, WordBytes, ParseRestarts;
    var d, rs := Data(es, R), Restarts(es, R);
    DataLength(es, R);
    RestartsAt(es, R);
    Widths();
    LERoundTrip(|rs|, 4);
    WordsOf(rs);
    ParseParts(d, WordBytes(rs), LE(|rs|, 4), |rs|);
  }

  lemma {:induction false} SealOpens(crc: Crc, body: Bytes, min: nat)
    requires 4 <= min <= |body| + 4
    ensures Unseal(crc, Seal(crc, body), min) == Some(body)
  {
    var raw := Seal(crc, body);
    assert raw[..|raw| - 4] == body && raw[|raw| - 4..] == LE(crc(body), 4);
    Widths();
    LERoundTrip(crc(body), 4);
  }

  // ---------- Where a seek ends ----------

  /** Keys ascend, perhaps with repetitions: what Writer.Add accepts. */
  ghost predicate Ascending(es: seq<Entry>) {
    forall i, j | 0 <= i < j < |es| :: !Less(es[j].key, es[i].key)
  }

  ghost predicate Within(starts: seq<nat>, n: nat) {
    forall j | 0 <= j < |starts| :: starts[j] < n
  }

  /** The last of the first n restarts whose key is not past t, the first if all are past it. */
  ghost function Chosen(es: seq<Entry>, starts: seq<nat>, t: Bytes, n: nat): (c: nat)
    requires n <= |starts| && Within(starts, |es|)
    ensures n > 0 ==> c < n
  {
    if n <= 1 then 0
    else if !Less(t, es[starts[n - 1]].key) then n - 1
    else Chosen(es, starts, t, n - 1)
  }

  /** The entry a seek ends on: the first with key >= t from the chosen restart on. */
  ghost function Landing(es: seq<Entry>, R: nat, t: Bytes): (p: nat)
    requires R > 0
    ensures p <= |es|
  {
    if es == [] then 0
    else
      var starts := Starts(|es|, R);
      var s := starts[Chosen(es, starts, t, |starts|)];
      s + LowerBound(es[s..], t)
  }

  lemma {:induction false} ChosenIs(es: seq<Entry>, starts: seq<nat>, t: Bytes, n: nat, c: nat)
    requires n <= |starts| && Within(starts, |es|) && c < n
    requires c == 0 || !Less(t, es[starts[c]].key)
    requires forall j | c < j < n :: Less(t, es[starts[j]].key)
    ensures Chosen(es, starts, t, n) == c
  {
    if c < n - 1 {
      ChosenIs(es, starts, t, n - 1, c);
    }
  }

  lemma {:induction false} ChosenFacts(es: seq<Entry>, starts: seq<nat>, t: Bytes, n: nat)
    requires 0 < n <= |starts| && Within(starts, |es|)
    ensures var c := Chosen(es, starts, t, n);
      && (c == 0 || !Less(t, es[starts[c]].key))
      && forall j | c < j < n :: Less(t, es[starts[j]].key)
  {
    if n > 1 && Less(t, es[starts[n - 1]].key) {
      ChosenFacts(es, starts, t, n - 1);
    }
  }

  /** Some entry after p is a restart point and has key t. */
  ghost predicate RestartsOn(es: seq<Entry>, R: nat, t: Bytes, p: nat)
    requires R > 0
  {
    exists s :: s in Starts(|es|, R) && s > p && es[s].key == t
  }

  /** The order, with >= spelled out. */
  lemma {:induction false} LessMixed(a: Bytes, b: Bytes, c: Bytes)
    ensures !Less(b, a) && Less(b, c) ==> Less(a, c)
    ensures Less(a, b) && !Less(c, b) ==> Less(a, c)
    ensures !Less(b, a) && !Less(a, b) ==> a == b
  {
    OrderIsTotal();
  }

  lemma {:induction false} AscendingBound(es: seq<Entry>, t: Bytes, i: nat)
    requires Ascending(es) && i < |es|
    ensures Less(es[i].key, t) <==> i < LowerBound(es, t)
  {
    var p := LowerBound(es, t);
    if p < i {
      LessMixed(es[p].key, es[i].key, t);
    }
  }

  lemma {:induction false} LandingFrom(es: seq<Entry>, t: Bytes, s: nat)
    requires Ascending(es) && s <= |es|
    ensures var p := LowerBound(es, t); s + LowerBound(es[s..], t) == if s <= p then p else s
  {
    var p, q := LowerBound(es, t), LowerBound(es[s..], t);
    assert Ascending(es[s..]);
    if s + q < |es| {
      AscendingBound(es, t, s + q);
    }
    if q > 0 {
      AscendingBound(es, t, s + q - 1);
      assert es[s..][q - 1] == es[s + q - 1];
    }
  }

  /** The chosen restart is past entry p only if it stands on a later entry of key t. */
  lemma {:induction false} ChosenPast(es: seq<Entry>, R: nat, t: Bytes, p: nat)
    requires R > 0 && Ascending(es) && es != [] && p == LowerBound(es, t)
    ensures var starts := Starts(|es|, R);
      starts[Chosen(es, starts, t, |starts|)] > p <==> RestartsOn(es, R, t, p)
  {
    hide LowerBound, Chosen, Starts;
    var starts := Starts(|es|, R);
    var c := Chosen(es, starts, t, |starts|);
    ChosenFacts(es, starts, t, |starts|);
    LessMixed(es[starts[c]].key, t, t);
    AscendingBound(es, t, starts[c]);
    assert starts[c] in starts;
    if RestartsOn(es, R, t, p) {
      var r :| r in starts && r > p && es[r].key == t;
      var j :| 0 <= j < |starts| && starts[j] == r;
      OrderIsTotal();
      assert j <= c;
    }
  }

  /** On what Writer.Add accepts a seek ends on the first entry with key >= t, as a linear scan would, exactly
      when no later entry of key t is a restart point. */
  lemma {:induction false} LandingExact(es: seq<Entry>, R: nat, t: Bytes)
    requires R > 0 && Ascending(es)
    ensures Landing(es, R, t) == LowerBound(es, t) <==> !RestartsOn(es, R, t, LowerBound(es, t))
  {
    hide LowerBound, Chosen, Starts;
    if es != [] {
      var starts := Starts(|es|, R);
      ChosenPast(es, R, t, LowerBound(es, t));
      LandingFrom(es, t, starts[Chosen(es, starts, t, |starts|)]);
    }
  }

  /** On strictly ascending keys it always does. */
  lemma {:induction false} LandingSorted(es: seq<Entry>, R: nat, t: Bytes)
    requires R > 0 && Sorted(es)
    ensures Ascending(es) && Landing(es, R, t) == LowerBound(es, t)
  {
    OrderIsTotal();
    LandingExact(es, R, t);
  }

  /** Writer.Add lets a key through twice; with a restart point on its second entry a seek passes the first. */
  lemma {:induction false} SeekSkipsEqualKey()
    ensures exists es: seq<Entry>, t :: Ascending(es) && Landing(es, 1, t) != LowerBound(es, t)
  {
    var k: Bytes := [107];
    var es := [Entry(k, [1], 2, false), Entry(k, [2], 1, false)];
    OrderIsTotal();
    assert Ascending(es);
    assert Starts(1, 1) == [0] && Starts(2, 1) == [0, 1];
    assert LowerBound(es, k) == 0;
    assert 1 in Starts(2, 1);
    assert RestartsOn(es, 1, k, 0);
    LandingExact(es, 1, k);
  }

  // ---------- The iterator ----------

  method ReadRestarts(block: Bytes) returns (r: Option<(Bytes, seq<nat>)>)
    ensures r == ParseRestarts(block)
  {
    if |block| < 4 {
      return None;
    }
    var n := FromLE(block[|block| - 4..]);
    var need := n * 4 + 4;
    if |block| < need {
      return None;
    }
    var restartOff := |block| - need;
    var words, restarts: seq<nat> := block[restartOff..|block| - 4], [];
    for i := 0 to n
      invariant |words| == 4 * n
      invariant restarts + Words(words[i * 4..]) == Words(words)
    {
      var rest := words[i * 4..];
      assert rest[..4] == words[i * 4..i * 4 + 4] && rest[4..] == words[(i + 1) * 4..];
      restarts := restarts + [FromLE(words[i * 4..i * 4 + 4])];
    }
    assert words[n * 4..] == [] && restarts + [] == restarts;
    return Some((block[..restartOff], restarts));
  }

  class BlockIter {
    const data: Bytes
    const restarts: seq<nat>
    var off: nat
    var key: Bytes
    var value: Bytes
    var seqno: nat
    var deleted: bool
    var valid: bool

    function Current(): Entry
      reads this
    {
      Entry(key, value, seqno, deleted)
    }

    function Rest(): Bytes
      reads this
    {
      if off >= |data| then [] else data[off..]
    }

    /** The iterator runs over the block Writer builds from es. */
    ghost predicate Over(es: seq<Entry>, R: nat) {
      R > 0 && Fits(es, R) && data == Data(es, R) && restarts == Restarts(es, R)
    }

    /** It has just read entry i - 1, if i > 0, and is to read entry i. */
    ghost predicate Before(es: seq<Entry>, R: nat, i: nat)
      requires Over(es, R) && i <= |es|
      reads this
    {
      Rest() == Tail(es, R, i) && (i == 0 || Current() == es[i - 1])
    }

    /** It is to read entry i: after the entry before it, or at a restart point. */
    ghost predicate At(es: seq<Entry>, R: nat, i: nat)
      requires Over(es, R) && i <= |es|
      reads this
    {
      Before(es, R, i) || (i < |es| && i % R == 0 && Rest() == Tail(es, R, i))
    }

    /** It stands on entry i, or is at the end when there is none. */
    ghost predicate On(es: seq<Entry>, R: nat, i: nat)
      requires Over(es, R) && i <= |es|
      reads this
    {
      valid == (i < |es|) && (i < |es| ==> Before(es, R, i + 1))
    }

    constructor Unread(data: Bytes, restarts: seq<nat>)
      ensures this.data == data && this.restarts == restarts && off == 0 && key == [] && !valid
    {
      this.data, this.restarts, off, key, value, seqno, deleted, valid := data, restarts, 0, [], [], 0, false, false;
    }

    /** One number of the head of an entry. */
    method Number() returns (r: Option<nat>)
      modifies this`off
      ensures var n := V.Num(old(Rest()));
        r.Some? == n.Some? && (r.Some? ==> r.value == n.value.0 && Rest() == n.value.1)
      ensures |Rest()| <= |old(Rest())|
    {
      if off >= |data| {
        return None;
      }
      var d := V.DecodeUint64(data[off..]);
      if !d.Ok? {
        return None;
      }
      V.DecodeFits(data[off..]);
      off := off + d.n;
      assert Rest() == old(data[off..])[d.n..];
      return Some(d.value);
    }

    /** The four numbers an entry starts with. */
    method ReadHeader() returns (r: Option<Head>)
      modifies this`off
      ensures var h := ReadHead(old(Rest()));
        r.Some? == h.Some? && (r.Some? ==> r.value == h.value.0 && Rest() == h.value.1)
      ensures |Rest()| <= |old(Rest())|
    {
      hide V.Num;
      var shared := Number();
      if shared.None? {
        return None;
      }
      var nonShared := Number();
      if nonShared.None? {
        return None;
      }
      var vlen := Number();
      if vlen.None? {
        return None;
      }
      var s := Number();
      if s.None? {
        return None;
      }
      return Some(Head(shared.value, nonShared.value, vlen.value, s.value));
    }

    /** Flag, key and value. */
    method ReadFields(h: Head)
      modifies this
      ensures var r := ReadBody(old(key), h, old(Rest()));
        if r.Some? then valid && Current() == r.value.0 && Rest() == r.value.1
        else !valid && Current() == old(Current())
      ensures |Rest()| <= |old(Rest())|
    {
      valid := false;
      if off >= |data| {
        return;
      }
      var flag, n, v := data[off], h.nonShared, h.vlen;
      off := off + 1;
      if off + n + v > |data| || h.shared > |key| {
        return;
      }
      FieldsAt(data, off, n, v);
      key := key[..h.shared] + data[off..off + n];
      off := off + n;
      value := data[off..off + v];
      off := off + v;
      seqno, deleted, valid := h.seqno, flag == 1, true;
    }

    method Next()
      modifies this
      ensures var r := ReadEntry(old(key), old(Rest()));
        if r.Some? then valid && Current() == r.value.0 && Rest() == r.value.1
        else !valid && Current() == old(Current())
      ensures |Rest()| <= |old(Rest())|
    {
      hide ReadHead, ReadBody;
      valid := false;
      var h := ReadHeader();
      if h.None? {
        return;
      }
      ReadFields(h.value);
    }

    /** What Next is about to read on a block of the writer's. */
    lemma {:induction false} Reads(es: seq<Entry>, R: nat, i: nat)
      requires Over(es, R) && i <= |es| && At(es, R, i)
      ensures var r := ReadEntry(key, Rest());
        if i < |es| then r == Some((es[i], Tail(es, R, i + 1))) else r.None?
    {
      hide ReadEntry, Data, Restarts, Tail, EntryFits;
      if i < |es| {
        ReadAt(es, R, i, key);
      } else {
        NothingToRead(key);
        TailEnd(es, R);
      }
    }

    /** Next from wherever it stands on a block of the writer's. */
    method Advance(ghost es: seq<Entry>, ghost R: nat, ghost i: nat)
      modifies this
      ensures |Rest()| <= |old(Rest())| && (valid ==> |Rest()| < |old(Rest())|)
      ensures i <= |es| && Over(es, R) && old(At(es, R, i)) ==> On(es, R, i)
    {
      hide ReadEntry, Data, Restarts, Tail;
      if i <= |es| && Over(es, R) && At(es, R, i) {
        Reads(es, R, i);
      }
      Next();
    }

    /** Goes to a restart point and reads its entry. */
    method Jump(j: nat, ghost es: seq<Entry>, ghost R: nat)
      requires j < |restarts|
      modifies this
      ensures Over(es, R) ==> j < |Starts(|es|, R)| && On(es, R, Starts(|es|, R)[j])
    {
      hide Data, Restarts, Tail, Starts;
      off := restarts[j];
      key := [];
      if Over(es, R) {
        RestartsAt(es, R);
        RestartTail(es, R, j);
        assert Starts(|es|, R)[j] % R == 0;
      }
      Advance(es, R, if Over(es, R) then Starts(|es|, R)[j] else 0);
    }

    lemma {:induction false} AtStart(es: seq<Entry>, R: nat)
      requires Over(es, R) && off == 0
      ensures At(es, R, 0)
    {
      hide Data, Tail;
      TailAt(es, R, 0);
      assert |data| > 0 ==> data[0..] == data;
    }

    lemma {:induction false} OnMeans(es: seq<Entry>, R: nat, i: nat)
      requires Over(es, R) && i <= |es| && On(es, R, i)
      ensures valid == (i < |es|) && (valid ==> key == es[i].key && At(es, R, i + 1))
    {
    }

    /** Steps over the keys before target. */
    method Skip(target: Bytes, ghost es: seq<Entry>, ghost R: nat, ghost s: nat)
      requires Over(es, R) ==> s <= |es| && On(es, R, s)
      modifies this
      ensures Over(es, R) ==> On(es, R, s + LowerBound(es[s..], target))
    {
      hide On, At, Over, LowerBound, Before, Compare;
      ghost var i: nat := s;
      while valid && Compare(key, target) < 0
        invariant Over(es, R) ==> s <= i <= |es| && On(es, R, i)
        invariant Over(es, R) ==> forall j | s <= j < i :: Less(es[j].key, target)
        decreases |Rest()|, valid
      {
        if Over(es, R) {
          OnMeans(es, R, i);
        }
        i := i + 1;
        Advance(es, R, i);
      }
      if Over(es, R) {
        OnMeans(es, R, i);
        FirstNotLess(es, s, i, target);
      }
    }

    /** The binary search: for the last restart whose key is not past target. */
    method FindRestart(target: Bytes, ghost es: seq<Entry>, ghost R: nat) returns (lo: nat)
      requires restarts != []
      modifies this
      ensures lo < |restarts|
      ensures Over(es, R) && Ascending(es) ==>
        var starts := Starts(|es|, R); |starts| == |restarts| && lo == Chosen(es, starts, target, |starts|)
    {
      hide Data, Tail, Fits, Starts, Chosen, Restarts;
      ghost var ok := Over(es, R) && Ascending(es);
      ghost var starts := if ok then Starts(|es|, R) else [];
      if ok {
        RestartsAt(es, R);
      }
      lo := 0;
      var hi: nat := |restarts| - 1;
      while lo < hi
        invariant lo <= hi < |restarts|
        invariant ok ==> lo == 0 || !Less(target, es[starts[lo]].key)
        invariant ok ==> forall j | hi < j < |starts| :: Less(target, es[starts[j]].key)
      {
        var mid := (lo + hi + 1) / 2;
        Jump(mid, es, R);
        if !valid {
          hi := mid - 1;
          continue;
        }
        if ok {
          PastFrom(es, starts, target, mid);
        }
        if Compare(key, target) <= 0 {
          lo := mid;
        } else {
          hi := mid - 1;
        }
      }
      if ok {
        ChosenIs(es, starts, target, |starts|, lo);
      }
    }

    /** Ends on the entry Landing names. */
    method Seek(target: Bytes, ghost es: seq<Entry>, ghost R: nat)
      modifies this
      ensures Over(es, R) && Ascending(es) ==> On(es, R, Landing(es, R, target))
    {
      hide Data, Tail, Fits, Chosen, Restarts, Starts, LowerBound;
      if Over(es, R) {
        RestartsAt(es, R);
        TailAt(es, R, 0);
      }
      if |restarts| == 0 {
        off := 0;
        key := [];
        Advance(es, R, 0);
        Skip(target, es, R, 0);
        return;
      }
      var lo := FindRestart(target, es, R);
      Jump(lo, es, R);
      Skip(target, es, R, if Over(es, R) then Starts(|es|, R)[lo] else 0);
    }
  }

  /** If the key at one restart is past t, so are those at later ones. */
  lemma {:induction false} PastFrom(es: seq<Entry>, starts: seq<nat>, t: Bytes, mid: nat)
    requires Ascending(es) && Within(starts, |es|) && mid < |starts|
    requires forall i, j | 0 <= i < j < |starts| :: starts[i] < starts[j]
    ensures Compare(es[starts[mid]].key, t) <= 0 <==> !Less(t, es[starts[mid]].key)
    ensures Less(t, es[starts[mid]].key) ==> forall j | mid <= j < |starts| :: Less(t, es[starts[j]].key)
  {
    CompareIsAntisymmetric(t, es[starts[mid]].key);
    if Less(t, es[starts[mid]].key) {
      forall j | mid <= j < |starts| ensures Less(t, es[starts[j]].key) {
        if mid < j {
          NotPast(t, es[starts[mid]].key, es[starts[j]].key);
        }
      }
    }
  }

  lemma {:induction false} NotPast(a: Bytes, b: Bytes, c: Bytes)
    requires Less(a, b) && !Less(c, b)
    ensures Less(a, c)
  {
    LessMixed(a, b, c);
  }

  lemma {:induction false} FirstNotLess(es: seq<Entry>, s: nat, i: nat, t: Bytes)
    requires s <= i <= |es| && (forall j | s <= j < i :: Less(es[j].key, t))
    requires i == |es| || !Less(es[i].key, t)
    ensures s + LowerBound(es[s..], t) == i
  {
  }

  lemma {:induction false} FieldsAt(data: Bytes, off: nat, n: nat, v: nat)
    requires 0 < off && off + n + v <= |data|
    ensures var rest := data[off - 1..][1..];
      && rest[..n] == data[off..off + n] && rest[n..n + v] == data[off + n..off + n + v]
      && rest[n + v..] == data[off + n + v..]
  {
    assert data[off - 1..][1..] == data[off..];
  }

  /** newBlockIter: stands on the first entry. */
  method NewBlockIter(block: Bytes, ghost es: seq<Entry>, ghost R: nat) returns (it: BlockIter?)
    ensures it == null <==> ParseRestarts(block).None?
    ensures it != null ==> fresh(it)
    ensures R > 0 && Fits(es, R) && block == Body(es, R) ==> it != null && it.Over(es, R) && it.On(es, R, 0)
  {
    hide Data, Restarts, ParseRestarts, BlockIter.On, BlockIter.At;
    var p := ReadRestarts(block);
    if p.None? {
      if R > 0 && Fits(es, R) && block == Body(es, R) {
        BodyParses(es, R);
      }
      return null;
    }
    it := new BlockIter.Unread(p.value.0, p.value.1);
    if R > 0 && Fits(es, R) && block == Body(es, R) {
      BodyParses(es, R);
      it.AtStart(es, R);
    }
    it.Advance(es, R, 0);
  }
}
