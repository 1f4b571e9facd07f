/** internal/bloomx: the Bloom filter, for every pair of hash functions and every size. */
module Bloom {
  import opened Bytes

  type uint64 = x: nat | x < TWO_64
  /** hashPair. */
  type Hash = Bytes -> (uint64, uint64)

  const MAGIC: nat := 0xB100F11E
  const VERSION: byte := 1

  // ---------- Bits ----------

  /** x & (1 << j) != 0. */
  predicate Bit(x: nat, j: nat) {
    if j == 0 then x % 2 == 1 else Bit(x / 2, j - 1)
  }

  function Pow2(j: nat): (p: nat)
    ensures p > 0
  {
    if j == 0 then 1 else 2 * Pow2(j - 1)
  }

  /** x | y on the low n bits. */
  function Or(x: nat, y: nat, n: nat): (r: nat)
    ensures r < Pow2(n)
  {
    if n == 0 then 0
    else (if x % 2 == 1 || y % 2 == 1 then 1 else 0) + 2 * Or(x / 2, y / 2, n - 1)
  }

  function OrByte(x: byte, y: byte): (r: byte) {
    assert Pow2(8) == 256 by {
      assert Pow2(4) == 2 * Pow2(3) && Pow2(8) == 2 * Pow2(7) && Pow2(7) == 2 * Pow2(6)
          && Pow2(6) == 2 * Pow2(5) && Pow2(5) == 2 * Pow2(4);
    }
    Or(x, y, 8)
  }

  lemma {:induction false} OrBit(x: nat, y: nat, n: nat, j: nat)
    requires j < n
    ensures Bit(Or(x, y, n), j) <==> Bit(x, j) || Bit(y, j)
  {
    var low, high := if x % 2 == 1 || y % 2 == 1 then 1 else 0, Or(x / 2, y / 2, n - 1);
    assert Or(x, y, n) == low + 2 * high;
    assert (low + 2 * high) / 2 == high && (low + 2 * high) % 2 == low;
    if j > 0 {
      OrBit(x / 2, y / 2, n - 1, j - 1);
    }
  }

  lemma {:induction false} ZeroBit(j: nat)
    ensures !Bit(0, j)
  {
    if j > 0 {
      ZeroBit(j - 1);
    }
  }

  lemma {:induction false} Pow2Bit(i: nat, j: nat)
    ensures Bit(Pow2(i), j) <==> i == j
  {
    if i == 0 && j > 0 {
      ZeroBit(j - 1);
    } else if i > 0 && j > 0 {
      Pow2Bit(i - 1, j - 1);
      assert Pow2(i) / 2 == Pow2(i - 1);
    }
  }

  predicate GetBit(bits: seq<byte>, i: nat)
    requires i / 8 < |bits|
  {
    Bit(bits[i / 8], i % 8)
  }

  function WithBit(bits: seq<byte>, i: nat): (r: seq<byte>)
    requires i / 8 < |bits|
    ensures |r| == |bits|
  {
    assert Pow2(i % 8) < 256 by { ByteBit(i % 8); }
    bits[i / 8 := OrByte(bits[i / 8], Pow2(i % 8))]
  }

  lemma {:induction false} ByteBit(j: nat)
    requires j < 8
    ensures Pow2(j) < 256
  {
    assert Pow2(3) == 2 * Pow2(2) && Pow2(4) == 2 * Pow2(3) && Pow2(5) == 2 * Pow2(4);
    assert Pow2(7) == 2 * Pow2(6) && Pow2(6) == 2 * Pow2(5);
  }

  lemma {:induction false} WithBitGets(bits: seq<byte>, i: nat, l: nat)
    requires i / 8 < |bits| && l / 8 < |bits|
    ensures GetBit(WithBit(bits, i), l) <==> l == i || GetBit(bits, l)
  {
    if l / 8 == i / 8 {
      OrBit(bits[i / 8], Pow2(i % 8), 8, l % 8);
      Pow2Bit(i % 8, l % 8);
    }
  }

  // ---------- Filters as values ----------

  datatype State = State(bits: seq<byte>, m: nat, k: nat, nAdded: nat)

  predicate WellFormed(f: State) {
    |f.bits| == (f.m + 7) / 8 && f.m < TWO_64 && f.k < TWO_32
  }

  /** Bit probed in round i: 64-bit arithmetic, then modulo m. */
  function Probe(hash: Hash, key: Bytes, i: nat, m: nat): (p: nat)
    requires m > 0
    ensures p < m
  {
    var (h1, h2) := hash(key);
    (h1 + i * h2) % TWO_64 % m
  }

  predicate MayContain(hash: Hash, f: State, key: Bytes)
    requires WellFormed(f)
  {
    f.m == 0 || forall i | 0 <= i < f.k :: GetBit(f.bits, Probe(hash, key, i, f.m))
  }

  /** Every bit of a is set in b, which has the same shape. */
  ghost predicate Below(a: State, b: State)
    requires WellFormed(a) && WellFormed(b)
  {
    a.m == b.m && a.k == b.k && forall i | 0 <= i < a.m :: GetBit(a.bits, i) ==> GetBit(b.bits, i)
  }

  /** More bits never make a filter deny a key. */
  lemma {:induction false} BelowMayContain(hash: Hash, a: State, b: State, key: Bytes)
    requires WellFormed(a) && WellFormed(b) && Below(a, b) && MayContain(hash, a, key)
    ensures MayContain(hash, b, key)
  {
    if a.m > 0 {
      forall i | 0 <= i < b.k ensures GetBit(b.bits, Probe(hash, key, i, b.m)) {
        assert GetBit(a.bits, Probe(hash, key, i, a.m));
      }
    }
  }

  /** The filter after Add: round by round. */
  function AddRounds(hash: Hash, bits: seq<byte>, m: nat, key: Bytes, k: nat): (r: seq<byte>)
    requires m > 0 && |bits| == (m + 7) / 8
    ensures |r| == |bits|
  {
    if k == 0 then bits else WithBit(AddRounds(hash, bits, m, key, k - 1), Probe(hash, key, k - 1, m))
  }

  function Added(hash: Hash, f: State, key: Bytes): (r: State)
    requires WellFormed(f)
    ensures WellFormed(r)
  {
    if f.m == 0 then f else f.(bits := AddRounds(hash, f.bits, f.m, key, f.k), nAdded := f.nAdded + 1)
  }

  lemma {:induction false} AddRoundsGets(hash: Hash, bits: seq<byte>, m: nat, key: Bytes, k: nat, l: nat)
    requires m > 0 && |bits| == (m + 7) / 8 && l < m
    ensures GetBit(AddRounds(hash, bits, m, key, k), l) <==>
      GetBit(bits, l) || exists i | 0 <= i < k :: l == Probe(hash, key, i, m)
  {
    if k > 0 {
      AddRoundsGets(hash, bits, m, key, k - 1, l);
      WithBitGets(AddRounds(hash, bits, m, key, k - 1), Probe(hash, key, k - 1, m), l);
      if l == Probe(hash, key, k - 1, m) {
        assert 0 <= k - 1 < k;
      }
    }
  }

  /** Adding a key makes the filter admit it and takes no key away. */
  lemma {:induction false} AddedAdmits(hash: Hash, f: State, key: Bytes)
    requires WellFormed(f)
    ensures MayContain(hash, Added(hash, f, key), key)
    ensures Below(f, Added(hash, f, key))
  {
    if f.m > 0 {
      var r := Added(hash, f, key);
      forall i | 0 <= i < f.k ensures GetBit(r.bits, Probe(hash, key, i, f.m)) {
        AddRoundsGets(hash, f.bits, f.m, key, f.k, Probe(hash, key, i, f.m));
      }
      forall i | 0 <= i < f.m && GetBit(f.bits, i) ensures GetBit(r.bits, i) {
        AddRoundsGets(hash, f.bits, f.m, key, f.k, i);
      }
    }
  }

  function Zeros(n: nat): (r: seq<byte>)
    ensures |r| == n
  {
    if n == 0 then [] else Zeros(n - 1) + [0]
  }

  /** Builder.Build: a new filter with every recorded key added. */
  function Built(hash: Hash, keys: seq<Bytes>, m: nat, k: nat): (f: State)
    requires m < TWO_64 && k < TWO_32
    ensures WellFormed(f) && f.m == m && f.k == k
  {
    if keys == [] then State(Zeros((m + 7) / 8), m, k, 0)
    else Added(hash, Built(hash, keys[..|keys| - 1], m, k), keys[|keys| - 1])
  }

  /** A new filter has no bit set. */
  lemma {:induction false} ZerosUnset(n: nat, l: nat)
    requires l / 8 < n
    ensures !GetBit(Zeros(n), l)
  {
    if l / 8 < n - 1 {
      ZerosUnset(n - 1, l);
    } else {
      ZeroBit(l % 8);
    }
  }

  /** A built filter has exactly the bits that some round of some key probes, and has counted every key. */
  lemma {:induction false} BuiltExact(hash: Hash, keys: seq<Bytes>, m: nat, k: nat, l: nat)
    requires 0 < m < TWO_64 && k < TWO_32 && l < m
    ensures var f := Built(hash, keys, m, k);
      && f.nAdded == |keys|
      && (GetBit(f.bits, l) <==> exists key, i | key in keys && 0 <= i < k :: l == Probe(hash, key, i, m))
  {
    hide Probe, GetBit;
    if keys == [] {
      ZerosUnset((m + 7) / 8, l);
    } else {
      var n := |keys| - 1;
      var f := Built(hash, keys[..n], m, k);
      BuiltExact(hash, keys[..n], m, k, l);
      AddRoundsGets(hash, f.bits, m, keys[n], k, l);
      assert forall key :: key in keys <==> key in keys[..n] || key == keys[n];
    }
  }

  /** The 64-bit word of round i: the first hash, then the second added once a round. */
  function Word(hash: Hash, key: Bytes, i: nat): nat {
    if i == 0 then hash(key).0 else (Word(hash, key, i - 1) + hash(key).1) % TWO_64
  }

  /** Double hashing: each round probes the word's remainder. */
  lemma {:induction false} ProbeIsWord(hash: Hash, key: Bytes, i: nat, m: nat)
    requires m > 0
    ensures Probe(hash, key, i, m) == Word(hash, key, i) % m
  {
    WordIs(hash, key, i);
  }

  lemma {:induction false} WordIs(hash: Hash, key: Bytes, i: nat)
    ensures Word(hash, key, i) == (hash(key).0 + i * hash(key).1) % TWO_64
  {
    if i > 0 {
      WordIs(hash, key, i - 1);
      var h := hash(key).1;
      assert (i - 1) * h + h == i * h;
      AddModulo(hash(key).0 + (i - 1) * h, h);
    }
  }

  lemma {:induction false} AddModulo(x: nat, h: nat)
    ensures (x % TWO_64 + h) % TWO_64 == (x + h) % TWO_64
  {
    var y := x % TWO_64 + h;
    DivisionIs(x + h, x / TWO_64 + y / TWO_64, y % TWO_64, TWO_64);
  }

  /** No false negatives. */
  lemma {:induction false} BuiltAdmits(hash: Hash, keys: seq<Bytes>, m: nat, k: nat, key: Bytes)
    requires m < TWO_64 && k < TWO_32 && key in keys
    ensures MayContain(hash, Built(hash, keys, m, k), key)
  {
    var n := |keys| - 1;
    var f := Built(hash, keys[..n], m, k);
    AddedAdmits(hash, f, keys[n]);
    if key != keys[n] {
      assert key in keys[..n];
      BuiltAdmits(hash, keys[..n], m, k, key);
      BelowMayContain(hash, f, Built(hash, keys, m, k), key);
    }
  }

  /** Two filters of one shape together: bytes or-ed, counts added. */
  function Union(a: State, b: State): (r: State)
    requires WellFormed(a) && WellFormed(b) && a.m == b.m && a.k == b.k
    ensures WellFormed(r)
  {
    State(seq(|a.bits|, i requires 0 <= i < |a.bits| => OrByte(a.bits[i], b.bits[i])), a.m, a.k, a.nAdded + b.nAdded)
  }

  /** Its bits are exactly those of either filter, and it admits whatever either admits. */
  lemma {:induction false} UnionAdmits(hash: Hash, a: State, b: State, key: Bytes)
    requires WellFormed(a) && WellFormed(b) && a.m == b.m && a.k == b.k
    ensures forall i | 0 <= i < a.m :: GetBit(Union(a, b).bits, i) <==> GetBit(a.bits, i) || GetBit(b.bits, i)
    ensures MayContain(hash, a, key) || MayContain(hash, b, key) ==> MayContain(hash, Union(a, b), key)
  {
    var r := Union(a, b);
    forall i | 0 <= i < a.m ensures GetBit(r.bits, i) <==> GetBit(a.bits, i) || GetBit(b.bits, i) {
      OrBit(a.bits[i / 8], b.bits[i / 8], 8, i % 8);
    }
    if MayContain(hash, a, key) {
      BelowMayContain(hash, a, r, key);
    }
    if MayContain(hash, b, key) {
      BelowMayContain(hash, b, r, key);
    }
  }

  // ---------- Serialization ----------

  function Marshal(f: State): Bytes {
    LE(MAGIC, 4) + ([VERSION] + (LE(f.m, 8) + (LE(f.k, 4) + (LE(f.nAdded, 8) + f.bits))))
  }

  function Unmarshal(data: Bytes): (r: Option<State>)
    ensures r.Some? ==> WellFormed(r.value)
  {
    if |data| < 25 || FromLE(data[..4]) != MAGIC || data[4] != VERSION then None
    else
      Widths();
      FromLEBound(data[5..13]);
      FromLEBound(data[13..17]);
      var m, k, n := FromLE(data[5..13]), FromLE(data[13..17]), FromLE(data[17..25]);
      if |data| < 25 + (m + 7) / 8 then None
      else Some(State(data[25..25 + (m + 7) / 8], m, k, n))
  }

  lemma {:induction false} MarshalRoundTrip(f: State)
    requires WellFormed(f) && f.nAdded < TWO_64
    ensures Unmarshal(Marshal(f)) == Some(f)
  {
    Widths();
    LERoundTrip(MAGIC, 4);
    LERoundTrip(f.m, 8);
    LERoundTrip(f.k, 4);
    LERoundTrip(f.nAdded, 8);
    hide LE, FromLE;
    Fields(LE(MAGIC, 4), [VERSION], LE(f.m, 8), LE(f.k, 4), LE(f.nAdded, 8), f.bits);
  }

  lemma {:induction false} Fields(g: Bytes, v: Bytes, m: Bytes, k: Bytes, n: Bytes, bits: Bytes)
    requires |g| == |k| == 4 && |v| == 1 && |m| == |n| == 8
    ensures var d := g + (v + (m + (k + (n + bits))));
      && d[..4] == g && d[4] == v[0] && d[5..13] == m && d[13..17] == k && d[17..25] == n
      && d[25..25 + |bits|] == bits
  {
  }

  // ---------- The filter object ----------

  class Filter {
    const hash: Hash
    const m: nat
    const k: nat
    const bits: array<byte>
    var nAdded: nat

    ghost predicate Valid()
      reads this, bits
    {
      bits.Length == (m + 7) / 8 && m < TWO_64 && k < TWO_32
    }

    function Contents(): (f: State)
      requires Valid()
      reads this, bits
      ensures WellFormed(f)
    {
      State(bits[..], m, k, nAdded)
    }

    constructor (hash: Hash, m: nat, k: nat)
      requires m < TWO_64 && k < TWO_32
      ensures Valid() && fresh(bits) && Contents() == State(Zeros((m + 7) / 8), m, k, 0) && this.hash == hash
    {
      this.hash, this.m, this.k, nAdded := hash, m, k, 0;
      bits := new byte[(m + 7) / 8](i => 0);
      new;
      ZerosAre((m + 7) / 8);
      assert bits[..] == Zeros((m + 7) / 8);
    }

    method SetBit(i: nat)
      requires Valid() && i < m
      modifies bits
      ensures bits[..] == WithBit(old(bits[..]), i)
    {
      ByteBit(i % 8);
      bits[i / 8] := OrByte(bits[i / 8], Pow2(i % 8));
    }

    method Add(key: Bytes)
      requires Valid()
      modifies this, bits
      ensures Valid() && Contents() == Added(hash, old(Contents()), key)
    {
      hide WithBit, OrByte;
      if m == 0 {
        return;
      }
      var (h1, h2) := hash(key);
      var i := 0;
      while i < k
        invariant i <= k && nAdded == old(nAdded)
        invariant bits[..] == AddRounds(hash, old(bits[..]), m, key, i)
      {
        var idx := (h1 + i * h2) % TWO_64 % m;
        SetBit(idx);
        i := i + 1;
      }
      nAdded := nAdded + 1;
    }

    method Contains(key: Bytes) returns (r: bool)
      requires Valid()
      ensures r == MayContain(hash, Contents(), key)
    {
      if m == 0 {
        return true;
      }
      var (h1, h2) := hash(key);
      var i := 0;
      while i < k
        invariant i <= k
        invariant forall j | 0 <= j < i :: GetBit(bits[..], Probe(hash, key, j, m))
      {
        var idx := (h1 + i * h2) % TWO_64 % m;
        assert idx == Probe(hash, key, i, m);
        if !Bit(bits[idx / 8], idx % 8) {
          return false;
        }
        i := i + 1;
      }
      return true;
    }

    /** Takes over the bits of a filter of the same shape, which may be this one: the union bit by bit, and the sum of
        the counts. */
    method Merge(other: Filter) returns (ok: bool)
      requires Valid() && other.Valid()
      modifies this, bits
      ensures Valid() && ok == (m == other.m && k == other.k)
      ensures Contents() == if ok then Union(old(Contents()), old(other.Contents())) else old(Contents())
    {
      if m != other.m || k != other.k || bits.Length != other.bits.Length {
        return false;
      }
      var i := 0;
      while i < bits.Length
        modifies bits
        invariant i <= bits.Length
        invariant forall j | i <= j < bits.Length :: bits[j] == old(bits[j]) && other.bits[j] == old(other.bits[j])
        invariant forall j | 0 <= j < i :: bits[j] == OrByte(old(bits[j]), old(other.bits[j]))
      {
        bits[i] := OrByte(bits[i], other.bits[i]);
        i := i + 1;
      }
      nAdded := nAdded + other.nAdded;
      return true;
    }
  }

  lemma {:induction false} ZerosAre(n: nat)
    ensures forall i | 0 <= i < n :: Zeros(n)[i] == 0
  {
    if n > 0 {
      ZerosAre(n - 1);
    }
  }

  method Build(hash: Hash, keys: seq<Bytes>, m: nat, k: nat) returns (f: Filter)
    requires m < TWO_64 && k < TWO_32
    ensures f.Valid() && f.hash == hash && fresh(f) && fresh(f.bits)
    ensures f.Contents() == Built(hash, keys, m, k)
    ensures forall key | key in keys :: MayContain(hash, f.Contents(), key)
  {
    f := new Filter(hash, m, k);
    for i := 0 to |keys|
      invariant f.Valid() && fresh(f) && fresh(f.bits) && f.hash == hash && f.m == m && f.k == k
      invariant f.Contents() == Built(hash, keys[..i], m, k)
    {
      assert keys[..i + 1][..i] == keys[..i];
      f.Add(keys[i]);
    }
    assert keys[..|keys|] == keys;
    forall key | key in keys ensures MayContain(hash, f.Contents(), key) {
      BuiltAdmits(hash, keys, m, k, key);
    }
  }
}
