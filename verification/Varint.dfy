/** internal/varintx: base-128 varints of 64-bit numbers. */
module Varint {
  import opened Bytes

  const MAX_UINT64_LEN: nat := 10

  datatype Decoded = Ok(value: nat, n: nat) | Overflow | Truncated

  // ---------- Specification ----------

  /** The varint of `x`: seven bits a byte, low bits first, top bit set on all but the last. */
  function Encode(x: nat): (b: Bytes)
    ensures |b| > 0
  {
    if x < 128 then [x] else [x % 128 + 128] + Encode(x / 128)
  }

  /** The number that seven-bit groups stand for, whatever their top bits. */
  function Groups(b: Bytes): nat {
    if b == [] then 0 else b[0] % 128 + 128 * Groups(b[1..])
  }

  /** Index of the first byte without the continuation bit, |b| if there is none. */
  function Terminator(b: Bytes): (t: nat)
    ensures t <= |b|
    ensures forall i | 0 <= i < t :: b[i] >= 128
    ensures t < |b| ==> b[t] < 128
  {
    if b == [] || b[0] < 128 then 0 else 1 + Terminator(b[1..])
  }

  function Decode(b: Bytes): Decoded {
    var t := Terminator(b);
    if t < |b| && t < MAX_UINT64_LEN then
      if t == MAX_UINT64_LEN - 1 && b[t] > 1 then Overflow else Ok(Groups(b[..t + 1]), t + 1)
    else if |b| > MAX_UINT64_LEN then Overflow
    else Truncated
  }

  function Pow128(n: nat): (p: nat)
    ensures p > 0
  {
    if n == 0 then 1 else 128 * Pow128(n - 1)
  }

  lemma {:induction false} Pow128Nine()
    ensures Pow128(9) == 0x8000_0000_0000_0000 && Pow128(10) == 128 * Pow128(9)
  {
    assert Pow128(3) == 128 * Pow128(2) && Pow128(2) == 128 * Pow128(1);
    assert Pow128(6) == 128 * Pow128(5) && Pow128(5) == 128 * Pow128(4) && Pow128(4) == 128 * Pow128(3);
    assert Pow128(9) == 128 * Pow128(8) && Pow128(8) == 128 * Pow128(7) && Pow128(7) == 128 * Pow128(6);
  }

  // ---------- Properties ----------

  lemma {:induction false} GroupsBound(b: Bytes)
    ensures Groups(b) < Pow128(|b|)
  {
    if b != [] {
      GroupsBound(b[1..]);
    }
  }

  /** Groups split at any point. */
  lemma {:induction false} GroupsSnoc(b: Bytes, c: byte)
    ensures Groups(b + [c]) == Groups(b) + (c % 128) * Pow128(|b|)
  {
    if b == [] {
      assert [c][1..] == [];
      assert Groups([c]) == c % 128;
    } else {
      assert (b + [c])[1..] == b[1..] + [c];
      GroupsSnoc(b[1..], c);
    }
  }

  lemma {:induction false} EncodeGroups(x: nat)
    ensures Groups(Encode(x)) == x
    ensures (|Encode(x)| == 1 && x < 128) || (|Encode(x)| > 1 && Pow128(|Encode(x)| - 1) <= x)
  {
    if x < 128 {
      assert Encode(x)[1..] == [];
    } else {
      EncodeGroups(x / 128);
      assert Encode(x)[1..] == Encode(x / 128);
    }
  }

  lemma {:induction false} EncodeEnds(x: nat, rest: Bytes)
    ensures Terminator(Encode(x) + rest) == |Encode(x)| - 1
  {
    var b := Encode(x);
    if x >= 128 {
      EncodeEnds(x / 128, rest);
      assert (b + rest)[1..] == Encode(x / 128) + rest;
    }
  }

  /** Ten groups stand for a 64-bit number only if the last one is 0 or 1. */
  lemma {:induction false} TenGroups(b: Bytes)
    requires |b| == 10
    ensures Groups(b) < TWO_64 <==> b[9] % 128 <= 1
  {
    var h: nat, c: nat := Groups(b[..9]), b[9] % 128;
    assert b == b[..9] + [b[9]];
    GroupsSnoc(b[..9], b[9]);
    GroupsBound(b[..9]);
    Pow128Nine();
    assert Groups(b) == h + c * 0x8000_0000_0000_0000;
  }

  lemma {:induction false} EncodeLength(x: nat)
    requires x < TWO_64
    ensures |Encode(x)| <= MAX_UINT64_LEN
  {
    EncodeGroups(x);
    Pow128Nine();
    if |Encode(x)| > MAX_UINT64_LEN {
      Pow128Grows(10, |Encode(x)| - 1);
    }
  }

  /** Decoding the encoding of any 64-bit number, whatever bytes follow, gives the number back and
      consumes exactly its encoding, which is at most ten bytes long. */
  lemma {:induction false} RoundTrip(x: nat, rest: Bytes)
    requires x < TWO_64
    ensures Decode(Encode(x) + rest) == Ok(x, |Encode(x)|)
    ensures |Encode(x)| <= MAX_UINT64_LEN
  {
    var b := Encode(x);
    EncodeGroups(x);
    EncodeEnds(x, rest);
    EncodeLength(x);
    assert (b + rest)[..|b|] == b;
    if |b| == 10 {
      TenGroups(b);
    }
  }

  lemma {:induction false} Pow128Grows(m: nat, n: nat)
    requires m <= n
    ensures Pow128(m) <= Pow128(n)
  {
    if m < n {
      Pow128Grows(m, n - 1);
    }
  }

  /** A decode that succeeds gives a 64-bit number and stays inside the buffer. */
  lemma {:induction false} DecodeFits(b: Bytes)
    requires Decode(b).Ok?
    ensures Decode(b).value < TWO_64
    ensures 0 < Decode(b).n <= |b| && Decode(b).n <= MAX_UINT64_LEN
  {
    var t := Terminator(b);
    Pow128Nine();
    if t == 9 {
      TenGroups(b[..10]);
    } else {
      GroupsBound(b[..t + 1]);
      Pow128Grows(t + 1, 9);
    }
  }

  /** A number and what follows it. */
  function Num(b: Bytes): (r: Option<(nat, Bytes)>)
    ensures r.Some? ==> |r.value.1| < |b|
  {
    var d := Decode(b);
    if d.Ok? then Some((d.value, b[d.n..])) else None
  }

  lemma {:induction false} NumOf(x: nat, rest: Bytes)
    requires x < TWO_64
    ensures Num(Encode(x) + rest) == Some((x, rest))
  {
    RoundTrip(x, rest);
  }

  /** x | c << 7 * i on 64 bits: a sum, because the bits of x from 7 * i on are clear. */
  function ShiftIn(x: nat, c: nat, i: nat): nat {
    (x + c * Pow128(i)) % TWO_64
  }

  lemma {:induction false} ShiftInGroup(b: Bytes, i: nat, c: nat)
    requires i < |b| && c == b[i] % 128 && Groups(b[..i + 1]) < TWO_64
    ensures ShiftIn(Groups(b[..i]), c, i) == Groups(b[..i + 1])
  {
    assert b[..i + 1] == b[..i] + [b[i]];
    GroupsSnoc(b[..i], b[i]);
  }

  /** What a decoding loop returns at the first byte without the continuation bit. */
  lemma {:induction false} StopAt(b: Bytes, i: nat)
    requires i < |b| && i < MAX_UINT64_LEN
    requires (forall j | 0 <= j < i :: b[j] >= 128) && b[i] < 128
    ensures Terminator(b) == i
    ensures i == 9 && b[i] > 1 ==> Decode(b) == Overflow
    ensures !(i == 9 && b[i] > 1) ==> Decode(b) == Ok(ShiftIn(Groups(b[..i]), b[i], i), i + 1)
  {
    assert Terminator(b) == i;
    if !(i == 9 && b[i] > 1) {
      DecodeFits(b);
      ShiftInGroup(b, i, b[i]);
    }
  }

  /** What it accumulates at a byte with the continuation bit. */
  lemma {:induction false} ContinueAt(b: Bytes, i: nat)
    requires i < |b| && i + 1 < MAX_UINT64_LEN
    ensures ShiftIn(Groups(b[..i]), b[i] % 128, i) == Groups(b[..i + 1])
  {
    GroupsBound(b[..i + 1]);
    Pow128Nine();
    Pow128Grows(i + 1, 9);
    ShiftInGroup(b, i, b[i] % 128);
  }

  // ---------- The format, byte by byte ----------

  /** Byte i of an encoding carries digit i of x in base 128, lowest first, with the top bit set but on the last; there
      are as many as x has digits. */
  lemma {:induction false} EncodeAt(x: nat, i: nat)
    requires i < |Encode(x)|
    ensures Encode(x)[i] == x / Pow128(i) % 128 + if i < |Encode(x)| - 1 then 128 else 0
    ensures x < Pow128(|Encode(x)|) && (|Encode(x)| == 1 || Pow128(|Encode(x)| - 1) <= x)
  {
    EncodeGroups(x);
    GroupsBound(Encode(x));
    if i > 0 {
      EncodeAt(x / 128, i - 1);
      DivTwice(x, 128, Pow128(i - 1));
    } else {
      assert x / 1 == x;
    }
  }

  /** Seven-bit group i is digit i in base 128. */
  lemma {:induction false} GroupsAt(b: Bytes, i: nat)
    requires i < |b|
    ensures Groups(b) / Pow128(i) % 128 == b[i] % 128
  {
    var rest, c := Groups(b[1..]), b[0] % 128;
    assert Groups(b) == 128 * rest + c;
    if i > 0 {
      GroupsAt(b[1..], i - 1);
      DivTwice(Groups(b), 128, Pow128(i - 1));
      assert Groups(b) / 128 == rest;
    } else {
      assert Groups(b) / 1 == Groups(b);
    }
  }

  /** The first n bytes have the continuation bit. */
  predicate Continues(b: Bytes, n: nat)
    requires n <= |b|
  {
    forall i | 0 <= i < n :: b[i] >= 128
  }

  /** What decoding answers on any bytes: up to ten bytes without an end are truncated; a tenth byte over 1, or an
      eleventh, overflows; else it is the number up to the first byte without the continuation bit. */
  lemma {:induction false} DecodeExact(b: Bytes)
    ensures Decode(b) == Truncated <==> |b| <= 10 && Continues(b, |b|)
    ensures Decode(b) == Overflow <==>
      |b| >= 10 && Continues(b, 9) && b[9] > 1 && (b[9] < 128 || |b| > 10)
    ensures Decode(b).Ok? ==>
      var n := Decode(b).n;
      1 <= n <= |b| && n <= 10 && Continues(b, n - 1) && b[n - 1] < 128 && Decode(b).value == Groups(b[..n])
  {
    var t := Terminator(b);
    assert t < |b| ==> b[t] < 128;
  }

  // ---------- The loops ----------

  method SizeUint64(x: nat) returns (n: nat)
    requires x < TWO_64
    ensures n == |Encode(x)|
  {
    n := 0;
    var y := x;
    while true
      invariant n + |Encode(y)| == |Encode(x)|
      decreases y
    {
      n := n + 1;
      y := y / 128;
      if y == 0 {
        break;
      }
    }
  }

  method EncodeUint64(dst: Bytes, x: nat) returns (r: Bytes)
    requires x < TWO_64
    ensures r == dst + Encode(x)
  {
    r := dst;
    var y := x;
    while y >= 0x80
      invariant r + Encode(y) == dst + Encode(x)
    {
      r := r + [y % 128 + 0x80];
      y := y / 128;
    }
    r := r + [y];
  }

  /** Writes into a caller's buffer; a buffer that is too short is left alone. */
  method PutUint64(b: array<byte>, x: nat) returns (r: Option<nat>)
    requires x < TWO_64
    modifies b
    ensures r.None? <==> b.Length < |Encode(x)|
    ensures r.None? ==> b[..] == old(b[..])
    ensures r.Some? ==> r.value == |Encode(x)| && b[..] == Encode(x) + old(b[..])[r.value..]
  {
    hide Encode;
    var need := SizeUint64(x);
    if b.Length < need {
      return None;
    }
    var i, y := 0, x;
    while y >= 0x80
      invariant 0 <= i && i + |Encode(y)| == need
      invariant b[..i] + Encode(y) == Encode(x)
      invariant b[i..] == old(b[..])[i..]
    {
      EncodeStep(y);
      ghost var prefix, suffix := b[..i], b[i + 1..];
      PutStep(prefix, y, old(b[..]), i);
      b[i] := y % 128 + 0x80;
      assert b[..i + 1] == prefix + [y % 128 + 0x80] && b[i + 1..] == suffix;
      y := y / 128;
      i := i + 1;
    }
    EncodeStep(y);
    ghost var prefix, suffix := b[..i], b[i + 1..];
    PutStep(prefix, y, old(b[..]), i);
    b[i] := y;
    assert b[..] == prefix + [y] + suffix;
    return Some(i + 1);
  }

  lemma {:induction false} EncodeStep(y: nat)
    ensures |Encode(y)| == 1 + if y < 128 then 0 else |Encode(y / 128)|
  {
  }

  /** One byte of the encoding, and what is left of the buffer behind it. */
  lemma {:induction false} PutStep(prefix: Bytes, y: nat, was: Bytes, i: nat)
    requires i < |was|
    ensures was[i..][1..] == was[i + 1..]
    ensures prefix + Encode(y) == if y < 128 then prefix + [y] else prefix + [y % 128 + 0x80] + Encode(y / 128)
  {
  }

  method DecodeUint64(b: Bytes) returns (r: Decoded)
    ensures r == Decode(b)
  {
    var x: nat, i := 0, 0;
    while i < |b|
      invariant i <= |b| && i <= MAX_UINT64_LEN
      invariant forall j | 0 <= j < i :: b[j] >= 128
      invariant i < MAX_UINT64_LEN ==> x == Groups(b[..i])
    {
      if i == MAX_UINT64_LEN {
        return Overflow;
      }
      var c: nat := b[i];
      if c < 0x80 {
        StopAt(b, i);
        if i == MAX_UINT64_LEN - 1 && c > 1 {
          return Overflow;
        }
        return Ok(ShiftIn(x, c, i), i + 1);
      }
      if i + 1 < MAX_UINT64_LEN { ContinueAt(b, i); }
      x := ShiftIn(x, c % 128, i);
      i := i + 1;
    }
    return Truncated;
  }

  /** varintx.Reader over an io.ByteReader holding `data`. */
  class Reader {
    const data: Bytes
    var pos: nat

    ghost predicate Valid()
      reads this
    {
      pos <= |data|
    }

    constructor (data: Bytes)
      ensures Valid() && this.data == data && pos == 0
    {
      this.data, pos := data, 0;
    }

    /** Succeeds exactly when DecodeUint64 does on the unread bytes, with the same value and length.
        The errors differ: ten continuation bytes and nothing more are an overflow here and a
        truncation there. Otherwise bytes that end too early are a truncation. */
    method Uint64() returns (r: Decoded)
      requires Valid()
      modifies this
      ensures Valid()
      ensures r.Ok? <==> Decode(old(data[pos..])).Ok?
      ensures r.Ok? ==> r == Decode(old(data[pos..])) && pos == old(pos) + r.n
      ensures r.Truncated? <==> |old(data[pos..])| < 10 && Continues(old(data[pos..]), |old(data[pos..])|)
    {
      ghost var b := data[pos..];
      ghost var start := pos;
      var x: nat, i := 0, 0;
      while i < MAX_UINT64_LEN
        invariant i <= |b| && pos == start + i && pos <= |data|
        invariant i <= MAX_UINT64_LEN
        invariant forall j | 0 <= j < i :: b[j] >= 128
        invariant i < MAX_UINT64_LEN ==> x == Groups(b[..i])
      {
        if pos == |data| {
          return Truncated;
        }
        var c: nat := data[pos];
        pos := pos + 1;
        assert b[i] == c;
        if c < 0x80 {
          StopAt(b, i);
          if i == MAX_UINT64_LEN - 1 && c > 1 {
            return Overflow;
          }
          return Ok(ShiftIn(x, c, i), i + 1);
        }
        if i + 1 < MAX_UINT64_LEN { ContinueAt(b, i); }
        x := ShiftIn(x, c % 128, i);
        i := i + 1;
      }
      return Overflow;
    }
  }
}
