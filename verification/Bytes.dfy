/** Byte strings: the order keys are compared in, shared prefixes and
    little-endian fixed-width integers. */
module Bytes {
  type byte = x: int | 0 <= x < 256
  type Bytes = seq<byte>

  const TWO_16: nat := 0x1_0000
  const TWO_32: nat := 0x1_0000_0000
  const TWO_64: nat := 0x1_0000_0000_0000_0000

  datatype Option<+T> = None | Some(value: T)

  // ---------- Lexicographic order ----------

  /** bytes.Compare: negative, zero or positive. */
  function Compare(a: Bytes, b: Bytes): int {
    if a == [] then (if b == [] then 0 else -1)
    else if b == [] then 1
    else if a[0] < b[0] then -1
    else if a[0] > b[0] then 1
    else Compare(a[1..], b[1..])
  }

  predicate Less(a: Bytes, b: Bytes) {
    Compare(a, b) < 0
  }

  lemma {:induction false} CompareIsAntisymmetric(a: Bytes, b: Bytes)
    ensures Compare(a, b) == 0 <==> a == b
    ensures Compare(a, b) == -Compare(b, a)
  {
    if a != [] && b != [] && a[0] == b[0] {
      CompareIsAntisymmetric(a[1..], b[1..]);
      assert a == [a[0]] + a[1..] && b == [b[0]] + b[1..];
    }
  }

  lemma {:induction false} LessIsTransitive(a: Bytes, b: Bytes, c: Bytes)
    requires Less(a, b) && Less(b, c)
    ensures Less(a, c)
  {
    if a != [] && a[0] == b[0] == c[0] {
      LessIsTransitive(a[1..], b[1..], c[1..]);
    }
  }

  /** The order is a strict total order, in the form proofs instantiate. */
  lemma {:induction false} OrderIsTotal()
    ensures forall a: Bytes :: !Less(a, a)
    ensures forall a: Bytes, b: Bytes {:trigger Less(a, b)} :: a == b || Less(a, b) || Less(b, a)
    ensures forall a: Bytes, b: Bytes {:trigger Less(a, b)} :: Less(a, b) ==> a != b && !Less(b, a)
    ensures forall a: Bytes, b: Bytes, c: Bytes {:trigger Less(a, b), Less(b, c)} ::
      Less(a, b) && Less(b, c) ==> Less(a, c)
  {
    forall a: Bytes, b: Bytes
      ensures Compare(a, b) == 0 <==> a == b
      ensures Compare(a, b) == -Compare(b, a)
    {
      CompareIsAntisymmetric(a, b);
    }
    forall a: Bytes, b: Bytes, c: Bytes | Less(a, b) && Less(b, c) ensures Less(a, c) {
      LessIsTransitive(a, b, c);
    }
  }

  /** a and b are equal before n; there a ends and b does not, or a has the smaller byte. */
  predicate PrecedesAt(a: Bytes, b: Bytes, n: nat) {
    && n <= |a| && n <= |b| && a[..n] == b[..n]
    && (if n == |a| then n < |b| else n < |b| && a[n] < b[n])
  }

  /** The order of byte strings in a dictionary. */
  ghost predicate Precedes(a: Bytes, b: Bytes) {
    exists n: nat :: PrecedesAt(a, b, n)
  }

  /** The comparison is that order: smaller bytes first, a prefix before what it is a prefix of. */
  lemma {:induction false} LessExact(a: Bytes, b: Bytes)
    ensures Less(a, b) <==> Precedes(a, b)
  {
    if a == [] {
      assert b != [] ==> PrecedesAt(a, b, 0);
    } else if b != [] && a[0] != b[0] {
      assert a[0] < b[0] ==> PrecedesAt(a, b, 0);
      forall n: nat | PrecedesAt(a, b, n) ensures n == 0 {
        if n > 0 {
          SameFirst(a, b, n);
        }
      }
    } else if b != [] {
      LessExact(a[1..], b[1..]);
      if n: nat :| PrecedesAt(a, b, n) {
        assert n > 0;
        assert a[1..][..n - 1] == a[..n][1..] && b[1..][..n - 1] == b[..n][1..];
        assert PrecedesAt(a[1..], b[1..], n - 1);
      }
      if n: nat :| PrecedesAt(a[1..], b[1..], n) {
        assert a[..n + 1] == [a[0]] + a[1..][..n] && b[..n + 1] == [b[0]] + b[1..][..n];
        assert PrecedesAt(a, b, n + 1);
      }
    }
  }

  lemma {:induction false} SameFirst(a: Bytes, b: Bytes, n: nat)
    requires 0 < n <= |a| && n <= |b| && a[..n] == b[..n]
    ensures a[0] == b[0]
  {
    assert a[0] == a[..n][0] && b[0] == b[..n][0];
  }

  /** Length of the longest common prefix. */
  function SharedPrefixLen(a: Bytes, b: Bytes): (n: nat)
    ensures n <= |a| && n <= |b| && a[..n] == b[..n]
    ensures n < |a| && n < |b| ==> a[n] != b[n]
  {
    if a == [] || b == [] || a[0] != b[0] then 0
    else
      var n := SharedPrefixLen(a[1..], b[1..]);
      assert a[..n + 1] == [a[0]] + a[1..][..n] && b[..n + 1] == [b[0]] + b[1..][..n];
      n + 1
  }

  // ---------- Little-endian integers ----------

  function Pow256(w: nat): (p: nat)
    ensures p > 0
  {
    if w == 0 then 1 else 256 * Pow256(w - 1)
  }

  lemma {:induction false} Widths()
    ensures Pow256(2) == TWO_16 && Pow256(4) == TWO_32 && Pow256(8) == TWO_64
  {
    assert Pow256(4) == 256 * Pow256(3) && Pow256(3) == 256 * Pow256(2) && Pow256(2) == 256 * Pow256(1);
    assert Pow256(8) == 256 * Pow256(7) && Pow256(7) == 256 * Pow256(6) && Pow256(6) == 256 * Pow256(5)
        && Pow256(5) == 256 * Pow256(4);
  }

  /** The low `w` bytes of `x`: higher bytes are cut off, as Go's conversions do. */
  function LE(x: nat, w: nat): (b: Bytes)
    ensures |b| == w
  {
    if w == 0 then [] else [x % 256] + LE(x / 256, w - 1)
  }

  /** Byte i is digit i of x in base 256, counted from the lowest. */
  lemma {:induction false} LEAt(x: nat, w: nat, i: nat)
    requires i < w
    ensures LE(x, w)[i] == x / Pow256(i) % 256
  {
    if i > 0 {
      LEAt(x / 256, w - 1, i - 1);
      DivTwice(x, 256, Pow256(i - 1));
    }
  }

  lemma {:induction false} DivTwice(x: nat, a: nat, b: nat)
    requires a > 0 && b > 0
    ensures a * b > 0 && x / a / b == x / (a * b)
  {
    var y := x / a;
    var q, r, s := y / b, y % b, x % a;
    Carry(q, r, s, a, b);
    DivisionIs(x, q, r * a + s, a * b);
  }

  lemma {:induction false} Carry(q: nat, r: nat, s: nat, a: nat, b: nat)
    requires r < b && s < a
    ensures (q * b + r) * a + s == q * (a * b) + (r * a + s) && r * a + s < a * b
  {
    assert (q * b + r) * a == q * b * a + r * a;
    AtLeast(b - r, a);
    assert (b - r) * a == b * a - r * a;
  }

  /** Quotient and remainder are what fits. */
  lemma {:induction false} DivisionIs(x: nat, q: nat, r: nat, n: nat)
    requires r < n && x == q * n + r
    ensures x / n == q && x % n == r
  {
    var p, t := x / n, x % n;
    assert (q - p) * n == q * n - p * n && (p - q) * n == p * n - q * n;
    if q > p {
      AtLeast(q - p, n);
    } else if q < p {
      AtLeast(p - q, n);
    }
  }

  lemma {:induction false} AtLeast(d: nat, n: nat)
    requires d > 0
    ensures d * n >= n
  {
    if d > 1 {
      AtLeast(d - 1, n);
      assert d * n == (d - 1) * n + n;
    }
  }

  lemma {:induction false} NextModulo(a: nat, n: nat)
    requires n > 0
    ensures (a + 1) % n == if a % n == n - 1 then 0 else a % n + 1
  {
    var q, r := a / n, a % n;
    if r == n - 1 {
      assert a + 1 == (q + 1) * n + 0;
      DivisionIs(a + 1, q + 1, 0, n);
    } else {
      DivisionIs(a + 1, q, r + 1, n);
    }
  }

  function FromLE(b: Bytes): nat {
    if b == [] then 0 else b[0] + 256 * FromLE(b[1..])
  }

  lemma {:induction false} LERoundTrip(x: nat, w: nat)
    requires x < Pow256(w)
    ensures FromLE(LE(x, w)) == x
  {
    if w > 0 {
      assert x / 256 < Pow256(w - 1);
      LERoundTrip(x / 256, w - 1);
      assert LE(x, w)[1..] == LE(x / 256, w - 1);
    }
  }

  lemma {:induction false} FromLEBound(b: Bytes)
    ensures FromLE(b) < Pow256(|b|)
  {
    if b != [] {
      FromLEBound(b[1..]);
    }
  }
}
