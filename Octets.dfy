/** Bytes, little-endian integers and the failure-compatible results that the
    packet readers return. */
module Octets {

  /** One octet of a wire buffer. */
  type byte = x: int | 0 <= x < 256

  type Bytes = seq<byte>

  datatype Option<+T> = None | Some(value: T)

  /** Why reading a packet failed. */
  datatype ParseError =
    | OutOfRange(at: int, want: int)   // a read of `want` bytes at `at` runs past the payload
    | BadLcb(at: int)                  // the marker 0xFF where a length-coded number was expected
    | UnknownPacket(fieldCount: nat)   // "Got an unknown packet!"

  datatype Result<+T> = Ok(value: T) | Fail(error: ParseError) {
    predicate IsFailure() { Fail? }

    function PropagateFailure<U>(): Result<U>
      requires Fail?
    {
      Fail(error)
    }

    function Extract(): T
      requires Ok?
    {
      value
    }
  }

  function Pow256(n: nat): (r: nat)
    ensures r >= 1
  {
    if n == 0 then 1 else 256 * Pow256(n - 1)
  }

  /** The unsigned little-endian value of `s`. */
  function LE(s: Bytes): nat
  {
    if |s| == 0 then 0 else s[0] + 256 * LE(s[1..])
  }

  /** The `n` low-order bytes of `v`, least significant first. */
  function ToLE(v: int, n: nat): (r: Bytes)
    ensures |r| == n
    decreases n
  {
    if n == 0 then [] else [v % 256] + ToLE(v / 256, n - 1)
  }

  function Zeros(n: nat): (r: Bytes)
    ensures |r| == n
    ensures forall i :: 0 <= i < n ==> r[i] == 0
  {
    if n == 0 then [] else [0] + Zeros(n - 1)
  }

  /** Division by `d` is determined by any quotient/remainder pair. */
  lemma DivModUnique(v: int, d: int, q: int, r: int)
    requires d > 0 && 0 <= r < d && v == d * q + r
    ensures v / d == q && v % d == r
  {
    var q', r' := v / d, v % d;
    var k := q - q';
    assert d * k == r' - r by {
      assert d * q == d * q' + d * k;
    }
    if k >= 1 {
      MulAtLeast(d, k);
    } else if k <= -1 {
      assert d * (-k) == -(d * k);
      MulAtLeast(d, -k);
    }
  }

  lemma MulAtLeast(d: int, k: int)
    requires d > 0 && k >= 1
    ensures d * k >= d
  {
    assert d * k == d * (k - 1) + d;
    assert d * (k - 1) >= 0;
  }

  /** Peeling off the low byte: v % 256^(n+1) = v % 256 + 256 * ((v / 256) % 256^n). */
  lemma ModPeel(v: int, n: nat)
    ensures v % Pow256(n + 1) == v % 256 + 256 * ((v / 256) % Pow256(n))
  {
    var m := Pow256(n);
    var q0, r0 := v / 256, v % 256;
    var q1, r1 := q0 / m, q0 % m;
    assert v == 256 * q0 + r0;
    assert q0 == m * q1 + r1;
    assert v == (256 * m) * q1 + (256 * r1 + r0) by {
      assert 256 * q0 == 256 * (m * q1) + 256 * r1;
      assert 256 * (m * q1) == (256 * m) * q1;
    }
    assert 0 <= 256 * r1 + r0 < 256 * m by {
      assert r1 <= m - 1;
      assert 256 * r1 <= 256 * (m - 1);
    }
    DivModUnique(v, 256 * m, q1, 256 * r1 + r0);
  }

  /** `a` is a prefix of `b`. An encoding built by appending pieces has every
      partial concatenation as a prefix, and a read that stays inside a
      prefix sees only that prefix. */
  predicate Prefix(a: Bytes, b: Bytes)
  {
    |a| <= |b| && b[..|a|] == a
  }

  /** Dropping the last piece of a prefix leaves a prefix. */
  lemma PrefixStep(a: Bytes, y: Bytes, b: Bytes)
    requires Prefix(a + y, b)
    ensures Prefix(a, b)
  {
    assert b[..|a|] == b[..|a + y|][..|a|];
    assert (a + y)[..|a|] == a;
  }

  /** `y` sits in `b` from offset `at` on. */
  predicate StartsAt(b: Bytes, at: nat, y: Bytes)
  {
    at + |y| <= |b| && b[at..at + |y|] == y
  }

  /** Two pieces that sit together at `at` sit one after the other. */
  lemma SplitAt(b: Bytes, at: nat, y: Bytes, rest: Bytes)
    requires StartsAt(b, at, y + rest)
    ensures StartsAt(b, at, y) && StartsAt(b, at + |y|, rest)
  {
    assert b[at..at + |y|] == b[at..at + |y + rest|][..|y|];
    assert b[at + |y|..at + |y| + |rest|] == b[at..at + |y + rest|][|y|..];
  }

  /** The last piece of a prefix sits right after the pieces before it. */
  lemma PieceAt(a: Bytes, y: Bytes, b: Bytes)
    requires Prefix(a + y, b)
    ensures |a| + |y| <= |b| && b[|a|..|a| + |y|] == y
  {
    assert b[|a|..|a| + |y|] == b[..|a + y|][|a|..];
    assert (a + y)[|a|..] == y;
  }

  lemma {:induction false} LEBound(s: Bytes)
    ensures LE(s) < Pow256(|s|)
  {
    if |s| > 0 {
      LEBound(s[1..]);
      assert LE(s[1..]) <= Pow256(|s| - 1) - 1;
      assert 256 * LE(s[1..]) <= 256 * (Pow256(|s| - 1) - 1);
    }
  }

  /** Encoding then decoding keeps exactly the value modulo the width. */
  lemma {:induction false} LEOfToLE(v: int, n: nat)
    ensures LE(ToLE(v, n)) == v % Pow256(n)
    decreases n
  {
    if n > 0 {
      LEOfToLE(v / 256, n - 1);
      var s := ToLE(v, n);
      assert s[1..] == ToLE(v / 256, n - 1);
      ModPeel(v, n - 1);
    }
  }

  /** Decoding then re-encoding at the same width gives back the bytes. */
  lemma {:induction false} ToLEOfLE(s: Bytes)
    ensures ToLE(LE(s), |s|) == s
  {
    if |s| > 0 {
      var v := LE(s);
      DivModUnique(v, 256, LE(s[1..]), s[0]);
      ToLEOfLE(s[1..]);
    }
  }

  /** Two byte strings of one width with the same value are equal. */
  lemma LEInjective(a: Bytes, b: Bytes)
    requires |a| == |b| && LE(a) == LE(b)
    ensures a == b
  {
    ToLEOfLE(a);
    ToLEOfLE(b);
  }

  lemma {:induction false} LEAppend(a: Bytes, b: Bytes)
    ensures LE(a + b) == LE(a) + Pow256(|a|) * LE(b)
  {
    if |a| > 0 {
      assert (a + b)[1..] == a[1..] + b;
      assert (a + b)[0] == a[0];
      LEAppend(a[1..], b);
      var x, m, y := LE(a[1..]), Pow256(|a| - 1), LE(b);
      assert LE(a + b) == a[0] + 256 * (x + m * y);
      assert LE(a) == a[0] + 256 * x && Pow256(|a|) == 256 * m;
      ShiftDistributes(x, m, y);
    } else {
      assert a + b == b;
    }
  }

  lemma ShiftDistributes(x: int, m: int, y: int)
    ensures 256 * (x + m * y) == 256 * x + (256 * m) * y
  {
  }
}
