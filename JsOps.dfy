/** The JavaScript number operations the client relies on, written out over
    unbounded integers: ToInt32, the bitwise operators and string code units. */
module JsOps {
  import opened Octets

  const TWO31: int := 0x8000_0000
  const TWO32: int := 0x1_0000_0000

  /** ECMAScript ToInt32 of an integral number: the value congruent to `x`
      modulo 2^32 in [-2^31, 2^31). */
  function ToInt32(x: int): (r: int)
    ensures -TWO31 <= r < TWO31
    ensures -TWO31 <= x < TWO31 ==> r == x
  {
    (x + TWO31) % TWO32 - TWO31
  }

  /** `x & 255` */
  function And255(x: int): byte
  {
    ToInt32(x) % 256
  }

  /** `x >> 8`: an arithmetic shift of the 32-bit value (floor division). */
  function Shr8(x: int): int
  {
    ToInt32(x) / 256
  }

  /** `x >> 16` */
  function Shr16(x: int): int
  {
    ToInt32(x) / 65536
  }

  function Pow2(k: nat): (r: nat)
    ensures r >= 1
  {
    if k == 0 then 1 else 2 * Pow2(k - 1)
  }

  /** `x << k` for a shift count below 32. */
  function Shl(x: int, k: nat): int
    requires k < 32
  {
    ToInt32(ToInt32(x) * Pow2(k))
  }

  /** `x >> 8` applied `k` times. */
  function Shifted(x: int, k: nat): int
    decreases k
  {
    if k == 0 then x else Shifted(Shr8(x), k - 1)
  }

  /** The `n` values `x & 255`, `(x >>= 8) & 255`, ... that the packet writer
      emits for a number, least significant first. */
  function ShiftBytes(x: int, n: nat): (r: Bytes)
    ensures |r| == n
    decreases n
  {
    if n == 0 then [] else [And255(x)] + ShiftBytes(Shr8(x), n - 1)
  }

  /** ToInt32 changes a number by a multiple of 2^32. */
  lemma ToInt32Congruent(x: int)
    ensures exists j :: x == ToInt32(x) + TWO32 * j
  {
    var j := (x + TWO31) / TWO32;
    assert x + TWO31 == TWO32 * j + (x + TWO31) % TWO32;
    assert x == ToInt32(x) + TWO32 * j;
  }

  lemma And255IsMod(x: int)
    ensures And255(x) == x % 256
  {
    ToInt32Congruent(x);
    var j :| x == ToInt32(x) + TWO32 * j;
    var t := ToInt32(x);
    assert x == 256 * (t / 256 + 16777216 * j) + t % 256;
    DivModUnique(x, 256, t / 256 + 16777216 * j, t % 256);
  }

  lemma ShiftedSucc(x: int, k: nat)
    ensures Shifted(x, k + 1) == Shr8(Shifted(x, k))
    decreases k
  {
    if k > 0 {
      ShiftedSucc(Shr8(x), k - 1);
    }
  }

  /** One more written byte extends the earlier ones. */
  lemma ShiftBytesSnoc(x: int, k: nat)
    ensures ShiftBytes(x, k + 1) == ShiftBytes(x, k) + [And255(Shifted(x, k))]
    decreases k
  {
    if k > 0 {
      ShiftBytesSnoc(Shr8(x), k - 1);
    }
  }

  /** The bytes a JavaScript shift loop emits are the little-endian bytes of
      the 32-bit value, sign-extended beyond the fourth. */
  lemma {:induction false} ShiftBytesValue(x: int, n: nat)
    ensures LE(ShiftBytes(x, n)) == ToInt32(x) % Pow256(n)
    decreases n
  {
    if n > 0 {
      var t := ToInt32(x);
      ShiftBytesValue(Shr8(x), n - 1);
      assert ToInt32(Shr8(x)) == t / 256;
      And255IsMod(x);
      assert And255(x) == t % 256;
      assert ShiftBytes(x, n)[1..] == ShiftBytes(Shr8(x), n - 1);
      ModPeel(t, n - 1);
    }
  }

  /** Within four bytes the 32-bit conversion loses nothing. */
  lemma Int32LowBytes(x: int, n: nat)
    requires n <= 4
    ensures ToInt32(x) % Pow256(n) == x % Pow256(n)
  {
    ToInt32Congruent(x);
    var j :| x == ToInt32(x) + TWO32 * j;
    var p := Pow256(n);
    var k := Pow256(4 - n) * j;
    assert TWO32 * j == p * k by {
      Pow256Split(n);
    }
    ModShift(ToInt32(x), p, k);
  }

  lemma Pow256Split(n: nat)
    requires n <= 4
    ensures Pow256(n) * Pow256(4 - n) == TWO32
  {
    assert Pow256(1) == 256 && Pow256(2) == 65536 && Pow256(3) == 16777216;
  }

  /** Adding a multiple of `p` does not change a remainder modulo `p`. */
  lemma ModShift(t: int, p: int, k: int)
    requires p > 0
    ensures (t + p * k) % p == t % p
  {
    assert t == p * (t / p) + t % p;
    assert t + p * k == p * (t / p + k) + t % p;
    DivModUnique(t + p * k, p, t / p + k, t % p);
  }

  /** Up to four bytes, the writer's bytes are exactly `x` modulo 256^n. */
  lemma ShiftBytesLE(x: int, n: nat)
    requires n <= 4
    ensures LE(ShiftBytes(x, n)) == x % Pow256(n)
    ensures ShiftBytes(x, n) == ToLE(x, n)
  {
    ShiftBytesValue(x, n);
    Int32LowBytes(x, n);
    LEOfToLE(x, n);
    LEInjective(ShiftBytes(x, n), ToLE(x, n));
  }

  /** A UTF-16 code unit, the element of a JavaScript string. */
  type CodeUnit = x: int | 0 <= x < 0x1_0000

  type JsString = seq<CodeUnit>

  /** What storing each number of an integer array into a byte buffer keeps
      (`new Buffer(array)`): the number modulo 256. */
  function ToUint8(cells: seq<int>): (r: Bytes)
    ensures |r| == |cells|
  {
    seq(|cells|, i requires 0 <= i < |cells| => cells[i] % 256)
  }

  /** `str.charCodeAt(i) & 255` for each position, as the packet writer emits
      them; a code unit is never negative, so `& 255` keeps it modulo 256. */
  function LowBytes(s: JsString): (r: Bytes)
    ensures |r| == |s|
  {
    ToUint8(s)
  }

  /** A 'binary' string: one code unit per byte. */
  function BinaryString(b: Bytes): (r: JsString)
    ensures |r| == |b|
  {
    seq(|b|, i requires 0 <= i < |b| => b[i])
  }

  lemma LowBytesOfBinary(b: Bytes)
    ensures LowBytes(BinaryString(b)) == b
  {
  }

  /** `x ^ y` on non-negative operands: bitwise exclusive or. */
  function BitXor(x: nat, y: nat): nat
    decreases x + y
  {
    if x == 0 && y == 0 then 0 else 2 * BitXor(x / 2, y / 2) + (x + y) % 2
  }

  lemma {:induction false} BitXorBelow(x: nat, y: nat, k: nat)
    requires x < Pow2(k) && y < Pow2(k)
    ensures BitXor(x, y) < Pow2(k)
    decreases k
  {
    if k > 0 && !(x == 0 && y == 0) {
      BitXorBelow(x / 2, y / 2, k - 1);
    }
  }

  lemma {:induction false} BitXorZero(y: nat)
    ensures BitXor(0, y) == y
    decreases y
  {
    if y != 0 {
      BitXorZero(y / 2);
    }
  }

  /** Exclusive or with the same operand twice gives the other one back. */
  lemma {:induction false} BitXorCancels(x: nat, y: nat)
    ensures BitXor(BitXor(x, y), x) == y
    decreases x + y
  {
    if !(x == 0 && y == 0) {
      var z := BitXor(x, y);
      BitXorCancels(x / 2, y / 2);
      if x == 0 {
        BitXorZero(y);
        BitXorZero(y / 2);
      } else {
        assert z / 2 == BitXor(x / 2, y / 2) && z % 2 == (x + y) % 2;
        assert (z + x) % 2 == y % 2;
      }
    }
  }
}
