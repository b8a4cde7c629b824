/** Bytes and the bit arithmetic the decoders perform with JavaScript's
    32-bit shift operators, restated on unbounded naturals. */
module Bits {

  type byte = x: int | 0 <= x < 256

  function Pow2(k: nat): (r: nat)
    ensures r >= 1
  {
    if k == 0 then 1 else 2 * Pow2(k - 1)
  }

  /** Bit `k` (weight 2^k) of `x` is set: `x & (1 << k)` is non-zero. */
  predicate Bit(x: nat, k: nat) {
    if k == 0 then x % 2 == 1 else Bit(x / 2, k - 1)
  }

  /** `x >> s` on a non-negative value: `s` halvings. */
  function ShiftRight(x: nat, s: nat): nat {
    if s == 0 then x else ShiftRight(x / 2, s - 1)
  }

  /** `y << s` on a non-negative value: `s` doublings. */
  function ShiftLeft(y: nat, s: nat): nat {
    if s == 0 then y else 2 * ShiftLeft(y, s - 1)
  }

  /** The shift amount JavaScript actually uses for `x >> n` and `x << n`:
      the count's low five bits (`ToUint32(n) & 31`). */
  function ShiftCount(n: int): (s: nat)
    ensures s < 32
    ensures 0 <= n < 32 ==> s == n
  {
    n % 32
  }

  /** `b >>= n; b <<= n;` on a byte: the low `n` bits are cleared and every
      other bit is kept. A count of 8..31 (after JavaScript's mod-32
      reduction) clears the whole byte; a count of 32 clears nothing. */
  function ClearLow(b: byte, n: int): (r: byte)
    ensures forall k :: 0 <= k < 8 ==> (Bit(r, k) <==> Bit(b, k) && k >= ShiftCount(n))
    ensures r <= b
  {
    var s := ShiftCount(n);
    ShiftPairBelow(b, s);
    var r := ShiftLeft(ShiftRight(b, s), s);
    forall k | 0 <= k < 8
      ensures Bit(r, k) <==> Bit(b, k) && k >= s
    {
      ShiftLeftBit(ShiftRight(b, s), s, k);
      if k >= s {
        ShiftRightBit(b, s, k - s);
      }
    }
    r
  }

  lemma {:induction false} ShiftPairBelow(x: nat, s: nat)
    ensures ShiftLeft(ShiftRight(x, s), s) <= x
  {
    if s > 0 {
      ShiftPairBelow(x / 2, s - 1);
      ShiftLeftRight(x, s);
    }
  }

  /** Peeling the last halving off `x >> s` and the last doubling off `<< s`. */
  lemma {:induction false} ShiftLeftRight(x: nat, s: nat)
    requires s > 0
    ensures ShiftLeft(ShiftRight(x, s), s) == 2 * ShiftLeft(ShiftRight(x / 2, s - 1), s - 1)
  {
    assert ShiftRight(x, s) == ShiftRight(x / 2, s - 1);
  }

  lemma {:induction false} ShiftRightBit(x: nat, s: nat, j: nat)
    ensures Bit(ShiftRight(x, s), j) <==> Bit(x, j + s)
  {
    if s > 0 {
      ShiftRightBit(x / 2, s - 1, j);
    }
  }

  lemma {:induction false} ShiftLeftBit(y: nat, s: nat, k: nat)
    ensures Bit(ShiftLeft(y, s), k) <==> k >= s && Bit(y, k - s)
  {
    if s > 0 {
      var z := ShiftLeft(y, s - 1);
      if k > 0 {
        assert (2 * z) / 2 == z;
        ShiftLeftBit(y, s - 1, k - 1);
      }
    }
  }

  /** Number of set bits: the digit sum of `x.toString(2)`. */
  function PopCount(x: nat): nat
    decreases x
  {
    if x == 0 then 0 else x % 2 + PopCount(x / 2)
  }

  /** A network mask with `k` leading one bits out of 32. */
  function PrefixMask(k: nat): nat
    requires k <= 32
  {
    (Pow2(k) - 1) * Pow2(32 - k)
  }

  /** The popcount of a contiguous network mask is its prefix length, so for
      the masks of section 3.1 of RFC 4632 the decoded width is the CIDR
      prefix. */
  lemma PrefixMaskPopCount(k: nat)
    requires k <= 32
    ensures PopCount(PrefixMask(k)) == k
  {
    ShiftedPopCount(Pow2(k) - 1, 32 - k);
    OnesPopCount(k);
  }

  lemma {:induction false} ShiftedPopCount(x: nat, m: nat)
    ensures PopCount(x * Pow2(m)) == PopCount(x)
  {
    if m > 0 {
      calc {
        x * Pow2(m);
        (x * Pow2(m - 1)) * 2;
      }
      var y := x * Pow2(m - 1);
      if y > 0 {
        assert (y * 2) % 2 == 0 && (y * 2) / 2 == y;
      }
      ShiftedPopCount(x, m - 1);
    }
  }

  lemma {:induction false} OnesPopCount(k: nat)
    ensures PopCount(Pow2(k) - 1) == k
  {
    if k > 0 {
      var y := Pow2(k) - 1;
      assert y % 2 == 1 && y / 2 == Pow2(k - 1) - 1;
      OnesPopCount(k - 1);
    }
  }
}
