/** Bitwise AND on unbounded naturals, enough to state what mask indexing
    (`cursor & mask`) computes and what the power-of-two test
    `(capacity & (capacity - 1)) == 0` accepts. */
module Bits {

  import Circular

  /** 2^64: unsigned `size_type` arithmetic wraps at this value. */
  const Word: nat := 0x1_0000_0000_0000_0000

  /** `a & b`, bit by bit from the least significant end. */
  function And(a: nat, b: nat): (r: nat)
    ensures r <= a && r <= b
  {
    if a == 0 || b == 0 then 0
    else 2 * And(a / 2, b / 2) + (a % 2) * (b % 2)
  }

  /** A power of two: 1, 2, 4, ... */
  predicate IsPow2(c: nat)
  {
    if c <= 1 then c == 1 else c % 2 == 0 && IsPow2(c / 2)
  }

  lemma AndSelf(a: nat)
    ensures And(a, a) == a
  {
  }

  /** For a power-of-two capacity `c`, masking with `c - 1` is taking the cursor modulo `c`. */
  lemma {:induction false} MaskIsMod(x: nat, c: nat)
    requires IsPow2(c)
    ensures And(x, c - 1) == x % c
  {
    if c > 1 && x > 0 {
      HalvePow2(c);
      MaskIsMod(x / 2, c / 2);
      MaskStep(x, c);
    }
  }

  /** The inductive step: masking `x` with `c - 1` from masking `x / 2` with `c / 2 - 1`. */
  lemma MaskStep(x: nat, c: nat)
    requires x > 0 && c > 1 && c % 2 == 0
    requires And(x / 2, c / 2 - 1) == (x / 2) % (c / 2)
    ensures And(x, c - 1) == x % c
  {
    assert (c - 1) % 2 == 1 && (c - 1) / 2 == c / 2 - 1;
    HalveOddMask(x, c - 1);
    ModOfEven(x, c);
  }

  lemma HalvePow2(c: nat)
    requires IsPow2(c) && c > 1
    ensures c % 2 == 0 && IsPow2(c / 2)
  {
  }

  /** An odd mask keeps the low bit of `x` and masks the rest with `m / 2`. */
  lemma HalveOddMask(x: nat, m: nat)
    requires x > 0 && m % 2 == 1
    ensures And(x, m) == 2 * And(x / 2, m / 2) + x % 2
  {
    assert (x % 2) * (m % 2) == x % 2;
  }

  /** The remainder by an even `c` from the remainder of `x / 2` by `c / 2`. */
  lemma ModOfEven(x: nat, c: nat)
    requires c > 0 && c % 2 == 0
    ensures x % c == 2 * ((x / 2) % (c / 2)) + x % 2
  {
    var h := c / 2;
    var q, r := (x / 2) / h, (x / 2) % h;
    DoubleDivMod(x, h, c, q, r);
    Circular.ModUnique(x, c, q, 2 * r + x % 2);
  }

  lemma DoubleDivMod(x: nat, h: nat, c: nat, q: int, r: int)
    requires h > 0 && c == 2 * h && q == (x / 2) / h && r == (x / 2) % h
    ensures x == q * c + (2 * r + x % 2) && 0 <= 2 * r + x % 2 < c
  {
    assert x / 2 == q * h + r;
    assert x == 2 * (x / 2) + x % 2;
    assert q * c == 2 * (q * h);
  }

  /** The constructor's test accepts exactly the powers of two (among positive capacities). */
  lemma {:induction false} Pow2Test(c: nat)
    requires c > 0
    ensures And(c, c - 1) == 0 <==> IsPow2(c)
  {
    if c == 1 {
    } else if c % 2 == 1 {
      // the low bit of c - 1 is clear, the rest agree with c
      assert (c - 1) / 2 == c / 2;
      AndSelf(c / 2);
      assert And(c, c - 1) == 2 * (c / 2);
    } else {
      assert (c - 1) / 2 == c / 2 - 1;
      assert And(c, c - 1) == 2 * And(c / 2, c / 2 - 1);
      Pow2Test(c / 2);
    }
  }

  /** A mask index always lands inside the ring. */
  lemma MaskInRange(x: nat, c: nat)
    requires IsPow2(c)
    ensures And(x, c - 1) < c
  {
    MaskIsMod(x, c);
  }
}
