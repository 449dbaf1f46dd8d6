/**
 Machine words as naturals. Shifts, masks and exclusive or are defined digit by digit, so that the
 laws below follow by induction on the number of digits.
 */
module Bits {

  type u8 = x: int | 0 <= x < 0x100
  type u16 = x: int | 0 <= x < 0x1_0000
  type u32 = x: int | 0 <= x < 0x1_0000_0000
  type u64 = x: int | 0 <= x < 0x1_0000_0000_0000_0000

  predicate Odd(a: nat) { a % 2 == 1 }

  function Digit(b: bool): nat { if b then 1 else 0 }

  function Xor(a: nat, b: nat): nat
    decreases a + b
  {
    if a == 0 && b == 0 then 0 else Digit(Odd(a) != Odd(b)) + 2 * Xor(a / 2, b / 2)
  }

  /** a << k */
  function Shl(a: nat, k: nat): nat {
    if k == 0 then a else 2 * Shl(a, k - 1)
  }

  /** a >> k */
  function Shr(a: nat, k: nat): nat {
    if k == 0 then a else Shr(a / 2, k - 1)
  }

  /** The k lowest bits of a, that is a & ((1 << k) - 1). */
  function Low(a: nat, k: nat): nat {
    if k == 0 then 0 else Digit(Odd(a)) + 2 * Low(a / 2, k - 1)
  }

  function Pow2(k: nat): nat { Shl(1, k) }

  predicate Bit(a: nat, k: nat) {
    if k == 0 then Odd(a) else Bit(a / 2, k - 1)
  }

  // ----- exclusive or is a commutative group in which every element is its own inverse

  lemma XorStep(a: nat, b: nat)
    ensures Xor(a, b) / 2 == Xor(a / 2, b / 2)
    ensures Odd(Xor(a, b)) == (Odd(a) != Odd(b))
  {
  }

  lemma {:induction false} XorZero(a: nat)
    ensures Xor(a, 0) == a && Xor(0, a) == a
  {
    if a != 0 {
      XorZero(a / 2);
    }
  }

  lemma {:induction false} XorSelf(a: nat)
    ensures Xor(a, a) == 0
  {
    if a != 0 {
      XorSelf(a / 2);
    }
  }

  lemma {:induction false} XorComm(a: nat, b: nat)
    ensures Xor(a, b) == Xor(b, a)
    decreases a + b
  {
    if a + b != 0 {
      XorComm(a / 2, b / 2);
    }
  }

  lemma {:induction false} XorAssoc(a: nat, b: nat, c: nat)
    ensures Xor(Xor(a, b), c) == Xor(a, Xor(b, c))
    decreases a + b + c
  {
    var x, y := Xor(Xor(a, b), c), Xor(a, Xor(b, c));
    XorStep(a, b);
    XorStep(b, c);
    XorStep(Xor(a, b), c);
    XorStep(a, Xor(b, c));
    if a + b + c != 0 {
      XorAssoc(a / 2, b / 2, c / 2);
    }
    assert Odd(x) == Odd(y) && x / 2 == y / 2;
  }

  lemma XorCancel(a: nat, b: nat)
    ensures Xor(Xor(a, b), b) == a
  {
    XorAssoc(a, b, b);
    XorSelf(b);
    XorZero(a);
  }

  lemma XorSwap(a: nat, b: nat, c: nat)
    ensures Xor(Xor(a, b), c) == Xor(Xor(a, c), b)
  {
    XorAssoc(a, b, c);
    XorComm(b, c);
    XorAssoc(a, c, b);
  }

  lemma XorIsZero(a: nat, b: nat)
    ensures Xor(a, b) == 0 <==> a == b
  {
    XorSelf(a);
    XorCancel(a, b);
    XorZero(b);
  }

  // ----- shifts and masks distribute over exclusive or

  lemma {:induction false} ShlXor(a: nat, b: nat, k: nat)
    ensures Xor(Shl(a, k), Shl(b, k)) == Shl(Xor(a, b), k)
  {
    if k != 0 {
      ShlXor(a, b, k - 1);
      XorStep(Shl(a, k), Shl(b, k));
    }
  }

  lemma {:induction false} ShrXor(a: nat, b: nat, k: nat)
    ensures Shr(Xor(a, b), k) == Xor(Shr(a, k), Shr(b, k))
  {
    if k != 0 {
      XorStep(a, b);
      ShrXor(a / 2, b / 2, k - 1);
    }
  }

  lemma {:induction false} LowXor(a: nat, b: nat, k: nat)
    ensures Low(Xor(a, b), k) == Xor(Low(a, k), Low(b, k))
  {
    if k != 0 {
      XorStep(a, b);
      LowXor(a / 2, b / 2, k - 1);
      XorStep(Low(a, k), Low(b, k));
    }
  }

  lemma {:induction false} LowBound(a: nat, k: nat)
    ensures Low(a, k) < Pow2(k)
    ensures a < Pow2(k) ==> Low(a, k) == a && Shr(a, k) == 0
  {
    if k != 0 {
      LowBound(a / 2, k - 1);
    }
  }

  lemma XorBound(a: nat, b: nat, k: nat)
    requires a < Pow2(k) && b < Pow2(k)
    ensures Xor(a, b) < Pow2(k)
  {
    LowBound(a, k);
    LowBound(b, k);
    LowXor(a, b, k);
    LowBound(Xor(a, b), k);
  }

  /** A word is its low part joined with its high part; joining is both addition and exclusive or. */
  lemma {:induction false} Join(low: nat, high: nat, k: nat)
    requires low < Pow2(k)
    ensures Xor(low, Shl(high, k)) == low + Shl(high, k)
    ensures Low(low + Shl(high, k), k) == low && Shr(low + Shl(high, k), k) == high
  {
    if k == 0 {
      XorZero(high);
    } else {
      Join(low / 2, high, k - 1);
      XorStep(low, Shl(high, k));
    }
  }

  lemma {:induction false} Parts(a: nat, k: nat)
    ensures a == Low(a, k) + Shl(Shr(a, k), k)
  {
    if k != 0 {
      Parts(a / 2, k - 1);
    }
  }

  lemma {:induction false} ShrDiv(a: nat, k: nat)
    ensures Shr(a, k) == 0 <==> a < Pow2(k)
  {
    if k != 0 {
      ShrDiv(a / 2, k - 1);
    }
  }

  lemma {:induction false} ShlShr(a: nat, k: nat)
    ensures Shr(Shl(a, k), k) == a
  {
    if k != 0 {
      ShlShr(a, k - 1);
    }
  }

  lemma {:induction false} ShlTimes(a: nat, k: nat)
    ensures Shl(a, k) == a * Pow2(k)
  {
    if k != 0 {
      ShlTimes(a, k - 1);
      assert 2 * (a * Pow2(k - 1)) == a * (2 * Pow2(k - 1));
    }
  }

  /** The n bits of a from bit k on, left in place, that is a & (((1 << n) - 1) << k). */
  function Mask(a: nat, k: nat, n: nat): nat {
    Shl(Low(Shr(a, k), n), k)
  }

  lemma {:induction false} LowSplit(a: nat, k: nat, n: nat)
    ensures Low(a, k + n) == Low(a, k) + Mask(a, k, n)
  {
    if k != 0 {
      LowSplit(a / 2, k - 1, n);
    }
  }

  lemma MaskJoin(a: nat, k: nat, n: nat)
    ensures Low(a, k + n) == Xor(Mask(a, k, n), Low(a, k))
  {
    LowSplit(a, k, n);
    LowBound(a, k);
    Join(Low(a, k), Low(Shr(a, k), n), k);
    XorComm(Mask(a, k, n), Low(a, k));
  }

  // ----- single bits

  lemma {:induction false} Pow2Less(m: nat, n: nat)
    requires m < n
    ensures 2 * Pow2(m) <= Pow2(n)
  {
    if m + 1 < n {
      Pow2Less(m, n - 1);
    }
  }

  lemma {:induction false} Pow2Positive(k: nat)
    ensures Pow2(k) > 0
  {
    if k != 0 {
      Pow2Positive(k - 1);
    }
  }

  lemma Pow2Injective(m: nat, n: nat)
    ensures Pow2(m) == Pow2(n) <==> m == n
  {
    Pow2Positive(m);
    Pow2Positive(n);
    if m < n {
      Pow2Less(m, n);
    } else if n < m {
      Pow2Less(n, m);
    }
  }

  lemma {:induction false} BitOfZero(k: nat)
    ensures !Bit(0, k)
  {
    if k != 0 {
      BitOfZero(k - 1);
    }
  }

  lemma {:induction false} BitXor(a: nat, b: nat, k: nat)
    ensures Bit(Xor(a, b), k) == (Bit(a, k) != Bit(b, k))
  {
    XorStep(a, b);
    if k != 0 {
      BitXor(a / 2, b / 2, k - 1);
    }
  }

  lemma {:induction false} BitPow2(p: nat, k: nat)
    ensures Bit(Pow2(p), k) == (p == k)
  {
    if p == 0 && k != 0 {
      BitOfZero(k - 1);
    } else if p != 0 && k != 0 {
      BitPow2(p - 1, k - 1);
    }
  }

  lemma {:induction false} BitLow(a: nat, n: nat, k: nat)
    ensures Bit(Low(a, n), k) == (k < n && Bit(a, k))
  {
    if n == 0 {
      BitOfZero(k);
    } else if k != 0 {
      BitLow(a / 2, n - 1, k - 1);
    }
  }

  lemma {:induction false} BitShr(a: nat, k: nat, p: nat)
    ensures Bit(Shr(a, k), p) == Bit(a, k + p)
  {
    if k != 0 {
      BitShr(a / 2, k - 1, p);
    }
  }

  lemma {:induction false} BitShl(a: nat, k: nat, p: nat)
    ensures Bit(Shl(a, k), p) == (k <= p && Bit(a, p - k))
  {
    if k != 0 && p != 0 {
      BitShl(a, k - 1, p - 1);
    }
  }

  lemma BitMask(a: nat, k: nat, n: nat, p: nat)
    ensures Bit(Mask(a, k, n), p) == (k <= p < k + n && Bit(a, p))
  {
    BitShl(Low(Shr(a, k), n), k, p);
    if k <= p {
      BitLow(Shr(a, k), n, p - k);
      BitShr(a, k, p - k);
    }
  }

  /** The low k+1 bits are the low k bits, with bit k joined on. */
  lemma {:induction false} LowBits(a: nat, k: nat)
    ensures Low(a, k + 1) == Xor(Low(a, k), if Bit(a, k) then Pow2(k) else 0)
  {
    var b := if Bit(a, k) then Pow2(k) else 0;
    if k != 0 {
      LowBits(a / 2, k - 1);
      XorStep(Low(a, k), b);
    }
  }

  /** Numbers that agree bit by bit. */
  lemma {:induction false} SameLowBits(x: nat, y: nat, n: nat)
    requires forall k :: 0 <= k < n ==> Bit(x, k) == Bit(y, k)
    ensures Low(x, n) == Low(y, n)
  {
    if n != 0 {
      SameLowBits(x, y, n - 1);
      LowBits(x, n - 1);
      LowBits(y, n - 1);
    }
  }

  lemma {:induction false} ShrLess(a: nat, r: nat, k: nat, sum: nat)
    requires sum == r + k && a < Pow2(sum)
    ensures Shr(a, r) < Pow2(k)
    decreases r
  {
    if r != 0 {
      ShrLess(a / 2, r - 1, k, sum - 1);
    }
  }

  lemma {:induction false} ShrShr(a: nat, m: nat, n: nat, sum: nat)
    requires sum == m + n
    ensures Shr(Shr(a, m), n) == Shr(a, sum)
  {
    if m != 0 {
      ShrShr(a / 2, m - 1, n, sum - 1);
    }
  }

  lemma LowMod(a: nat, k: nat)
    ensures Pow2(k) > 0 && Low(a, k) == a % Pow2(k)
  {
    Parts(a, k);
    LowBound(a, k);
    ShlTimes(Shr(a, k), k);
    Remainder(a, Shr(a, k), Pow2(k), Low(a, k));
  }

  lemma ShrQuotient(a: nat, k: nat)
    ensures Pow2(k) > 0 && Shr(a, k) == a / Pow2(k)
  {
    Parts(a, k);
    LowBound(a, k);
    ShlTimes(Shr(a, k), k);
    Remainder(a, Shr(a, k), Pow2(k), Low(a, k));
  }

  lemma Remainder(a: nat, q: nat, d: nat, r: nat)
    requires a == q * d + r && r < d
    ensures a / d == q && a % d == r
  {
    SameQuotient(q, a / d, d, r, a % d);
  }

  lemma SameQuotient(p: nat, q: nat, d: nat, r: nat, s: nat)
    requires p * d + r == q * d + s && r < d && s < d
    ensures p == q
  {
    if p < q {
      MultipleStep(p, q, d);
    } else if q < p {
      MultipleStep(q, p, d);
    }
  }

  lemma MultipleStep(p: nat, q: nat, d: nat)
    requires p < q
    ensures p * d + d <= q * d
  {
    assert q * d == p * d + (q - p) * d;
    assert (q - p) * d == d + (q - p - 1) * d;
  }

  lemma {:induction false} ShlAdd(a: nat, b: nat, k: nat)
    ensures Shl(a + b, k) == Shl(a, k) + Shl(b, k)
  {
    if k != 0 {
      ShlAdd(a, b, k - 1);
    }
  }

  lemma {:induction false} ShlShl(a: nat, m: nat, n: nat, sum: nat)
    requires sum == m + n
    ensures Shl(Shl(a, m), n) == Shl(a, sum)
    decreases n
  {
    if n != 0 {
      ShlShl(a, m, n - 1, sum - 1);
    }
  }

  /** Masking off or shifting out a flipped bit. */
  lemma FlipParts(a: nat, p: nat, k: nat)
    ensures Shr(Xor(a, Pow2(p)), k) == if p < k then Shr(a, k) else Xor(Shr(a, k), Pow2(p - k))
    ensures Low(Xor(a, Pow2(p)), k) == if p < k then Xor(Low(a, k), Pow2(p)) else Low(a, k)
  {
    ShrXor(a, Pow2(p), k);
    LowXor(a, Pow2(p), k);
    Pow2Parts(p, k);
    XorZero(Shr(a, k));
    XorZero(Low(a, k));
  }

  lemma {:induction false} Pow2Parts(p: nat, k: nat)
    ensures Shr(Pow2(p), k) == if p < k then 0 else Pow2(p - k)
    ensures Low(Pow2(p), k) == if p < k then Pow2(p) else 0
  {
    if k == 0 {
    } else if p == 0 {
      ZeroParts(k - 1);
    } else {
      Pow2Parts(p - 1, k - 1);
    }
  }

  lemma {:induction false} ZeroParts(k: nat)
    ensures Shr(0, k) == 0 && Low(0, k) == 0 && Shl(0, k) == 0
  {
    if k != 0 {
      ZeroParts(k - 1);
    }
  }

  lemma Pow2Values()
    ensures Pow2(4) == 0x10 && Pow2(8) == 0x100 && Pow2(14) == 0x4000 && Pow2(15) == 0x8000 && Pow2(16) == 0x1_0000
    ensures Pow2(20) == 0x10_0000 && Pow2(24) == 0x100_0000 && Pow2(25) == 0x200_0000 && Pow2(32) == 0x1_0000_0000
  {
  }

  function Xor32(a: u32, b: u32): (r: u32)
    ensures r == Xor(a, b)
  {
    Pow2Values();
    XorBound(a, b, 32);
    Xor(a, b)
  }

  function Xor8(a: u8, b: u8): (r: u8)
    ensures r == Xor(a, b)
  {
    Pow2Values();
    XorBound(a, b, 8);
    Xor(a, b)
  }
}
