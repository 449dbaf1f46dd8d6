/** 16-byte blocks: exclusive or, block ciphers, and multiplication by x in GF(2^128) by its coefficients. */
module Blocks {
  import opened Bits

  const BLOCK_SIZE := 16

  type Block = b: seq<u8> | |b| == BLOCK_SIZE witness seq(BLOCK_SIZE, _ => 0)

  function ZeroBlock(): Block { seq(BLOCK_SIZE, _ => 0) }

  function XorB(a: Block, b: Block): Block {
    seq(BLOCK_SIZE, i requires 0 <= i < BLOCK_SIZE => Xor8(a[i], b[i]))
  }

  lemma XorBCancel(a: Block, b: Block)
    ensures XorB(XorB(a, b), b) == a
  {
    forall i | 0 <= i < BLOCK_SIZE
      ensures XorB(XorB(a, b), b)[i] == a[i]
    {
      XorCancel(a[i], b[i]);
    }
  }

  lemma XorBZero(a: Block)
    ensures XorB(a, ZeroBlock()) == a && XorB(ZeroBlock(), a) == a
  {
    forall i | 0 <= i < BLOCK_SIZE
      ensures XorB(a, ZeroBlock())[i] == a[i] && XorB(ZeroBlock(), a)[i] == a[i]
    {
      XorZero(a[i]);
    }
  }

  lemma XorBComm(a: Block, b: Block)
    ensures XorB(a, b) == XorB(b, a)
  {
    forall i | 0 <= i < BLOCK_SIZE
      ensures XorB(a, b)[i] == XorB(b, a)[i]
    {
      XorComm(a[i], b[i]);
    }
  }

  // ----- a block cipher under one key is any permutation of the blocks

  datatype Cipher = Cipher(enc: Block -> Block, dec: Block -> Block)

  ghost predicate Permutation(c: Cipher) {
    (forall b: Block :: c.dec(c.enc(b)) == b) && (forall b: Block :: c.enc(c.dec(b)) == b)
  }

  // ----- blocks as polynomials over GF(2): coefficient k is bit k%8 of byte k/8

  predicate Coeff(b: Block, k: nat)
    requires k < 128
  {
    Bit(b[k / 8], k % 8)
  }

  lemma SameByte(x: u8, y: u8)
    requires forall k :: 0 <= k < 8 ==> Bit(x, k) == Bit(y, k)
    ensures x == y
  {
    SameLowBits(x, y, 8);
    Pow2Values();
    LowBound(x, 8);
    LowBound(y, 8);
  }

  /** Blocks with the same coefficients are equal. */
  lemma SameCoeffs(a: Block, b: Block)
    requires forall k :: 0 <= k < 128 ==> Coeff(a, k) == Coeff(b, k)
    ensures a == b
  {
    forall i | 0 <= i < BLOCK_SIZE
      ensures a[i] == b[i]
    {
      forall k | 0 <= k < 8
        ensures Bit(a[i], k) == Bit(b[i], k)
      {
        var j := 8 * i + k;
        assert j / 8 == i && j % 8 == k;
        assert Coeff(a, j) == Coeff(b, j);
      }
      SameByte(a[i], b[i]);
    }
  }

  /** One step of a shift to the left: shift the byte and bring in the carry. */
  lemma ShiftBits(b: nat, carry: nat, n: nat, k: nat)
    requires carry < 2 && k < n
    ensures Bit(Low(2 * b, n) + carry, k) == if k == 0 then carry == 1 else Bit(b, k - 1)
    ensures Low(2 * b, n) + carry < Pow2(n)
  {
    LowBound(2 * b, n);
    LowBound(b, n - 1);
    assert Low(2 * b, n) == 2 * Low(b, n - 1);
    if k > 0 {
      assert (2 * Low(b, n - 1) + carry) / 2 == Low(b, n - 1);
      BitLow(b, n - 1, k - 1);
    }
  }

  lemma FeedbackBits(k: nat)
    requires k < 32
    ensures Bit(0x87, k) == Feedback(k)
  {
    Pow2Values();
    LowBound(0x87, 8);
    BitLow(0x87, 8, k);
  }

  /** (b << 1) | carry, truncated to a byte. */
  function ShiftByte(b: u8, carry: nat): u8
    requires carry < 2
  {
    Pow2Values();
    ShiftBits(b, carry, 8, 0);
    Low(2 * b, 8) + carry
  }

  lemma TopBit(b: nat, n: nat)
    requires b < Pow2(n + 1)
    ensures Shr(b, n) == Digit(Bit(b, n))
    decreases n
  {
    if n != 0 {
      TopBit(b / 2, n - 1);
    }
  }

  function Carry(b: u8): (c: nat)
    ensures c < 2 && c == Digit(Bit(b, 7))
  {
    Pow2Values();
    TopBit(b, 7);
    Shr(b, 7)
  }

  /** The low part of the field polynomial x^128 + x^7 + x^2 + x + 1. */
  predicate Feedback(k: nat) { k == 0 || k == 1 || k == 2 || k == 7 }

  /** A block shifted by one bit from its least significant byte on, with the bits of 0x87 put in for the one lost. */
  function TimesX(b: Block): Block {
    seq(BLOCK_SIZE, i requires 0 <= i < BLOCK_SIZE =>
      if i == 0 then Xor8(ShiftByte(b[0], 0), if Coeff(b, 127) then 0x87 else 0) else ShiftByte(b[i], Carry(b[i - 1])))
  }

  lemma ShiftedBit(b: u8, carry: nat, j: nat)
    requires carry < 2 && j < 8
    ensures Bit(ShiftByte(b, carry), j) == if j == 0 then carry == 1 else Bit(b, j - 1)
  {
    ShiftBits(b, carry, 8, j);
  }

  lemma FedBit(x: u8, fed: bool, j: nat)
    requires j < 8
    ensures Bit(Xor8(x, if fed then 0x87 else 0), j) == (Bit(x, j) != (fed && Feedback(j)))
  {
    BitXor(x, 0x87, j);
    XorZero(x);
    FeedbackBits(j);
  }

  /** The first byte takes the feedback. */
  lemma FirstByte(b: Block, j: nat)
    requires j < 8
    ensures Bit(TimesX(b)[0], j) == ((j > 0 && Bit(b[0], j - 1)) != (Coeff(b, 127) && Feedback(j)))
  {
    ShiftedBit(b[0], 0, j);
    FedBit(ShiftByte(b[0], 0), Coeff(b, 127), j);
  }

  /** Every other byte takes the top bit of the one before. */
  lemma LaterByte(b: Block, i: nat, j: nat)
    requires 0 < i < 16 && j < 8
    ensures Bit(TimesX(b)[i], j) == if j > 0 then Bit(b[i], j - 1) else Bit(b[i - 1], 7)
  {
    ShiftedBit(b[i], Carry(b[i - 1]), j);
  }

  lemma CoeffIs(b: Block, i: nat, j: nat, k: nat)
    requires i < 16 && j < 8 && k == 8 * i + j
    ensures Coeff(b, k) == Bit(b[i], j)
  {
    assert k / 8 == i && k % 8 == j;
  }

  lemma LowCoeff(b: Block, k: nat)
    requires k < 8
    ensures Coeff(TimesX(b), k) == ((k > 0 && Coeff(b, k - 1)) != (Coeff(b, 127) && Feedback(k)))
  {
    CoeffIs(TimesX(b), 0, k, k);
    FirstByte(b, k);
    if k > 0 {
      CoeffIs(b, 0, k - 1, k - 1);
    }
  }

  lemma HighCoeff(b: Block, i: nat, j: nat, k: nat, before: nat)
    requires 0 < i < 16 && j < 8 && k == 8 * i + j && before == k - 1
    ensures Coeff(TimesX(b), k) == Coeff(b, before)
  {
    CoeffIs(TimesX(b), i, j, k);
    LaterByte(b, i, j);
    if j > 0 {
      CoeffIs(b, i, j - 1, before);
    } else {
      CoeffIs(b, i - 1, 7, before);
    }
  }

  /** Multiplication by x, coefficient by coefficient: move each up by one and reduce by x^128 + x^7 + x^2 + x + 1. */
  lemma TimesXCoeff(b: Block, k: nat)
    requires k < 128
    ensures Coeff(TimesX(b), k) ==
            ((k > 0 && Coeff(b, k - 1)) != (Coeff(b, 127) && (k == 7 || k == 2 || k == 1 || k == 0)))
  {
    if k < 8 {
      LowCoeff(b, k);
    } else {
      HighCoeff(b, k / 8, k % 8, k, k - 1);
    }
  }

  function Iterate(f: Block -> Block, b: Block, n: nat): Block {
    if n == 0 then b else f(Iterate(f, b, n - 1))
  }

  lemma {:induction false} IterateAdd(f: Block -> Block, b: Block, m: nat, n: nat, sum: nat)
    requires sum == m + n
    ensures Iterate(f, b, sum) == Iterate(f, Iterate(f, b, m), n)
    decreases n
  {
    if n != 0 {
      IterateAdd(f, b, m, n - 1, sum - 1);
    }
  }

  lemma IterateNext(f: Block -> Block, b: Block, n: nat, next: nat)
    requires next == n + 1
    ensures Iterate(f, b, next) == f(Iterate(f, b, n))
  {
  }

  /** x^n times a block. */
  function TimesXN(b: Block, n: nat): Block { Iterate(TimesX, b, n) }

  lemma TimesXNext(b: Block, n: nat, next: nat)
    requires next == n + 1
    ensures TimesXN(b, next) == TimesX(TimesXN(b, n))
  {
    IterateNext(TimesX, b, n, next);
  }

  lemma TimesXAdd(b: Block, m: nat, n: nat, sum: nat)
    requires sum == m + n
    ensures TimesXN(b, sum) == TimesXN(TimesXN(b, m), n)
  {
    IterateAdd(TimesX, b, m, n, sum);
  }

  // ----- multiplication by x loses nothing

  lemma TimesXInjective(a: Block, b: Block)
    requires TimesX(a) == TimesX(b)
    ensures a == b
  {
    forall k | 0 <= k < 128
      ensures Coeff(a, k) == Coeff(b, k)
    {
      TimesXCoeff(a, 0);
      TimesXCoeff(b, 0);
      if k < 127 {
        TimesXCoeff(a, k + 1);
        TimesXCoeff(b, k + 1);
      }
    }
    SameCoeffs(a, b);
  }

  lemma TimesXNStep(a: Block, b: Block, n: nat, next: nat)
    requires next == n + 1 && TimesXN(a, next) == TimesXN(b, next)
    ensures TimesXN(a, n) == TimesXN(b, n)
  {
    TimesXNext(a, n, next);
    TimesXNext(b, n, next);
    TimesXInjective(TimesXN(a, n), TimesXN(b, n));
  }

  lemma TimesXNInjective(a: Block, b: Block, n: nat)
    requires TimesXN(a, n) == TimesXN(b, n)
    ensures a == b
  {
    var k := n;
    while k > 0
      invariant TimesXN(a, k) == TimesXN(b, k)
    {
      var next := k;
      k := k - 1;
      TimesXNStep(a, b, k, next);
    }
    NoSteps(a, k);
    NoSteps(b, k);
  }

  /** The count is a parameter here, as a literal zero would have it unfold everywhere. */
  lemma NoSteps(b: Block, n: nat)
    requires n == 0
    ensures TimesXN(b, n) == b
  {
  }

  function Reverse(b: Block): Block {
    seq(BLOCK_SIZE, i requires 0 <= i < BLOCK_SIZE => b[15 - i])
  }

  /** The same multiplication on blocks whose first byte is the most significant. */
  function TimesXBig(b: Block): Block { Reverse(TimesX(Reverse(b))) }

  lemma ReverseTwice(b: Block)
    ensures Reverse(Reverse(b)) == b
  {
  }

  lemma ReverseXor(a: Block, b: Block)
    ensures Reverse(XorB(a, b)) == XorB(Reverse(a), Reverse(b))
  {
  }

  // ----- the driver's multiplications

  lemma ShiftedBig(b: Block, r: Block)
    requires forall j :: 0 <= j < 15 ==> r[j] == ShiftByte(b[j], Carry(b[j + 1]))
    requires r[15] == if Carry(b[0]) != 0 then Xor8(ShiftByte(b[15], 0), 0x87) else ShiftByte(b[15], 0)
    ensures r == TimesXBig(b)
  {
    var t := TimesX(Reverse(b));
    XorZero(ShiftByte(b[15], 0));
    forall i | 0 <= i < BLOCK_SIZE
      ensures r[i] == t[15 - i]
    {
      if i == 15 {
        assert Coeff(Reverse(b), 127) == Bit(b[0], 7);
      } else {
        assert Reverse(b)[15 - i] == b[i] && Reverse(b)[15 - i - 1] == b[i + 1];
      }
    }
  }

  /** _gf256_mul_x: the first byte is the most significant. */
  method MulX(block: array<u8>)
    requires block.Length == BLOCK_SIZE
    modifies block
    ensures block[..] == TimesXBig(old(block[..]))
  {
    ghost var b: Block := block[..];
    var carry := 0;
    var i := 15;
    while i >= 0
      invariant -1 <= i <= 15 && carry == if i == 15 then 0 else Carry(b[i + 1])
      invariant forall j :: 0 <= j <= i ==> block[j] == b[j]
      invariant i < 15 ==> block[15] == ShiftByte(b[15], 0)
      invariant forall j :: i < j < 15 ==> block[j] == ShiftByte(b[j], Carry(b[j + 1]))
    {
      var v := block[i];
      block[i] := ShiftByte(v, carry);
      carry := Carry(v);
      i := i - 1;
    }
    assert carry == Carry(b[0]) && block[15] == ShiftByte(b[15], 0);
    if carry != 0 {
      block[15] := Xor8(block[15], 0x87);
    }
    assert forall j :: 0 <= j < 15 ==> block[..][j] == ShiftByte(b[j], Carry(b[j + 1]));
    ShiftedBig(b, block[..]);
  }
}
