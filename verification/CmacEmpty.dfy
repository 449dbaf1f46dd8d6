/** The empty message, which the driver does not pad: when its CMAC is nevertheless that of the standard. */
module CmacEmpty {
  import opened Bits
  import opened Blocks
  import opened Cmac

  /** It depends on the sub keys: they must differ in their first bit and in no other. */
  lemma SubKeysDecide(c: Cipher)
    requires Permutation(c)
    ensures DriverMac(c.enc, []) == Mac(c.enc, []) <==> XorB(SubKey1(c.enc), SubKey2(c.enc)) == Pad([])
  {
    var k1, k2, p := SubKey1(c.enc), SubKey2(c.enc), Pad([]);
    XorBZero(XorB(p, k2));
    assert c.dec(c.enc(k1)) == k1 && c.dec(c.enc(XorB(p, k2))) == XorB(p, k2);
    XorBCancel(k1, k2);
    XorBCancel(p, k2);
  }

  // ----- the one sub key that does

  function Ends(first: u8, last: u8): Block {
    seq(BLOCK_SIZE, i requires 0 <= i < BLOCK_SIZE => if i == 0 then first else if i == 15 then last else 0)
  }

  /** As a first sub key: x^127 + x^6 + x^5 + x^4 + x^3 + x^2 + 1. */
  function TheKey(): Block { Ends(0x80, 0x7d) }

  /** As the encrypted zero block: x^127 + x^126 + x^6 + x^5 + x^4 + x^3 + x^2 + 1. */
  function TheImage(): Block { Ends(0xc0, 0x7d) }

  predicate LowTerm(k: nat) { k == 0 || 2 <= k <= 6 }

  lemma LowTerms(j: nat)
    requires j < 8
    ensures Bit(0x7d, j) == LowTerm(j) && Bit(0x80, j) == (j == 7) && Bit(0xc0, j) == (j >= 6)
  {
  }

  lemma KeyCoeff(k: nat)
    requires k < 128
    ensures Coeff(Reverse(TheKey()), k) == (LowTerm(k) || k == 127)
    ensures Coeff(Reverse(TheImage()), k) == (LowTerm(k) || k >= 126)
    ensures Coeff(Reverse(Pad([])), k) == (k == 127)
  {
    var i, j := k / 8, k % 8;
    assert k == 8 * i + j;
    LowTerms(j);
    BitOfZero(j);
  }

  /** r and x * r differ in the last coefficient only. */
  ghost predicate Solves(r: Block) {
    forall k :: 0 <= k < 128 ==> (Coeff(r, k) != Coeff(TimesX(r), k)) == (k == 127)
  }

  lemma {:induction false} MiddleIsZero(r: Block, k: nat)
    requires Solves(r) && 7 <= k < 127 && !Coeff(r, 7)
    ensures !Coeff(r, k)
  {
    if k > 7 {
      MiddleIsZero(r, k - 1);
      TimesXCoeff(r, k);
    }
  }

  lemma LowPart(r: Block)
    requires Solves(r)
    ensures Coeff(r, 0) == Coeff(r, 127) && !Coeff(r, 1) && !Coeff(r, 7)
    ensures forall k :: 2 <= k <= 6 ==> Coeff(r, k) == Coeff(r, 127)
  {
    TimesXCoeff(r, 0);
    TimesXCoeff(r, 1);
    TimesXCoeff(r, 2);
    TimesXCoeff(r, 3);
    TimesXCoeff(r, 4);
    TimesXCoeff(r, 5);
    TimesXCoeff(r, 6);
    TimesXCoeff(r, 7);
  }

  lemma SolutionIs(r: Block)
    requires Solves(r)
    ensures r == Reverse(TheKey())
  {
    LowPart(r);
    MiddleIsZero(r, 126);
    TimesXCoeff(r, 127);
    forall k | 0 <= k < 128
      ensures Coeff(r, k) == Coeff(Reverse(TheKey()), k)
    {
      KeyCoeff(k);
      if 7 <= k < 127 {
        MiddleIsZero(r, k);
      }
    }
    SameCoeffs(r, Reverse(TheKey()));
  }

  lemma KeySolvesAt(r: Block, k: nat)
    requires k < 128 && forall j :: 0 <= j < 128 ==> Coeff(r, j) == (LowTerm(j) || j == 127)
    ensures (Coeff(r, k) != Coeff(TimesX(r), k)) == (k == 127)
  {
    TimesXCoeff(r, k);
  }

  lemma KeySolves(r: Block)
    requires r == Reverse(TheKey())
    ensures Solves(r)
  {
    forall j | 0 <= j < 128
      ensures Coeff(r, j) == (LowTerm(j) || j == 127)
    {
      KeyCoeff(j);
    }
    forall k | 0 <= k < 128
      ensures (Coeff(r, k) != Coeff(TimesX(r), k)) == (k == 127)
    {
      KeySolvesAt(r, k);
    }
  }

  lemma OnlySolution(r: Block)
    ensures Solves(r) <==> r == Reverse(TheKey())
  {
    if Solves(r) {
      SolutionIs(r);
    }
    if r == Reverse(TheKey()) {
      KeySolves(r);
    }
  }

  lemma CoeffXor(a: Block, b: Block, k: nat)
    requires k < 128
    ensures Coeff(XorB(a, b), k) == (Coeff(a, k) != Coeff(b, k))
  {
    BitXor(a[k / 8], b[k / 8], k % 8);
  }

  /** A sub key and its double differ in the first bit only, if and only if it is this one. */
  lemma KeyIs(k1: Block)
    ensures XorB(k1, TimesXBig(k1)) == Pad([]) <==> k1 == TheKey()
  {
    var r, p := Reverse(k1), Reverse(Pad([]));
    ReverseTwice(k1);
    ReverseTwice(TheKey());
    ReverseTwice(TimesX(r));
    ReverseTwice(Pad([]));
    ReverseXor(k1, TimesXBig(k1));
    ReverseTwice(XorB(k1, TimesXBig(k1)));
    var d := XorB(r, TimesX(r));
    forall k | 0 <= k < 128
      ensures Coeff(d, k) == (Coeff(r, k) != Coeff(TimesX(r), k)) && Coeff(p, k) == (k == 127)
    {
      CoeffXor(r, TimesX(r), k);
      KeyCoeff(k);
    }
    if Solves(r) {
      SameCoeffs(d, p);
    }
    OnlySolution(r);
  }

  lemma ImageIs(l: Block)
    ensures TimesXBig(l) == TheKey() <==> l == TheImage()
  {
    var r, m := Reverse(l), Reverse(TheImage());
    ReverseTwice(l);
    ReverseTwice(TheImage());
    ReverseTwice(TimesX(r));
    ReverseTwice(TheKey());
    forall k | 0 <= k < 128
      ensures Coeff(TimesX(m), k) == Coeff(Reverse(TheKey()), k)
    {
      KeyCoeff(k);
      KeyCoeff(127);
      TimesXCoeff(m, k);
      if k > 0 {
        KeyCoeff(k - 1);
      }
    }
    SameCoeffs(TimesX(m), Reverse(TheKey()));
    if TimesXBig(l) == TheKey() {
      TimesXInjective(r, m);
    }
  }

  /**
   The driver's CMAC of the empty message is the standard's if and only if the cipher takes the zero block to
   c0 00 .. 00 7d, which one engine operation tells.
   */
  lemma EmptyMessage(c: Cipher)
    requires Permutation(c)
    ensures DriverMac(c.enc, []) == Mac(c.enc, []) <==> c.enc(ZeroBlock()) == TheImage()
  {
    SubKeysDecide(c);
    KeyIs(SubKey1(c.enc));
    ImageIs(c.enc(ZeroBlock()));
  }

  /** Under the identity, which is a permutation, it is not. */
  lemma EmptyMessageDiffers()
    ensures var c := Cipher(b => b, b => b); Permutation(c) && DriverMac(c.enc, []) != Mac(c.enc, [])
  {
    var c := Cipher(b => b, b => b);
    EmptyMessage(c);
    assert ZeroBlock()[0] != TheImage()[0];
  }
}
