/** What the CRC of the controller packets means: the remainder of a division of polynomials over GF(2). */
module CrcDivision {
  import opened Bits
  import opened Numbers
  import opened JoyconCrc

  /** The product of two polynomials, whose coefficients are the bits of a and q. */
  function Product(a: nat, q: nat): nat {
    if q == 0 then 0 else Xor(if Odd(q) then a else 0, Shl(Product(a, q / 2), 1))
  }

  lemma {:induction false} ProductXor(a: nat, q: nat, r: nat)
    ensures Product(a, Xor(q, r)) == Xor(Product(a, q), Product(a, r))
    decreases q + r
  {
    XorZero(Product(a, q));
    XorZero(Product(a, r));
    XorZero(q);
    XorZero(r);
    if q != 0 && r != 0 {
      var x, y := if Odd(q) then a else 0, if Odd(r) then a else 0;
      var u, v := Product(a, q / 2), Product(a, r / 2);
      ProductXor(a, q / 2, r / 2);
      XorStep(q, r);
      ShlXor(u, v, 1);
      XorSelf(a);
      XorZero(a);
      XorShuffle(x, Shl(u, 1), y, Shl(v, 1));
      ProductStep(a, Xor(q, r), if Odd(Xor(q, r)) then a else 0);
    }
  }

  lemma ProductStep(a: nat, q: nat, x: nat)
    requires x == if Odd(q) then a else 0
    ensures Product(a, q) == Xor(x, Shl(Product(a, q / 2), 1))
  {
    if q == 0 {
      ZeroParts(1);
    }
  }

  lemma {:induction false} ProductShl(a: nat, q: nat, k: nat)
    ensures Product(a, Shl(q, k)) == Shl(Product(a, q), k)
  {
    if k != 0 {
      ProductShl(a, q, k - 1);
      XorZero(Shl(Product(a, Shl(q, k - 1)), 1));
      ProductStep(a, Shl(q, k), 0);
    }
  }

  lemma ProductOne(a: nat)
    ensures Product(a, 1) == a
  {
    ZeroParts(1);
    XorZero(a);
  }

  /** Every multiple but zero has degree 8 at least. */
  lemma {:induction false} ProductBig(a: nat, q: nat, n: nat)
    requires q > 0 && Pow2(n) <= a < 2 * Pow2(n)
    ensures Product(a, q) >= Pow2(n)
  {
    if q == 1 {
      ProductOne(a);
    } else {
      var p, x, m := Product(a, q / 2), if Odd(q) then a else 0, n + 1;
      ProductBig(a, q / 2, n);
      assert Pow2(m) == 2 * Pow2(n) && Shl(p, 1) == 2 * p;
      HighPart(x, Shl(p, 1), m);
    }
  }

  lemma HighPart(x: nat, y: nat, m: nat)
    requires x < Pow2(m) <= y
    ensures Xor(x, y) >= Pow2(m)
  {
    ShrXor(x, y, m);
    ShrDiv(x, m);
    ShrDiv(y, m);
    ShrDiv(Xor(x, y), m);
    XorZero(Shr(y, m));
  }

  // ----- one bit, one byte

  /** One bit of the division: the generator is taken away when the state reaches degree 8. */
  lemma RoundDivides(c: u8)
    ensures Shl(c, 1) == Xor(Round(c), Product(0x18d, Digit(Bit(c, 7))))
  {
    Pow2Values();
    TopBit(c);
    Parts(Shl(c, 1), 8);
    LowBound(Shl(c, 1), 8);
    ShrXorTop(c);
    ProductOne(0x18d);
    XorZero(Shift(c));
    if c >= 0x80 {
      Join(0x8d, 1, 8);
      Join(Shift(c), 1, 8);
      XorAssoc(Shift(c), 0x8d, Xor(0x8d, 0x100));
      XorAssoc(0x8d, 0x8d, 0x100);
      XorSelf(0x8d);
      XorZero(0x100);
    }
  }

  lemma ShrXorTop(c: u8)
    ensures Shl(1, 8) == 0x100 && Shr(Shl(c, 1), 8) == if c >= 0x80 then 1 else 0
  {
    Pow2Values();
    ShrQuotient(Shl(c, 1), 8);
  }

  function Quotient(c: u8, n: nat): nat {
    if n == 0 then 0 else 2 * Quotient(c, n - 1) + Digit(Bit(Rounds(c, n - 1), 7))
  }

  lemma {:induction false} RoundsDivide(c: u8, n: nat)
    ensures Shl(c, n) == Xor(Product(0x18d, Quotient(c, n)), Rounds(c, n))
  {
    if n == 0 {
      XorZero(c);
    } else {
      var k := n - 1;
      RoundsDivide(c, k);
      RoundsDivideNext(c, k, n, Quotient(c, k), Rounds(c, k), 0x18d);
    }
  }

  lemma RoundsDivideNext(c: u8, k: nat, n: nat, q: nat, r: u8, g: nat)
    requires n == k + 1 && q == Quotient(c, k) && r == Rounds(c, k) && g == 0x18d
    requires Shl(c, k) == Xor(Product(g, q), r)
    ensures Shl(c, n) == Xor(Product(g, Quotient(c, n)), Rounds(c, n))
  {
    var t := Digit(Bit(r, 7));
    RoundDivides(r);
    Doubled(q, t);
    MoreBits(g, q, t, r, Round(r), 1);
    ShlShl(c, k, 1, n);
    QuotientNext(c, k, n);
  }

  lemma QuotientNext(c: u8, k: nat, n: nat)
    requires n == k + 1
    ensures Quotient(c, n) == 2 * Quotient(c, k) + Digit(Bit(Rounds(c, k), 7)) && Rounds(c, n) == Round(Rounds(c, k))
  {
  }

  /** A division so far, and n more bits of it. */
  lemma MoreBits(g: nat, q: nat, t: nat, r: nat, next: nat, n: nat)
    requires Shl(r, n) == Xor(next, Product(g, t))
    ensures Shl(Xor(Product(g, q), r), n) == Xor(Product(g, Xor(Shl(q, n), t)), next)
  {
    ShlXor(Product(g, q), r, n);
    ProductShl(g, q, n);
    ProductXor(g, Shl(q, n), t);
    XorComm(next, Product(g, t));
    XorAssoc(Product(g, Shl(q, n)), Product(g, t), next);
  }

  lemma Doubled(q: nat, t: nat)
    requires t < 2
    ensures 2 * q + t == Xor(Shl(q, 1), t)
  {
    Join(t, q, 1);
    XorComm(t, Shl(q, 1));
  }

  // ----- the whole message

  function CrcQuotient(data: seq<u8>): nat {
    if data == [] then 0
    else
      var front := data[..|data| - 1];
      Xor(Shl(CrcQuotient(front), 8), Quotient(Xor8(Crc(0, front), data[|data| - 1]), 8))
  }

  lemma {:induction false} CrcDivides(data: seq<u8>)
    ensures Shl(Number(data), 8) == Xor(Product(0x18d, CrcQuotient(data)), Crc(0, data))
  {
    if data == [] {
      ZeroParts(8);
    } else {
      var front, last := data[..|data| - 1], data[|data| - 1];
      CrcDivides(front);
      var m, q, c := Number(front), CrcQuotient(front), Crc(0, front);
      CrcDividesNext(data, front, last, m, q, c, Xor8(c, last), 0x18d, 8);
    }
  }

  lemma CrcDividesNext(data: seq<u8>, front: seq<u8>, last: u8, m: nat, q: nat, c: u8, x: u8, g: nat, n: nat)
    requires data != [] && front == data[..|data| - 1] && last == data[|data| - 1] && g == 0x18d && n == 8
    requires m == Number(front) && q == CrcQuotient(front) && c == Crc(0, front) && x == Xor8(c, last)
    requires Shl(m, n) == Xor(Product(g, q), c)
    ensures Shl(Number(data), n) == Xor(Product(g, CrcQuotient(data)), Crc(0, data))
  {
    Pow2Values();
    Join(last, m, n);
    XorComm(last, Shl(m, n));
    XorAssoc(Product(g, q), c, last);
    RoundsDivide(x, n);
    XorComm(Product(g, Quotient(x, n)), Rounds(x, n));
    MoreBits(g, q, Quotient(x, n), x, Rounds(x, n), n);
  }

  /**
   The CRC of a message is the remainder of the message, eight places up, by x^8 + x^7 + x^3 + x^2 + 1: it is one, and
   nothing else of degree below 8 is.
   */
  lemma CrcIsRemainder(data: seq<u8>, r: u8)
    ensures r == Crc(0, data) <==> exists q :: Shl(Number(data), 8) == Xor(Product(0x18d, q), r)
  {
    CrcDivides(data);
    if r == Crc(0, data) {
      assert Shl(Number(data), 8) == Xor(Product(0x18d, CrcQuotient(data)), r);
    }
    if q :| Shl(Number(data), 8) == Xor(Product(0x18d, q), r) {
      OneRemainder(q, r, CrcQuotient(data), Crc(0, data));
    }
  }

  lemma OneRemainder(q: nat, r: u8, p: nat, s: u8)
    requires Xor(Product(0x18d, q), r) == Xor(Product(0x18d, p), s)
    ensures r == s
  {
    var x, y := Product(0x18d, q), Product(0x18d, p);
    XorShuffle(x, r, y, s);
    XorSelf(Xor(x, r));
    XorIsZero(Xor(x, y), Xor(r, s));
    ProductXor(0x18d, q, p);
    Pow2Values();
    XorBound(r, s, 8);
    if Xor(q, p) != 0 {
      ProductBig(0x18d, Xor(q, p), 8);
      assert false;
    }
    XorIsZero(r, s);
  }
}
