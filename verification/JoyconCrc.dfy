/** The CRC-8 of the controller packets: polynomial x^8 + x^7 + x^3 + x^2 + 1, most significant bit first. */
module JoyconCrc {
  import opened Bits

  const POLY: u8 := 0x8d

  function Shift(c: u8): u8 {
    Pow2Values();
    LowBound(Shl(c, 1), 8);
    Low(Shl(c, 1), 8)
  }

  /** One bit of the division. */
  function Round(c: u8): u8 { if Bit(c, 7) then Xor8(Shift(c), POLY) else Shift(c) }

  function Rounds(c: u8, n: nat): u8 { if n == 0 then c else Round(Rounds(c, n - 1)) }

  function BitsPerByte(): (n: nat)
    ensures n == 8
  {
    8
  }

  function Byte(c: u8): u8 { Rounds(c, BitsPerByte()) }

  function Crc(init: u8, data: seq<u8>): u8 {
    if data == [] then init else Byte(Xor8(Crc(init, data[..|data| - 1]), data[|data| - 1]))
  }

  lemma CrcNext(init: u8, data: seq<u8>, i: nat, next: nat)
    requires next == i + 1 <= |data|
    ensures Crc(init, data[..next]) == Byte(Xor8(Crc(init, data[..i]), data[i]))
  {
    assert data[..next][..i] == data[..i];
  }

  /** The top bit is what the test against 0x80 looks at. */
  lemma TopBit(c: u8)
    ensures Bit(c, 7) <==> c >= 0x80
  {
    Pow2Values();
    TopBitOf(c, 7, 0x80);
  }

  lemma {:induction false} TopBitOf(c: nat, n: nat, p: nat)
    requires p == Pow2(n) && c < 2 * p
    ensures Bit(c, n) <==> c >= p
    decreases n
  {
    if n != 0 {
      TopBitOf(c / 2, n - 1, Pow2(n - 1));
    }
  }

  /** _jc_crc. */
  method ComputeCrc(data: seq<u8>, init: u8) returns (crc: u8)
    requires |data| < 0x1_0000
    ensures crc == Crc(init, data)
  {
    crc := init;
    var i := 0;
    while i < |data|
      invariant 0 <= i <= |data| && crc == Crc(init, data[..i])
    {
      crc := CrcByte(Xor8(crc, data[i]));
      i := i + 1;
      CrcNext(init, data, i - 1, i);
    }
    assert data[..i] == data;
  }

  method CrcByte(c: u8) returns (crc: u8)
    ensures crc == Byte(c)
  {
    crc := c;
    var j := 0;
    while j < BitsPerByte()
      invariant 0 <= j <= BitsPerByte() && crc == Rounds(c, j)
    {
      j := j + 1;
      RoundsNext(c, j - 1, j);
      TopBit(crc);
      if crc >= 0x80 {
        crc := Xor8(Shift(crc), POLY);
      } else {
        crc := Shift(crc);
      }
    }
  }

  lemma RoundsNext(c: u8, n: nat, next: nat)
    requires next == n + 1
    ensures Rounds(c, next) == Round(Rounds(c, n))
  {
  }

  // ----- the division is linear and loses nothing

  lemma ShiftXor(a: u8, b: u8)
    ensures Shift(Xor8(a, b)) == Xor8(Shift(a), Shift(b))
  {
    ShlXor(a, b, 1);
    LowXor(Shl(a, 1), Shl(b, 1), 8);
  }

  lemma RoundXor(a: u8, b: u8)
    ensures Round(Xor8(a, b)) == Xor8(Round(a), Round(b))
  {
    var x, y: nat, p: nat := Shift(a), Shift(b), POLY;
    ShiftXor(a, b);
    BitXor(a, b, 7);
    XorAssoc(x, y, p);
    XorSwap(x, y, p);
    XorAssoc(x, p, Xor(y, p));
    XorComm(p, Xor(y, p));
    XorCancel(y, p);
  }

  lemma {:induction false} RoundsXor(a: u8, b: u8, n: nat)
    ensures Rounds(Xor8(a, b), n) == Xor8(Rounds(a, n), Rounds(b, n))
  {
    if n != 0 {
      RoundsXor(a, b, n - 1);
      RoundXor(Rounds(a, n - 1), Rounds(b, n - 1));
    }
  }

  lemma ShiftValue(c: u8)
    ensures Shift(c) % 2 == 0 && (!Bit(c, 7) ==> Shift(c) == 2 * c)
  {
    Pow2Values();
    TopBit(c);
    assert Shl(c, 1) == 2 * c;
    LowBound(2 * c, 8);
  }

  lemma RoundZero(c: u8)
    ensures Round(c) == 0 <==> c == 0
  {
    ShiftValue(c);
    if Bit(c, 7) {
      XorStep(Shift(c), POLY);
      BitOfZero(7);
    }
  }

  lemma {:induction false} RoundsZero(c: u8, n: nat)
    ensures Rounds(c, n) == 0 <==> c == 0
  {
    if n != 0 {
      RoundsZero(c, n - 1);
      RoundZero(Rounds(c, n - 1));
    }
  }

  lemma {:induction false} RoundsAdd(c: u8, m: nat, n: nat, sum: nat)
    requires sum == m + n
    ensures Rounds(c, sum) == Rounds(Rounds(c, m), n)
    decreases n
  {
    if n != 0 {
      RoundsAdd(c, m, n - 1, sum - 1);
    }
  }

  lemma {:induction false} ShlBound(v: nat, m: nat, n: nat, sum: nat)
    requires v < Pow2(m) && sum == m + n
    ensures Shl(v, n) < Pow2(sum)
    decreases n
  {
    if n != 0 {
      ShlBound(v, m, n - 1, sum - 1);
    }
  }

  /** While the top bits are zero the rounds only shift. */
  lemma {:induction false} ShiftRounds(v: u8, n: nat, room: nat)
    requires n + room == 8 && v < Pow2(room)
    ensures Rounds(v, n) == Shl(v, n)
    decreases n
  {
    if n != 0 {
      Pow2Less(room, room + 1);
      ShiftRounds(v, n - 1, room + 1);
      ShlBound(v, room, n - 1, 7);
      Pow2Values();
      TopBit(Rounds(v, n - 1));
      ShiftValue(Rounds(v, n - 1));
    }
  }

  function XorSeq(a: seq<u8>, b: seq<u8>): (r: seq<u8>)
    requires |a| == |b|
    ensures |r| == |a|
  {
    seq(|a|, i requires 0 <= i < |a| => Xor8(a[i], b[i]))
  }

  lemma XorShuffle(p: nat, q: nat, x: nat, y: nat)
    ensures Xor(Xor(p, q), Xor(x, y)) == Xor(Xor(p, x), Xor(q, y))
  {
    XorAssoc(Xor(p, q), x, y);
    XorSwap(p, q, x);
    XorAssoc(Xor(p, x), q, y);
  }

  lemma ByteXor(c: u8, d: u8, x: u8, y: u8)
    ensures Byte(Xor8(Xor8(c, d), Xor8(x, y))) == Xor8(Byte(Xor8(c, x)), Byte(Xor8(d, y)))
  {
    XorShuffle(c, d, x, y);
    RoundsXor(Xor8(c, x), Xor8(d, y), BitsPerByte());
  }

  lemma CrcLast(init: u8, data: seq<u8>, front: seq<u8>, n: nat)
    requires |data| == n + 1 && front == data[..n]
    ensures Crc(init, data) == Byte(Xor8(Crc(init, front), data[n]))
  {
  }

  /** The CRC is linear in start value and data together. */
  lemma {:induction false} CrcXor(p: u8, q: u8, a: seq<u8>, b: seq<u8>)
    requires |a| == |b|
    ensures Crc(Xor8(p, q), XorSeq(a, b)) == Xor8(Crc(p, a), Crc(q, b))
    decreases |a|
  {
    if a != [] {
      var n := |a| - 1;
      var a0, b0, s, s0 := a[..n], b[..n], XorSeq(a, b), XorSeq(a[..n], b[..n]);
      CrcXor(p, q, a0, b0);
      assert s[..n] == s0;
      CrcLast(p, a, a0, n);
      CrcLast(q, b, b0, n);
      CrcLast(Xor8(p, q), s, s0, n);
      ByteXor(Crc(p, a0), Crc(q, b0), a[n], b[n]);
    }
  }

  /** Continuing with the CRC of the front as the start value gives the CRC of the whole. */
  lemma {:induction false} CrcAppend(init: u8, a: seq<u8>, b: seq<u8>)
    ensures Crc(init, a + b) == Crc(Crc(init, a), b)
    decreases |b|
  {
    if b == [] {
      assert a + b == a;
    } else {
      var n := |b| - 1;
      CrcAppend(init, a, b[..n]);
      assert (a + b)[..|a + b| - 1] == a + b[..n];
    }
  }

  /** A byte behind a message makes the whole divisible exactly when it is the message's own CRC. */
  lemma OwnCrc(m: seq<u8>, crc: u8)
    ensures Crc(0, m + [crc]) == 0 <==> crc == Crc(0, m)
  {
    assert (m + [crc])[..|m|] == m;
    RoundsZero(Xor8(Crc(0, m), crc), BitsPerByte());
    XorIsZero(Crc(0, m), crc);
  }

  /** Zero bytes lose nothing. */
  lemma {:induction false} CrcZeros(e: seq<u8>, i: nat, n: nat)
    requires i <= n <= |e| && forall k :: i <= k < n ==> e[k] == 0
    ensures Crc(0, e[..n]) == 0 <==> Crc(0, e[..i]) == 0
    decreases n
  {
    if i < n {
      CrcZeros(e, i, n - 1);
      CrcNext(0, e, n - 1, n);
      XorZero(Crc(0, e[..n - 1]));
      RoundsZero(Crc(0, e[..n - 1]), BitsPerByte());
    }
  }

  // ----- bursts

  /** The part of an 8-bit burst that falls into its first byte when it starts at bit r of that byte, and the rest. */
  function FirstPart(b: u8, r: nat): u8
    requires r < 8
  {
    LowBound(b, 8);
    ShrSmall(b, r);
    Shr(b, r)
  }

  function SecondPart(b: u8, r: nat): u8
    requires r < 8
  {
    Pow2Values();
    LowBound(Shl(b, 8 - r), 8);
    Low(Shl(b, 8 - r), 8)
  }

  lemma {:induction false} ShrSmall(a: nat, k: nat)
    ensures Shr(a, k) <= a
  {
    if k != 0 {
      ShrSmall(a / 2, k - 1);
    }
  }

  /** After both bytes the state is that of the burst itself, some rounds on. */
  lemma BurstState(b: u8, r: nat, k: nat)
    requires r + k == 8 && 0 < k
    ensures Xor8(Byte(FirstPart(b, r)), SecondPart(b, r)) == Rounds(b, k)
  {
    var h, low := Shr(b, r), Low(b, r);
    Parts(b, r);
    ShrSmall(b, r);
    LowBound(b, r);
    Join(low, h, r);
    HighBound(b, r, k);
    ShlBound(h, k, r, 8);
    Pow2Values();
    ShiftRounds(h, r, k);
    RoundsAdd(h, r, k, BitsPerByte());
    LowShift(b, r, k);
    ShlBound(low, r, k, 8);
    ShiftRounds(low, k, r);
    RoundsXor(low, Shl(h, r), k);
    XorComm(Rounds(low, k), Rounds(Shl(h, r), k));
  }

  lemma HighBound(b: u8, r: nat, k: nat)
    requires r + k == 8
    ensures Shr(b, r) < Pow2(k)
  {
    Pow2Values();
    ShrLess(b, r, k, 8);
  }

  lemma LowShift(b: u8, r: nat, k: nat)
    requires r + k == 8
    ensures Low(Shl(b, k), 8) == Shl(Low(b, r), k)
  {
    ShiftLow(b, r, k, 8);
  }

  lemma {:induction false} ShiftLow(b: nat, r: nat, k: nat, sum: nat)
    requires r + k == sum
    ensures Low(Shl(b, k), sum) == Shl(Low(b, r), k)
    decreases k
  {
    if k != 0 {
      ShiftLow(b, r, k - 1, sum - 1);
      assert Shl(b, k) == 2 * Shl(b, k - 1);
    }
  }

  function BurstByte(b: u8, p: nat, i: nat): u8 {
    if i == p / 8 then FirstPart(b, p % 8) else if i == p / 8 + 1 then SecondPart(b, p % 8) else 0
  }

  /** The error that flips the bits of b, from bit p of the packet on. */
  function Burst(n: nat, p: nat, b: u8): (e: seq<u8>)
    requires p + 8 <= 8 * n
    ensures |e| == n
  {
    seq(n, i requires 0 <= i < n => BurstByte(b, p, i))
  }

  /** Bit q of a packet, counted from the most significant bit of its first byte. */
  predicate PacketBit(e: seq<u8>, q: nat)
    requires q < 8 * |e|
  {
    Bit(e[q / 8], 7 - q % 8)
  }

  lemma BurstBits(n: nat, p: nat, b: u8, q: nat)
    requires p + 8 <= 8 * n && q < 8 * n
    ensures PacketBit(Burst(n, p, b), q) <==> p <= q < p + 8 && Bit(b, 7 - (q - p))
  {
    var r, t := p % 8, 7 - q % 8;
    if q / 8 == p / 8 {
      BitShr(b, r, t);
      HighBits(b, r + t);
    } else if q / 8 == p / 8 + 1 {
      BitLow(Shl(b, 8 - r), 8, t);
      BitShl(b, 8 - r, t);
    } else {
      BitOfZero(t);
    }
  }

  lemma HighBits(b: u8, k: nat)
    ensures k >= 8 ==> !Bit(b, k)
  {
    Pow2Values();
    LowBound(b, 8);
    BitLow(b, 8, k);
  }

  /** The state after the first byte of the burst, and after the second. */
  lemma BurstBegins(e: seq<u8>, i: nat, next: nat)
    requires next == i + 1 <= |e| && forall j :: 0 <= j < i ==> e[j] == 0
    ensures Crc(0, e[..next]) == Byte(e[i])
  {
    assert e[..0] == [];
    CrcZeros(e, 0, i);
    CrcNext(0, e, i, next);
    XorZero(e[i]);
  }

  lemma BurstGoesOn(e: seq<u8>, i: nat, next: nat, b: u8, r: nat, k: nat)
    requires next == i + 1 < |e| && r + k == 8 && 0 < k && b != 0
    requires Crc(0, e[..next]) == Byte(FirstPart(b, r)) && e[next] == SecondPart(b, r)
    ensures Crc(0, e[..next + 1]) != 0
  {
    CrcNext(0, e, next, next + 1);
    BurstState(b, r, k);
    RoundsZero(b, k);
    RoundsZero(Rounds(b, k), BitsPerByte());
  }

  lemma BurstSeen(n: nat, p: nat, b: u8)
    requires p + 8 <= 8 * n && b != 0
    ensures Crc(0, Burst(n, p, b)) != 0
  {
    var e, i, r := Burst(n, p, b), p / 8, p % 8;
    var next := i + 1;
    BurstBegins(e, i, next);
    if next < n {
      BurstGoesOn(e, i, next, b, r, 8 - r);
      CrcZeros(e, next + 1, n);
    } else {
      assert r == 0 && e[i] == b;
      RoundsZero(b, BitsPerByte());
    }
    assert e[..n] == e;
  }

  /** _jc_sio_uart_pkt_parse goes on only with a packet header that ends in its own CRC. */
  predicate Accepts(packet: seq<u8>)
    requires packet != []
  {
    packet[|packet| - 1] == Crc(0, packet[..|packet| - 1])
  }

  lemma AcceptsIs(packet: seq<u8>)
    requires packet != []
    ensures Accepts(packet) <==> Crc(0, packet) == 0
  {
    var n := |packet| - 1;
    assert packet == packet[..n] + [packet[n]];
    OwnCrc(packet[..n], packet[n]);
  }

  lemma ErrorAdds(packet: seq<u8>, e: seq<u8>)
    requires |packet| == |e| && Crc(0, packet) == 0
    ensures Crc(0, XorSeq(packet, e)) == Crc(0, e)
  {
    var zero: u8 := 0;
    XorZero(zero);
    CrcXor(zero, zero, packet, e);
    XorZero(Crc(0, e));
  }

  /** Every burst of at most 8 bits in a good packet of any length is noticed, wherever it is. */
  lemma BurstDetected(packet: seq<u8>, p: nat, b: u8)
    requires packet != [] && Accepts(packet) && p + 8 <= 8 * |packet| && b != 0
    ensures !Accepts(XorSeq(packet, Burst(|packet|, p, b)))
  {
    var e := Burst(|packet|, p, b);
    AcceptsIs(packet);
    BurstSeen(|packet|, p, b);
    ErrorAdds(packet, e);
    AcceptsIs(XorSeq(packet, e));
  }
}
