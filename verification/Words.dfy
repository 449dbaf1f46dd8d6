/** 32-bit little-endian access to byte buffers, and the word-wise block operations of the security engine driver. */
module Words {
  import opened Bits
  import opened Blocks

  function ByteOf(w: nat, i: nat): u8 {
    Pow2Values();
    LowBound(Shr(w, 8 * i), 8);
    Low(Shr(w, 8 * i), 8)
  }

  lemma ByteOfBit(w: nat, i: nat, j: nat, k: nat)
    requires j < 8 && k == 8 * i + j
    ensures Bit(ByteOf(w, i), j) == Bit(w, k)
  {
    BitLow(Shr(w, 8 * i), 8, j);
    BitShr(w, 8 * i, j);
  }

  lemma JoinBit(low: nat, high: nat, n: nat, k: nat)
    requires low < Pow2(n)
    ensures low + Shl(high, n) >= 0
    ensures Bit(low + Shl(high, n), k) == if k < n then Bit(low, k) else Bit(high, k - n)
  {
    Join(low, high, n);
    BitXor(low, Shl(high, n), k);
    BitShl(high, n, k);
    LowBound(low, n);
    BitLow(low, n, k);
  }

  /** The word at offset o. */
  function Load(s: seq<u8>, o: nat): (w: u32)
    requires o + 4 <= |s|
    ensures w == s[o] as int + 0x100 * (s[o + 1] as int) + 0x1_0000 * (s[o + 2] as int) + 0x100_0000 * (s[o + 3] as int)
  {
    var v := s[o] + Shl(s[o + 1] + Shl(s[o + 2] + Shl(s[o + 3], 8), 8), 8);
    ShlTimes(s[o + 3], 8);
    ShlTimes(s[o + 2] + Shl(s[o + 3], 8), 8);
    ShlTimes(s[o + 1] + Shl(s[o + 2] + Shl(s[o + 3], 8), 8), 8);
    Pow2Values();
    v
  }

  lemma LoadBit(s: seq<u8>, o: nat, i: nat, j: nat, k: nat)
    requires o + 4 <= |s| && i < 4 && j < 8 && k == 8 * i + j
    ensures Bit(Load(s, o), k) == Bit(s[o + i], j)
  {
    Pow2Values();
    var w3: nat := s[o + 3];
    var w2 := s[o + 2] + Shl(w3, 8);
    var w1 := s[o + 1] + Shl(w2, 8);
    JoinBit(s[o], w1, 8, k);
    if i > 0 {
      JoinBit(s[o + 1], w2, 8, k - 8);
      if i > 1 {
        JoinBit(s[o + 2], w3, 8, k - 16);
      }
    }
  }

  lemma LoadByte(s: seq<u8>, o: nat, i: nat)
    requires o + 4 <= |s| && i < 4
    ensures ByteOf(Load(s, o), i) == s[o + i]
  {
    forall j | 0 <= j < 8
      ensures Bit(ByteOf(Load(s, o), i), j) == Bit(s[o + i], j)
    {
      ByteOfBit(Load(s, o), i, j, 8 * i + j);
      LoadBit(s, o, i, j, 8 * i + j);
    }
    SameByte(ByteOf(Load(s, o), i), s[o + i]);
  }

  lemma XorByte(v: u32, w: u32, i: nat)
    ensures ByteOf(Xor32(v, w), i) == Xor8(ByteOf(v, i), ByteOf(w, i))
  {
    ShrXor(v, w, 8 * i);
    LowXor(Shr(v, 8 * i), Shr(w, 8 * i), 8);
  }

  method StoreWord(a: array<u8>, o: nat, w: u32)
    requires o + 4 <= a.Length
    modifies a
    ensures forall i :: 0 <= i < 4 ==> a[o + i] == ByteOf(w, i)
    ensures forall k :: 0 <= k < a.Length && !(o <= k < o + 4) ==> a[k] == old(a[k])
  {
    a[o] := ByteOf(w, 0);
    a[o + 1] := ByteOf(w, 1);
    a[o + 2] := ByteOf(w, 2);
    a[o + 3] := ByteOf(w, 3);
  }

  // ----- exclusive or of a block, four words at a time

  /** Block number i of a buffer. */
  function Blk(s: seq<u8>, i: nat): Block
    requires 16 * i + 16 <= |s|
  {
    s[16 * i..16 * i + 16]
  }

  /** Outside the bytes from a to b nothing has changed. */
  ghost predicate SameOutside(s: seq<u8>, r: seq<u8>, a: nat, b: nat) {
    |s| == |r| && forall k :: 0 <= k < |s| && !(a <= k < b) ==> r[k] == s[k]
  }

  /** dst[k] = src[k] ^ tweak[k] for one block; dst and src may be the same buffer. */
  method XorBlock(dst: array<u8>, src: array<u8>, o: nat, tweak: array<u8>)
    requires o + 16 <= dst.Length && o + 16 <= src.Length && tweak.Length == 16 && tweak != dst
    modifies dst
    ensures forall k :: 0 <= k < 16 ==> dst[o + k] == Xor8(old(src[o + k]), old(tweak[k]))
    ensures forall k :: 0 <= k < dst.Length && !(o <= k < o + 16) ==> dst[k] == old(dst[k])
  {
    for j := 0 to 4
      invariant forall k :: 0 <= k < 4 * j ==> dst[o + k] == Xor8(old(src[o + k]), tweak[k])
      invariant forall k :: o + 4 * j <= k < o + 16 ==> src[k] == old(src[k])
      invariant forall k :: 0 <= k < dst.Length && !(o <= k < o + 4 * j) ==> dst[k] == old(dst[k])
      invariant tweak[..] == old(tweak[..])
    {
      XorWord(dst, src, o, tweak, j);
    }
  }

  method XorWord(dst: array<u8>, src: array<u8>, o: nat, tweak: array<u8>, j: nat)
    requires j < 4 && o + 16 <= dst.Length && o + 16 <= src.Length && tweak.Length == 16 && tweak != dst
    modifies dst
    ensures forall k :: 4 * j <= k < 4 * j + 4 ==> dst[o + k] == Xor8(old(src[o + k]), old(tweak[k]))
    ensures forall k :: 0 <= k < dst.Length && !(o + 4 * j <= k < o + 4 * j + 4) ==> dst[k] == old(dst[k])
  {
    ghost var s, t := src[..], tweak[..];
    var v, w := Load(src[..], o + 4 * j), Load(tweak[..], 4 * j);
    StoreWord(dst, o + 4 * j, Xor32(v, w));
    forall k | 4 * j <= k < 4 * j + 4
      ensures dst[o + k] == Xor8(s[o + k], t[k])
    {
      var i := k - 4 * j;
      assert dst[o + 4 * j + i] == ByteOf(Xor32(v, w), i);
      XorByte(v, w, i);
      LoadByte(s, o + 4 * j, i);
      LoadByte(t, 4 * j, i);
    }
  }

  // ----- _gf256_mul_x_le

  /** (w << 1) | carry, truncated to 32 bits. */
  function ShiftWord(w: u32, carry: nat): u32
    requires carry < 2
  {
    Pow2Values();
    ShiftBits(w, carry, 32, 0);
    Low(2 * w, 32) + carry
  }

  function WordCarry(w: u32): (c: nat)
    ensures c < 2 && c == Digit(Bit(w, 31))
  {
    Pow2Values();
    TopBit(w, 31);
    Shr(w, 31)
  }

  function CarryInto(b: Block, m: nat): (c: nat)
    requires m <= 4
    ensures c < 2
  {
    if m == 0 then 0 else WordCarry(Load(b, 4 * (m - 1)))
  }

  /** Word m of the shifted block, before the feedback. */
  function Shifted(b: Block, m: nat): u32
    requires m < 4
  {
    ShiftWord(Load(b, 4 * m), CarryInto(b, m))
  }

  /** The word w is stored at offset o. */
  predicate Holds(s: seq<u8>, o: nat, w: u32) {
    o + 4 <= |s| && s[o] == ByteOf(w, 0) && s[o + 1] == ByteOf(w, 1)
    && s[o + 2] == ByteOf(w, 2) && s[o + 3] == ByteOf(w, 3)
  }

  lemma LoadHeld(s: seq<u8>, o: nat, w: u32)
    requires Holds(s, o, w)
    ensures Load(s, o) == w
  {
    forall j | 0 <= j < 32
      ensures Bit(Load(s, o), j) == Bit(w, j)
    {
      LoadBit(s, o, j / 8, j % 8, j);
      ByteOfBit(w, j / 8, j % 8, j);
    }
    SameLowBits(Load(s, o), w, 32);
    Pow2Values();
    LowBound(w, 32);
    LowBound(Load(s, o), 32);
  }

  method MulXLe(block: array<u8>)
    requires block.Length == BLOCK_SIZE
    modifies block
    ensures block[..] == TimesX(old(block[..]))
  {
    ghost var b: Block := block[..];
    var carry, i := 0, 0;
    while i < 4
      invariant 0 <= i <= 4 && carry == CarryInto(b, i)
      invariant forall k :: 4 * i <= k < 16 ==> block[k] == b[k]
      invariant i > 0 ==> Holds(block[..], 0, Shifted(b, 0))
      invariant i > 1 ==> Holds(block[..], 4, Shifted(b, 1))
      invariant i > 2 ==> Holds(block[..], 8, Shifted(b, 2))
      invariant i > 3 ==> Holds(block[..], 12, Shifted(b, 3))
    {
      i := i + 1;
      carry := ShiftOne(block, b, i - 1, carry, i);
    }
    assert i == 4;
    CarryOut(b, i);
    FeedBack(block, b, carry);
  }

  /** After the loop: the bits of 0x87 go into the first word if a bit was shifted out of the last one. */
  method FeedBack(block: array<u8>, ghost b: Block, carry: nat)
    requires block.Length == BLOCK_SIZE && carry == WordCarry(Load(b, 12))
    requires Holds(block[..], 0, Shifted(b, 0)) && Holds(block[..], 4, Shifted(b, 1))
    requires Holds(block[..], 8, Shifted(b, 2)) && Holds(block[..], 12, Shifted(b, 3))
    modifies block
    ensures block[..] == TimesX(b)
  {
    if carry != 0 {
      var w := Load(block[..], 0);
      LoadHeld(block[..], 0, Shifted(b, 0));
      StoreWord(block, 0, Xor32(w, 0x87));
      ShiftedWords(b, block[..], Xor32(w, 0x87));
    } else {
      ShiftedWords(b, block[..], Shifted(b, 0));
    }
  }

  /** The carry out of the last word. The index is a parameter, to keep its arithmetic out of the caller's proof. */
  lemma CarryOut(b: Block, i: nat)
    requires i == 4
    ensures CarryInto(b, i) == WordCarry(Load(b, 12))
  {
  }

  /** One word of the loop. */
  method ShiftOne(block: array<u8>, ghost b: Block, i: nat, carry0: nat, ghost next: nat) returns (carry: nat)
    requires block.Length == BLOCK_SIZE && next == i + 1 <= 4 && carry0 == CarryInto(b, i)
    requires forall k :: 4 * i <= k < 16 ==> block[k] == b[k]
    modifies block
    ensures carry == CarryInto(b, next) && Holds(block[..], 4 * i, Shifted(b, i))
    ensures forall k :: 0 <= k < 16 && !(4 * i <= k < 4 * i + 4) ==> block[k] == old(block[k])
  {
    var w := Load(block[..], 4 * i);
    assert w == Load(b, 4 * i);
    StoreWord(block, 4 * i, ShiftWord(w, carry0));
    assert block[4 * i + 0] == ByteOf(ShiftWord(w, carry0), 0);
    carry := WordCarry(w);
  }

  lemma CoeffOfWord(b: Block, m: nat, j: nat, k: nat)
    requires m < 4 && j < 32 && k == 32 * m + j
    ensures Coeff(b, k) == Bit(Load(b, 4 * m), j)
  {
    LoadBit(b, 4 * m, j / 8, j % 8, j);
    assert k / 8 == 4 * m + j / 8 && k % 8 == j % 8;
  }

  lemma ShiftedBit(b: Block, m: nat, j: nat, k: nat)
    requires m < 4 && j < 32 && k == 32 * m + j
    ensures Bit(Shifted(b, m), j) == (k > 0 && Coeff(b, k - 1))
  {
    ShiftBits(Load(b, 4 * m), CarryInto(b, m), 32, j);
    if j > 0 {
      CoeffOfWord(b, m, j - 1, k - 1);
    } else if m > 0 {
      CoeffOfWord(b, m - 1, 31, k - 1);
    }
  }

  /** The word-wise result is x times the block, coefficient by coefficient. */
  lemma ShiftedWords(b: Block, r: Block, first: u32)
    requires first == if WordCarry(Load(b, 12)) != 0 then Xor32(Shifted(b, 0), 0x87) else Shifted(b, 0)
    requires Holds(r, 0, first) && Holds(r, 4, Shifted(b, 1)) && Holds(r, 8, Shifted(b, 2))
    requires Holds(r, 12, Shifted(b, 3))
    ensures r == TimesX(b)
  {
    LoadHeld(r, 0, first);
    LoadHeld(r, 4, Shifted(b, 1));
    LoadHeld(r, 8, Shifted(b, 2));
    LoadHeld(r, 12, Shifted(b, 3));
    forall k | 0 <= k < 128
      ensures Coeff(r, k) == Coeff(TimesX(b), k)
    {
      TimesXCoeff(b, k);
      if k < 32 {
        ResultCoeff(b, r, first, 0, k, k);
      } else if k < 64 {
        ResultCoeff(b, r, first, 1, k - 32, k);
      } else if k < 96 {
        ResultCoeff(b, r, first, 2, k - 64, k);
      } else {
        ResultCoeff(b, r, first, 3, k - 96, k);
      }
    }
    SameCoeffs(r, TimesX(b));
  }

  lemma ResultCoeff(b: Block, r: Block, first: u32, m: nat, j: nat, k: nat)
    requires m < 4 && j < 32 && k == 32 * m + j
    requires first == if WordCarry(Load(b, 12)) != 0 then Xor32(Shifted(b, 0), 0x87) else Shifted(b, 0)
    requires Load(r, 4 * m) == if m == 0 then first else Shifted(b, m)
    ensures Coeff(r, k) == ((k > 0 && Coeff(b, k - 1)) != (Coeff(b, 127) && Feedback(k)))
  {
    CoeffOfWord(r, m, j, k);
    ShiftedBit(b, m, j, k);
    CoeffOfWord(b, 3, 31, 127);
    FeedbackBits(j);
    BitXor(Shifted(b, 0), 0x87, j);
  }
}
