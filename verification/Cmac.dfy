/** CMAC with AES-128 on the security engine (RFC 4493), for any permutation of the blocks as the cipher. */
module Cmac {
  import opened Bits
  import opened Blocks
  import opened Numbers
  import opened Words

  // ----- the doubling, on 128-bit numbers

  function Width(): (n: nat)
    ensures n == 128
  {
    128
  }

  /** Section 2.3 of RFC 4493: shift left by one bit, and add the constant when the top bit was set. */
  function Doubled(l: nat): nat { Reduced(l, Width()) }

  function Reduced(l: nat, n: nat): nat
    requires 0 < n
  {
    if Bit(l, n - 1) then Xor(Low(2 * l, n), 0x87) else Low(2 * l, n)
  }

  lemma HighFeedback(k: nat)
    ensures Bit(0x87, k) == Feedback(k)
  {
    if k < 32 {
      FeedbackBits(k);
    } else {
      Pow2Values();
      LowBound(0x87, 8);
      BitLow(0x87, 8, k);
    }
  }

  lemma ReducedBit(l: nat, k: nat, n: nat)
    requires k < n
    ensures Bit(Reduced(l, n), k) == ((k > 0 && Bit(l, k - 1)) != (Bit(l, n - 1) && Feedback(k)))
  {
    BitXor(Low(2 * l, n), 0x87, k);
    BitLow(2 * l, n, k);
    HighFeedback(k);
  }

  lemma NumberCoeff(b: Block, k: nat)
    requires k < 128
    ensures Bit(Number(b), k) == Coeff(Reverse(b), k)
  {
    NumberBit(b, k);
  }

  lemma SameDoubling(b: Block, k: nat)
    requires k < 128
    ensures Bit(Number(TimesXBig(b)), k) == Bit(Doubled(Number(b)), k)
  {
    NumberCoeff(TimesXBig(b), k);
    ReverseTwice(TimesX(Reverse(b)));
    TimesXCoeff(Reverse(b), k);
    ReducedBit(Number(b), k, Width());
    NumberCoeff(b, Width() - 1);
    if k > 0 {
      NumberCoeff(b, k - 1);
    }
  }

  lemma DoubledNumber(b: Block)
    ensures Number(TimesXBig(b)) == Doubled(Number(b))
  {
    var x, y, n := Number(TimesXBig(b)), Doubled(Number(b)), Width();
    forall k: nat | k < n
      ensures Bit(x, k) == Bit(y, k)
    {
      SameDoubling(b, k);
    }
    SameLowBits(x, y, n);
    NumberBound(TimesXBig(b), n);
    LowBound(x, n);
    ReducedBound(Number(b), n);
    LowBound(y, n);
  }

  lemma ReducedBound(l: nat, n: nat)
    requires 8 < n
    ensures Reduced(l, n) < Pow2(n)
  {
    LowBound(2 * l, n);
    Pow2Values();
    Pow2Less(8, n);
    XorBound(Low(2 * l, n), 0x87, n);
  }

  lemma WidePowers(h: nat, n: nat)
    requires h == 127 && n == 128
    ensures Pow2(h) == 0x8000_0000_0000_0000_0000_0000_0000_0000 && Pow2(n) == 2 * Pow2(h)
  {
    Pow2Values();
    Pow2Sum(32, 32, 64);
    ShlTimes(Pow2(32), 32);
    Pow2Sum(64, 64, n);
    ShlTimes(Pow2(64), 64);
  }

  /** The top bit of a number of n + 1 bits, and what is left without it. */
  lemma {:induction false} HighestBit(l: nat, n: nat, next: nat)
    requires next == n + 1 && l < Pow2(next)
    ensures Bit(l, n) <==> Pow2(n) <= l
    ensures Low(l, n) == l - if Pow2(n) <= l then Pow2(n) else 0
  {
    if n != 0 {
      HighestBit(l / 2, n - 1, n);
    }
  }

  lemma ReducedValue(l: nat, h: nat, n: nat)
    requires n == h + 1 && l < Pow2(n)
    ensures Reduced(l, n) == if l < Pow2(h) then 2 * l else Xor(2 * l - Pow2(n), 0x87)
  {
    HighestBit(l, h, n);
    assert Low(2 * l, n) == 2 * Low(l, h) && Pow2(n) == 2 * Pow2(h);
  }

  lemma DoublingFrom(b: Block, h: nat, n: nat, half: nat, whole: nat)
    requires h == 127 && n == 128 && half == Pow2(h) && whole == Pow2(n) == 2 * half
    ensures Number(TimesXBig(b)) ==
            if Number(b) < half then 2 * Number(b) else Xor(2 * Number(b) - whole, 0x87)
  {
    DoubledNumber(b);
    NumberBound(b, n);
    ReducedValue(Number(b), h, n);
  }

  /** The driver's doubling is the one of the standard, with the top bit of 128 and the constant written out. */
  lemma DoublingIsStandard(b: Block)
    ensures var l := Number(b);
            Number(TimesXBig(b)) ==
            if l < 0x8000_0000_0000_0000_0000_0000_0000_0000 then 2 * l
            else Xor(2 * l - 0x1_0000_0000_0000_0000_0000_0000_0000_0000, 0x87)
  {
    WidePowers(127, 128);
    DoublingFrom(b, 127, 128, 0x8000_0000_0000_0000_0000_0000_0000_0000,
                 0x1_0000_0000_0000_0000_0000_0000_0000_0000);
  }

  // ----- RFC 4493

  function SubKey1(f: Block -> Block): Block { TimesXBig(f(ZeroBlock())) }

  function SubKey2(f: Block -> Block): Block { TimesXBig(SubKey1(f)) }

  /** A partial block followed by one bit and as many zeros as needed. */
  function Pad(m: seq<u8>): Block
    requires |m| < 16
  {
    m + [0x80] + seq(15 - |m|, _ => 0)
  }

  lemma PadAt(m: seq<u8>, k: nat)
    requires |m| < 16 && k < 16
    ensures Pad(m)[k] == if k < |m| then m[k] else if k == |m| then 0x80 else 0
  {
  }

  /** Messages of different content or length are padded to different blocks. */
  lemma PadInjective(a: seq<u8>, b: seq<u8>)
    requires |a| < 16 && |b| < 16
    ensures Pad(a) == Pad(b) <==> a == b
  {
    PadAt(a, |a|);
    PadAt(b, |a|);
    PadAt(a, |b|);
    PadAt(b, |b|);
    if Pad(a) == Pad(b) {
      assert |a| == |b|;
      assert a == Pad(a)[..|a|] && b == Pad(b)[..|b|];
    }
  }

  /** Section 2.4 of RFC 4493: the message, a single one bit behind it, and zeros up to 128 bits. */
  lemma PadNumber(m: seq<u8>, zeros: nat)
    requires |m| < 16 && zeros == 127 - 8 * |m|
    ensures Number(Pad(m)) == Shl(2 * Number(m) + 1, zeros)
  {
    var z: seq<u8>, k, p := seq(15 - |m|, _ => 0), 8 * (15 - |m|), m + [0x80];
    NumberAppend(p, z, k, Pad(m));
    NumberOfZeros(15 - |m|);
    NumberAppend(m, [0x80], 8, p);
    OneByte(0x80);
    MarkedNumber(Number(m), k, zeros);
  }

  lemma OneByte(b: u8)
    ensures Number([b]) == b
  {
    assert [b][..0] == [];
    ZeroParts(8);
  }

  lemma MarkedNumber(n: nat, k: nat, zeros: nat)
    requires zeros == k + 7
    ensures Shl(0x80 + Shl(n, 8), k) == Shl(2 * n + 1, zeros)
  {
    ShlShl(n, 1, 7, 8);
    ShlAdd(1, 2 * n, 7);
    ShlShl(2 * n + 1, 7, k, zeros);
  }

  function Filled(m: seq<u8>): Block
    requires |m| <= 16
  {
    if |m| == 16 then m else Pad(m)
  }

  function SubKeyFor(f: Block -> Block, whole: bool): Block { if whole then SubKey1(f) else SubKey2(f) }

  /** The last block: masked with the first sub key if complete, else padded and masked with the second. */
  function Last(f: Block -> Block, m: seq<u8>): Block
    requires |m| <= 16
  {
    XorB(Filled(m), SubKeyFor(f, |m| == 16))
  }

  /** The chaining of section 2.4, from state x on. */
  function Chain(f: Block -> Block, x: Block, m: seq<u8>): Block
    decreases |m|
  {
    if |m| <= 16 then f(XorB(Last(f, m), x)) else Chain(f, f(XorB(x, m[..16])), m[16..])
  }

  function Mac(f: Block -> Block, m: seq<u8>): Block { Chain(f, ZeroBlock(), m) }

  /** One block: masked with the double of the encrypted zero block, or padded and masked with twice that. */
  lemma OneBlockMac(f: Block -> Block, m: seq<u8>)
    requires |m| <= 16
    ensures var k1 := TimesXBig(f(ZeroBlock()));
            Mac(f, m) == f(if |m| == 16 then XorB(m, k1) else XorB(Pad(m), TimesXBig(k1)))
  {
    XorBZero(Last(f, m));
  }

  // ----- the engine

  /** The state after n whole blocks. */
  function Absorb(f: Block -> Block, x: Block, m: seq<u8>, n: nat): Block
    requires 16 * n <= |m|
  {
    if n == 0 then x else f(XorB(Absorb(f, x, m, n - 1), Blk(m, n - 1)))
  }

  lemma BlockBehind(m: seq<u8>, k: nat, n: nat)
    requires n == k + 1 && 16 * n + 16 <= |m|
    ensures Blk(m, n) == Blk(m[16..], k)
  {
    assert m[16..][16 * k..16 * k + 16] == m[16 * n..16 * n + 16];
  }

  lemma {:induction false} AbsorbFront(f: Block -> Block, x: Block, m: seq<u8>, n: nat, next: nat)
    requires next == n + 1 && 16 * next <= |m|
    ensures Absorb(f, x, m, next) == Absorb(f, f(XorB(x, m[..16])), m[16..], n)
    decreases n
  {
    if n == 0 {
      assert Blk(m, 0) == m[..16];
    } else {
      AbsorbFront(f, x, m, n - 1, n);
      BlockBehind(m, n - 1, n);
    }
  }

  lemma ChainNext(f: Block -> Block, x: Block, m: seq<u8>, y: Block, rest: seq<u8>)
    requires |m| > 16 && y == f(XorB(x, m[..16])) && rest == m[16..]
    ensures Chain(f, x, m) == Chain(f, y, rest)
  {
  }

  /** Running the engine over all blocks but the last, and then over the masked last one, is the standard's chaining. */
  lemma {:induction false} ChainByBlocks(f: Block -> Block, x: Block, m: seq<u8>, n: nat, last: seq<u8>)
    requires 16 * n <= |m| <= 16 * n + 16 && (n > 0 ==> 16 * n < |m|) && last == m[16 * n..]
    ensures Chain(f, x, m) == f(XorB(Last(f, last), Absorb(f, x, m, n)))
    decreases n
  {
    if n == 0 {
      assert last == m;
    } else {
      var y: Block, rest := f(XorB(x, m[..16])), m[16..];
      var k := n - 1;
      assert last == rest[16 * k..];
      ChainNext(f, x, m, y, rest);
      ChainByBlocks(f, y, rest, k, last);
      AbsorbFront(f, x, m, k, n);
    }
  }

  /** The engine in hash mode with one key: both initialisation vectors, the selected one, and the hash result. */
  class Engine {
    const f: Block -> Block
    var original: Block
    var updated: Block
    var useUpdated: bool
    var hash: Block

    constructor (f: Block -> Block, original: Block, updated: Block, hash: Block)
      ensures this.f == f
    {
      this.f := f;
      this.original := original;
      this.updated := updated;
      this.useUpdated := false;
      this.hash := hash;
    }

    method ClearIvs()
      modifies this
      ensures original == updated == ZeroBlock() && useUpdated == old(useUpdated) && hash == old(hash)
    {
      original := ZeroBlock();
      updated := ZeroBlock();
    }

    /** One operation over n blocks of the source; it may fail, and then its results are not known. */
    method Run(src: seq<u8>, n: nat) returns (ok: bool)
      requires 16 * n <= |src|
      modifies this`updated, this`hash
      ensures ok ==> updated == hash == Absorb(f, if old(useUpdated) then old(updated) else original, src, n)
    {
      var x := if useUpdated then updated else original;
      for i := 0 to n
        invariant x == Absorb(f, if old(useUpdated) then old(updated) else original, src, i)
      {
        x := f(XorB(x, Blk(src, i)));
      }
      ok := *;
      updated, hash := x, x;
    }
  }

  // ----- se_aes_cmac_128

  /** last_block[i] ^= key[i]. */
  method XorInto(a: array<u8>, key: array<u8>)
    requires a.Length == key.Length == BLOCK_SIZE && a != key
    modifies a
    ensures a[..] == XorB(old(a[..]), key[..])
  {
    for i := 0 to BLOCK_SIZE
      invariant forall k :: 0 <= k < i ==> a[k] == Xor8(old(a[k]), key[k])
      invariant forall k :: i <= k < BLOCK_SIZE ==> a[k] == old(a[k])
    {
      a[i] := Xor8(a[i], key[i]);
    }
  }

  /** One block. The one is a parameter, as unfolding the recursion at a literal is costly. */
  lemma AbsorbOne(f: Block -> Block, x: Block, b: Block, n: nat)
    requires n == 1
    ensures Absorb(f, x, b, n) == f(XorB(x, b))
  {
    assert Blk(b, 0) == b;
    assert Absorb(f, x, b, 0) == x;
  }

  /** One block through the engine, from the state that is selected. */
  method RunOne(engine: Engine, b: seq<u8>) returns (ok: bool)
    requires |b| == BLOCK_SIZE
    modifies engine`updated, engine`hash
    ensures ok ==> engine.hash == engine.f(XorB(old(if engine.useUpdated then engine.updated else engine.original), b))
  {
    ghost var x := if engine.useUpdated then engine.updated else engine.original;
    var n := 1;
    ok := engine.Run(b, n);
    AbsorbOne(engine.f, x, b, n);
  }

  /** se_aes_crypt_hash on a zero block, whose result goes to memory. */
  method Zeros(engine: Engine, key: array<u8>) returns (ok: bool)
    requires key.Length == BLOCK_SIZE && key[..] == ZeroBlock()
    modifies engine, key
    ensures ok ==> key[..] == engine.f(ZeroBlock())
  {
    engine.ClearIvs();
    engine.useUpdated := false;
    ok := RunOne(engine, key[..]);
    XorBZero(ZeroBlock());
    forall k | 0 <= k < BLOCK_SIZE {
      key[k] := engine.hash[k];
    }
    assert key[..] == engine.hash;
  }

  /** The sub key that the size of the message asks for. */
  method SubKey(engine: Engine, size: nat) returns (ok: bool, key: array<u8>)
    modifies engine
    ensures fresh(key) && key.Length == BLOCK_SIZE
    ensures ok ==> key[..] == SubKeyFor(engine.f, size % 16 == 0)
    ensures ok ==>
              var k1 := TimesXBig(engine.f(ZeroBlock()));
              key[..] == if size % 16 == 0 then k1 else TimesXBig(k1)
  {
    key := new u8[BLOCK_SIZE](_ => 0);
    assert key[..] == ZeroBlock();
    ok := Zeros(engine, key);
    if ok {
      MulX(key);
      if size % 16 != 0 {
        MulX(key);
      }
    }
  }

  /** What the driver treats as the last block: a size that is a multiple of 16 is not padded, not even size 0. */
  function LastBytes(m: seq<u8>): Block {
    if |m| % 16 != 0 then Pad(m[|m| / 16 * 16..]) else if |m| >= 16 then m[|m| - 16..] else ZeroBlock()
  }

  method LastBlock(src: seq<u8>) returns (a: array<u8>)
    ensures fresh(a) && a.Length == BLOCK_SIZE && a[..] == LastBytes(src)
    ensures var r := |src| % 16;
            r != 0 ==> Number(a[..]) == Shl(2 * Number(src[|src| - r..]) + 1, 127 - 8 * r)
  {
    a := new u8[BLOCK_SIZE](_ => 0);
    var n, r := |src| / 16 * 16, |src| % 16;
    if r != 0 {
      forall k | 0 <= k < r {
        a[k] := src[n + k];
      }
      a[r] := 0x80;
      assert a[..] == Pad(src[n..]);
      PadNumber(src[n..], 127 - 8 * r);
    } else if |src| >= 16 {
      forall k | 0 <= k < 16 {
        a[k] := src[|src| - 16 + k];
      }
    } else {
      assert a[..] == ZeroBlock();
    }
  }

  /** What the driver computes, for every message. */
  function DriverMac(f: Block -> Block, m: seq<u8>): Block {
    if m == [] then f(SubKey1(f)) else Mac(f, m)
  }

  /** The blocks before the last one. */
  function Before(size: nat): (n: nat)
    ensures 16 * n <= size <= 16 * n + 16 && (n > 0 ==> 16 * n < size)
  {
    if size == 0 then 0 else (size - 1) / 16
  }

  lemma LastBytesAre(m: seq<u8>, n: nat)
    requires m != [] && n == Before(|m|)
    ensures LastBytes(m) == Filled(m[16 * n..]) && (|m| % 16 == 0 <==> |m[16 * n..]| == 16)
  {
    var size := |m|;
    if size % 16 != 0 {
      assert size / 16 * 16 == 16 * n;
    } else {
      assert size - 16 == 16 * n;
    }
  }

  lemma LastIs(f: Block -> Block, m: seq<u8>, n: nat, r: seq<u8>, key: Block)
    requires m != [] && n == Before(|m|) && r == m[16 * n..] && key == SubKeyFor(f, |m| % 16 == 0)
    ensures |r| <= 16 && XorB(LastBytes(m), key) == Last(f, r)
  {
    LastBytesAre(m, n);
  }

  lemma EmptySteps(f: Block -> Block, x: Block, key: Block, masked: Block)
    requires x == ZeroBlock() && masked == XorB(ZeroBlock(), key)
    ensures XorB(x, masked) == key
  {
    XorBZero(key);
  }

  /** No block at all. The zero is a parameter, as unfolding the recursion at a literal is costly. */
  lemma NoBlocks(f: Block -> Block, x: Block, m: seq<u8>, n: nat)
    requires n == 0
    ensures Absorb(f, x, m, n) == x
  {
  }

  /** The key for whole blocks, with the condition as a parameter that the caller knows by name. */
  lemma WholeKey(f: Block -> Block, whole: bool)
    requires whole
    ensures SubKeyFor(f, whole) == SubKey1(f)
  {
  }

  /** The empty message, as a parameter, so that its length is a term the caller already has. */
  lemma EmptyLast(m: seq<u8>)
    requires m == []
    ensures LastBytes(m) == ZeroBlock() && Before(|m|) == 0 && |m| % 16 == 0
  {
  }

  lemma EmptyMac(f: Block -> Block, m: seq<u8>, x: Block, key: Block, masked: Block)
    requires m == [] && x == ZeroBlock() && key == SubKey1(f) && masked == XorB(ZeroBlock(), key)
    ensures f(XorB(x, masked)) == DriverMac(f, m)
  {
    EmptySteps(f, x, key, masked);
  }

  lemma WholeSteps(f: Block -> Block, m: seq<u8>, n: nat, x: Block, key: Block, masked: Block, rest: seq<u8>)
    requires m != [] && n == Before(|m|) && x == Absorb(f, ZeroBlock(), m, n) && key == SubKeyFor(f, |m| % 16 == 0)
    requires masked == XorB(LastBytes(m), key) && rest == m[16 * n..]
    ensures f(XorB(x, masked)) == Mac(f, m)
  {
    XorBComm(x, masked);
    LastIs(f, m, n, rest, key);
    ChainByBlocks(f, ZeroBlock(), m, n, rest);
  }

  lemma DriverSteps(f: Block -> Block, m: seq<u8>, n: nat, x: Block, key: Block, masked: Block)
    requires n == Before(|m|) && x == Absorb(f, ZeroBlock(), m, n) && key == SubKeyFor(f, |m| % 16 == 0)
    requires masked == XorB(LastBytes(m), key)
    ensures f(XorB(x, masked)) == DriverMac(f, m)
  {
    if m == [] {
      EmptyLast(m);
      NoBlocks(f, ZeroBlock(), m, n);
      WholeKey(f, |m| % 16 == 0);
      EmptyMac(f, m, x, key, masked);
    } else {
      WholeSteps(f, m, n, x, key, masked, m[16 * n..]);
    }
  }

  lemma WordRead(s: seq<u8>, hash: Block, o: nat)
    requires o + 4 <= 16 == |s| && forall i :: 0 <= i < 4 ==> s[o + i] == ByteOf(Load(hash, o), i)
    ensures forall k :: o <= k < o + 4 ==> s[k] == hash[k]
  {
    forall k | o <= k < o + 4
      ensures s[k] == hash[k]
    {
      LoadByte(hash, o, k - o);
      assert s[o + (k - o)] == hash[k];
    }
  }

  /** The hash result registers, copied out as four words. */
  method ReadHash(dst: array<u8>, hash: Block)
    requires dst.Length == BLOCK_SIZE
    modifies dst
    ensures dst[..] == hash
  {
    for i := 0 to 4
      invariant forall k :: 0 <= k < 4 * i ==> dst[k] == hash[k]
    {
      StoreWord(dst, 4 * i, Load(hash, 4 * i));
      WordRead(dst[..], hash, 4 * i);
    }
  }

  /** All blocks but the last; the state is then in the updated vector, or still the zero block if there are none. */
  method Head(engine: Engine, src: seq<u8>) returns (ok: bool)
    requires |src| <= 0xffff_fff0
    modifies engine
    ensures ok ==>
              (if engine.useUpdated then engine.updated else engine.original) ==
              Absorb(engine.f, ZeroBlock(), src, Before(|src|))
  {
    engine.ClearIvs();
    engine.useUpdated := false;
    var blocks := (|src| + 15) / 16;
    ok := true;
    if blocks > 1 {
      assert blocks - 1 == Before(|src|);
      ok := engine.Run(src, blocks - 1);
      if ok {
        engine.useUpdated := true;
      }
    } else {
      assert Before(|src|) == 0;
    }
  }

  /** A message longer than 0xfffffff0 bytes does not fit beside anything else in the 32-bit address space. */
  method Cmac128(engine: Engine, dst: array<u8>, src: seq<u8>) returns (ok: bool)
    requires |src| <= 0xffff_fff0 && dst.Length == BLOCK_SIZE
    modifies engine, dst
    ensures ok ==> dst[..] == DriverMac(engine.f, src)
  {
    var key: array<u8>;
    ok, key := SubKey(engine, |src|);
    if !ok {
      return;
    }
    ok := Head(engine, src);
    if !ok {
      return;
    }
    ghost var x := if engine.useUpdated then engine.updated else engine.original;
    ok := Tail(engine, src, key, x);
    ReadHash(dst, engine.hash);
  }

  /** The last block, masked with the sub key. */
  method Tail(engine: Engine, src: seq<u8>, key: array<u8>, ghost x: Block) returns (ok: bool)
    requires key.Length == BLOCK_SIZE && key[..] == SubKeyFor(engine.f, |src| % 16 == 0)
    requires x == (if engine.useUpdated then engine.updated else engine.original)
    requires x == Absorb(engine.f, ZeroBlock(), src, Before(|src|))
    modifies engine
    ensures ok ==> engine.hash == DriverMac(engine.f, src)
  {
    var last := LastBlock(src);
    XorInto(last, key);
    ghost var masked: Block := last[..];
    ok := RunOne(engine, last[..]);
    DriverSteps(engine.f, src, Before(|src|), x, key[..], masked);
  }
}
