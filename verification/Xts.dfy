/** XTS encryption of sectors on the security engine, one block at a time and in three passes. */
module Xts {
  import opened Bits
  import opened Blocks
  import opened Numbers
  import opened Words

  // ----- what XTS computes

  function Core(c: Cipher, enc: bool): Block -> Block { if enc then c.enc else c.dec }

  function XtsBlock(f: Block -> Block, t: Block, p: Block): Block { XorB(f(XorB(p, t)), t) }

  /** Block i is whitened before and after the cipher with x^i times the first tweak. */
  function XtsUnit(f: Block -> Block, t: Block, ps: seq<Block>): (r: seq<Block>)
    ensures |r| == |ps|
  {
    seq(|ps|, i requires 0 <= i < |ps| => XtsBlock(f, TimesXN(t, i), ps[i]))
  }

  /** The sector number as a block, most significant byte first. */
  function SectorBlock(sec: u64): Block {
    seq(BLOCK_SIZE, i requires 0 <= i < BLOCK_SIZE => ByteOf(sec, 15 - i))
  }

  /** The first n bytes hold what is left of the sector number after the others have been shifted out. */
  lemma {:induction false} SectorPrefix(sec: u64, n: nat, m: nat)
    requires n <= BLOCK_SIZE && m == 8 * (BLOCK_SIZE - n)
    ensures Number(SectorBlock(sec)[..n]) == Shr(sec, m)
    decreases n
  {
    var s := SectorBlock(sec)[..n];
    if n == 0 {
      SectorFits(sec, m);
    } else {
      var k, rest := m + 8, s[..n - 1];
      assert rest == SectorBlock(sec)[..n - 1];
      SectorPrefix(sec, n - 1, k);
      SectorByte(sec, n - 1, m);
      ShrShr(sec, m, 8, k);
      Parts(Shr(sec, m), 8);
    }
  }

  lemma SectorByte(sec: u64, i: nat, m: nat)
    requires i < BLOCK_SIZE && m == 8 * (15 - i)
    ensures SectorBlock(sec)[i] == Low(Shr(sec, m), 8)
  {
  }

  lemma SectorFits(sec: u64, m: nat)
    requires m == 128
    ensures Shr(sec, m) == 0
  {
    Pow2Sum(32, 32, 64);
    Pow2Values();
    ShlTimes(Pow2(32), 32);
    Pow2Less(64, m);
    ShrDiv(sec, m);
  }

  /** Read as a number of 128 bits, most significant byte first, the block is the sector number. */
  lemma SectorNumber(sec: u64)
    ensures Number(SectorBlock(sec)) == sec
  {
    SectorPrefix(sec, BLOCK_SIZE, 0);
    assert SectorBlock(sec)[..BLOCK_SIZE] == SectorBlock(sec);
  }

  /** And no other block is: the tweak of a sector is made from this one, and of another sector from another. */
  lemma OnlySectorBlock(b: Block, sec: u64)
    ensures Number(b) == sec <==> b == SectorBlock(sec)
  {
    SectorNumber(sec);
    if Number(b) == sec {
      NumberInjective(b, SectorBlock(sec));
    }
  }

  /** Decryption undoes encryption under the same tweak. */
  lemma XtsInverse(c: Cipher, t: Block, ps: seq<Block>)
    requires Permutation(c)
    ensures XtsUnit(Core(c, false), t, XtsUnit(Core(c, true), t, ps)) == ps
    ensures XtsUnit(Core(c, true), t, XtsUnit(Core(c, false), t, ps)) == ps
  {
    forall i | 0 <= i < |ps|
      ensures XtsUnit(Core(c, false), t, XtsUnit(Core(c, true), t, ps))[i] == ps[i]
      ensures XtsUnit(Core(c, true), t, XtsUnit(Core(c, false), t, ps))[i] == ps[i]
    {
      var ti := TimesXN(t, i);
      XorBCancel(ps[i], ti);
      XorBCancel(c.enc(XorB(ps[i], ti)), ti);
      XorBCancel(c.dec(XorB(ps[i], ti)), ti);
    }
  }

  /** A data unit may be cut anywhere: the tail continues with the tweak multiplied along. */
  lemma XtsCut(f: Block -> Block, t: Block, a: seq<Block>, b: seq<Block>)
    ensures XtsUnit(f, t, a + b) == XtsUnit(f, t, a) + XtsUnit(f, TimesXN(t, |a|), b)
  {
    forall i: nat | i < |a|
      ensures XtsUnit(f, t, a + b)[i] == XtsUnit(f, t, a)[i]
    {
      assert (a + b)[i] == a[i];
    }
    forall i: nat, j: nat | |a| <= i < |a| + |b| && j == i - |a|
      ensures XtsUnit(f, t, a + b)[i] == XtsUnit(f, TimesXN(t, |a|), b)[j]
    {
      XtsTailBlock(f, t, a, b, i, j);
    }
    var xs, ys := XtsUnit(f, t, a), XtsUnit(f, TimesXN(t, |a|), b);
    assert XtsUnit(f, t, a + b) == xs + ys;
  }

  lemma XtsUnitAt(f: Block -> Block, t: Block, ps: seq<Block>, i: nat, ti: Block, p: Block)
    requires i < |ps| && p == ps[i] && ti == TimesXN(t, i)
    ensures XtsUnit(f, t, ps)[i] == XtsBlock(f, ti, p)
  {
  }

  lemma XtsTailBlock(f: Block -> Block, t: Block, a: seq<Block>, b: seq<Block>, i: nat, j: nat)
    requires |a| <= i < |a| + |b| && j == i - |a|
    ensures XtsUnit(f, t, a + b)[i] == XtsUnit(f, TimesXN(t, |a|), b)[j]
  {
    TimesXAdd(t, |a|, j, i);
    XtsUnitAt(f, t, a + b, i, TimesXN(t, i), b[j]);
    XtsUnitAt(f, TimesXN(t, |a|), b, j, TimesXN(t, i), b[j]);
  }

  // ----- the tweak handling of the driver

  /** The tweak that se_aes_xts_crypt_sec_nx starts from: made from the sector number, or the caller's. */
  function StartTweak(tweakCipher: Cipher, sec: u64, saved: Block, regen: bool): Block {
    if regen then tweakCipher.enc(SectorBlock(sec)) else saved
  }

  /** 32 multiplications for each 512-byte sector that is skipped; the count is a 32-bit value. */
  function SkipCount(tweakExp: u32): nat { tweakExp * 32 % 0x1_0000_0000 }

  function FirstTweak(tweakCipher: Cipher, sec: u64, saved: Block, regen: bool, tweakExp: u32): Block {
    TimesXN(StartTweak(tweakCipher, sec, saved, regen), SkipCount(tweakExp))
  }

  lemma NoSkip(tweakCipher: Cipher, sec: u64, saved: Block, regen: bool)
    ensures FirstTweak(tweakCipher, sec, saved, regen, 0) == StartTweak(tweakCipher, sec, saved, regen)
  {
  }

  lemma XtsTail(f: Block -> Block, t: Block, a: seq<Block>, b: seq<Block>, u: Block)
    requires u == TimesXN(t, |a|)
    ensures XtsUnit(f, t, a + b)[|a|..] == XtsUnit(f, u, b)
  {
    XtsCut(f, t, a, b);
  }

  /**
   Cutting a data unit after `skipped` sectors of 512 bytes: the tail call with a fresh tweak and the number of
   skipped sectors, and the tail call with the tweak that the head call left behind, both continue the unit.
   */
  lemma TailCalls(f: Block -> Block, tweakCipher: Cipher, sec: u64, saved: Block, a: seq<Block>, b: seq<Block>,
                  skipped: u32, left: Block)
    requires |a| == 32 * skipped < 0x1_0000_0000
    requires left == TimesXN(FirstTweak(tweakCipher, sec, saved, true, 0), |a|)
    ensures var whole := XtsUnit(f, FirstTweak(tweakCipher, sec, saved, true, 0), a + b);
            && whole[|a|..] == XtsUnit(f, FirstTweak(tweakCipher, sec, saved, true, skipped), b)
            && whole[|a|..] == XtsUnit(f, FirstTweak(tweakCipher, sec, left, false, 0), b)
  {
    NoSkip(tweakCipher, sec, saved, true);
    NoSkip(tweakCipher, sec, left, false);
    assert SkipCount(skipped) == |a|;
    XtsTail(f, FirstTweak(tweakCipher, sec, saved, true, 0), a, b, left);
  }

  // ----- block operations on buffers

  lemma BlkSame(s: seq<u8>, r: seq<u8>, i: nat)
    requires 16 * i + 16 <= |s| && 16 * i + 16 <= |r|
    requires forall k :: 16 * i <= k < 16 * i + 16 ==> s[k] == r[k]
    ensures Blk(s, i) == Blk(r, i)
  {
  }

  /** Only block i of the buffer has changed. */
  ghost predicate OnlyBlock(s: seq<u8>, r: seq<u8>, i: nat) {
    |s| == |r| && forall k :: 0 <= k < |s| && !(16 * i <= k < 16 * i + 16) ==> r[k] == s[k]
  }

  lemma OtherBlock(s: seq<u8>, r: seq<u8>, i: nat, j: nat)
    requires OnlyBlock(s, r, i) && i != j && 16 * j + 16 <= |s|
    ensures Blk(r, j) == Blk(s, j)
  {
    BlkSame(s, r, j);
  }

  /** One ECB operation of the engine, in place; it may fail, and then nothing is known of the buffer. */
  method Ecb(f: Block -> Block, a: array<u8>, n: nat) returns (ok: bool)
    requires 16 * n <= a.Length
    modifies a
    ensures ok ==> forall i :: 0 <= i < n ==> Blk(a[..], i) == f(old(Blk(a[..], i)))
    ensures forall k :: 16 * n <= k < a.Length ==> a[k] == old(a[k])
  {
    ok := *;
    if !ok {
      return;
    }
    for i := 0 to n
      invariant forall j :: 0 <= j < i ==> Blk(a[..], j) == f(old(Blk(a[..], j)))
      invariant forall k :: 16 * i <= k < a.Length ==> a[k] == old(a[k])
    {
      ghost var s := a[..];
      BlkSame(s, old(a[..]), i);
      PutBlock(a, i, f(Blk(a[..], i)));
      forall j | 0 <= j < i
        ensures Blk(a[..], j) == Blk(s, j)
      {
        OtherBlock(s, a[..], i, j);
      }
    }
  }

  method PutBlock(a: array<u8>, i: nat, b: Block)
    requires 16 * i + 16 <= a.Length
    modifies a
    ensures Blk(a[..], i) == b && OnlyBlock(old(a[..]), a[..], i)
  {
    for k := 0 to 16
      invariant forall j :: 16 * i <= j < 16 * i + k ==> a[j] == b[j - 16 * i]
      invariant OnlyBlock(old(a[..]), a[..], i)
    {
      a[16 * i + k] := b[k];
    }
  }

  /** XorBlock on block i of two buffers. */
  method Whiten(dst: array<u8>, src: array<u8>, i: nat, tweak: array<u8>)
    requires 16 * i + 16 <= dst.Length && 16 * i + 16 <= src.Length && tweak.Length == 16 && tweak != dst
    modifies dst
    ensures Blk(dst[..], i) == XorB(old(Blk(src[..], i)), old(tweak[..])) && OnlyBlock(old(dst[..]), dst[..], i)
  {
    ghost var s, t := src[..], tweak[..];
    XorBlock(dst, src, 16 * i, tweak);
    forall k | 0 <= k < 16
      ensures Blk(dst[..], i)[k] == XorB(Blk(s, i), t)[k]
    {
      assert dst[16 * i + k] == Xor8(s[16 * i + k], t[k]);
    }
  }

  // ----- se_aes_xts_crypt_sec_nx

  /** The sector number written into the tweak buffer, last byte first. */
  method PutSector(tweak: array<u8>, sec0: u64)
    requires tweak.Length == BLOCK_SIZE
    modifies tweak
    ensures tweak[..] == SectorBlock(sec0) && Number(tweak[..]) == sec0
  {
    SectorNumber(sec0);
    var sec: nat := sec0;
    var i := 15;
    while i >= 0
      invariant -1 <= i <= 15 && sec == Shr(sec0, 8 * (15 - i))
      invariant forall k :: i < k < BLOCK_SIZE ==> tweak[k] == ByteOf(sec0, 15 - k)
    {
      LowBound(sec, 8);
      Pow2Values();
      tweak[i] := Low(sec, 8);
      ShrShr(sec0, 8 * (15 - i), 8, 8 * (15 - (i - 1)));
      sec := Shr(sec, 8);
      i := i - 1;
    }
  }

  /** The first i blocks of a buffer are those of s, each whitened with its own power of x times t. */
  ghost predicate Whitened(d: seq<u8>, s: seq<u8>, t: Block, i: nat) {
    && 16 * i <= |d| && 16 * i <= |s|
    && forall j :: 0 <= j < i ==> Blk(d, j) == XorB(Blk(s, j), TimesXN(t, j))
  }

  lemma WhitenedNext(d0: seq<u8>, d: seq<u8>, s: seq<u8>, t: Block, i: nat, next: nat)
    requires next == i + 1 && Whitened(d0, s, t, i) && OnlyBlock(d0, d, i) && 16 * next <= |d| && 16 * next <= |s|
    requires Blk(d, i) == XorB(Blk(s, i), TimesXN(t, i))
    ensures Whitened(d, s, t, next)
  {
    forall j | 0 <= j < next
      ensures Blk(d, j) == XorB(Blk(s, j), TimesXN(t, j))
    {
      if j < i {
        OtherBlock(d0, d, i, j);
      }
    }
  }

  /** Two buffers are the same from byte k on. */
  ghost predicate SameFrom(s: seq<u8>, r: seq<u8>, k: nat) {
    |s| == |r| && forall j :: k <= j < |s| ==> r[j] == s[j]
  }

  /** The first and third pass: whiten every block, multiplying the tweak along. */
  method WhitenAll(dst: array<u8>, src: array<u8>, n: nat, tweak: array<u8>)
    requires 16 * n <= dst.Length && 16 * n <= src.Length && tweak.Length == 16 && tweak != dst && tweak != src
    modifies dst, tweak
    ensures Whitened(dst[..], old(src[..]), old(tweak[..]), n)
    ensures tweak[..] == TimesXN(old(tweak[..]), n) && SameFrom(old(dst[..]), dst[..], 16 * n)
  {
    ghost var t: Block, s := tweak[..], src[..];
    ghost var d := dst[..];
    var i := 0;
    while i < n
      invariant 0 <= i <= n && tweak[..] == TimesXN(t, i)
      invariant Whitened(dst[..], s, t, i) && SameFrom(s, src[..], 16 * i) && SameFrom(d, dst[..], 16 * n)
    {
      i := i + 1;
      WhitenNext(dst, src, i - 1, i, n, tweak, d, s, t);
    }
  }

  /** Block i of the pass, and the tweak for the next one. */
  method WhitenNext(dst: array<u8>, src: array<u8>, i: nat, next: nat, n: nat, tweak: array<u8>, ghost d: seq<u8>,
                    ghost s: seq<u8>, ghost t: Block)
    requires next == i + 1 <= n && 16 * n <= dst.Length && 16 * n <= src.Length
    requires tweak.Length == 16 && tweak != dst && tweak != src
    requires SameFrom(s, src[..], 16 * i) && SameFrom(d, dst[..], 16 * n)
    requires tweak[..] == TimesXN(t, i) && Whitened(dst[..], s, t, i)
    modifies dst, tweak
    ensures SameFrom(s, src[..], 16 * next) && SameFrom(d, dst[..], 16 * n)
    ensures tweak[..] == TimesXN(t, next) && Whitened(dst[..], s, t, next)
  {
    ghost var was := dst[..];
    BlkSame(src[..], s, i);
    Whiten(dst, src, i, tweak);
    WhitenedNext(was, dst[..], s, t, i, next);
    MulXLe(tweak);
    TimesXNext(t, i, next);
  }

  /**
   The engine may fail on a new tweak, which is then unknown, or on the data, when the tweak has been multiplied along
   already: `made` tells the two apart.
   */
  method XtsCryptSecNx(tweakCipher: Cipher, cryptCipher: Cipher, enc: bool, sec: u64, tweak: array<u8>, regen: bool,
                       tweakExp: u32, dst: array<u8>, src: array<u8>, secSize: u32)
      returns (ok: bool, ghost made: bool)
    requires tweak.Length == BLOCK_SIZE && tweak != dst && tweak != src
    requires 0 < secSize <= dst.Length && secSize <= src.Length && secSize % 16 == 0
    modifies tweak, dst
    ensures (ok ==> made) && (!made ==> regen)
    ensures made ==> tweak[..] == TimesXN(FirstTweak(tweakCipher, sec, old(tweak[..]), regen, tweakExp), secSize / 16)
    ensures ok ==>
              var t := FirstTweak(tweakCipher, sec, old(tweak[..]), regen, tweakExp);
              forall i :: 0 <= i < secSize / 16 ==>
                   Blk(dst[..], i) ==
                   XtsBlock(if enc then cryptCipher.enc else cryptCipher.dec, TimesXN(t, i), old(Blk(src[..], i)))
    ensures forall k :: secSize <= k < dst.Length ==> dst[k] == old(dst[k])
  {
    ok := PrepareTweak(tweakCipher, sec, tweak, regen, tweakExp);
    made := ok;
    if !ok {
      return;
    }
    var origTweak := new u8[BLOCK_SIZE](k requires 0 <= k < BLOCK_SIZE reads tweak => tweak[k]);
    assert origTweak[..] == tweak[..];
    ok := ThreePasses(Core(cryptCipher, enc), tweak, origTweak, dst, src, secSize / 16, tweak[..]);
  }

  /** The first tweak: made new if asked for, then multiplied once for every block that is skipped. */
  method PrepareTweak(tweakCipher: Cipher, sec: u64, tweak: array<u8>, regen: bool, tweakExp: u32) returns (ok: bool)
    requires tweak.Length == BLOCK_SIZE
    modifies tweak
    ensures ok ==> tweak[..] == FirstTweak(tweakCipher, sec, old(tweak[..]), regen, tweakExp)
    ensures !ok ==> regen
  {
    ok := true;
    if regen {
      PutSector(tweak, sec);
      assert Blk(tweak[..], 0) == SectorBlock(sec);
      ok := Ecb(tweakCipher.enc, tweak, 1);
      if !ok {
        return;
      }
      assert tweak[..] == Blk(tweak[..], 0);
    }
    ghost var t: Block := tweak[..];
    assert t == StartTweak(tweakCipher, sec, old(tweak[..]), regen);
    SkipBlocks(tweak, SkipCount(tweakExp));
  }

  method SkipBlocks(tweak: array<u8>, n: nat)
    requires tweak.Length == BLOCK_SIZE
    modifies tweak
    ensures tweak[..] == TimesXN(old(tweak[..]), n)
  {
    var i := 0;
    while i < n
      invariant 0 <= i <= n && tweak[..] == TimesXN(old(tweak[..]), i)
    {
      MulXLe(tweak);
      i := i + 1;
      TimesXNext(old(tweak[..]), i - 1, i);
    }
  }

  method ThreePasses(f: Block -> Block, tweak: array<u8>, origTweak: array<u8>, dst: array<u8>, src: array<u8>,
                     n: nat, ghost t: Block)
      returns (ok: bool)
    requires tweak.Length == origTweak.Length == 16 && tweak != origTweak
    requires tweak != dst && tweak != src && origTweak != dst && origTweak != src
    requires 16 * n <= dst.Length && 16 * n <= src.Length && tweak[..] == t && origTweak[..] == t
    modifies tweak, origTweak, dst
    ensures tweak[..] == TimesXN(t, n)
    ensures ok ==> forall i :: 0 <= i < n ==> Blk(dst[..], i) == XtsBlock(f, TimesXN(t, i), old(Blk(src[..], i)))
    ensures forall k :: 16 * n <= k < dst.Length ==> dst[k] == old(dst[k])
  {
    WhitenAll(dst, src, n, tweak);
    ok := Ecb(f, dst, n);
    if !ok {
      return;
    }
    WhitenAll(dst, dst, n, origTweak);
  }
}
