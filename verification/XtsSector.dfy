/** The older XTS routine: one engine call per block, and the tweak doubled most significant byte first. */
module XtsSector {
  import opened Bits
  import opened Blocks
  import opened Words
  import opened Xts

  function TimesXBigN(b: Block, n: nat): Block { Iterate(TimesXBig, b, n) }

  lemma TimesXBigNext(b: Block, n: nat, next: nat)
    requires next == n + 1
    ensures TimesXBigN(b, next) == TimesXBig(TimesXBigN(b, n))
  {
    IterateNext(TimesXBig, b, n, next);
  }

  lemma BigIsReversedNext(b: Block, n: nat, next: nat)
    requires next == n + 1 && TimesXBigN(b, n) == Reverse(TimesXN(Reverse(b), n))
    ensures TimesXBigN(b, next) == Reverse(TimesXN(Reverse(b), next))
  {
    TimesXBigNext(b, n, next);
    TimesXNext(Reverse(b), n, next);
    ReverseTwice(TimesXN(Reverse(b), n));
  }

  /** The two doublings are the same one, read from opposite ends of the block. */
  lemma {:induction false} BigIsReversed(b: Block, n: nat)
    ensures TimesXBigN(b, n) == Reverse(TimesXN(Reverse(b), n))
  {
    if n == 0 {
      ReverseTwice(b);
    } else {
      BigIsReversed(b, n - 1);
      BigIsReversedNext(b, n - 1, n);
    }
  }

  /** A block cipher with its input and output read backwards. */
  function Backwards(f: Block -> Block): Block -> Block { b => Reverse(f(Reverse(b))) }

  /** So the older routine is standard XTS of the reversed cipher on reversed blocks. */
  lemma ReversedXts(f: Block -> Block, t: Block, n: nat, p: Block)
    ensures XtsBlock(f, TimesXBigN(t, n), p) == Reverse(XtsBlock(Backwards(f), TimesXN(Reverse(t), n), Reverse(p)))
  {
    var u, v := TimesXN(Reverse(t), n), TimesXBigN(t, n);
    BigIsReversed(t, n);
    ReverseTwice(u);
    ReverseTwice(p);
    ReverseTwice(v);
    ReverseXor(p, v);
    ReverseTwice(XorB(p, v));
    ReverseXor(f(XorB(p, v)), v);
    ReverseTwice(f(XorB(p, v)));
    ReverseTwice(XtsBlock(f, v, p));
  }

  // ----- se_aes_xts_crypt_sec

  /** pdst[j] = psrc[j] ^ tweak[j] for the bytes of block i. */
  method WhitenBytes(dst: array<u8>, src: array<u8>, i: nat, tweak: array<u8>)
    requires 16 * i + 16 <= dst.Length && 16 * i + 16 <= src.Length && tweak.Length == 16 && tweak != dst
    modifies dst
    ensures Blk(dst[..], i) == XorB(old(Blk(src[..], i)), tweak[..]) && OnlyBlock(old(dst[..]), dst[..], i)
  {
    ghost var s := src[..];
    for j := 0 to 16
      invariant forall k :: 0 <= k < j ==> dst[16 * i + k] == Xor8(s[16 * i + k], tweak[k])
      invariant forall k :: 16 * i + j <= k < src.Length ==> src[k] == s[k]
      invariant OnlyBlock(old(dst[..]), dst[..], i)
    {
      dst[16 * i + j] := Xor8(src[16 * i + j], tweak[j]);
    }
    forall k | 0 <= k < 16
      ensures Blk(dst[..], i)[k] == XorB(Blk(s, i), tweak[..])[k]
    {
      assert dst[16 * i + k] == Xor8(s[16 * i + k], tweak[k]);
    }
  }

  /** se_aes_crypt_block_ecb in place on one block of a buffer; it may fail. */
  method EcbBlock(f: Block -> Block, a: array<u8>, i: nat) returns (ok: bool)
    requires 16 * i + 16 <= a.Length
    modifies a
    ensures OnlyBlock(old(a[..]), a[..], i) && (ok ==> Blk(a[..], i) == f(old(Blk(a[..], i))))
  {
    ok := *;
    if ok {
      PutBlock(a, i, f(Blk(a[..], i)));
    }
  }

  ghost predicate Crypted(f: Block -> Block, d: seq<u8>, s: seq<u8>, t: Block, i: nat) {
    && 16 * i <= |d| && 16 * i <= |s|
    && forall j :: 0 <= j < i ==> Blk(d, j) == XtsBlock(f, TimesXBigN(t, j), Blk(s, j))
  }

  lemma CryptedNext(f: Block -> Block, d0: seq<u8>, d: seq<u8>, s: seq<u8>, t: Block, i: nat, next: nat)
    requires next == i + 1 && Crypted(f, d0, s, t, i) && OnlyBlock(d0, d, i) && 16 * next <= |d| && 16 * next <= |s|
    requires Blk(d, i) == XtsBlock(f, TimesXBigN(t, i), Blk(s, i))
    ensures Crypted(f, d, s, t, next)
  {
    forall j | 0 <= j < next
      ensures Blk(d, j) == XtsBlock(f, TimesXBigN(t, j), Blk(s, j))
    {
      if j < i {
        OtherBlock(d0, d, i, j);
      }
    }
  }

  method CryptBlock(f: Block -> Block, dst: array<u8>, src: array<u8>, i: nat, tweak: array<u8>) returns (ok: bool)
    requires 16 * i + 16 <= dst.Length && 16 * i + 16 <= src.Length && tweak.Length == 16 && tweak != dst
    modifies dst
    ensures OnlyBlock(old(dst[..]), dst[..], i)
    ensures ok ==> Blk(dst[..], i) == XtsBlock(f, tweak[..], old(Blk(src[..], i)))
  {
    WhitenBytes(dst, src, i, tweak);
    ok := EcbBlock(f, dst, i);
    if ok {
      WhitenBytes(dst, dst, i, tweak);
    }
  }

  method XtsCryptSec(tweakCipher: Cipher, cryptCipher: Cipher, enc: bool, sec: u64, dst: array<u8>, src: array<u8>,
                     secSize: u32)
      returns (ok: bool)
    requires secSize <= dst.Length && secSize <= src.Length
    modifies dst
    ensures ok ==>
              var f, t := if enc then cryptCipher.enc else cryptCipher.dec, tweakCipher.enc(SectorBlock(sec));
              forall i :: 0 <= i < secSize / 16 ==>
                   Blk(dst[..], i) == XtsBlock(f, TimesXBigN(t, i), old(Blk(src[..], i)))
    ensures forall k :: secSize <= k < dst.Length ==> dst[k] == old(dst[k])
  {
    var tweak := new u8[BLOCK_SIZE];
    PutSector(tweak, sec);
    ok := EcbBlock(tweakCipher.enc, tweak, 0);
    if !ok {
      return;
    }
    ghost var s, d, t := src[..], dst[..], tweakCipher.enc(SectorBlock(sec));
    assert tweak[..] == Blk(tweak[..], 0) == t by {
      assert SectorBlock(sec) == Blk(SectorBlock(sec), 0);
    }
    ok := CryptBlocks(Core(cryptCipher, enc), dst, src, secSize / 16, tweak, s, t);
  }

  method CryptBlocks(f: Block -> Block, dst: array<u8>, src: array<u8>, n: nat, tweak: array<u8>, ghost s: seq<u8>,
                     ghost t: Block)
      returns (ok: bool)
    requires 16 * n <= dst.Length && 16 * n <= src.Length && tweak.Length == 16 && tweak != dst && tweak != src
    requires tweak[..] == t && src[..] == s
    modifies dst, tweak
    ensures ok ==> Crypted(f, dst[..], s, t, n)
    ensures SameFrom(old(dst[..]), dst[..], 16 * n)
  {
    ghost var d := dst[..];
    var i := 0;
    ok := true;
    while i < n && ok
      invariant 0 <= i <= n && SameFrom(d, dst[..], 16 * n)
      invariant ok ==> tweak[..] == TimesXBigN(t, i) && Crypted(f, dst[..], s, t, i) && SameFrom(s, src[..], 16 * i)
    {
      i := i + 1;
      ok := CryptNext(f, dst, src, i - 1, i, n, tweak, d, s, t);
    }
  }

  method CryptNext(f: Block -> Block, dst: array<u8>, src: array<u8>, i: nat, next: nat, n: nat, tweak: array<u8>,
                   ghost d: seq<u8>, ghost s: seq<u8>, ghost t: Block)
      returns (ok: bool)
    requires next == i + 1 <= n && 16 * n <= dst.Length && 16 * n <= src.Length
    requires tweak.Length == 16 && tweak != dst && tweak != src
    requires SameFrom(s, src[..], 16 * i) && SameFrom(d, dst[..], 16 * n)
    requires tweak[..] == TimesXBigN(t, i) && Crypted(f, dst[..], s, t, i)
    modifies dst, tweak
    ensures SameFrom(d, dst[..], 16 * n)
    ensures ok ==>
              tweak[..] == TimesXBigN(t, next) &&
              Crypted(f, dst[..], s, t, next) && SameFrom(s, src[..], 16 * next)
  {
    ghost var was := dst[..];
    BlkSame(src[..], s, i);
    ok := CryptBlock(f, dst, src, i, tweak);
    if ok {
      CryptedNext(f, was, dst[..], s, t, i, next);
      MulX(tweak);
      TimesXBigNext(t, i, next);
    }
  }
}
