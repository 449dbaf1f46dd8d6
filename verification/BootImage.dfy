/**
 The boot image and its loader. The image is built by a script and decrypted as a whole by the boot ROM; the loader
 then undoes the decryption of a payload that was never encrypted. Cipher block chaining is that of section 6.2 of
 NIST SP 800-38A, for any permutation of the blocks.
 */
module BootImage {
  import opened Bits
  import opened Blocks
  import opened Words
  import opened Xts

  // ----- cipher block chaining

  function CbcEnc(c: Cipher, iv: Block, ps: seq<Block>): (cs: seq<Block>)
    ensures |cs| == |ps|
    decreases |ps|
  {
    if ps == [] then [] else
      var first := c.enc(XorB(ps[0], iv));
      [first] + CbcEnc(c, first, ps[1..])
  }

  function CbcDec(c: Cipher, iv: Block, cs: seq<Block>): (ps: seq<Block>)
    ensures |ps| == |cs|
    decreases |cs|
  {
    if cs == [] then [] else [XorB(c.dec(cs[0]), iv)] + CbcDec(c, cs[0], cs[1..])
  }

  lemma {:induction false} DecOfEnc(c: Cipher, iv: Block, ps: seq<Block>)
    requires Permutation(c)
    ensures CbcDec(c, iv, CbcEnc(c, iv, ps)) == ps
    decreases |ps|
  {
    if ps != [] {
      var first := c.enc(XorB(ps[0], iv));
      var rest := CbcEnc(c, first, ps[1..]);
      DecOfEnc(c, first, ps[1..]);
      XorBCancel(ps[0], iv);
      assert c.dec(first) == XorB(ps[0], iv);
      assert ([first] + rest)[1..] == rest;
    }
  }

  /** Encryption with the same vector undoes decryption, whatever was decrypted. */
  lemma {:induction false} EncOfDec(c: Cipher, iv: Block, cs: seq<Block>)
    requires Permutation(c)
    ensures CbcEnc(c, iv, CbcDec(c, iv, cs)) == cs
    decreases |cs|
  {
    if cs != [] {
      var first := XorB(c.dec(cs[0]), iv);
      var rest := CbcDec(c, cs[0], cs[1..]);
      EncOfDec(c, cs[0], cs[1..]);
      XorBCancel(c.dec(cs[0]), iv);
      assert c.enc(c.dec(cs[0])) == cs[0];
      assert ([first] + rest)[0] == first && ([first] + rest)[1..] == rest;
    }
  }

  function LastOr(cs: seq<Block>, iv: Block): Block { if cs == [] then iv else cs[|cs| - 1] }

  /** Decryption of a later part depends on the rest only through the block before it. */
  lemma {:induction false} DecAppend(c: Cipher, iv: Block, a: seq<Block>, b: seq<Block>)
    ensures CbcDec(c, iv, a + b) == CbcDec(c, iv, a) + CbcDec(c, LastOr(a, iv), b)
    decreases |a|
  {
    if a == [] {
      assert a + b == b;
    } else {
      DecAppend(c, a[0], a[1..], b);
      assert (a + b)[1..] == a[1..] + b;
      assert LastOr(a[1..], a[0]) == LastOr(a, iv);
    }
  }

  lemma {:induction false} EncAt(c: Cipher, iv: Block, ps: seq<Block>, i: nat)
    requires i < |ps|
    ensures CbcEnc(c, iv, ps)[i] == c.enc(XorB(ps[i], if i == 0 then iv else CbcEnc(c, iv, ps)[i - 1]))
    decreases i
  {
    if i > 0 {
      EncAt(c, c.enc(XorB(ps[0], iv)), ps[1..], i - 1);
    }
  }

  /** Encryption goes from front to back: what follows changes nothing. */
  lemma {:induction false} EncPrefix(c: Cipher, iv: Block, a: seq<Block>, b: seq<Block>)
    ensures CbcEnc(c, iv, a + b)[..|a|] == CbcEnc(c, iv, a)
    decreases |a|
  {
    if a != [] {
      EncPrefix(c, c.enc(XorB(a[0], iv)), a[1..], b);
      assert (a + b)[1..] == a[1..] + b;
    }
  }

  // ----- bytes and blocks

  function ToBlocks(s: seq<u8>): (r: seq<Block>)
    requires |s| % 16 == 0
    ensures |r| == |s| / 16
  {
    seq(|s| / 16, i requires 0 <= i < |s| / 16 => Blk(s, i))
  }

  function ToBytes(bs: seq<Block>): (r: seq<u8>)
    ensures |r| == 16 * |bs|
  {
    if bs == [] then [] else bs[0] + ToBytes(bs[1..])
  }

  lemma {:induction false} BytesAt(bs: seq<Block>, i: nat)
    requires i < |bs|
    ensures Blk(ToBytes(bs), i) == bs[i]
  {
    if i == 0 {
      assert Blk(ToBytes(bs), 0) == bs[0];
    } else {
      BytesAt(bs[1..], i - 1);
      assert Blk(ToBytes(bs), i) == Blk(ToBytes(bs[1..]), i - 1);
    }
  }

  lemma BlocksOfBytes(bs: seq<Block>)
    ensures ToBlocks(ToBytes(bs)) == bs
  {
    forall i | 0 <= i < |bs|
      ensures ToBlocks(ToBytes(bs))[i] == bs[i]
    {
      BytesAt(bs, i);
    }
  }

  lemma SameBlocks(a: seq<u8>, b: seq<u8>)
    requires |a| == |b| && |a| % 16 == 0 && forall i :: 0 <= i < |a| / 16 ==> Blk(a, i) == Blk(b, i)
    ensures a == b
  {
    forall k | 0 <= k < |a|
      ensures a[k] == b[k]
    {
      var i := k / 16;
      assert Blk(a, i)[k - 16 * i] == Blk(b, i)[k - 16 * i];
    }
  }

  lemma BytesOfBlocks(s: seq<u8>)
    requires |s| % 16 == 0
    ensures ToBytes(ToBlocks(s)) == s
  {
    forall i | 0 <= i < |s| / 16
      ensures Blk(ToBytes(ToBlocks(s)), i) == Blk(s, i)
    {
      BytesAt(ToBlocks(s), i);
    }
    SameBlocks(ToBytes(ToBlocks(s)), s);
  }

  lemma BlocksAppend(a: seq<u8>, b: seq<u8>)
    requires |a| % 16 == 0 && |b| % 16 == 0
    ensures ToBlocks(a + b) == ToBlocks(a) + ToBlocks(b)
  {
    var s, n := a + b, |a| / 16;
    forall i | 0 <= i < |s| / 16
      ensures ToBlocks(s)[i] == (ToBlocks(a) + ToBlocks(b))[i]
    {
      if i < n {
        assert Blk(s, i) == Blk(a, i);
      } else {
        assert |a| == 16 * n && 16 * i - |a| == 16 * (i - n);
        assert Blk(s, i) == Blk(b, i - n);
      }
    }
  }

  function Enc(c: Cipher, s: seq<u8>): (r: seq<u8>)
    requires |s| % 16 == 0
    ensures |r| == |s|
  {
    ToBytes(CbcEnc(c, ZeroBlock(), ToBlocks(s)))
  }

  function Dec(c: Cipher, s: seq<u8>): (r: seq<u8>)
    requires |s| % 16 == 0
    ensures |r| == |s|
  {
    ToBytes(CbcDec(c, ZeroBlock(), ToBlocks(s)))
  }

  lemma DecEnc(c: Cipher, s: seq<u8>)
    requires Permutation(c) && |s| % 16 == 0
    ensures Dec(c, Enc(c, s)) == s && Enc(c, Dec(c, s)) == s
  {
    DecOfEnc(c, ZeroBlock(), ToBlocks(s));
    EncOfDec(c, ZeroBlock(), ToBlocks(s));
    BlocksOfBytes(CbcEnc(c, ZeroBlock(), ToBlocks(s)));
    BlocksOfBytes(CbcDec(c, ZeroBlock(), ToBlocks(s)));
    BytesOfBlocks(s);
  }

  // ----- Pkg1.to_bytes

  /** The cipher library refuses data that are not whole blocks. */
  datatype Result = Ok(bytes: seq<u8>) | NotWholeBlocks

  function EncryptBytes(c: Cipher, s: seq<u8>): Result {
    if |s| % 16 == 0 then Ok(Enc(c, s)) else NotWholeBlocks
  }

  const GAP := 0x20

  function Gap(): (z: seq<u8>)
    ensures |z| == GAP
  {
    seq(GAP, _ => 0)
  }

  datatype Pkg1 = Pkg1(payload: seq<u8>, loader: seq<u8>, isEncrypted: bool)

  /** An absent loader is an empty one; an image without a loader is the payload alone. */
  function ImageOf(c: Cipher, p: Pkg1): Result {
    if p.loader != [] then
      var head := if p.isEncrypted then Ok(p.loader) else EncryptBytes(c, p.loader);
      if head.Ok? then Ok(head.bytes + Gap() + p.payload) else head
    else if p.isEncrypted then Ok(p.payload)
    else EncryptBytes(c, p.payload)
  }

  method PkgToBytes(c: Cipher, p: Pkg1) returns (r: Result)
    ensures r == ImageOf(c, p)
  {
    var ret := [];
    if p.loader != [] {
      ret := ret + p.loader;
      assert ret == p.loader;
      if !p.isEncrypted {
        var e := EncryptBytes(c, ret);
        if e.NotWholeBlocks? {
          return e;
        }
        ret := e.bytes;
      }
      ret := ret + Gap();
      ret := ret + p.payload;
    } else {
      ret := p.payload;
      if !p.isEncrypted {
        r := EncryptBytes(c, ret);
        return;
      }
    }
    r := Ok(ret);
  }

  /**
   An image is refused exactly when the part that must be encrypted is not made of whole blocks. Otherwise the loader
   comes first and decrypts to what was given, or is what was given; then 32 zero bytes, and the payload of any size as
   it is. Without a loader the same is true of the payload in place of the loader.
   */
  lemma ImageLayout(c: Cipher, p: Pkg1)
    requires Permutation(c)
    ensures ImageOf(c, p).Ok? <==> p.isEncrypted || (if p.loader != [] then |p.loader| else |p.payload|) % 16 == 0
    ensures ImageOf(c, p).Ok? ==>
              var s, first := ImageOf(c, p).bytes, if p.loader != [] then p.loader else p.payload;
              && |s| == |first| + (if p.loader != [] then 0x20 + |p.payload| else 0)
              && (p.isEncrypted ==> s[..|first|] == first)
              && (!p.isEncrypted ==> |first| % 16 == 0 && Dec(c, s[..|first|]) == first)
              && (p.loader != [] ==>
                    && (forall k :: |first| <= k < |first| + 0x20 ==> s[k] == 0)
                    && s[|first| + 0x20..] == p.payload)
  {
    var first := if p.loader != [] then p.loader else p.payload;
    if ImageOf(c, p).Ok? {
      var s := ImageOf(c, p).bytes;
      if !p.isEncrypted {
        DecEnc(c, first);
        assert s[..|first|] == Enc(c, first);
      } else {
        assert s[..|first|] == first;
      }
    }
  }

  lemma GapBlocks()
    ensures ToBlocks(Gap()) == [ZeroBlock(), ZeroBlock()]
  {
    assert Blk(Gap(), 0) == ZeroBlock() && Blk(Gap(), 1) == ZeroBlock();
  }

  /** The whole image as the boot ROM decrypts it: loader, two blocks of rubbish, and the payload on its own. */
  lemma WholeDecrypted(c: Cipher, encrypted: seq<u8>, payload: seq<u8>)
    requires |encrypted| % 16 == 0 && |payload| % 16 == 0
    ensures var plain := Dec(c, encrypted + Gap() + payload);
            && plain[..|encrypted|] == Dec(c, encrypted)
            && plain[|encrypted| + 0x20..] == Dec(c, payload)
  {
    var z := ZeroBlock();
    var a, g, b := ToBlocks(encrypted), ToBlocks(Gap()), ToBlocks(payload);
    BlocksAppend(encrypted, Gap());
    BlocksAppend(encrypted + Gap(), payload);
    GapBlocks();
    DecAppend(c, z, a + g, b);
    DecAppend(c, z, a, g);
    assert LastOr(a + g, z) == z;
    var x, y, w := CbcDec(c, z, a), CbcDec(c, LastOr(a, z), g), CbcDec(c, z, b);
    BytesAppend(x + y, w);
    BytesAppend(x, y);
  }

  /**
   The block in front of the payload is zero in the image, which is what counts; after decryption it holds whatever
   the zero block decrypts to.
   */
  lemma GapDecrypted(c: Cipher, encrypted: seq<u8>, payload: seq<u8>)
    requires |encrypted| % 16 == 0 && |payload| % 16 == 0
    ensures Dec(c, encrypted + Gap() + payload)[|encrypted| + 16..|encrypted| + 0x20] == c.dec(ZeroBlock())
  {
    var z := ZeroBlock();
    var a, g, b := ToBlocks(encrypted), ToBlocks(Gap()), ToBlocks(payload);
    BlocksAppend(encrypted, Gap());
    BlocksAppend(encrypted + Gap(), payload);
    GapBlocks();
    DecAppend(c, z, a + g, b);
    DecAppend(c, z, a, g);
    var x, y, w := CbcDec(c, z, a), CbcDec(c, LastOr(a, z), g), CbcDec(c, LastOr(a + g, z), b);
    TwoZeros(c, LastOr(a, z), g);
    BytesAppend(x + y, w);
    BytesAppend(x, y);
    BytesAt(y, 1);
  }

  lemma TwoZeros(c: Cipher, iv: Block, g: seq<Block>)
    requires g == [ZeroBlock(), ZeroBlock()]
    ensures CbcDec(c, iv, g)[1] == c.dec(ZeroBlock())
  {
    XorBZero(c.dec(ZeroBlock()));
    assert g[1..] == [ZeroBlock()];
    assert CbcDec(c, g[0], g[1..])[0] == XorB(c.dec(ZeroBlock()), ZeroBlock());
  }

  lemma {:induction false} BytesAppend(a: seq<Block>, b: seq<Block>)
    ensures ToBytes(a + b) == ToBytes(a) + ToBytes(b)
  {
    if a == [] {
      assert a + b == b;
    } else {
      assert (a + b)[1..] == a[1..] + b;
      BytesAppend(a[1..], b);
    }
  }

  // ----- the loader

  /** Blocks first to first + n of memory. */
  function Region(s: seq<u8>, first: nat, n: nat): (r: seq<u8>)
    requires 16 * first + 16 * n <= |s|
    ensures |r| == 16 * n
  {
    s[16 * first..16 * first + 16 * n]
  }

  lemma RegionBlock(s: seq<u8>, first: nat, n: nat, i: nat)
    requires 16 * first + 16 * n <= |s| && i < n
    ensures Blk(Region(s, first, n), i) == Blk(s, first + i)
  {
    forall k | 0 <= k < 16
      ensures Blk(Region(s, first, n), i)[k] == Blk(s, first + i)[k]
    {
      assert Region(s, first, n)[16 * i + k] == s[16 * first + (16 * i + k)];
    }
  }

  lemma RegionIs(s: seq<u8>, first: nat, n: nat, cs: seq<Block>)
    requires 16 * first + 16 * n <= |s| && |cs| == n
    requires forall i :: 0 <= i < n ==> Blk(s, first + i) == cs[i]
    ensures Region(s, first, n) == ToBytes(cs)
  {
    forall i | 0 <= i < n
      ensures Blk(Region(s, first, n), i) == Blk(ToBytes(cs), i)
    {
      RegionBlock(s, first, n, i);
      BytesAt(cs, i);
    }
    SameBlocks(Region(s, first, n), ToBytes(cs));
  }

  /** The first i blocks of the region have their final value. */
  ghost predicate Finished(d: seq<u8>, first: nat, cs: seq<Block>, i: nat) {
    16 * first + 16 * i <= |d| && i <= |cs| && forall j :: 0 <= j < i ==> Blk(d, first + j) == cs[j]
  }

  lemma FinishedNext(d0: seq<u8>, d: seq<u8>, first: nat, cs: seq<Block>, i: nat, next: nat, b: nat)
    requires Finished(d0, first, cs, i) && OnlyBlock(d0, d, b) && next == i + 1 && b == first + i
    requires 16 * b + 16 <= |d| && next <= |cs| && Blk(d, b) == cs[i]
    ensures Finished(d, first, cs, next)
  {
    forall j | 0 <= j < next
      ensures Blk(d, first + j) == cs[j]
    {
      if j < i {
        OtherBlock(d0, d, b, first + j);
      }
    }
  }

  /** Outside the given blocks nothing has changed. */
  ghost predicate OnlyRegion(s: seq<u8>, r: seq<u8>, first: nat, end: nat) {
    |s| == |r| && forall k :: 0 <= k < |s| && !(16 * first <= k < 16 * end) ==> r[k] == s[k]
  }

  /** The vector that block i is chained with. */
  function Before(cs: seq<Block>, i: nat): Block
    requires i <= |cs|
  {
    if i == 0 then ZeroBlock() else cs[i - 1]
  }

  /** se_aes_decrypt_cbc of the loader, which runs the engine's CBC encryption, in place on n blocks of memory. */
  method CbcInPlace(c: Cipher, a: array<u8>, first: nat, n: nat)
    requires 16 * first + 16 * n <= a.Length
    modifies a
    ensures Region(a[..], first, n) == Enc(c, Region(old(a[..]), first, n))
    ensures OnlyRegion(old(a[..]), a[..], first, first + n)
  {
    ghost var s := a[..];
    ghost var ps := ToBlocks(Region(s, first, n));
    ghost var cs := CbcEnc(c, ZeroBlock(), ps);
    var state := ZeroBlock();
    var i := 0;
    while i < n
      invariant 0 <= i <= n && state == Before(cs, i)
      invariant Finished(a[..], first, cs, i) && OnlyRegion(s, a[..], first, first + i)
    {
      i := i + 1;
      state := CbcStep(c, a, first, n, i - 1, i, first + i - 1, state, s, ps, cs);
    }
    RegionIs(a[..], first, n, cs);
  }

  lemma StepValue(c: Cipher, s: seq<u8>, d: seq<u8>, first: nat, n: nat, i: nat, b: nat, state: Block, ps: seq<Block>,
                  cs: seq<Block>)
    requires i < n && b == first + i && 16 * first + 16 * n <= |s| && OnlyRegion(s, d, first, b)
    requires ps == ToBlocks(Region(s, first, n)) && cs == CbcEnc(c, ZeroBlock(), ps) && state == Before(cs, i)
    ensures cs[i] == c.enc(XorB(Blk(d, b), state))
  {
    BlkSame(s, d, b);
    RegionBlock(s, first, n, i);
    EncAt(c, ZeroBlock(), ps, i);
  }

  method CbcStep(c: Cipher, a: array<u8>, first: nat, n: nat, i: nat, next: nat, b: nat, state: Block,
                 ghost s: seq<u8>, ghost ps: seq<Block>, ghost cs: seq<Block>)
      returns (out: Block)
    requires next == i + 1 <= n && b == first + i && 16 * first + 16 * n <= a.Length == |s|
    requires ps == ToBlocks(Region(s, first, n)) && cs == CbcEnc(c, ZeroBlock(), ps) && state == Before(cs, i)
    requires Finished(a[..], first, cs, i) && OnlyRegion(s, a[..], first, b)
    modifies a
    ensures out == Before(cs, next)
    ensures Finished(a[..], first, cs, next) && OnlyRegion(s, a[..], first, b + 1)
  {
    ghost var d := a[..];
    StepValue(c, s, d, first, n, i, b, state, ps, cs);
    out := c.enc(XorB(Blk(a[..], b), state));
    PutBlock(a, b, out);
    FinishedNext(d, a[..], first, cs, i, next, b);
  }

  /** The encryption of the region gives back the payload, whatever memory follows it in the region. */
  lemma EncRestores(c: Cipher, payload: seq<u8>, tail: seq<u8>)
    requires Permutation(c) && |payload| % 16 == 0 && |tail| % 16 == 0
    ensures Enc(c, Dec(c, payload) + tail)[..|payload|] == payload
  {
    var z := ZeroBlock();
    var d := Dec(c, payload);
    BlocksAppend(d, tail);
    EncPrefix(c, z, ToBlocks(d), ToBlocks(tail));
    DecEnc(c, payload);
    var whole, head := CbcEnc(c, z, ToBlocks(d + tail)), CbcEnc(c, z, ToBlocks(d));
    assert whole == head + whole[|head|..];
    BytesAppend(head, whole[|head|..]);
  }

  /** What the boot ROM leaves in place of the loader. */
  function PlainLoader(c: Cipher, p: Pkg1): seq<u8>
    requires |p.loader| % 16 == 0
  {
    if p.isEncrypted then Dec(c, p.loader) else p.loader
  }

  /**
   For any permutation of the blocks, and any loader and payload of whole blocks: the boot ROM's decryption of the
   whole image starts with the plain loader, and the loader's encryption of the region behind it, up to wherever that
   region ends, gives back the payload that was never encrypted.
   */
  lemma BootRestoresPayload(c: Cipher, p: Pkg1, tail: seq<u8>)
    requires Permutation(c) && p.loader != []
    requires |p.loader| % 16 == 0 && |p.payload| % 16 == 0 && |tail| % 16 == 0
    ensures var r := ImageOf(c, p);
            && r.Ok? && |r.bytes| == |p.loader| + 0x20 + |p.payload|
            && Dec(c, r.bytes)[..|p.loader|] == PlainLoader(c, p)
            && Enc(c, Dec(c, r.bytes)[|p.loader| + 0x20..] + tail)[..|p.payload|] == p.payload
  {
    WholeDecrypted(c, if p.isEncrypted then p.loader else Enc(c, p.loader), p.payload);
    DecEnc(c, p.loader);
    EncRestores(c, p.payload, tail);
  }

  /** An image without a loader is decrypted to the payload itself. */
  lemma BareImage(c: Cipher, payload: seq<u8>)
    requires Permutation(c) && |payload| % 16 == 0
    ensures var r := ImageOf(c, Pkg1(payload, [], false)); r.Ok? && |r.bytes| == |payload| && Dec(c, r.bytes) == payload
  {
    DecEnc(c, payload);
  }

  const REGION_END := 0x1_0000

  lemma RegionFrom(d: seq<u8>, tail: seq<u8>, first: nat, n: nat, start: nat)
    requires start == 16 * first <= |d| && 16 * first + 16 * n == |d + tail|
    ensures Region(d + tail, first, n) == d[start..] + tail
  {
  }

  lemma SplitMemory(s: seq<u8>, r: seq<u8>, loader: nat, payload: nat, first: nat, n: nat)
    requires OnlyRegion(s, r, first, first + n) && loader + 0x20 == 16 * first && 16 * first + 16 * n == |s|
    requires payload <= 16 * n
    ensures r[..loader] == s[..loader]
    ensures r[loader + 0x20..loader + 0x20 + payload] == Region(r, first, n)[..payload]
  {
  }

  /** Memory r is s with the region behind the loader encrypted, and s starts with the decrypted image d. */
  lemma PayloadInRegion(c: Cipher, p: Pkg1, s: seq<u8>, r: seq<u8>, first: nat, n: nat, start: nat, d: seq<u8>)
    requires Permutation(c) && p.loader != [] && |p.loader| % 16 == 0 && |p.payload| % 16 == 0
    requires start == |p.loader| + 0x20 == 16 * first && 16 * first + 16 * n == |s| && start + |p.payload| <= |s|
    requires d == Dec(c, ImageOf(c, p).bytes) && s[..start + |p.payload|] == d
    requires OnlyRegion(s, r, first, first + n) && Region(r, first, n) == Enc(c, Region(s, first, n))
    ensures r[..|p.loader|] == PlainLoader(c, p)
    ensures r[start..start + |p.payload|] == p.payload
  {
    var tail := s[|d|..];
    BootRestoresPayload(c, p, tail);
    assert s == d + tail;
    RegionFrom(d, tail, first, n, start);
    SplitMemory(s, r, |p.loader|, |p.payload|, first, n);
  }

  /**
   reencrypt_payload on the memory that the boot ROM has filled with the decrypted image: the bytes behind the loader
   and the gap are the payload again, and the loader itself is untouched.
   */
  method ReencryptPayload(c: Cipher, mem: array<u8>, loaderSize: nat, ghost p: Pkg1)
    requires Permutation(c) && loaderSize == |p.loader| && p.loader != [] && |p.loader| % 16 == 0
    requires |p.payload| % 16 == 0
    requires |p.loader| + 0x20 + |p.payload| <= 0x1_0000 == mem.Length
    requires mem[..|p.loader| + 0x20 + |p.payload|] == Dec(c, ImageOf(c, p).bytes)
    modifies mem
    ensures mem[..|p.loader|] == PlainLoader(c, p)
    ensures mem[|p.loader| + 0x20..|p.loader| + 0x20 + |p.payload|] == p.payload
  {
    var first := (loaderSize + GAP) / 16;
    var n := REGION_END / 16 - first;
    ghost var s := mem[..];
    CbcInPlace(c, mem, first, n);
    PayloadInRegion(c, p, s, mem[..], first, n, |p.loader| + GAP, Dec(c, ImageOf(c, p).bytes));
  }
}
