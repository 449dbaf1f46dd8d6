/** The tweak that the eMMC reader saves from one read to the next, and when the next read may go on from it. */
module BisTweaks {
  import opened Bits
  import opened Blocks
  import opened Words
  import opened Xts

  const CLUSTER_SECTORS := 32
  const NO_CLUSTER: u32 := 0xffff_ffff

  /** The tweak of block k of a cluster. */
  function TweakOf(e: Block -> Block, cluster: u64, k: nat): Block { TimesXN(e(SectorBlock(cluster)), k) }

  // ----- the saved tweak

  /** The saved tweak is the one that follows the last block read. */
  ghost predicate Saved(e: Block -> Block, prevCluster: u32, prevSector: u32, tweak: Block) {
    prevCluster != NO_CLUSTER ==>
      && prevSector / CLUSTER_SECTORS == prevCluster
      && tweak == TweakOf(e, prevCluster, 32 * (prevSector % CLUSTER_SECTORS + 1))
  }

  /** The tweak is made again unless the read goes forward in the cluster that was read last. */
  predicate Regen(prevCluster: u32, prevSector: u32, sector: u32) {
    prevCluster != sector / CLUSTER_SECTORS || sector <= prevSector
  }

  function Skipped(prevCluster: u32, prevSector: u32, sector: u32): u32 {
    if Regen(prevCluster, prevSector, sector) then sector % CLUSTER_SECTORS else sector - prevSector - 1
  }

  /** The tweak that the driver uses for the first block of a read. */
  function NextTweak(tweakCipher: Cipher, prevCluster: u32, prevSector: u32, tweak: Block, sector: u32): Block {
    FirstTweak(tweakCipher, sector / CLUSTER_SECTORS, tweak, Regen(prevCluster, prevSector, sector),
               Skipped(prevCluster, prevSector, sector))
  }

  lemma SkipIs(skipped: u32, n: nat)
    requires skipped < 0x800_0000 && n == 32 * skipped
    ensures SkipCount(skipped) == n
  {
  }

  lemma FirstTweakIs(tweakCipher: Cipher, cluster: u64, saved: Block, regen: bool, skipped: u32, n: nat)
    requires skipped < 0x800_0000 && n == 32 * skipped
    ensures FirstTweak(tweakCipher, cluster, saved, regen, skipped) ==
            TimesXN(if regen then tweakCipher.enc(SectorBlock(cluster)) else saved, n)
  {
    SkipIs(skipped, n);
  }

  lemma Forward(prevSector: u32, sector: u32)
    requires prevSector / CLUSTER_SECTORS == sector / CLUSTER_SECTORS && sector > prevSector
    ensures 32 * (prevSector % CLUSTER_SECTORS + 1) + 32 * (sector - prevSector - 1) == 32 * (sector % CLUSTER_SECTORS)
    ensures sector - prevSector - 1 < CLUSTER_SECTORS
  {
  }

  lemma NextTweakFrom(e: Block -> Block, tweakCipher: Cipher, prevCluster: u32, prevSector: u32, tweak: Block,
                      sector: u32, n: nat)
    requires Saved(e, prevCluster, prevSector, tweak) && n == 32 * (sector % CLUSTER_SECTORS)
    ensures NextTweak(tweakCipher, prevCluster, prevSector, tweak, sector) ==
            TweakOf(if Regen(prevCluster, prevSector, sector) then tweakCipher.enc else e, sector / CLUSTER_SECTORS, n)
  {
    var cluster, skipped := sector / CLUSTER_SECTORS, Skipped(prevCluster, prevSector, sector);
    if Regen(prevCluster, prevSector, sector) {
      FirstTweakIs(tweakCipher, cluster, tweak, true, skipped, n);
    } else {
      Forward(prevSector, sector);
      FirstTweakIs(tweakCipher, cluster, tweak, false, skipped, 32 * skipped);
      TimesXAdd(e(SectorBlock(cluster)), 32 * (prevSector % CLUSTER_SECTORS + 1), 32 * skipped, n);
    }
  }

  // ----- exactly when the tweak of a read is right

  /** Going on from the saved tweak multiplies it this often. */
  function Onward(prevSector: u32, sector: u32): nat
    requires prevSector < sector
  {
    SkipCount(sector - prevSector - 1)
  }

  /** x^a times the tweak is x^b times the start: the common powers cancel. */
  predicate Leads(tweak: Block, start: Block, a: nat, b: nat) {
    if b <= a then TimesXN(tweak, a - b) == start else tweak == TimesXN(start, b - a)
  }

  /** The saved tweak leads to the first block of the sector. */
  predicate Continues(e: Block -> Block, prevSector: u32, sector: u32, tweak: Block)
    requires prevSector < sector
  {
    Leads(tweak, e(SectorBlock(sector / CLUSTER_SECTORS)), Onward(prevSector, sector), 32 * (sector % CLUSTER_SECTORS))
  }

  /** What a caller can look at before a read: it makes a new tweak, or the saved one leads to its sector. */
  predicate Fits(e: Block -> Block, prevCluster: u32, prevSector: u32, tweak: Block, sector: u32) {
    Regen(prevCluster, prevSector, sector) || Continues(e, prevSector, sector, tweak)
  }

  /** Equal powers of x cancel. */
  lemma Cancel(t: Block, u: Block, m: nat, n: nat, sum: nat)
    requires sum == m + n
    ensures TimesXN(t, sum) == TimesXN(u, n) <==> TimesXN(t, m) == u
  {
    TimesXAdd(t, m, n, sum);
    if TimesXN(t, sum) == TimesXN(u, n) {
      TimesXNInjective(TimesXN(t, m), u, n);
    }
  }

  lemma LeadsFromBefore(tweak: Block, start: Block, a: nat, b: nat, n: nat)
    requires n > 0 && b == n + a
    ensures Leads(tweak, start, a, b) <==> tweak == TimesXN(start, n)
  {
    assert b - a == n;
  }

  lemma LeadsFromBehind(tweak: Block, start: Block, a: nat, b: nat, n: nat)
    requires a == n + b
    ensures Leads(tweak, start, a, b) <==> TimesXN(tweak, n) == start
  {
    assert a - b == n;
  }

  lemma LeadsTo(tweak: Block, start: Block, a: nat, b: nat)
    ensures TimesXN(tweak, a) == TimesXN(start, b) <==> Leads(tweak, start, a, b)
  {
    if b <= a {
      var n := a - b;
      LeadsFromBehind(tweak, start, a, b, n);
      Cancel(tweak, start, n, b, a);
    } else {
      var n := b - a;
      LeadsFromBefore(tweak, start, a, b, n);
      Cancel(start, tweak, n, a, b);
    }
  }

  lemma GoesOn(c: Cipher, prevCluster: u32, prevSector: u32, tweak: Block, sector: u32)
    requires !Regen(prevCluster, prevSector, sector)
    ensures NextTweak(c, prevCluster, prevSector, tweak, sector) == TimesXN(tweak, Onward(prevSector, sector))
  {
  }

  /** Whatever has been saved, by whatever calls: the tweak of the next read is right if and only if it fits. */
  lemma NextTweakRight(c: Cipher, prevCluster: u32, prevSector: u32, tweak: Block, sector: u32, cluster: u64, n: nat)
    requires cluster == sector / CLUSTER_SECTORS && n == 32 * (sector % CLUSTER_SECTORS)
    ensures NextTweak(c, prevCluster, prevSector, tweak, sector) == TweakOf(c.enc, cluster, n) <==>
            Fits(c.enc, prevCluster, prevSector, tweak, sector)
  {
    if Regen(prevCluster, prevSector, sector) {
      FirstTweakIs(c, cluster, tweak, true, sector % CLUSTER_SECTORS, n);
    } else {
      GoesOn(c, prevCluster, prevSector, tweak, sector);
      LeadsTo(tweak, c.enc(SectorBlock(cluster)), Onward(prevSector, sector), n);
    }
  }

  /** Within one cluster: the saved tweak must be the one that follows the last block read. */
  lemma SameCluster(e: Block -> Block, prevSector: u32, sector: u32, tweak: Block, cluster: u64, n: nat)
    requires prevSector < sector && cluster == sector / CLUSTER_SECTORS == prevSector / CLUSTER_SECTORS
    requires n == 32 * (prevSector % CLUSTER_SECTORS + 1)
    ensures Continues(e, prevSector, sector, tweak) <==> tweak == TweakOf(e, cluster, n)
  {
    Forward(prevSector, sector);
    SkipIs(sector - prevSector - 1, 32 * (sector - prevSector - 1));
    LeadsFromBefore(tweak, e(SectorBlock(cluster)), Onward(prevSector, sector), 32 * (sector % CLUSTER_SECTORS), n);
  }

  /**
   A failed read has moved the cluster but not the sector. From a sector of an earlier cluster the tweak would have to
   lie that far in front of the new one; from a later cluster a new tweak is made in any case.
   */
  lemma MovedCluster(e: Block -> Block, prevSector: u32, sector: u32, tweak: Block, cluster: u32, n: nat)
    requires cluster == sector / CLUSTER_SECTORS != prevSector / CLUSTER_SECTORS
    ensures cluster < prevSector / CLUSTER_SECTORS ==> Regen(cluster, prevSector, sector)
    ensures prevSector / CLUSTER_SECTORS < cluster && sector - prevSector <= 0x800_0000 &&
            n == 32 * (32 * cluster - prevSector - 1) ==>
              prevSector < sector &&
              (Continues(e, prevSector, sector, tweak) <==> TimesXN(tweak, n) == e(SectorBlock(cluster)))
  {
    if prevSector < sector && sector - prevSector <= 0x800_0000 && n == 32 * (32 * cluster - prevSector - 1) {
      SkipIs(sector - prevSector - 1, 32 * (sector - prevSector - 1));
      assert sector == 32 * cluster + sector % CLUSTER_SECTORS;
      LeadsFromBehind(tweak, e(SectorBlock(cluster)), Onward(prevSector, sector), 32 * (sector % CLUSTER_SECTORS), n);
    }
  }

  /** In sync, every read fits. */
  lemma SavedFits(e: Block -> Block, prevCluster: u32, prevSector: u32, tweak: Block, sector: u32)
    requires Saved(e, prevCluster, prevSector, tweak)
    ensures Fits(e, prevCluster, prevSector, tweak, sector)
  {
    if !Regen(prevCluster, prevSector, sector) {
      SameCluster(e, prevSector, sector, tweak, prevCluster, 32 * (prevSector % CLUSTER_SECTORS + 1));
    }
  }

  lemma LastSector(sector: nat, count: nat, last: nat)
    requires 0 < count && sector % CLUSTER_SECTORS + count <= CLUSTER_SECTORS && last == sector + count - 1
    ensures last / CLUSTER_SECTORS == sector / CLUSTER_SECTORS
    ensures last % CLUSTER_SECTORS == sector % CLUSTER_SECTORS + count - 1
  {
    assert last == CLUSTER_SECTORS * (sector / CLUSTER_SECTORS) + (sector % CLUSTER_SECTORS + count - 1);
  }

  /** After a read of n blocks the reader is in sync again if and only if the read started with the right tweak. */
  lemma SavedAgain(e: Block -> Block, cluster: u32, sector: u32, count: nat, last: u32, t: Block, tweak: Block, n: nat)
    requires 0 < count && sector % CLUSTER_SECTORS + count <= CLUSTER_SECTORS
    requires cluster == sector / CLUSTER_SECTORS && last == sector + count - 1 && n == 32 * count
    requires tweak == TimesXN(t, n)
    ensures Saved(e, cluster, last, tweak) <==> t == TweakOf(e, cluster, 32 * (sector % CLUSTER_SECTORS))
  {
    var start, r := e(SectorBlock(cluster)), 32 * (sector % CLUSTER_SECTORS);
    LastSector(sector, count, last);
    Cancel(start, t, r, n, 32 * (last % CLUSTER_SECTORS + 1));
  }

  // ----- another partition

  /**
   Selecting another partition leaves the saved tweak alone. The next read then uses the right tweak exactly when it
   makes a new one, or when the two tweak keys happen to agree on the cluster.
   */
  lemma OtherPartition(was: Cipher, now: Cipher, prevCluster: u32, prevSector: u32, tweak: Block, sector: u32,
                       cluster: u64, n: nat)
    requires Saved(was.enc, prevCluster, prevSector, tweak)
    requires cluster == sector / CLUSTER_SECTORS && n == 32 * (sector % CLUSTER_SECTORS)
    ensures NextTweak(now, prevCluster, prevSector, tweak, sector) == TweakOf(now.enc, cluster, n) <==>
            Regen(prevCluster, prevSector, sector) || was.enc(SectorBlock(cluster)) == now.enc(SectorBlock(cluster))
  {
    NextTweakFrom(was.enc, now, prevCluster, prevSector, tweak, sector, n);
    var a, b := was.enc(SectorBlock(cluster)), now.enc(SectorBlock(cluster));
    if TimesXN(a, n) == TimesXN(b, n) {
      TimesXNInjective(a, b, n);
    }
  }

  // ----- a read whose engine operation failed

  /**
   The data pass of a read has failed after the tweak was multiplied along. The same read again is right if and only if
   it makes a new tweak, or multiplying by that power of x changes nothing.
   */
  lemma RetryAfterFailure(c: Cipher, prevCluster: u32, prevSector: u32, tweak: Block, sector: u32, count: nat,
                          cluster: u32, left: Block, ahead: nat)
    requires Saved(c.enc, prevCluster, prevSector, tweak)
    requires cluster == sector / CLUSTER_SECTORS == prevSector / CLUSTER_SECTORS
    requires prevCluster == cluster && prevSector < sector && sector % CLUSTER_SECTORS + count <= CLUSTER_SECTORS
    requires left == TimesXN(NextTweak(c, prevCluster, prevSector, tweak, sector), 32 * count)
    requires ahead == 32 * (sector - prevSector - 1 + count)
    ensures Fits(c.enc, cluster, prevSector, left, sector) <==>
            TimesXN(c.enc(SectorBlock(cluster)), ahead) == c.enc(SectorBlock(cluster))
  {
    var start, r := c.enc(SectorBlock(cluster)), 32 * (sector % CLUSTER_SECTORS);
    var saved := 32 * (prevSector % CLUSTER_SECTORS + 1);
    NextTweakFrom(c.enc, c, prevCluster, prevSector, tweak, sector, r);
    TimesXAdd(start, r, 32 * count, r + 32 * count);
    SameCluster(c.enc, prevSector, sector, left, cluster, saved);
    Forward(prevSector, sector);
    Cancel(start, start, ahead, saved, r + 32 * count);
  }

  // ----- failing inputs

  /** Adding a constant: a permutation under which the first tweak of cluster 0 is that constant. */
  function Adding(k: Block): Cipher { Cipher(b => XorB(b, k), b => XorB(b, k)) }

  lemma AddingPermutes(k: Block)
    ensures Permutation(Adding(k))
  {
    forall b: Block
      ensures Adding(k).dec(Adding(k).enc(b)) == b && Adding(k).enc(Adding(k).dec(b)) == b
    {
      XorBCancel(b, k);
    }
  }

  /** The number of the first cluster is a parameter, as its bytes are divisions that a literal would unfold. */
  lemma FirstCluster(k: Block, sec: u64)
    requires sec == 0
    ensures Adding(k).enc(SectorBlock(sec)) == k
  {
    forall i | 0 <= i < BLOCK_SIZE
      ensures SectorBlock(sec)[i] == 0
    {
      ZeroParts(8 * (15 - i));
      ZeroParts(8);
    }
    assert SectorBlock(sec) == ZeroBlock();
    XorBZero(k);
  }

  /** The block of the polynomial 1. */
  function One(): Block { ZeroBlock()[0 := 1] }

  lemma OneCoeff(k: nat)
    requires k < 128
    ensures Coeff(One(), k) == (k == 0)
  {
    BitOfZero(k % 8);
    BitPow2(0, k % 8);
  }

  /** The block has coefficient n and no other. */
  ghost predicate IsPower(b: Block, n: nat) { forall k :: 0 <= k < 128 ==> Coeff(b, k) == (k == n) }

  lemma PowerStep(b: Block, n: nat, next: nat)
    requires IsPower(b, n) && next == n + 1 < 128
    ensures IsPower(TimesX(b), next)
  {
    forall k | 0 <= k < 128
      ensures Coeff(TimesX(b), k) == (k == next)
    {
      TimesXCoeff(b, k);
    }
  }

  /** x^n has one coefficient, as long as nothing is shifted out. */
  lemma {:induction false} PowerCoeff(n: nat)
    requires n < 128
    ensures IsPower(TimesXN(One(), n), n)
  {
    if n == 0 {
      NoSteps(One(), n);
      forall k | 0 <= k < 128
        ensures Coeff(One(), k) == (k == 0)
      {
        OneCoeff(k);
      }
    } else {
      PowerCoeff(n - 1);
      TimesXNext(One(), n - 1, n);
      PowerStep(TimesXN(One(), n - 1), n - 1, n);
    }
  }

  lemma PowerMoves(n: nat)
    requires 0 < n < 128
    ensures TimesXN(One(), n) != One()
  {
    PowerCoeff(n);
    OneCoeff(0);
    assert !Coeff(TimesXN(One(), n), 0);
  }

  /**
   Sector 0 has been read, and the read of sector 1 behind it fails in its data pass: the same read again uses a wrong
   tweak. The initial state of such a run is in sync.
   */
  lemma RetryGoesWrong(tweak: Block, left: Block, n: nat)
    requires n == 32 && tweak == TweakOf(Adding(One()).enc, 0, n)
    requires left == TimesXN(NextTweak(Adding(One()), 0, 0, tweak, 1), n)
    ensures Permutation(Adding(One())) && Saved(Adding(One()).enc, 0, 0, tweak)
    ensures NextTweak(Adding(One()), 0, 0, left, 1) != TweakOf(Adding(One()).enc, 0, n)
  {
    var c := Adding(One());
    AddingPermutes(One());
    FirstCluster(One(), 0);
    RetryAfterFailure(c, 0, 0, tweak, 1, 1, 0, left, n);
    PowerMoves(n);
    NextTweakRight(c, 0, 0, left, 1, 0, n);
  }

  /** Sector 0 of one partition, then sector 1 of another one with other keys: the second read uses a wrong tweak. */
  lemma OtherPartitionGoesWrong(tweak: Block, n: nat)
    requires n == 32 && tweak == TweakOf(Adding(One()).enc, 0, n)
    ensures Permutation(Adding(One())) && Permutation(Adding(ZeroBlock())) && Saved(Adding(One()).enc, 0, 0, tweak)
    ensures NextTweak(Adding(ZeroBlock()), 0, 0, tweak, 1) != TweakOf(Adding(ZeroBlock()).enc, 0, n)
  {
    AddingPermutes(One());
    AddingPermutes(ZeroBlock());
    FirstCluster(One(), 0);
    FirstCluster(ZeroBlock(), 0);
    assert One()[0] != ZeroBlock()[0];
    OtherPartition(Adding(One()), Adding(ZeroBlock()), 0, 0, tweak, 1, 0, n);
  }
}
