/**
 Reading an encrypted eMMC partition: a cluster of 32 sectors is one XTS data unit, and the tweak left behind by
 one read is used again by the next one in the same cluster.
 */
module BisReader {
  import opened Bits
  import opened Blocks
  import opened Words
  import opened Wrappers
  import opened Xts
  import opened BisTweaks

  const SECTOR_SIZE := 512

  /** The bytes of a partition of whole sectors, whose number is a 32-bit value. */
  type Partition = s: seq<u8> | |s| % 512 == 0 && |s| <= 0x1ff_ffff_fe00

  /** Block b of a partition, decrypted as part of its whole cluster of 1024 blocks. */
  function PlainBlock(tweakCipher: Cipher, cryptCipher: Cipher, part: Partition, b: nat): Block
    requires 16 * b + 16 <= |part|
  {
    XtsBlock(cryptCipher.dec, TweakOf(tweakCipher.enc, b / 1024, b % 1024), Blk(part, b))
  }

  /** Block i of the data is block b of the partition, decrypted. */
  ghost predicate PlainAt(tweakCipher: Cipher, cryptCipher: Cipher, part: Partition, b: nat, i: nat, data: seq<u8>)
    requires 16 * i + 16 <= |data|
  {
    16 * b + 16 <= |part| && Blk(data, i) == PlainBlock(tweakCipher, cryptCipher, part, b)
  }

  /** The data are the plain text of the partition from a block on. */
  ghost predicate Plain(tweakCipher: Cipher, cryptCipher: Cipher, part: Partition, first: nat, data: seq<u8>) {
    forall i, b :: 0 <= i < |data| / 16 && b == first + i ==> PlainAt(tweakCipher, cryptCipher, part, b, i, data)
  }

  // ----- blocks of a read

  lemma ClusterBlock(sector: nat, i: nat)
    requires sector % CLUSTER_SECTORS * 32 + i < 1024
    ensures (32 * sector + i) / 1024 == sector / CLUSTER_SECTORS
    ensures (32 * sector + i) % 1024 == 32 * (sector % CLUSTER_SECTORS) + i
  {
    var c, r := sector / CLUSTER_SECTORS, sector % CLUSTER_SECTORS;
    assert 32 * sector + i == 1024 * c + (32 * r + i);
  }

  lemma SliceBlock(s: seq<u8>, r: seq<u8>, start: nat, i: nat, b: nat)
    requires start + |r| <= |s| && r == s[start..start + |r|]
    requires start + 16 * i == 16 * b && 16 * i + 16 <= |r|
    ensures Blk(r, i) == Blk(s, b)
  {
    forall k | 0 <= k < 16
      ensures Blk(r, i)[k] == Blk(s, b)[k]
    {
      assert r[16 * i + k] == s[start + (16 * i + k)];
    }
  }

  lemma PlainBlockAt(tweakCipher: Cipher, cryptCipher: Cipher, part: Partition, b: nat, cluster: u64, k: nat)
    requires 16 * b + 16 <= |part| && b / 1024 == cluster && b % 1024 == k
    ensures PlainBlock(tweakCipher, cryptCipher, part, b) ==
            XtsBlock(cryptCipher.dec, TweakOf(tweakCipher.enc, cluster, k), Blk(part, b))
  {
  }

  /** A block of the read is that block of its cluster. */
  lemma ReadBlockIs(tweakCipher: Cipher, cryptCipher: Cipher, part: Partition, sector: u32, count: nat, raw: seq<u8>,
                    t: Block, i: nat, b: nat)
    requires sector % CLUSTER_SECTORS + count <= CLUSTER_SECTORS && i < 32 * count && b == 32 * sector + i
    requires 512 * sector + 512 * count <= |part|
    requires raw == part[512 * sector..512 * sector + 512 * count]
    requires t == TweakOf(tweakCipher.enc, sector / CLUSTER_SECTORS, 32 * (sector % CLUSTER_SECTORS))
    ensures XtsBlock(cryptCipher.dec, TimesXN(t, i), Blk(raw, i)) == PlainBlock(tweakCipher, cryptCipher, part, b)
  {
    var cluster, r := sector / CLUSTER_SECTORS, 32 * (sector % CLUSTER_SECTORS);
    var k := r + i;
    ClusterBlock(sector, i);
    TimesXAdd(tweakCipher.enc(SectorBlock(cluster)), r, i, k);
    SliceBlock(part, raw, 512 * sector, i, b);
    PlainBlockAt(tweakCipher, cryptCipher, part, b, cluster, k);
  }

  lemma ReadIsPlain(tweakCipher: Cipher, cryptCipher: Cipher, part: Partition, sector: u32, count: nat, raw: seq<u8>,
                    t: Block, first: nat, n: nat, data: seq<u8>)
    requires n == 32 * count && sector % CLUSTER_SECTORS + count <= CLUSTER_SECTORS && first == 32 * sector
    requires 512 * sector + 512 * count <= |part| && |data| == |raw| == 512 * count
    requires raw == part[512 * sector..512 * sector + 512 * count]
    requires t == TweakOf(tweakCipher.enc, sector / CLUSTER_SECTORS, 32 * (sector % CLUSTER_SECTORS))
    requires forall i :: 0 <= i < n ==> Blk(data, i) == XtsBlock(cryptCipher.dec, TimesXN(t, i), Blk(raw, i))
    ensures Plain(tweakCipher, cryptCipher, part, first, data)
  {
    forall i, b | 0 <= i < |data| / 16 && b == first + i
      ensures PlainAt(tweakCipher, cryptCipher, part, b, i, data)
    {
      ReadBlockIs(tweakCipher, cryptCipher, part, sector, count, raw, t, i, b);
    }
  }

  lemma PlainHead(tweakCipher: Cipher, cryptCipher: Cipher, part: Partition, b: nat, a: seq<u8>, s: seq<u8>, i: nat)
    requires 16 * i + 16 <= |a| <= |s| && a == s[..|a|] && PlainAt(tweakCipher, cryptCipher, part, b, i, a)
    ensures PlainAt(tweakCipher, cryptCipher, part, b, i, s)
  {
    assert Blk(s, i) == Blk(a, i);
  }

  lemma PlainTail(tweakCipher: Cipher, cryptCipher: Cipher, part: Partition, b: nat, n: nat, a: seq<u8>, s: seq<u8>,
                  i: nat, j: nat)
    requires 16 * n + |a| == |s| && a == s[16 * n..16 * n + |a|] && i == n + j && 16 * j + 16 <= |a|
    requires PlainAt(tweakCipher, cryptCipher, part, b, j, a)
    ensures PlainAt(tweakCipher, cryptCipher, part, b, i, s)
  {
    SliceBlock(s, a, 16 * n, j, i);
  }

  lemma PlainAppend(tweakCipher: Cipher, cryptCipher: Cipher, part: Partition, first: nat, a: seq<u8>, n: nat,
                    b: seq<u8>, middle: nat)
    requires |a| == 16 * n && middle == first + n
    requires Plain(tweakCipher, cryptCipher, part, first, a) && Plain(tweakCipher, cryptCipher, part, middle, b)
    ensures Plain(tweakCipher, cryptCipher, part, first, a + b)
  {
    var s := a + b;
    assert a == s[..|a|] && b == s[16 * n..16 * n + |b|];
    forall i, at | 0 <= i < |s| / 16 && at == first + i
      ensures PlainAt(tweakCipher, cryptCipher, part, at, i, s)
    {
      if i < n {
        PlainHead(tweakCipher, cryptCipher, part, at, a, s, i);
      } else {
        PlainTail(tweakCipher, cryptCipher, part, at, n, b, s, i, i - n);
      }
    }
  }

  lemma XtsBlockInverse(c: Cipher, t: Block, p: Block)
    requires Permutation(c)
    ensures XtsBlock(c.dec, t, XtsBlock(c.enc, t, p)) == p
  {
    XorBCancel(c.enc(XorB(p, t)), t);
    assert c.dec(c.enc(XorB(p, t))) == XorB(p, t);
    XorBCancel(p, t);
  }

  /** What is written in place of some sectors is their plain text from then on. */
  lemma WrittenIsPlain(tweakCipher: Cipher, cryptCipher: Cipher, part: Partition, sector: u32, count: nat,
                       raw: seq<u8>, t: Block, first: nat, n: nat, data: seq<u8>)
    requires Permutation(cryptCipher)
    requires n == 32 * count && sector % CLUSTER_SECTORS + count <= CLUSTER_SECTORS && first == 32 * sector
    requires 512 * sector + 512 * count <= |part| && |data| == |raw| == 512 * count
    requires raw == part[512 * sector..512 * sector + 512 * count]
    requires t == TweakOf(tweakCipher.enc, sector / CLUSTER_SECTORS, 32 * (sector % CLUSTER_SECTORS))
    requires forall i :: 0 <= i < n ==> Blk(raw, i) == XtsBlock(cryptCipher.enc, TimesXN(t, i), Blk(data, i))
    ensures Plain(tweakCipher, cryptCipher, part, first, data)
  {
    forall i | 0 <= i < n
      ensures Blk(data, i) == XtsBlock(cryptCipher.dec, TimesXN(t, i), Blk(raw, i))
    {
      XtsBlockInverse(cryptCipher, TimesXN(t, i), Blk(data, i));
    }
    ReadIsPlain(tweakCipher, cryptCipher, part, sector, count, raw, t, first, n, data);
  }

  lemma PlainKept(tweakCipher: Cipher, cryptCipher: Cipher, was: Partition, part: Partition, first: nat,
                  data: seq<u8>, a: nat, b: nat)
    requires SameOutside(was, part, a, b) && 16 * first + |data| <= a
    requires Plain(tweakCipher, cryptCipher, was, first, data)
    ensures Plain(tweakCipher, cryptCipher, part, first, data)
  {
    forall i, at | 0 <= i < |data| / 16 && at == first + i
      ensures PlainAt(tweakCipher, cryptCipher, part, at, i, data)
    {
      assert PlainAt(tweakCipher, cryptCipher, was, at, i, data);
      BlkSame(was, part, at);
    }
  }

  /** The plain text of given sectors is one thing only, so what was written is what a later read returns. */
  lemma PlainUnique(tweakCipher: Cipher, cryptCipher: Cipher, part: Partition, first: nat, a: seq<u8>, b: seq<u8>,
                    n: nat)
    requires |a| == |b| == 16 * n
    requires Plain(tweakCipher, cryptCipher, part, first, a) && Plain(tweakCipher, cryptCipher, part, first, b)
    ensures a == b
  {
    forall k | 0 <= k < |a|
      ensures a[k] == b[k]
    {
      var i := k / 16;
      var at := first + i;
      assert PlainAt(tweakCipher, cryptCipher, part, at, i, a) && PlainAt(tweakCipher, cryptCipher, part, at, i, b);
      assert Blk(a, i)[k - 16 * i] == Blk(b, i)[k - 16 * i];
    }
  }

  // ----- the driver

  /** How a read ended. */
  datatype Outcome = Done | NotReady | RawFailed | TweakFailed | DataFailed

  function Code(how: Outcome): nat {
    match how
    case Done => 0
    case NotReady => 3
    case _ => 1
  }

  /** The sectors of a read that lie in its first cluster, at most. */
  function Room(sector: nat): nat { CLUSTER_SECTORS - sector % CLUSTER_SECTORS }

  /** A piece that ends within its cluster. */
  lemma PieceEnds(current: nat, n: nat)
    requires 0 < n && current % CLUSTER_SECTORS + n <= CLUSTER_SECTORS
    ensures (current + n - 1) / CLUSTER_SECTORS == current / CLUSTER_SECTORS
    ensures 0 < current && current % CLUSTER_SECTORS == 0 ==>
            (current - 1) / CLUSTER_SECTORS != current / CLUSTER_SECTORS
  {
    LastSector(current, n, current + n - 1);
  }

  /** A read is cut at its start, at its end, and between two clusters. */
  predicate Cut(sector: nat, count: nat, done: nat) {
    done == 0 || done == count || ((sector + done) % CLUSTER_SECTORS == 0 && Room(sector) <= done)
  }

  lemma PieceCut(sector: nat, count: nat, done: nat, current: nat, n: nat, next: nat)
    requires Cut(sector, count, done) && done < count && current == sector + done && next == done + n
    requires n == if count - done < Room(current) then count - done else Room(current)
    ensures 0 < n && current % CLUSTER_SECTORS + n <= CLUSTER_SECTORS && Cut(sector, count, next) && next <= count
    ensures if done == 0 then n <= Room(sector) else current % CLUSTER_SECTORS == 0 && Room(sector) <= done
  {
    if n == Room(current) {
      assert current + n == CLUSTER_SECTORS * (current / CLUSTER_SECTORS + 1);
    }
  }

  /** The data read so far: plain text from the start if that was in step, and from the second cluster on anyway. */
  ghost predicate Got(tweakCipher: Cipher, cryptCipher: Cipher, part: Partition, fits: bool, sector: nat, done: nat,
                      data: seq<u8>) {
    && |data| == 512 * done
    && (fits ==> Plain(tweakCipher, cryptCipher, part, 32 * sector, data))
    && (Room(sector) <= done ==>
          Plain(tweakCipher, cryptCipher, part, 32 * (sector + Room(sector)), data[512 * Room(sector)..]))
  }

  /** A first piece, which lies in the first cluster. */
  lemma GotFirst(tweakCipher: Cipher, cryptCipher: Cipher, part: Partition, fits: bool, sector: nat, n: nat,
                 more: seq<u8>)
    requires n <= Room(sector) && |more| == 512 * n
    requires (fits ==> Plain(tweakCipher, cryptCipher, part, 32 * sector, more))
    ensures Got(tweakCipher, cryptCipher, part, fits, sector, n, more)
  {
    if Room(sector) <= n {
      assert more[512 * Room(sector)..] == [];
    }
  }

  /** A later piece, which is plain text. */
  lemma GotMore(tweakCipher: Cipher, cryptCipher: Cipher, part: Partition, fits: bool, sector: nat, done: nat,
                data: seq<u8>, current: nat, n: nat, more: seq<u8>, next: nat)
    requires Got(tweakCipher, cryptCipher, part, fits, sector, done, data) && Room(sector) <= done
    requires current == sector + done && next == done + n && |more| == 512 * n
    requires Plain(tweakCipher, cryptCipher, part, 32 * current, more)
    ensures Got(tweakCipher, cryptCipher, part, fits, sector, next, data + more)
  {
    var room := Room(sector);
    var tail := data[512 * room..];
    if fits {
      PlainAppend(tweakCipher, cryptCipher, part, 32 * sector, data, 32 * done, more, 32 * current);
    }
    PlainAppend(tweakCipher, cryptCipher, part, 32 * (sector + room), tail, 32 * (done - room), more, 32 * current);
    assert (data + more)[512 * room..] == tail + more;
  }

  class Reader {
    const keys: seq<Cipher>
    var tweakCipher: Cipher
    var cryptCipher: Cipher
    var ready: bool
    var part: Partition
    var prevCluster: u32
    var prevSector: u32
    const tweak: array<u8>

    ghost predicate Valid()
      reads this
    {
      tweak.Length == BLOCK_SIZE && |keys| == 6
    }

    ghost predicate Synced()
      requires Valid()
      reads this, tweak
    {
      Saved(tweakCipher.enc, prevCluster, prevSector, tweak[..])
    }

    /** The next read of this sector will use the right tweak. */
    ghost predicate InStep(sector: u32)
      requires Valid()
      reads this, tweak
    {
      Fits(tweakCipher.enc, prevCluster, prevSector, tweak[..], sector)
    }

    /** Before the first call no partition is selected, and nothing has been read. */
    constructor (keys: seq<Cipher>)
      requires |keys| == 6
      ensures Valid() && Synced() && fresh(tweak) && !ready && this.keys == keys
    {
      this.keys := keys;
      this.tweakCipher := keys[0];
      this.cryptCipher := keys[0];
      this.ready := false;
      this.part := [];
      this.prevCluster := NO_CLUSTER;
      this.prevSector := 0;
      this.tweak := new u8[BLOCK_SIZE](_ => 0);
    }

    /**
     nx_emmc_bis_init without the cache: the key slots by partition name, for the data and for the tweak. The saved
     tweak stays, whatever the new keys are.
     */
    method Init(name: string, part: Partition)
      requires Valid()
      modifies this
      ensures Valid() && this.part == part && prevCluster == old(prevCluster) && prevSector == old(prevSector)
      ensures name in {"PRODINFO", "PRODINFOF"} ==> ready && cryptCipher == keys[0] && tweakCipher == keys[1]
      ensures name in {"SAFE"} ==> ready && cryptCipher == keys[2] && tweakCipher == keys[3]
      ensures name in {"SYSTEM", "USER"} ==> ready && cryptCipher == keys[4] && tweakCipher == keys[5]
      ensures name !in {"PRODINFO", "PRODINFOF", "SAFE", "SYSTEM", "USER"} ==>
                !ready && cryptCipher == old(cryptCipher) && tweakCipher == old(tweakCipher)
      ensures old(Synced()) && tweakCipher.enc == old(tweakCipher.enc) ==> Synced()
    {
      this.part := part;
      ready := true;
      if name == "PRODINFO" || name == "PRODINFOF" {
        cryptCipher, tweakCipher := keys[0], keys[1];
      } else if name == "SAFE" {
        cryptCipher, tweakCipher := keys[2], keys[3];
      } else if name == "SYSTEM" || name == "USER" {
        cryptCipher, tweakCipher := keys[4], keys[5];
      } else {
        ready := false;
      }
    }

    /** The sectors as they are on the eMMC; a read beyond the partition fails, and any read may. */
    method ReadRaw(sector: u32, count: u32) returns (ok: bool, raw: array<u8>)
      requires Valid()
      ensures fresh(raw) && raw.Length == SECTOR_SIZE * count
      ensures ok ==> 512 * sector + 512 * count <= |part| && raw[..] == part[512 * sector..512 * sector + 512 * count]
    {
      var n := SECTOR_SIZE * count;
      raw := new u8[n](_ => 0);
      ok := *;
      if 512 * sector + n > |part| {
        ok := false;
      }
      if ok {
        forall k | 0 <= k < n {
          raw[k] := part[512 * sector + k];
        }
      }
    }

    /**
     nx_emmc_bis_read_block without the cache. A read that starts in step returns the plain text and leaves the reader
     in sync; one that does not leaves it out of sync. A failed read of the eMMC changes nothing; a failed engine
     operation has moved the cluster, and possibly the tweak, but not the sector.
     */
    method ReadBlock(sector: u32, count: u32) returns (code: nat, data: seq<u8>, ghost how: Outcome)
      requires Valid() && 0 < count && sector % CLUSTER_SECTORS + count <= CLUSTER_SECTORS
      modifies this`prevCluster, this`prevSector, tweak
      ensures Valid() && code == Code(how) && (how == NotReady <==> !ready)
      ensures code == if how == Done then 0 else if how == NotReady then 3 else 1
      ensures how == NotReady || how == RawFailed ==>
                prevCluster == old(prevCluster) && prevSector == old(prevSector) && tweak[..] == old(tweak[..])
      ensures how == TweakFailed || how == DataFailed ==>
                prevCluster == sector / CLUSTER_SECTORS && prevSector == old(prevSector)
      ensures how == TweakFailed ==> old(Regen(prevCluster, prevSector, sector))
      ensures how == Done || how == DataFailed ==>
                tweak[..] == TimesXN(old(NextTweak(tweakCipher, prevCluster, prevSector, tweak[..], sector)),
                        32 * count)
      ensures how == Done ==>
                && |data| == 512 * count && 512 * sector + 512 * count <= |part|
                && prevCluster == sector / CLUSTER_SECTORS && prevSector == sector + count - 1
                && (Synced() <==> old(InStep(sector)))
      ensures how == Done && old(InStep(sector)) ==> Plain(tweakCipher, cryptCipher, part, 32 * sector, data)
    {
      data := [];
      if !ready {
        return 3, data, NotReady;
      }
      var ok, raw := ReadRaw(sector, count);
      if !ok {
        return 1, data, RawFailed;
      }
      var regen, skipped := Choose(sector);
      var buff := new u8[SECTOR_SIZE * count];
      var size: u32 := count * SECTOR_SIZE;
      ghost var made;
      ok, made := XtsCryptSecNx(tweakCipher, cryptCipher, false, prevCluster, tweak, regen, skipped, buff, raw, size);
      ghost var n := size / 16;
      assert n == 32 * count;
      if !ok {
        return 1, data, if made then DataFailed else TweakFailed;
      }
      prevSector := sector + count - 1;
      data := buff[..];
      ghost var t := FirstTweak(tweakCipher, sector / CLUSTER_SECTORS, old(tweak[..]), regen, skipped);
      NextTweakRight(tweakCipher, old(prevCluster), old(prevSector), old(tweak[..]), sector, sector / CLUSTER_SECTORS,
                     32 * (sector % CLUSTER_SECTORS));
      SavedAgain(tweakCipher.enc, prevCluster, sector, count, prevSector, t, tweak[..], n);
      if old(InStep(sector)) {
        ReadIsPlain(tweakCipher, cryptCipher, part, sector, count, raw[..], t, 32 * sector, n, data);
      }
      return 0, data, Done;
    }

    /** Make a new tweak, or go on from the saved one, which is cheaper. */
    method Choose(sector: u32) returns (regen: bool, skipped: u32)
      requires Valid()
      modifies this`prevCluster
      ensures prevCluster == sector / CLUSTER_SECTORS
      ensures regen == Regen(old(prevCluster), prevSector, sector)
      ensures skipped == Skipped(old(prevCluster), prevSector, sector)
    {
      var cluster := sector / CLUSTER_SECTORS;
      regen, skipped := true, sector % CLUSTER_SECTORS;
      if prevCluster != cluster {
        prevCluster := cluster;
      } else if sector > prevSector {
        skipped := sector - prevSector - 1;
        regen := false;
      }
    }

    /** Where the reader stands in the middle of the read below. */
    ghost predicate Stands(fits: bool, sector: nat, done: nat)
      requires Valid() && done > 0
      reads this, tweak
    {
      && prevCluster == (sector + done - 1) / CLUSTER_SECTORS && 512 * (sector + done) <= |part|
      && (fits || Room(sector) < done ==> Synced())
    }

    /** The first piece of the read below. */
    method ReadFirst(sector: u32, n: u32, ghost fits: bool) returns (code: nat, data: seq<u8>, ghost how: Outcome)
      requires Valid() && 0 < n <= Room(sector) && (fits ==> InStep(sector))
      modifies this`prevCluster, this`prevSector, tweak
      ensures Valid() && code == Code(how)
      ensures how == Done ==> Got(tweakCipher, cryptCipher, part, fits, sector, n, data) && Stands(fits, sector, n)
      ensures how == NotReady || how == RawFailed ==>
                prevCluster == old(prevCluster) && prevSector == old(prevSector) && tweak[..] == old(tweak[..])
    {
      PieceEnds(sector, n);
      code, data, how := ReadBlock(sector, n);
      if how == Done {
        GotFirst(tweakCipher, cryptCipher, part, fits, sector, n, data);
      }
    }

    /** A later piece. It starts a cluster, and so makes a new tweak. */
    method ReadNext(sector: u32, done: nat, current: u32, n: u32, next: nat, data0: seq<u8>, ghost fits: bool)
        returns (code: nat, data: seq<u8>, ghost how: Outcome)
      requires Valid() && 0 < Room(sector) <= done && Stands(fits, sector, done)
      requires Got(tweakCipher, cryptCipher, part, fits, sector, done, data0)
      requires current == sector + done && current % CLUSTER_SECTORS == 0 && 0 < n <= CLUSTER_SECTORS
      requires next == done + n
      modifies this`prevCluster, this`prevSector, tweak
      ensures Valid() && code == Code(how)
      ensures how == Done ==>
              Got(tweakCipher, cryptCipher, part, fits, sector, next, data) && Stands(fits, sector, next)
      ensures how == NotReady || how == RawFailed ==>
                prevCluster == old(prevCluster) && prevSector == old(prevSector) && tweak[..] == old(tweak[..])
    {
      PieceEnds(current, n);
      assert InStep(current);
      var more;
      code, more, how := ReadBlock(current, n);
      data := data0 + more;
      if how == Done {
        GotMore(tweakCipher, cryptCipher, part, fits, sector, done, data0, current, n, more, next);
      }
    }

    /**
     nx_emmc_bis_read: a read of any size, cut at the cluster boundaries. If its first sector is in step, all of it is
     the plain text; in any case all of it from the next cluster on is, and then the reader is in sync again.
     */
    method Read(sector: u32, count: u32) returns (ok: bool, data: seq<u8>, ghost how: Outcome)
      requires Valid()
      modifies this`prevCluster, this`prevSector, tweak
      ensures Valid() && (ok <==> how == Done)
      ensures ok ==> |data| == 512 * count
      ensures ok && old(InStep(sector)) ==> Plain(tweakCipher, cryptCipher, part, 32 * sector, data)
      ensures ok && Room(sector) < count ==>
                Plain(tweakCipher, cryptCipher, part, 32 * (sector + Room(sector)), data[512 * Room(sector)..])
      ensures ok && (if count == 0 then old(Synced()) else old(InStep(sector)) || Room(sector) < count) ==> Synced()
      ensures (how == NotReady || how == RawFailed) && old(Synced()) ==> Synced()
    {
      data := [];
      ok := true;
      how := Done;
      if old(Synced()) {
        SavedFits(tweakCipher.enc, prevCluster, prevSector, tweak[..], sector);
      }
      ghost var fits := old(InStep(sector));
      var done: nat := 0;
      while done < count
        invariant done <= count && how == Done && Cut(sector, count, done)
        invariant done == 0 ==>
                  prevCluster == old(prevCluster) && prevSector == old(prevSector) && tweak[..] == old(tweak[..])
        invariant if done == 0 then data == [] else
                    Got(tweakCipher, cryptCipher, part, fits, sector, done, data) && Stands(fits, sector, done)
      {
        var current := sector + done;
        var n := if count - done < Room(current) then count - done else Room(current);
        var next := done + n;
        PieceCut(sector, count, done, current, n, next);
        var code: nat;
        if done == 0 {
          code, data, how := ReadFirst(sector, n, fits);
        } else {
          code, data, how := ReadNext(sector, done, current, n, next, data, fits);
        }
        if code != 0 {
          ok := false;
          return;
        }
        done := next;
      }
    }

    /** The sectors written to the eMMC; a failed write leaves them unknown. */
    method WriteRaw(sector: u32, raw: seq<u8>) returns (ok: bool)
      requires Valid()
      modifies this`part
      ensures Valid() && SameOutside(old(part), part, 512 * sector, 512 * sector + |raw|)
      ensures ok ==> 512 * sector + |raw| <= |part| && part[512 * sector..512 * sector + |raw|] == raw
    {
      ok := *;
      if 512 * sector + |raw| > |part| {
        ok := false;
      }
      if ok {
        ghost var was := part;
        part := part[..512 * sector] + raw + part[512 * sector + |raw|..];
        assert part[512 * sector..512 * sector + |raw|] == raw;
      }
    }

    /** The sectors of one cluster encrypted into a buffer of their own, with a tweak of their own. */
    method Encrypt(sector: u32, count: u32, data: seq<u8>)
        returns (ok: bool, raw: seq<u8>, ghost t: Block, ghost n: nat)
      requires 0 < count && sector % CLUSTER_SECTORS + count <= CLUSTER_SECTORS && |data| == 512 * count
      ensures |raw| == |data| && n == 32 * count
      ensures t == TweakOf(tweakCipher.enc, sector / CLUSTER_SECTORS, 32 * (sector % CLUSTER_SECTORS))
      ensures ok ==>
                forall i :: 0 <= i < n ==> Blk(raw, i) == XtsBlock(cryptCipher.enc, TimesXN(t, i), Blk(data, i))
    {
      var local := new u8[BLOCK_SIZE](_ => 0);
      var size: u32 := count * SECTOR_SIZE;
      var dma := new u8[size];
      var buff := new u8[size](k requires 0 <= k < size => data[k]);
      assert buff[..] == data;
      var cluster, skipped := sector / CLUSTER_SECTORS, sector % CLUSTER_SECTORS;
      ghost var zero := local[..];
      ghost var made;
      ok, made := XtsCryptSecNx(tweakCipher, cryptCipher, true, cluster, local, true, skipped, dma, buff, size);
      raw := dma[..];
      t, n := FirstTweak(tweakCipher, cluster, zero, true, skipped), size / 16;
      FirstTweakIs(tweakCipher, cluster, zero, true, skipped, 32 * skipped);
    }

    /** nx_emmc_bis_write_block without the cache. */
    method WriteBlock(sector: u32, count: u32, data: seq<u8>) returns (ok: bool)
      requires Valid() && Permutation(cryptCipher)
      requires 0 < count && sector % CLUSTER_SECTORS + count <= CLUSTER_SECTORS && |data| == 512 * count
      modifies this`part
      ensures Valid() && SameOutside(old(part), part, 512 * sector, 512 * sector + |data|)
      ensures ok ==>
                ready && 512 * sector + |data| <= |part| &&
                Plain(tweakCipher, cryptCipher, part, 32 * sector, data)
    {
      if !ready {
        return false;
      }
      var dma;
      ghost var t, n;
      ok, dma, t, n := Encrypt(sector, count, data);
      if !ok {
        return;
      }
      ok := WriteRaw(sector, dma);
      if ok {
        WrittenIsPlain(tweakCipher, cryptCipher, part, sector, count, dma, t, 32 * sector, n, data);
      }
    }

    /** One block of the write below; what was written before stays as it is. */
    method WriteNext(sector: u32, data: seq<u8>, done: nat, current: u32, n: u32, next: nat) returns (ok: bool)
      requires Valid() && Permutation(cryptCipher) && current == sector + done && next == done + n
      requires 512 * next <= |data|
      requires 0 < n && current % CLUSTER_SECTORS + n <= CLUSTER_SECTORS
      requires Plain(tweakCipher, cryptCipher, part, 32 * sector, data[..512 * done])
      modifies this`part
      ensures Valid() && SameOutside(old(part), part, 512 * current, 512 * current + 512 * n)
      ensures ok ==> 512 * current + 512 * n <= |part|
      ensures ok ==> Plain(tweakCipher, cryptCipher, part, 32 * sector, data[..512 * next])
    {
      ghost var was := part;
      var head, more := data[..512 * done], data[512 * done..512 * next];
      ok := WriteBlock(current, n, more);
      if ok {
        PlainKept(tweakCipher, cryptCipher, was, part, 32 * sector, head, 512 * current, 512 * current + |more|);
        PlainAppend(tweakCipher, cryptCipher, part, 32 * sector, head, 32 * done, more, 32 * current);
        assert head + more == data[..512 * next];
      }
    }

    /** nx_emmc_bis_write: a write of any size, cut at the cluster boundaries. */
    method Write(sector: u32, count: u32, data: seq<u8>) returns (ok: bool)
      requires Valid() && Permutation(cryptCipher) && |data| == 512 * count
      modifies this`part
      ensures Valid() && SameOutside(old(part), part, 512 * sector, 512 * sector + |data|)
      ensures ok ==> Plain(tweakCipher, cryptCipher, part, 32 * sector, data)
    {
      ok := true;
      var done: nat := 0;
      while done < count
        invariant done <= count && Valid() && Cut(sector, count, done)
        invariant done > 0 ==> 512 * (sector + done) <= |part|
        invariant SameOutside(old(part), part, 512 * sector, 512 * sector + |data|)
        invariant Plain(tweakCipher, cryptCipher, part, 32 * sector, data[..512 * done])
      {
        var current := sector + done;
        var n := if count - done < Room(current) then count - done else Room(current);
        var next := done + n;
        PieceCut(sector, count, done, current, n, next);
        ok := WriteNext(sector, data, done, current, n, next);
        if !ok {
          return;
        }
        done := next;
      }
      assert data[..512 * done] == data;
    }

    /** What has been written is what a read in step returns. */
    method WriteThenRead(sector: u32, count: u32, data: seq<u8>) returns (ok: bool, back: seq<u8>)
      requires Valid() && Permutation(cryptCipher) && |data| == 512 * count
      modifies this`part, this`prevCluster, this`prevSector, tweak
      ensures Valid() && (ok && old(InStep(sector)) ==> back == data)
    {
      back := [];
      ok := Write(sector, count, data);
      if ok {
        ghost var how;
        ok, back, how := Read(sector, count);
        if ok && old(InStep(sector)) {
          PlainUnique(tweakCipher, cryptCipher, part, 32 * sector, back, data, 32 * count);
        }
      }
    }
  }
}
