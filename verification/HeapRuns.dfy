/** Whole runs of the allocator, and laws that relate its operations. */
module HeapRuns {
  import opened Bits
  import opened HeapBlocks

  datatype Op = Malloc(size: u32) | Free(addr: nat)

  /** The driver expects that only live blocks are released. */
  function Apply(a: nat, bs: seq<Block>, op: Op): seq<Block> {
    match op
    case Malloc(size) => AllocBlocks(bs, Align(size))
    case Free(addr) => if IsLive(a, bs, addr) then FreeBlocks(bs, BlockAt(a, bs, addr)) else bs
  }

  function Run(a: nat, ops: seq<Op>): seq<Block>
    decreases |ops|
  {
    if ops == [] then [] else Apply(a, Run(a, ops[..|ops| - 1]), ops[|ops| - 1])
  }

  lemma AlignMultiple(size: u32)
    ensures Align(size) % HEADER == 0
  {
  }

  /**
   In every state that allocations and releases can reach, block sizes are multiples of 32, no two
   neighbours are both unused, and the live data areas are pairwise apart. The top never comes down.
   */
  lemma {:induction false} RunSafe(a: nat, ops: seq<Op>)
    ensures Tidy(Run(a, ops))
    ensures forall s, t :: s in Live(a, Run(a, ops)) && t in Live(a, Run(a, ops)) && s != t ==> Apart(s, t)
    ensures ops != [] ==> End(a, Run(a, ops[..|ops| - 1])) <= End(a, Run(a, ops))
    decreases |ops|
  {
    if ops != [] {
      var bs := Run(a, ops[..|ops| - 1]);
      RunSafe(a, ops[..|ops| - 1]);
      ApplyTidy(a, bs, ops[|ops| - 1]);
    }
    forall s, t | s in Live(a, Run(a, ops)) && t in Live(a, Run(a, ops)) && s != t
      ensures Apart(s, t)
    {
      LiveApart(a, Run(a, ops), s, t);
    }
  }

  lemma ApplyTidy(a: nat, bs: seq<Block>, op: Op)
    requires Tidy(bs)
    ensures Tidy(Apply(a, bs, op)) && End(a, bs) <= End(a, Apply(a, bs, op))
  {
    match op {
      case Malloc(size) =>
        AlignMultiple(size);
        AllocTidy(bs, Align(size));
        AllocEffect(a, bs, Align(size));
      case Free(addr) =>
        if IsLive(a, bs, addr) { FreeEffect(a, bs, addr); }
    }
  }

  /** A live area stays in place, with its size, until its own release. */
  lemma LiveStays(a: nat, bs: seq<Block>, op: Op, s: Span)
    requires Tidy(bs) && s in Live(a, bs) && op != Free(s.addr)
    ensures s in Live(a, Apply(a, bs, op))
  {
    match op {
      case Malloc(size) =>
        AllocEffect(a, bs, Align(size));
      case Free(addr) =>
        if IsLive(a, bs, addr) {
          FreeEffect(a, bs, addr);
        }
    }
  }

  /** Rounding up to 32 gives at least the size asked for, exactly when the sum stays within 32 bits. */
  lemma AlignEnough(n: nat)
    ensures Align(n % 0x1_0000_0000) >= n <==> n <= 0xffff_ffe0
    ensures n <= 0xffff_ffe0 ==> Align(n) < n + 32 && Align(n) % 32 == 0
  {
  }

  /** The request of calloc is met exactly when the product of its arguments is at most 0xffffffe0. */
  lemma CallocEnough(num: u32, size: u32)
    ensures Align(num * size % 0x1_0000_0000) >= num * size <==> num * size <= 0xffff_ffe0
  {
    MulNat(num, size);
    AlignEnough(num * size);
  }

  lemma MulNat(x: nat, y: nat)
    ensures x * y >= 0
  {
  }

  // ----- an allocation that is released again leaves no trace

  lemma {:induction false} MergeAppend(done: seq<Block>, xs: seq<Block>, ys: seq<Block>)
    ensures Merge(done, xs + ys) == Merge(Merge(done, xs), ys)
    decreases |xs|
  {
    if xs == [] {
      assert xs + ys == ys;
    } else {
      assert (xs + ys)[1..] == xs[1..] + ys;
      MergeAppend(Push(done, xs[0]), xs[1..], ys);
    }
  }

  /** The pass changes nothing where no two neighbours are unused. */
  lemma {:induction false} MergeIdle(done: seq<Block>, bs: seq<Block>)
    requires Coalesced(done + bs)
    ensures Merge(done, bs) == done + bs
    decreases |bs|
  {
    if bs == [] {
      assert done + bs == done;
    } else {
      var k := |done|;
      assert (done + bs)[k] == bs[0];
      assert k > 0 ==> (done + bs)[k - 1] == done[k - 1];
      assert done + bs == (done + [bs[0]]) + bs[1..];
      MergeIdle(done + [bs[0]], bs[1..]);
    }
  }

  lemma CoalescedParts(xs: seq<Block>, b: Block, zs: seq<Block>)
    requires Coalesced(xs + [b] + zs) && !b.used
    ensures Coalesced(xs) && (xs != [] ==> xs[|xs| - 1].used)
  {
    var bs := xs + [b] + zs;
    assert forall i :: 0 <= i < |xs| ==> bs[i] == xs[i];
    assert bs[|xs|] == b;
  }

  /** The blocks of an allocation from block i, once that allocation is unmarked. */
  lemma UnmarkCarved(xs: seq<Block>, b: Block, zs: seq<Block>, c: seq<Block>)
    requires c != []
    ensures Unmark(xs + c + zs, |xs|) == xs + ([c[0].(used := false)] + c[1..] + zs)
  {
    var bs := xs + c + zs;
    assert bs[..|xs|] == xs && bs[|xs|] == c[0] && bs[|xs| + 1..] == c[1..] + zs;
  }

  /** 65536 times 65536 bytes: the product is zero in 32 bits, and so is what is cleared. */
  lemma CallocFallsShort(num: u32, size: u32)
    requires num == size == 0x1_0000
    ensures Align(num * size % 0x1_0000_0000) == 0 < num * size
  {
    CallocEnough(num, size);
  }

  /** Allocating from an unused block and releasing the result gives back the blocks as they were. */
  lemma AllocThenFree(bs: seq<Block>, size: nat)
    requires Tidy(bs) && FirstFit(bs, size) < |bs|
    ensures FreeBlocks(AllocBlocks(bs, size), FirstFit(bs, size)) == bs
  {
    var i := FirstFit(bs, size);
    var xs, b, zs := bs[..i], bs[i], bs[i + 1..];
    var c := Carve(b, size);
    var d := [c[0].(used := false)] + c[1..];
    assert bs == xs + [b] + zs;
    UnmarkCarved(xs, b, zs, c);
    MergeBack(xs, b, zs, size, d);
  }

  lemma MergeBack(xs: seq<Block>, b: Block, zs: seq<Block>, size: nat, d: seq<Block>)
    requires Coalesced(xs + [b] + zs) && FitsIn(b, size)
    requires d == [Carve(b, size)[0].(used := false)] + Carve(b, size)[1..]
    ensures Merge([], xs + (d + zs)) == xs + [b] + zs
  {
    CoalescedParts(xs, b, zs);
    MergeIdleAll(xs);
    MergeAppend([], xs, d + zs);
    MergeAppend(xs, d, zs);
    CarveBack(xs, b, size);
    MergeIdle(xs + [b], zs);
  }

  lemma MergeIdleAll(xs: seq<Block>)
    requires Coalesced(xs)
    ensures Merge([], xs) == xs
  {
    assert [] + xs == xs;
    MergeIdle([], xs);
  }

  lemma CarveBack(xs: seq<Block>, b: Block, size: nat)
    requires FitsIn(b, size) && (xs != [] ==> xs[|xs| - 1].used)
    ensures var c := Carve(b, size); Merge(xs, [c[0].(used := false)] + c[1..]) == xs + [b]
  {
    var c := Carve(b, size);
    var d := [c[0].(used := false)] + c[1..];
    assert Push(xs, d[0]) == xs + [d[0]];
    if |c| == 2 {
      var ys := xs + [d[0]];
      assert d[1..] == [c[1]] && [c[1]][1..] == [];
      assert ys[..|ys| - 1] == xs && ys[|ys| - 1] == d[0];
      assert Push(ys, c[1]) == xs + [b];
      assert Merge(ys, [c[1]]) == Merge(xs + [b], []);
    } else {
      assert d[1..] == [];
    }
  }
}
