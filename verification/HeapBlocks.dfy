/**
 The heap as a sequence of blocks laid out one after the other in memory, each behind a 32-byte header,
 and the doubly linked list of headers that represents it.
 */
module HeapBlocks {
  import opened Bits

  const HEADER := 32
  const NULL := 0

  datatype Block = Block(used: bool, size: nat)

  /** Memory in units of one header: a list node, or data (which may be left over from an old node). */
  datatype Line = Node(used: bool, size: nat, prev: nat, next: nat) | Data(bytes: seq<u8>)

  type Memory = map<nat, Line>

  /** Address behind a run of blocks that starts at a. */
  function End(a: nat, bs: seq<Block>): (e: nat)
    ensures a <= e
    decreases |bs|
  {
    if bs == [] then a else End(a + HEADER + bs[0].size, bs[1..])
  }

  /** Address of the last header of a run, or p if the run is empty. */
  function LastNode(a: nat, p: nat, bs: seq<Block>): nat
    decreases |bs|
  {
    if bs == [] then p else LastNode(a + HEADER + bs[0].size, a, bs[1..])
  }

  /** A list segment: the headers of the run bs from address a, linked both ways; the last one points to n. */
  ghost predicate Seg(m: Memory, a: nat, p: nat, bs: seq<Block>, n: nat)
    decreases |bs|
  {
    bs != [] ==>
      var b := a + HEADER + bs[0].size;
      && a in m && m[a] == Node(bs[0].used, bs[0].size, p, if |bs| == 1 then n else b)
      && Seg(m, b, a, bs[1..], n)
  }

  // ----- joining and splitting segments

  lemma {:induction false} EndAppend(a: nat, xs: seq<Block>, ys: seq<Block>)
    ensures End(a, xs + ys) == End(End(a, xs), ys)
    decreases |xs|
  {
    if xs == [] {
      assert xs + ys == ys;
    } else {
      assert (xs + ys)[1..] == xs[1..] + ys;
      EndAppend(a + HEADER + xs[0].size, xs[1..], ys);
    }
  }

  lemma {:induction false} LastAppend(a: nat, p: nat, xs: seq<Block>, ys: seq<Block>)
    ensures LastNode(a, p, xs + ys) == LastNode(End(a, xs), LastNode(a, p, xs), ys)
    decreases |xs|
  {
    if xs == [] {
      assert xs + ys == ys;
    } else {
      assert (xs + ys)[1..] == xs[1..] + ys;
      LastAppend(a + HEADER + xs[0].size, a, xs[1..], ys);
    }
  }

  lemma {:induction false} SegAppend(m: Memory, a: nat, p: nat, xs: seq<Block>, ys: seq<Block>, n: nat)
    requires ys != []
    ensures Seg(m, a, p, xs + ys, n) <==>
            Seg(m, a, p, xs, End(a, xs)) && Seg(m, End(a, xs), LastNode(a, p, xs), ys, n)
    decreases |xs|
  {
    if xs == [] {
      assert xs + ys == ys;
    } else {
      var b := a + HEADER + xs[0].size;
      assert (xs + ys)[1..] == xs[1..] + ys;
      SegAppend(m, b, a, xs[1..], ys, n);
      assert |xs| == 1 ==> xs[1..] == [];
    }
  }

  /** A segment reads only the addresses that it spans. */
  lemma {:induction false} SegFrame(m: Memory, m': Memory, a: nat, p: nat, bs: seq<Block>, n: nat)
    requires Seg(m, a, p, bs, n)
    requires forall x :: a <= x < End(a, bs) && x in m ==> x in m' && m'[x] == m[x]
    ensures Seg(m', a, p, bs, n)
    decreases |bs|
  {
    if bs != [] {
      SegFrame(m, m', a + HEADER + bs[0].size, a, bs[1..], n);
    }
  }

  /** Turning the back pointer of the first header of a segment. */
  lemma SegSetPrev(m: Memory, a: nat, p: nat, bs: seq<Block>, n: nat, q: nat)
    requires bs != [] && Seg(m, a, p, bs, n)
    ensures Seg(m[a := m[a].(prev := q)], a, q, bs, n)
  {
    var m' := m[a := m[a].(prev := q)];
    SegFrame(m, m', a + HEADER + bs[0].size, a, bs[1..], n);
  }

  // ----- what the blocks give out

  /** The data area of a block. */
  datatype Span = Span(addr: nat, size: nat)

  function Live(a: nat, bs: seq<Block>): set<Span>
    decreases |bs|
  {
    if bs == [] then {}
    else (if bs[0].used then {Span(a + HEADER, bs[0].size)} else {}) + Live(a + HEADER + bs[0].size, bs[1..])
  }

  predicate Inside(s: Span, lo: nat, hi: nat) {
    lo + HEADER <= s.addr && s.addr + s.size <= hi
  }

  predicate Apart(s: Span, t: Span) {
    s.addr + s.size + HEADER <= t.addr || t.addr + t.size + HEADER <= s.addr
  }

  lemma {:induction false} LiveInside(a: nat, bs: seq<Block>)
    ensures forall s <- Live(a, bs) :: Inside(s, a, End(a, bs))
    decreases |bs|
  {
    if bs != [] {
      LiveInside(a + HEADER + bs[0].size, bs[1..]);
    }
  }

  /** Live data areas never overlap; between any two there is at least a header. */
  lemma {:induction false} LiveApart(a: nat, bs: seq<Block>, s: Span, t: Span)
    requires s in Live(a, bs) && t in Live(a, bs) && s != t
    ensures Apart(s, t)
    decreases |bs|
  {
    var b := a + HEADER + bs[0].size;
    LiveInside(b, bs[1..]);
    if s in Live(b, bs[1..]) && t in Live(b, bs[1..]) {
      LiveApart(b, bs[1..], s, t);
    }
  }

  lemma {:induction false} LiveAppend(a: nat, xs: seq<Block>, ys: seq<Block>)
    ensures Live(a, xs + ys) == Live(a, xs) + Live(End(a, xs), ys)
    decreases |xs|
  {
    if xs == [] {
      assert xs + ys == ys;
    } else {
      assert (xs + ys)[1..] == xs[1..] + ys;
      LiveAppend(a + HEADER + xs[0].size, xs[1..], ys);
    }
  }

  // ----- the shape that every operation keeps

  ghost predicate Aligned(bs: seq<Block>) {
    forall i :: 0 <= i < |bs| ==> bs[i].size % HEADER == 0
  }

  /** No two neighbours are both unused. */
  ghost predicate Coalesced(bs: seq<Block>) {
    forall i :: 0 < i < |bs| ==> bs[i - 1].used || bs[i].used
  }

  ghost predicate Tidy(bs: seq<Block>) { Aligned(bs) && Coalesced(bs) }

  // ----- allocation: first fit, splitting off what is left over

  function Align(size: u32): u32 { (size + HEADER - 1) % 0x1_0000_0000 / HEADER * HEADER }

  predicate FitsIn(b: Block, size: nat) { !b.used && size <= b.size }

  function FirstFit(bs: seq<Block>, size: nat): (i: nat)
    ensures i <= |bs| && (i < |bs| ==> FitsIn(bs[i], size))
    ensures forall j :: 0 <= j < i ==> !FitsIn(bs[j], size)
  {
    if bs == [] then 0 else if FitsIn(bs[0], size) then 0 else 1 + FirstFit(bs[1..], size)
  }

  /** The blocks that an unused block is turned into. */
  function Carve(b: Block, size: nat): (r: seq<Block>)
    requires size <= b.size
    ensures |r| >= 1
  {
    if b.size - size >= 4 * HEADER then [Block(true, size), Block(false, b.size - size - HEADER)]
    else [Block(true, b.size)]
  }

  function AllocBlocks(bs: seq<Block>, size: nat): seq<Block> {
    var i := FirstFit(bs, size);
    if i < |bs| then bs[..i] + Carve(bs[i], size) + bs[i + 1..] else bs + [Block(true, size)]
  }

  function AllocAddr(a: nat, bs: seq<Block>, size: nat): nat {
    End(a, bs[..FirstFit(bs, size)]) + HEADER
  }

  /** The size of the block that is handed out. */
  function AllocSize(bs: seq<Block>, size: nat): nat {
    var i := FirstFit(bs, size);
    if i < |bs| then Carve(bs[i], size)[0].size else size
  }

  lemma CarveKeeps(a: nat, b: Block, size: nat)
    requires FitsIn(b, size)
    ensures End(a, Carve(b, size)) == End(a, [b])
    ensures Live(a, Carve(b, size)) == {Span(a + HEADER, Carve(b, size)[0].size)} && Live(a, [b]) == {}
    ensures b.size % HEADER == 0 && size % HEADER == 0 ==> Aligned(Carve(b, size))
  {
    var c := Carve(b, size);
    assert [b][1..] == [];
    if |c| == 2 {
      assert c[1..] == [Block(false, b.size - size - HEADER)] && c[1..][1..] == [];
      assert Live(a + HEADER + size, c[1..]) == {};
    } else {
      assert c[1..] == [];
    }
  }

  /** Extent and live areas of a row of blocks, by what lies before, in and behind its middle. */
  lemma Middle(a: nat, xs: seq<Block>, middle: seq<Block>, zs: seq<Block>, e: nat, next: nat)
    requires e == End(a, xs) && next == End(e, middle)
    ensures End(a, xs + (middle + zs)) == End(next, zs)
    ensures Live(a, xs + (middle + zs)) == Live(a, xs) + Live(e, middle) + Live(next, zs)
  {
    EndAppend(a, xs, middle + zs);
    EndAppend(e, middle, zs);
    LiveAppend(a, xs, middle + zs);
    LiveAppend(e, middle, zs);
  }

  /** An unused block is carved up. */
  lemma CarveEffect(a: nat, xs: seq<Block>, b: Block, zs: seq<Block>, size: nat, s: Span)
    requires FitsIn(b, size) && s == Span(End(a, xs) + HEADER, Carve(b, size)[0].size)
    ensures End(a, xs + (Carve(b, size) + zs)) == End(a, xs + ([b] + zs))
    ensures Live(a, xs + (Carve(b, size) + zs)) == Live(a, xs + ([b] + zs)) + {s}
    ensures size <= s.size < size + 4 * HEADER && forall t <- Live(a, xs + ([b] + zs)) :: Apart(s, t)
  {
    var e := End(a, xs);
    var next := End(e, [b]);
    CarveKeeps(e, b, size);
    Middle(a, xs, [b], zs, e, next);
    Middle(a, xs, Carve(b, size), zs, e, next);
    LiveInside(a, xs);
    LiveInside(next, zs);
  }

  /** What allocation does to the live areas and to the extent of the heap. */
  lemma AllocEffect(a: nat, bs: seq<Block>, size: nat)
    ensures var s := Span(AllocAddr(a, bs, size), AllocSize(bs, size));
            && Live(a, AllocBlocks(bs, size)) == Live(a, bs) + {s}
            && size <= s.size < size + 4 * HEADER
            && forall t <- Live(a, bs) :: Apart(s, t)
    ensures End(a, AllocBlocks(bs, size)) ==
            End(a, bs) + if FirstFit(bs, size) < |bs| then 0 else HEADER + size
  {
    var i := FirstFit(bs, size);
    var xs := bs[..i];
    if i < |bs| {
      var zs, b := bs[i + 1..], bs[i];
      assert bs == xs + ([b] + zs) && xs + Carve(b, size) + zs == xs + (Carve(b, size) + zs);
      CarveEffect(a, xs, b, zs, size, Span(End(a, xs) + HEADER, Carve(b, size)[0].size));
    } else {
      assert bs == xs;
      LiveInside(a, bs);
      EndAppend(a, bs, [Block(true, size)]);
      LiveAppend(a, bs, [Block(true, size)]);
    }
  }

  lemma AllocAt(bs: seq<Block>, size: nat, i: nat)
    requires i == FirstFit(bs, size) < |bs|
    ensures bs == bs[..i] + ([bs[i]] + bs[i + 1..])
    ensures AllocBlocks(bs, size) == bs[..i] + (Carve(bs[i], size) + bs[i + 1..])
  {
  }

  /** The block that fits is split exactly when at least 128 bytes are left over, and else given away whole. */
  lemma SplitExactly(bs: seq<Block>, size: nat)
    requires FirstFit(bs, size) < |bs|
    ensures var b := bs[FirstFit(bs, size)];
            && |AllocBlocks(bs, size)| == |bs| + (if b.size >= size + 0x80 then 1 else 0)
            && AllocSize(bs, size) == if b.size >= size + 0x80 then size else b.size
  {
  }

  /** An allocation never leaves a small unused block behind. */
  lemma NoSmallRest(bs: seq<Block>, size: nat, b: Block)
    requires b in AllocBlocks(bs, size) && !b.used
    ensures b in bs || b.size >= 96
  {
    var i := FirstFit(bs, size);
    if i < |bs| {
      assert b in bs[..i] || b in Carve(bs[i], size) || b in bs[i + 1..];
    }
  }

  lemma AllocTidy(bs: seq<Block>, size: nat)
    requires Tidy(bs) && size % HEADER == 0
    ensures Tidy(AllocBlocks(bs, size))
  {
    var i := FirstFit(bs, size);
    if i < |bs| {
      CarveKeeps(0, bs[i], size);
    }
  }

  // ----- release: one pass that merges each unused block into an unused predecessor

  function Push(done: seq<Block>, b: Block): seq<Block> {
    var k := |done| - 1;
    if done != [] && !done[k].used && !b.used then done[..k] + [Block(false, done[k].size + b.size + HEADER)]
    else done + [b]
  }

  function Merge(done: seq<Block>, bs: seq<Block>): seq<Block>
    decreases |bs|
  {
    if bs == [] then done else Merge(Push(done, bs[0]), bs[1..])
  }

  /** Two neighbours and the block that they are joined to end at the same place, and give out nothing. */
  lemma JoinedPair(a: nat, b: Block, c: Block, d: Block)
    requires !b.used && !c.used && d == Block(false, b.size + c.size + HEADER)
    ensures End(a, [b, c]) == End(a, [d]) && Live(a, [b, c]) == Live(a, [d])
  {
    assert [b, c][1..] == [c] && [c][1..] == [] && [d][1..] == [];
    assert Live(a + HEADER + b.size, [c]) == {};
  }

  /** What is in front of a run, or behind it, may be exchanged for something of the same extent. */
  lemma Exchange(a: nat, xs: seq<Block>, ys: seq<Block>, us: seq<Block>, vs: seq<Block>)
    requires End(a, xs) == End(a, us) && Live(a, xs) == Live(a, us)
    requires End(End(a, xs), ys) == End(End(a, xs), vs) && Live(End(a, xs), ys) == Live(End(a, xs), vs)
    ensures End(a, xs + ys) == End(a, us + vs) && Live(a, xs + ys) == Live(a, us + vs)
  {
    EndAppend(a, xs, ys);
    EndAppend(a, us, vs);
    LiveAppend(a, xs, ys);
    LiveAppend(a, us, vs);
  }

  lemma PushKeeps(a: nat, done: seq<Block>, b: Block)
    ensures End(a, Push(done, b)) == End(a, done + [b]) && Live(a, Push(done, b)) == Live(a, done + [b])
  {
    var k := |done| - 1;
    if done != [] && !done[k].used && !b.used {
      var xs, c := done[..k], Block(false, done[k].size + b.size + HEADER);
      assert done + [b] == xs + [done[k], b];
      JoinedPair(End(a, xs), done[k], b, c);
      Exchange(a, xs, [done[k], b], xs, [c]);
    }
  }

  lemma Uncons(xs: seq<Block>, bs: seq<Block>, b: Block, zs: seq<Block>)
    requires bs == [b] + zs
    ensures xs + bs == (xs + [b]) + zs
  {
  }

  lemma {:induction false} MergeKeeps(a: nat, done: seq<Block>, bs: seq<Block>)
    ensures End(a, Merge(done, bs)) == End(a, done + bs) && Live(a, Merge(done, bs)) == Live(a, done + bs)
    decreases |bs|
  {
    if bs == [] {
      assert done + bs == done;
    } else {
      var b, zs := bs[0], bs[1..];
      PushKeeps(a, done, b);
      MergeKeeps(a, Push(done, b), zs);
      Exchange(a, Push(done, b), zs, done + [b], zs);
      Uncons(done, bs, b, zs);
    }
  }

  lemma {:induction false} MergeTidy(done: seq<Block>, bs: seq<Block>)
    requires Tidy(done) && Aligned(bs)
    ensures Tidy(Merge(done, bs))
    decreases |bs|
  {
    if bs != [] {
      PushTidy(done, bs[0]);
      MergeTidy(Push(done, bs[0]), bs[1..]);
    }
  }

  lemma PushTidy(done: seq<Block>, b: Block)
    requires Tidy(done) && b.size % HEADER == 0
    ensures Tidy(Push(done, b))
  {
  }

  /** Index of the used block whose data area starts at addr, or |bs|. */
  function BlockAt(a: nat, bs: seq<Block>, addr: nat): (i: nat)
    ensures i <= |bs|
    decreases |bs|
  {
    if bs == [] then 0
    else if bs[0].used && addr == a + HEADER then 0
    else 1 + BlockAt(a + HEADER + bs[0].size, bs[1..], addr)
  }

  predicate IsLive(a: nat, bs: seq<Block>, addr: nat) { BlockAt(a, bs, addr) < |bs| }

  function Unmark(bs: seq<Block>, i: nat): seq<Block>
    requires i < |bs|
  {
    bs[..i] + ([bs[i].(used := false)] + bs[i + 1..])
  }

  function FreeBlocks(bs: seq<Block>, i: nat): seq<Block>
    requires i < |bs|
  {
    Merge([], Unmark(bs, i))
  }

  lemma {:induction false} BlockAtAddr(a: nat, bs: seq<Block>, addr: nat)
    requires IsLive(a, bs, addr)
    ensures var i := BlockAt(a, bs, addr);
            bs[i].used && addr == End(a, bs[..i]) + HEADER && Span(addr, bs[i].size) in Live(a, bs)
    decreases |bs|
  {
    var i, b := BlockAt(a, bs, addr), a + HEADER + bs[0].size;
    if i == 0 {
      assert bs[..0] == [];
    } else {
      BlockAtAddr(b, bs[1..], addr);
      assert bs[..i][1..] == bs[1..][..i - 1];
    }
  }

  /** Every live data area can be released. */
  lemma {:induction false} LiveIsLive(a: nat, bs: seq<Block>, s: Span)
    requires s in Live(a, bs)
    ensures IsLive(a, bs, s.addr) && bs[BlockAt(a, bs, s.addr)].size == s.size
    decreases |bs|
  {
    var b := a + HEADER + bs[0].size;
    LiveInside(b, bs[1..]);
    if s in Live(b, bs[1..]) {
      LiveIsLive(b, bs[1..], s);
    }
  }

  /** The merge as the pass runs it. Its empty start is a parameter, as the literal would have the merge unfold. */
  lemma MergeAll(a: nat, none: seq<Block>, bs: seq<Block>)
    requires none == []
    ensures End(a, Merge(none, bs)) == End(a, bs) && Live(a, Merge(none, bs)) == Live(a, bs)
    ensures Aligned(bs) ==> Tidy(Merge(none, bs))
  {
    assert none + bs == bs;
    MergeKeeps(a, none, bs);
    if Aligned(bs) {
      MergeTidy(none, bs);
    }
  }

  /** What release does to the live areas: exactly one goes, and all neighbours are merged. */
  lemma FreeEffect(a: nat, bs: seq<Block>, addr: nat)
    requires IsLive(a, bs, addr) && Aligned(bs)
    ensures var i := BlockAt(a, bs, addr);
            && Live(a, FreeBlocks(bs, i)) == Live(a, bs) - {Span(addr, bs[i].size)}
            && End(a, FreeBlocks(bs, i)) == End(a, bs) && Tidy(FreeBlocks(bs, i))
  {
    var i := BlockAt(a, bs, addr);
    BlockAtAddr(a, bs, addr);
    UnmarkEffect(a, bs, i);
    MergeAll(a, [], Unmark(bs, i));
  }

  lemma UnmarkEffect(a: nat, bs: seq<Block>, i: nat)
    requires i < |bs| && bs[i].used
    ensures Live(a, Unmark(bs, i)) == Live(a, bs) - {Span(End(a, bs[..i]) + HEADER, bs[i].size)}
    ensures End(a, Unmark(bs, i)) == End(a, bs) && (Aligned(bs) ==> Aligned(Unmark(bs, i)))
  {
    var xs, b, zs := bs[..i], bs[i], bs[i + 1..];
    var c := b.(used := false);
    assert bs == xs + ([b] + zs);
    EndAppend(a, xs, [b] + zs);
    EndAppend(a, xs, [c] + zs);
    LiveAppend(a, xs, [b] + zs);
    LiveAppend(a, xs, [c] + zs);
    assert ([b] + zs)[1..] == zs && ([c] + zs)[1..] == zs;
    LiveInside(a, xs);
    LiveInside(End(a, xs) + HEADER + b.size, zs);
  }

  // ----- what heap_monitor counts

  function UsedBytes(bs: seq<Block>): nat {
    if bs == [] then 0 else (if bs[0].used then bs[0].size + HEADER else 0) + UsedBytes(bs[1..])
  }

  function UsedCount(bs: seq<Block>): nat {
    if bs == [] then 0 else (if bs[0].used then 1 else 0) + UsedCount(bs[1..])
  }

  lemma {:induction false} UsedAppend(xs: seq<Block>, ys: seq<Block>)
    ensures UsedBytes(xs + ys) == UsedBytes(xs) + UsedBytes(ys) && UsedCount(xs + ys) == UsedCount(xs) + UsedCount(ys)
  {
    if xs == [] {
      assert xs + ys == ys;
    } else {
      assert (xs + ys)[1..] == xs[1..] + ys;
      UsedAppend(xs[1..], ys);
    }
  }

  lemma UsedOne(b: Block)
    ensures UsedBytes([b]) == (if b.used then b.size + HEADER else 0) && UsedCount([b]) == if b.used then 1 else 0
  {
    assert [b][1..] == [];
  }

  lemma UsedCarve(b: Block, size: nat)
    requires FitsIn(b, size)
    ensures UsedBytes(Carve(b, size)) == HEADER + Carve(b, size)[0].size && UsedCount(Carve(b, size)) == 1
  {
    var c := Carve(b, size);
    UsedOne(c[0]);
    if |c| == 2 {
      UsedOne(c[1]);
      UsedAppend([c[0]], [c[1]]);
      assert c == [c[0]] + [c[1]];
    } else {
      assert c == [c[0]];
    }
  }

  /** An allocation adds its block to those in use, header included. */
  lemma AllocCounts(bs: seq<Block>, size: nat)
    ensures UsedBytes(AllocBlocks(bs, size)) == UsedBytes(bs) + 0x20 + AllocSize(bs, size)
    ensures UsedCount(AllocBlocks(bs, size)) == UsedCount(bs) + 1
  {
    var i := FirstFit(bs, size);
    if i < |bs| {
      var xs, b, zs := bs[..i], bs[i], bs[i + 1..];
      assert bs == xs + [b] + zs;
      UsedAppend(xs, [b]);
      UsedAppend(xs + [b], zs);
      UsedOne(b);
      UsedAppend(xs, Carve(b, size));
      UsedAppend(xs + Carve(b, size), zs);
      UsedCarve(b, size);
    } else {
      UsedAppend(bs, [Block(true, size)]);
      UsedOne(Block(true, size));
    }
  }

  lemma UsedPush(done: seq<Block>, b: Block)
    ensures UsedBytes(Push(done, b)) == UsedBytes(done) + UsedBytes([b])
    ensures UsedCount(Push(done, b)) == UsedCount(done) + UsedCount([b])
  {
    UsedAppend(done, [b]);
    if done != [] {
      var k := |done| - 1;
      var p := done[k];
      assert done == done[..k] + [p];
      UsedAppend(done[..k], [p]);
      UsedAppend(done[..k], [Block(false, p.size + b.size + HEADER)]);
      UsedOne(p);
      UsedOne(b);
      UsedOne(Block(false, p.size + b.size + HEADER));
    }
  }

  lemma {:induction false} UsedMerge(done: seq<Block>, bs: seq<Block>)
    ensures UsedBytes(Merge(done, bs)) == UsedBytes(done) + UsedBytes(bs)
    ensures UsedCount(Merge(done, bs)) == UsedCount(done) + UsedCount(bs)
    decreases |bs|
  {
    if bs != [] {
      UsedPush(done, bs[0]);
      UsedMerge(Push(done, bs[0]), bs[1..]);
      UsedAppend([bs[0]], bs[1..]);
      assert bs == [bs[0]] + bs[1..];
    }
  }

  /** A release takes away just that block. */
  lemma FreeCounts(bs: seq<Block>, i: nat)
    requires i < |bs| && bs[i].used
    ensures UsedBytes(FreeBlocks(bs, i)) == UsedBytes(bs) - 0x20 - bs[i].size
    ensures UsedCount(FreeBlocks(bs, i)) == UsedCount(bs) - 1
  {
    var xs, b, zs := bs[..i], bs[i], bs[i + 1..];
    assert bs == xs + ([b] + zs);
    UsedMerge([], Unmark(bs, i));
    UsedAppend(xs, [b] + zs);
    UsedAppend([b], zs);
    UsedAppend(xs, [b.(used := false)] + zs);
    UsedAppend([b.(used := false)], zs);
    UsedOne(b);
    UsedOne(b.(used := false));
  }
}
