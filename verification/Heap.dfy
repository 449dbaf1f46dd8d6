/** The allocator itself: first-fit allocation, release with coalescing, clearing allocation, and statistics. */
module Heap {
  import opened Bits
  import opened HeapBlocks

  // ----- one node in the middle of a list

  /** What a node in the middle of a list holds. */
  lemma NodeAt(m: Memory, a: nat, xs: seq<Block>, b: Block, zs: seq<Block>)
    requires Seg(m, a, NULL, xs + ([b] + zs), NULL)
    ensures var e := End(a, xs);
            e in m &&
            m[e] == Node(b.used, b.size, LastNode(a, NULL, xs), if zs == [] then NULL else e + HEADER + b.size)
    ensures Seg(m, a, NULL, xs, End(a, xs))
    ensures Seg(m, End(a, xs) + HEADER + b.size, End(a, xs), zs, NULL)
  {
    SegAppend(m, a, NULL, xs, [b] + zs, NULL);
    assert ([b] + zs)[1..] == zs;
  }

  /** The other way round: a list from its three parts. */
  lemma NodeBack(m: Memory, a: nat, xs: seq<Block>, b: Block, zs: seq<Block>)
    requires var e := End(a, xs);
             e in m &&
             m[e] == Node(b.used, b.size, LastNode(a, NULL, xs), if zs == [] then NULL else e + HEADER + b.size)
    requires Seg(m, a, NULL, xs, End(a, xs))
    requires Seg(m, End(a, xs) + HEADER + b.size, End(a, xs), zs, NULL)
    ensures Seg(m, a, NULL, xs + ([b] + zs), NULL)
  {
    SegAppend(m, a, NULL, xs, [b] + zs, NULL);
    assert ([b] + zs)[1..] == zs;
  }

  /** Memories that agree on the data areas of the given spans. */
  ghost predicate SameData(m: Memory, m': Memory, spans: set<Span>) {
    forall s, x :: s in spans && s.addr <= x < s.addr + s.size ==> ((x in m) == (x in m')) && (x in m ==> m'[x] == m[x])
  }

  /** Memories that differ at most at the given addresses. */
  ghost predicate Only(m: Memory, m': Memory, stores: set<int>) {
    forall x: nat :: x !in stores ==> ((x in m) == (x in m')) && (x in m ==> m'[x] == m[x])
  }

  ghost predicate Outside(stores: set<int>, spans: set<Span>) {
    forall w, s :: w in stores && s in spans ==> w < s.addr || s.addr + s.size <= w
  }

  lemma StoresOutside(m: Memory, m': Memory, stores: set<int>, spans: set<Span>)
    requires Only(m, m', stores) && Outside(stores, spans)
    ensures SameData(m, m', spans)
  {
  }

  /** A header, or the place behind the last block, is in no data area. */
  lemma HeaderOutside(a: nat, xs: seq<Block>, ys: seq<Block>)
    ensures Outside({End(a, xs)}, Live(a, xs + ys))
  {
    LiveAppend(a, xs, ys);
    LiveInside(a, xs);
    LiveInside(End(a, xs), ys);
  }

  /** Nothing inside an unused block is in a data area. */
  lemma UnusedOutside(a: nat, xs: seq<Block>, b: Block, zs: seq<Block>, w: nat)
    requires !b.used && End(a, xs) <= w <= End(a, xs) + HEADER + b.size
    ensures Outside({w}, Live(a, xs + ([b] + zs)))
  {
    LiveAppend(a, xs, [b] + zs);
    assert ([b] + zs)[1..] == zs;
    LiveInside(a, xs);
    LiveInside(End(a, xs) + HEADER + b.size, zs);
  }

  // ----- the four stores that split a node

  function SplitNode(m: Memory, node: nat, size: nat): (m': Memory)
    requires node in m && m[node].Node? && size + HEADER <= m[node].size
    requires m[node].next != NULL ==>
            m[node].next == node + HEADER + m[node].size && m[node].next in m && m[m[node].next].Node?
  {
    var newNode := node + HEADER + size;
    var m1 := m[newNode := Node(false, m[node].size - size - HEADER, node, m[node].next)];
    var m2 := if m[node].next == NULL then m1 else m1[m[node].next := m1[m[node].next].(prev := newNode)];
    m2[node := Node(true, size, m[node].prev, newNode)]
  }

  /** The nodes behind a place where the list has changed: the first one points back to somewhere else. */
  lemma TailMoved(m: Memory, m': Memory, after: nat, p: nat, q: nat, zs: seq<Block>)
    requires Seg(m, after, p, zs, NULL) && (zs != [] ==> m[after].Node?)
    requires zs != [] ==> after in m' && m'[after] == m[after].(prev := q)
    requires forall x :: after < x && x in m ==> x in m' && m'[x] == m[x]
    ensures Seg(m', after, q, zs, NULL)
  {
    if zs != [] {
      SegSetPrev(m, after, p, zs, NULL, q);
      SegFrame(m[after := m[after].(prev := q)], m', after, q, zs, NULL);
    }
  }

  lemma SplitTail(m: Memory, m': Memory, e: nat, zs: seq<Block>, c: Block, newNode: nat, after: nat)
    requires e < newNode < after == newNode + HEADER + c.size && Seg(m, after, e, zs, NULL)
    requires (zs != [] ==> m[after].Node?)
    requires newNode in m' && m'[newNode] == Node(c.used, c.size, e, if zs == [] then NULL else after)
    requires zs != [] ==> after in m' && m'[after] == m[after].(prev := newNode)
    requires forall x :: after < x && x in m ==> x in m' && m'[x] == m[x]
    ensures Seg(m', newNode, e, [c] + zs, NULL)
  {
    assert ([c] + zs)[1..] == zs;
    TailMoved(m, m', after, e, newNode, zs);
  }

  lemma SplitNodeIs(m: Memory, a: nat, xs: seq<Block>, b: Block, zs: seq<Block>, e: nat)
    requires Seg(m, a, NULL, xs + ([b] + zs), NULL) && 0 < a && e == End(a, xs)
    ensures e in m && m[e].Node? && m[e].size == b.size
    ensures m[e].next == if zs == [] then NULL else e + HEADER + b.size
    ensures m[e].next != NULL ==> m[e].next in m && m[m[e].next].Node?
  {
    NodeAt(m, a, xs, b, zs);
  }

  lemma SplitOnly(m: Memory, e: nat, size: nat, end: nat)
    requires e in m && m[e].Node? && size + HEADER <= m[e].size && end == e + HEADER + m[e].size
    requires m[e].next != NULL ==> m[e].next == end && m[e].next in m && m[m[e].next].Node?
    ensures Only(m, SplitNode(m, e, size), {e, e + HEADER + size, end})
  {
  }

  lemma SplitSeg(m: Memory, a: nat, xs: seq<Block>, b: Block, zs: seq<Block>, size: nat, e: nat, c: Block)
    requires Seg(m, a, NULL, xs + ([b] + zs), NULL) && 0 < a && e == End(a, xs) && e in m && m[e].Node?
    requires m[e].next == (if zs == [] then NULL else e + HEADER + b.size)
    requires (zs != [] ==> m[e].next in m && m[m[e].next].Node?)
    requires m[e].size == b.size && b.size == size + HEADER + c.size && !c.used
    ensures Seg(SplitNode(m, e, size), a, NULL, xs + ([Block(true, size), c] + zs), NULL)
  {
    NodeAt(m, a, xs, b, zs);
    var m' := SplitNode(m, e, size);
    SegFrame(m, m', a, NULL, xs, e);
    SplitTail(m, m', e, zs, c, e + HEADER + size, e + HEADER + b.size);
    NodeBack(m', a, xs, Block(true, size), [c] + zs);
    assert [Block(true, size), c] + zs == [Block(true, size)] + ([c] + zs);
  }

  lemma MarkSeg(m: Memory, a: nat, xs: seq<Block>, b: Block, zs: seq<Block>, c: Block)
    requires Seg(m, a, NULL, xs + ([b] + zs), NULL) && c.size == b.size
    ensures var e := End(a, xs);
            && e in m && m[e].Node?
            && Seg(m[e := m[e].(used := c.used)], a, NULL, xs + ([c] + zs), NULL)
            && Only(m, m[e := m[e].(used := c.used)], {e})
  {
    NodeAt(m, a, xs, b, zs);
    var e := End(a, xs);
    var m' := m[e := m[e].(used := c.used)];
    SegFrame(m, m', a, NULL, xs, e);
    SegFrame(m, m', e + HEADER + b.size, e, zs, NULL);
    NodeBack(m', a, xs, c, zs);
  }

  function AppendNode(m: Memory, node: nat, size: nat): Memory
    requires node in m && m[node].Node?
  {
    var newNode := node + HEADER + m[node].size;
    m[newNode := Node(true, size, node, NULL)][node := m[node].(next := newNode)]
  }

  lemma AppendSeg(m: Memory, a: nat, xs: seq<Block>, b: Block, size: nat)
    requires Seg(m, a, NULL, xs + [b], NULL) && 0 < a
    ensures var e := End(a, xs);
            && e in m && m[e].Node? && m[e].size == b.size
            && Seg(AppendNode(m, e, size), a, NULL, (xs + [b]) + [Block(true, size)], NULL)
            && Only(m, AppendNode(m, e, size), {e, e + HEADER + b.size})
  {
    assert [b] + [] == [b];
    NodeAt(m, a, xs, b, []);
    var e, c := End(a, xs), Block(true, size);
    var m' := AppendNode(m, e, size);
    SegFrame(m, m', a, NULL, xs, e);
    assert [c][1..] == [];
    NodeBack(m', a, xs, b, [c]);
    assert (xs + [b]) + [c] == xs + ([b] + [c]);
  }

  /** node is merged into its predecessor; node itself keeps its stale contents. */
  function JoinNode(m: Memory, node: nat): Memory
    requires node in m && m[node].Node? && m[node].prev in m && m[m[node].prev].Node?
    requires m[node].next != NULL ==> m[node].next in m && m[m[node].next].Node?
    requires m[node].prev != m[node].next
  {
    var p := m[node].prev;
    var m1 := m[p := m[p].(size := m[p].size + m[node].size + HEADER)];
    var m2 := m1[p := m1[p].(next := m[node].next)];
    if m[node].next == NULL then m2 else m2[m[node].next := m2[m[node].next].(prev := p)]
  }

  lemma JoinSeg(m: Memory, a: nat, xs: seq<Block>, p: Block, b: Block, zs: seq<Block>)
    requires Seg(m, a, NULL, xs + ([p] + ([b] + zs)), NULL) && 0 < a
    ensures var e := End(a, xs); var node := e + HEADER + p.size; var after := node + HEADER + b.size;
            && node in m && m[node].Node? && m[node].prev == e && e in m && m[e].Node?
            && m[node].next == (if zs == [] then NULL else after)
            && (zs != [] ==> after in m && m[after].Node?)
            && m[e] == Node(p.used, p.size, LastNode(a, NULL, xs), node)
            && m[node].used == b.used && m[node].size == b.size
  {
    NodeAt(m, a, xs, p, [b] + zs);
    var e := End(a, xs);
    assert ([b] + zs)[1..] == zs;
  }

  lemma JoinedSeg(m: Memory, a: nat, xs: seq<Block>, p: Block, b: Block, zs: seq<Block>, node: nat)
    requires Seg(m, a, NULL, xs + ([p] + ([b] + zs)), NULL) && 0 < a && node == End(a, xs) + HEADER + p.size
    requires node in m && m[node].Node? && m[node].prev in m && m[m[node].prev].Node?
    requires m[node].next != NULL ==> m[node].next in m && m[m[node].next].Node?
    requires m[node].prev == End(a, xs) != m[node].next
    requires m[node].size == b.size && m[node].next == if zs == [] then NULL else node + HEADER + b.size
    ensures Seg(JoinNode(m, node), a, NULL, xs + ([Block(p.used, p.size + b.size + HEADER)] + zs), NULL)
    ensures Only(m, JoinNode(m, node), {End(a, xs), node + HEADER + b.size})
    ensures node in JoinNode(m, node) && JoinNode(m, node)[node] == m[node]
  {
    var e, after := End(a, xs), node + HEADER + b.size;
    var m' := JoinNode(m, node);
    NodeAt(m, a, xs, p, [b] + zs);
    assert ([b] + zs)[1..] == zs;
    SegFrame(m, m', a, NULL, xs, e);
    TailMoved(m, m', after, node, e, zs);
    NodeBack(m', a, xs, Block(p.used, p.size + b.size + HEADER), zs);
  }

  // ----- the allocator

  /** The node of block b in the pass. */
  lemma NodeIs(m: Memory, a: nat, done: seq<Block>, b: Block, zs: seq<Block>)
    requires 0 < a && Seg(m, a, NULL, done + ([b] + zs), NULL)
    ensures var node := End(a, done);
            && node in m && m[node].Node? && m[node].used == b.used && (m[node].prev == NULL <==> done == [])
            && m[node].next == if zs == [] then NULL else node + HEADER + b.size
  {
    NodeAt(m, a, done, b, zs);
    LastPositive(a, NULL, done);
  }

  /** Nothing is merged. */
  lemma Unmerged(a: nat, done: seq<Block>, b: Block, zs: seq<Block>)
    requires Push(done, b) == done + [b]
    ensures Push(done, b) + zs == done + ([b] + zs) && End(a, Push(done, b)) == End(a, done) + HEADER + b.size
  {
    EndAppend(a, done, [b]);
    assert [b][1..] == [];
  }

  /** The predecessor of a node that is looked at in the pass. */
  lemma Previous(m: Memory, a: nat, done: seq<Block>, xs: seq<Block>, p: Block, b: Block, zs: seq<Block>)
    requires 0 < a && Seg(m, a, NULL, done + ([b] + zs), NULL) && done == xs + [p] && !b.used
    ensures done + ([b] + zs) == xs + ([p] + ([b] + zs))
    ensures var e := End(a, xs); var node := End(a, done);
            && node == e + HEADER + p.size && node in m && m[node].Node? && m[node].prev == e
            && e in m && m[e].Node? && m[e].used == p.used
    ensures !p.used ==> Push(done, b) + zs == xs + ([Block(false, p.size + b.size + HEADER)] + zs)
    ensures !p.used ==> End(a, Push(done, b)) == End(a, done) + HEADER + b.size
    ensures p.used ==> Push(done, b) == done + [b]
  {
    assert done + ([b] + zs) == xs + ([p] + ([b] + zs));
    JoinSeg(m, a, xs, p, b, zs);
    EndAppend(a, xs, [p]);
    assert [p][1..] == [];
    assert done[..|done| - 1] == xs;
    var c := Block(false, p.size + b.size + HEADER);
    EndAppend(a, xs, [c]);
    assert [c][1..] == [];
  }

  /** In the middle of the pass: done has been merged, and rest has not been looked at. */
  ghost predicate Pass(m0: Memory, m: Memory, a: nat, before: seq<Block>, done: seq<Block>, rest: seq<Block>) {
    && Seg(m, a, NULL, done + rest, NULL) && Merge(done, rest) == Merge([], before)
    && SameData(m0, m, Live(a, before)) && Live(a, done + rest) == Live(a, before)
  }

  lemma PassEnds(m0: Memory, m: Memory, a: nat, before: seq<Block>, done: seq<Block>, rest: seq<Block>)
    requires Pass(m0, m, a, before, done, rest) && rest == []
    ensures Seg(m, a, NULL, done, NULL) && done == Merge([], before) && SameData(m0, m, Live(a, before))
  {
    assert done + rest == done;
  }

  class Allocator {
    var start: nat
    var first: nat
    var last: nat
    var mem: Memory
    ghost var blocks: seq<Block>

    ghost predicate Valid()
      reads this
    {
      && 0 < start && first == (if blocks == [] then NULL else start)
      && Seg(mem, start, NULL, blocks, NULL) && Tidy(blocks)
    }

    ghost function Areas(): set<Span>
      reads this
    {
      Live(start, blocks)
    }

    ghost function Top(): nat
      reads this
    {
      End(start, blocks)
    }

    /** heap_init, over memory with arbitrary contents. */
    constructor (base: nat, contents: Memory)
      requires 0 < base
      ensures Valid() && start == base && blocks == [] && mem == contents
    {
      start, first, last, mem, blocks := base, NULL, NULL, contents, [];
    }

    /** The walk of _heap_alloc to the first unused node that is large enough, or to the last node. */
    method FindNode(size: nat) returns (node: nat, found: bool, ghost i: nat)
      requires Valid() && blocks != []
      ensures i < |blocks| && node == End(start, blocks[..i]) && node in mem && mem[node].Node?
      ensures found == (FirstFit(blocks, size) < |blocks|)
      ensures i == if found then FirstFit(blocks, size) else |blocks| - 1
    {
      node := first;
      i := 0;
      while true
        invariant i < |blocks| && node == End(start, blocks[..i]) && i <= FirstFit(blocks, size)
        decreases |blocks| - i
      {
        ghost var xs, b, zs := blocks[..i], blocks[i], blocks[i + 1..];
        assert blocks == xs + ([b] + zs);
        NodeAt(mem, start, xs, b, zs);
        if !mem[node].used && size <= mem[node].size {
          FitHere(blocks, size, i);
          return node, true, i;
        }
        NoFitHere(blocks, size, i);
        if mem[node].next != NULL {
          node := mem[node].next;
          EndNext(start, blocks, i);
          i := i + 1;
        } else {
          return node, false, i;
        }
      }
    }

    /** Use the unused node that was found, splitting it if at least four header sizes are left over. */
    method TakeNode(node: nat, size0: nat, ghost xs: seq<Block>, ghost b: Block, ghost zs: seq<Block>)
      requires 0 < start && Seg(mem, start, NULL, xs + ([b] + zs), NULL)
      requires node == End(start, xs) && node in mem && mem[node].Node? && mem[node].size == b.size
      requires FitsIn(b, size0)
      modifies `mem
      ensures Seg(mem, start, NULL, xs + (Carve(b, size0) + zs), NULL)
      ensures node in mem && mem[node].Node? && mem[node].used
      ensures mem[node].size == if b.size >= size0 + 0x80 then size0 else b.size
      ensures SameData(old(mem), mem, Live(start, xs + ([b] + zs)))
    {
      var size := size0;
      var newSize := mem[node].size - size;
      if newSize >= 4 * HEADER {
        var newNode := node + HEADER + size;
        SplitNodeIs(mem, start, xs, b, zs, node);
        SplitSeg(mem, start, xs, b, zs, size, node, Block(false, newSize - HEADER));
        SplitOnly(mem, node, size, node + HEADER + b.size);
        ghost var stores := {node, newNode, node + HEADER + b.size};
        mem := SplitNode(mem, node, size);
        UnusedOutside(start, xs, b, zs, node);
        UnusedOutside(start, xs, b, zs, newNode);
        UnusedOutside(start, xs, b, zs, node + HEADER + b.size);
        StoresOutside(old(mem), mem, stores, Live(start, xs + ([b] + zs)));
      } else {
        size := size + newSize;
        MarkSeg(mem, start, xs, b, zs, Block(true, b.size));
        mem := mem[node := mem[node].(used := true)];
        UnusedOutside(start, xs, b, zs, node);
        StoresOutside(old(mem), mem, {node}, Live(start, xs + ([b] + zs)));
      }
    }

    /** _heap_alloc. The driver does not check that the memory above the heap suffices. */
    method Alloc(size0: u32) returns (res: nat)
      requires Valid() && End(start, AllocBlocks(blocks, Align(size0))) <= 0x1_0000_0000
      modifies this
      ensures Valid() && start == old(start)
      ensures blocks == AllocBlocks(old(blocks), Align(size0)) && res == AllocAddr(start, old(blocks), Align(size0))
      ensures var bs, size := old(blocks), Align(size0);
              var i := FirstFit(bs, size);
              |blocks| == |bs| + if i < |bs| && bs[i].size < size + 0x80 then 0 else 1
      ensures SameData(old(mem), mem, old(Areas()))
    {
      var size := Align(size0);
      AllocTidy(blocks, size);
      if first == NULL {
        res := FirstNode(size);
        return;
      }
      var node, found, i := FindNode(size);
      if found {
        UseNode(node, size, i);
        return node + HEADER;
      }
      ghost var xs, b := blocks[..i], blocks[i];
      assert xs + [b] == blocks && blocks[..|blocks|] == blocks;
      res := GrowHeap(node, size, xs, b);
    }

    /** The first node that fits is taken. */
    method UseNode(node: nat, size: nat, ghost i: nat)
      requires 0 < start && Seg(mem, start, NULL, blocks, NULL)
      requires i == FirstFit(blocks, size) < |blocks| && node == End(start, blocks[..i])
      modifies `mem, `blocks
      ensures Seg(mem, start, NULL, blocks, NULL) && blocks == AllocBlocks(old(blocks), size)
      ensures SameData(old(mem), mem, Live(start, old(blocks)))
    {
      ghost var xs, b, zs := blocks[..i], blocks[i], blocks[i + 1..];
      AllocAt(blocks, size, i);
      NodeAt(mem, start, xs, b, zs);
      TakeNode(node, size, xs, b, zs);
      blocks := xs + (Carve(b, size) + zs);
    }

    /** The node of an empty heap. */
    method FirstNode(size: nat) returns (res: nat)
      requires 0 < start && blocks == []
      modifies this
      ensures start == old(start) && first == start && blocks == [Block(true, size)] && res == start + HEADER
      ensures Seg(mem, start, NULL, blocks, NULL) && SameData(old(mem), mem, {})
    {
      var node := start;
      mem := mem[node := Node(true, size, NULL, NULL)];
      first, last := node, node;
      blocks := [Block(true, size)];
      assert blocks[1..] == [];
      res := node + HEADER;
    }

    /** Create a new last node. */
    method GrowHeap(node: nat, size: nat, ghost xs: seq<Block>, ghost b: Block) returns (res: nat)
      requires 0 < start && blocks == xs + [b] && Seg(mem, start, NULL, xs + [b], NULL) && node == End(start, xs)
      requires node in mem && mem[node].Node?
      modifies `mem, `last, `blocks
      ensures Seg(mem, start, NULL, blocks, NULL) && blocks == old(blocks) + [Block(true, size)]
      ensures res == End(start, old(blocks)) + HEADER && SameData(old(mem), mem, Live(start, old(blocks)))
    {
      AppendSeg(mem, start, xs, b, size);
      EndAppend(start, xs, [b]);
      assert [b][1..] == [];
      var newNode := node + HEADER + mem[node].size;
      mem := AppendNode(mem, node, size);
      last := newNode;
      HeaderOutside(start, xs, [b]);
      HeaderOutside(start, blocks, []);
      assert blocks + [] == blocks;
      StoresOutside(old(mem), mem, {node, newNode}, Live(start, blocks));
      blocks := blocks + [Block(true, size)];
      res := newNode + HEADER;
    }

    /** The pass over the list that merges unused nodes into unused predecessors. */
    method MergeUnused()
      requires 0 < start && first == (if blocks == [] then NULL else start) && Seg(mem, start, NULL, blocks, NULL)
      modifies `mem, `blocks
      ensures Seg(mem, start, NULL, blocks, NULL) && blocks == Merge([], old(blocks))
      ensures SameData(old(mem), mem, Live(start, old(blocks)))
    {
      ghost var before := blocks;
      var node := first;
      ghost var done, rest: seq<Block> := [], blocks;
      assert done + rest == blocks;
      while node != NULL
        invariant node == (if rest == [] then NULL else End(start, done))
        invariant Pass(old(mem), mem, start, before, done, rest)
        decreases |rest|
      {
        node, done, rest := MergeStep(node, done, rest, before, old(mem));
      }
      PassEnds(old(mem), mem, start, before, done, rest);
      blocks := done;
    }

    method MergeStep(node: nat, ghost done: seq<Block>, ghost rest: seq<Block>, ghost before: seq<Block>,
            ghost mem0: Memory)
        returns (next: nat, ghost done': seq<Block>, ghost rest': seq<Block>)
      requires 0 < start && rest != [] && node == End(start, done) && Pass(mem0, mem, start, before, done, rest)
      modifies `mem
      ensures next == (if rest' == [] then NULL else End(start, done')) && Pass(mem0, mem, start, before, done', rest')
      ensures |rest'| < |rest|
    {
      RestLive(start, done, rest);
      next := MergeNode(node, done, rest[0], rest[1..]);
      done', rest' := Push(done, rest[0]), rest[1..];
    }

    /** The stores that merge an unused node into its unused predecessor. */
    method JoinBack(node: nat, ghost xs: seq<Block>, ghost p: Block, ghost b: Block, ghost zs: seq<Block>)
        returns (next: nat)
      requires 0 < start && Seg(mem, start, NULL, xs + ([p] + ([b] + zs)), NULL)
      requires node == End(start, xs) + HEADER + p.size && !p.used
      modifies `mem
      ensures Seg(mem, start, NULL, xs + ([Block(false, p.size + b.size + HEADER)] + zs), NULL)
      ensures next == if zs == [] then NULL else node + HEADER + b.size
      ensures SameData(old(mem), mem, Live(start, xs + ([p] + ([b] + zs))))
    {
      JoinSeg(mem, start, xs, p, b, zs);
      JoinedSeg(mem, start, xs, p, b, zs, node);
      HeaderOutside(start, xs, [p] + ([b] + zs));
      EndAppend(start, xs, [p, b]);
      assert [p, b][1..] == [b] && [b][1..] == [];
      ghost var after := node + HEADER + b.size;
      EndAppend(End(start, xs), [p], [b]);
      assert [p] + [b] == [p, b] && [p][1..] == [];
      assert End(start, xs + [p, b]) == after;
      HeaderOutside(start, xs + [p, b], zs);
      assert (xs + [p, b]) + zs == xs + ([p] + ([b] + zs));
      mem := JoinNode(mem, node);
      StoresOutside(old(mem), mem, {End(start, xs), after}, Live(start, xs + ([p] + ([b] + zs))));
      next := mem[node].next;
    }

    /** One step of the pass. */
    method MergeNode(node: nat, ghost done: seq<Block>, ghost b: Block, ghost zs: seq<Block>) returns (next: nat)
      requires 0 < start && Seg(mem, start, NULL, done + ([b] + zs), NULL) && node == End(start, done)
      modifies `mem
      ensures Seg(mem, start, NULL, Push(done, b) + zs, NULL)
      ensures next == if zs == [] then NULL else End(start, Push(done, b))
      ensures SameData(old(mem), mem, Live(start, done + ([b] + zs)))
    {
      NodeIs(mem, start, done, b, zs);
      if !mem[node].used && mem[node].prev != NULL {
        ghost var xs, p := done[..|done| - 1], done[|done| - 1];
        Previous(mem, start, done, xs, p, b, zs);
        if !mem[mem[node].prev].used {
          next := JoinBack(node, xs, p, b, zs);
          return;
        }
      }
      Unmerged(start, done, b, zs);
      next := mem[node].next;
    }

    /** _heap_free: clear the mark, then merge. */
    method Release(addr: nat)
      requires Valid() && IsLive(start, blocks, addr)
      modifies this
      ensures Valid() && start == old(start)
      ensures blocks == FreeBlocks(old(blocks), BlockAt(start, old(blocks), addr))
      ensures SameData(old(mem), mem, Areas())
    {
      ghost var i := BlockAt(start, blocks, addr);
      BlockAtAddr(start, blocks, addr);
      FreeEffect(start, blocks, addr);
      UnmarkEffect(start, blocks, i);
      FirstStays(blocks, i);
      ghost var spans := Live(start, blocks);
      var node := addr - HEADER;
      Unuse(node, i);
      MergeUnused();
    }

    /** The first store of _heap_free. */
    method Unuse(node: nat, ghost i: nat)
      requires Valid() && i < |blocks| && blocks[i].used && node == End(start, blocks[..i])
      modifies `mem, `blocks
      ensures Seg(mem, start, NULL, blocks, NULL) && blocks == Unmark(old(blocks), i)
      ensures SameData(old(mem), mem, Live(start, old(blocks)))
    {
      ghost var xs, b, zs := blocks[..i], blocks[i], blocks[i + 1..];
      assert blocks == xs + ([b] + zs);
      MarkSeg(mem, start, xs, b, zs, b.(used := false));
      HeaderOutside(start, xs, [b] + zs);
      mem := mem[node := mem[node].(used := false)];
      StoresOutside(old(mem), mem, {node}, Live(start, blocks));
      blocks := Unmark(blocks, i);
    }

    /** free: addresses below the heap are ignored. */
    method Free(buf: nat)
      requires Valid() && (buf >= start ==> IsLive(start, blocks, buf))
      modifies this
      ensures Valid() && start == old(start)
      ensures blocks == if buf >= start then FreeBlocks(old(blocks), BlockAt(start, old(blocks), buf)) else old(blocks)
      ensures SameData(old(mem), mem, Areas())
    {
      if buf >= start {
        Release(buf);
      }
    }

    /** The owner of a data area writes to it. */
    method Store(addr: nat, line: Line, ghost s: Span)
      requires Valid() && s in Areas() && s.addr <= addr < s.addr + s.size
      modifies `mem
      ensures Valid() && mem == old(mem)[addr := line]
      ensures forall t <- Areas() :: t != s ==> SameData(old(mem), mem, {t})
    {
      mem := mem[addr := line];
      SegIgnoresData(old(mem), mem, start, NULL, blocks, NULL, s);
      forall t | t in Areas() && t != s
        ensures SameData(old(mem), mem, {t})
      {
        LiveApart(start, blocks, s, t);
      }
    }

    /** malloc. */
    method Malloc(size: u32) returns (res: nat)
      requires Valid() && End(start, AllocBlocks(blocks, Align(size))) <= 0x1_0000_0000
      modifies this
      ensures Valid() && start == old(start) && SameData(old(mem), mem, old(Areas()))
      ensures blocks == AllocBlocks(old(blocks), Align(size)) && res == AllocAddr(start, old(blocks), Align(size))
      ensures var s := Span(res, AllocSize(old(blocks), Align(size)));
              && Areas() == old(Areas()) + {s} && Align(size) <= s.size && forall t <- old(Areas()) :: Apart(s, t)
    {
      AllocEffect(start, blocks, Align(size));
      res := Alloc(size);
    }

    /** One line of the clearing, which the other live areas do not notice. */
    method ZeroLine(addr: nat, ghost s: Span, ghost others: set<Span>)
      requires Valid() && s in Areas() && s.addr <= addr < s.addr + s.size && forall t <- others :: Apart(s, t)
      modifies `mem
      ensures Valid() && mem == old(mem)[addr := ZERO] && SameData(old(mem), mem, others)
    {
      Store(addr, ZERO, s);
      StoresOutside(old(mem), mem, {addr}, others);
    }

    /** The first n lines of an area cleared. */
    method ClearLines(addr: nat, n: nat, ghost s: Span, ghost others: set<Span>)
      requires Valid() && s in Areas() && addr == s.addr && n * HEADER <= s.size && forall t <- others :: Apart(s, t)
      modifies `mem
      ensures Valid() && SameData(old(mem), mem, others)
      ensures forall k :: 0 <= k < n ==> addr + k * HEADER in mem && mem[addr + k * HEADER] == ZERO
    {
      for k := 0 to n
        invariant Valid() && SameData(old(mem), mem, others)
        invariant forall j :: 0 <= j < k ==> addr + j * HEADER in mem && mem[addr + j * HEADER] == ZERO
      {
        ZeroLine(addr + k * HEADER, s, others);
      }
    }

    /** zalloc: the aligned size is cleared. */
    method Zalloc(size: u32) returns (res: nat)
      requires Valid() && End(start, AllocBlocks(blocks, Align(size))) <= 0x1_0000_0000
      modifies this
      ensures Valid() && start == old(start) && SameData(old(mem), mem, old(Areas()))
      ensures blocks == AllocBlocks(old(blocks), Align(size)) && res == AllocAddr(start, old(blocks), Align(size))
      ensures forall k :: 0 <= k < Align(size) / HEADER ==> res + k * HEADER in mem && mem[res + k * HEADER] == ZERO
    {
      res := Malloc(size);
      ghost var s := Span(res, AllocSize(old(blocks), Align(size)));
      ClearLines(res, Align(size) / HEADER, s, old(Areas()));
    }

    /** calloc: the product of count and size is a 32-bit value. */
    method Calloc(num: u32, size: u32) returns (res: nat)
      requires Valid() && End(start, AllocBlocks(blocks, Align(num * size % 0x1_0000_0000))) <= 0x1_0000_0000
      modifies this
      ensures Valid() && start == old(start) && SameData(old(mem), mem, old(Areas()))
      ensures var n := Align(num * size % 0x1_0000_0000);
              && blocks == AllocBlocks(old(blocks), n) && res == AllocAddr(start, old(blocks), n)
              && forall k :: 0 <= k < n / HEADER ==> res + k * HEADER in mem && mem[res + k * HEADER] == ZERO
    {
      res := Zalloc(num * size % 0x1_0000_0000);
    }

    /** heap_monitor, which reads the first node without a check. */
    method Monitor() returns (total: nat, used: nat, nodesTotal: nat, nodesUsed: nat)
      requires Valid() && blocks != []
      ensures total == Top() - start && used == UsedBytes(blocks)
      ensures nodesTotal == |blocks| && nodesUsed == UsedCount(blocks)
    {
      var node := first;
      total, used, nodesTotal, nodesUsed := 0, 0, 0, 0;
      ghost var i := 0;
      while true
        invariant i < |blocks| && node == End(start, blocks[..i]) && nodesTotal == i
        invariant total + used == node - start
        invariant used + UsedBytes(blocks[i..]) == UsedBytes(blocks)
        invariant nodesUsed + UsedCount(blocks[i..]) == UsedCount(blocks)
        decreases |blocks| - i
      {
        ghost var xs, b, zs := blocks[..i], blocks[i], blocks[i + 1..];
        assert blocks == xs + ([b] + zs) && blocks[i..][1..] == zs;
        NodeAt(mem, start, xs, b, zs);
        EndNext(start, blocks, i);
        if mem[node].used {
          nodesUsed := nodesUsed + 1;
          used := used + mem[node].size + HEADER;
        } else {
          total := total + mem[node].size + HEADER;
        }
        nodesTotal := nodesTotal + 1;
        if mem[node].next == NULL {
          assert blocks[..|blocks|] == blocks && zs == [];
          break;
        }
        node := mem[node].next;
        i := i + 1;
      }
      total := total + used;
    }
  }

  const ZERO: Line := Data(seq(HEADER, _ => 0))

  /** Stores into a data area do not touch the list. */
  lemma {:induction false} SegIgnoresData(m: Memory, m': Memory, a: nat, p: nat, bs: seq<Block>, n: nat, s: Span)
    requires Seg(m, a, p, bs, n) && s in Live(a, bs)
    requires forall x: nat :: x < s.addr || s.addr + s.size <= x ==>
            ((x in m) == (x in m')) && (x in m ==> m'[x] == m[x])
    ensures Seg(m', a, p, bs, n)
    decreases |bs|
  {
    var b := a + HEADER + bs[0].size;
    LiveInside(b, bs[1..]);
    if s in Live(b, bs[1..]) {
      SegIgnoresData(m, m', b, a, bs[1..], n, s);
    } else {
      SegFrame(m, m', b, a, bs[1..], n);
    }
  }

  lemma FirstStays(bs: seq<Block>, i: nat)
    requires i < |bs|
    ensures FreeBlocks(bs, i) != []
  {
    MergeNonempty([], Unmark(bs, i));
  }

  lemma {:induction false} MergeNonempty(done: seq<Block>, bs: seq<Block>)
    ensures done + bs != [] ==> Merge(done, bs) != []
    decreases |bs|
  {
    if bs != [] {
      MergeNonempty(Push(done, bs[0]), bs[1..]);
    }
  }

  lemma {:induction false} LastPositive(a: nat, p: nat, bs: seq<Block>)
    ensures bs != [] ==> LastNode(a, p, bs) >= a
    decreases |bs|
  {
    if bs != [] {
      LastPositive(a + HEADER + bs[0].size, a, bs[1..]);
    }
  }

  lemma RestLive(a: nat, done: seq<Block>, rest: seq<Block>)
    requires rest != []
    ensures Live(a, Push(done, rest[0]) + rest[1..]) == Live(a, done + rest)
    ensures done + rest == done + ([rest[0]] + rest[1..])
  {
    PushKeeps(a, done, rest[0]);
    LiveAppend(a, Push(done, rest[0]), rest[1..]);
    LiveAppend(a, done + [rest[0]], rest[1..]);
    assert done + rest == (done + [rest[0]]) + rest[1..];
  }

  lemma FitHere(bs: seq<Block>, size: nat, i: nat)
    requires i < |bs| && FitsIn(bs[i], size) && i <= FirstFit(bs, size)
    ensures FirstFit(bs, size) == i
  {
  }

  lemma NoFitHere(bs: seq<Block>, size: nat, i: nat)
    requires i < |bs| && !FitsIn(bs[i], size) && i <= FirstFit(bs, size)
    ensures i + 1 <= FirstFit(bs, size)
  {
  }

  lemma EndNext(a: nat, bs: seq<Block>, i: nat)
    requires i < |bs|
    ensures End(a, bs[..i + 1]) == End(a, bs[..i]) + HEADER + bs[i].size
  {
    assert bs[..i + 1] == bs[..i] + [bs[i]];
    EndAppend(a, bs[..i], [bs[i]]);
    assert [bs[i]][1..] == [];
  }
}
