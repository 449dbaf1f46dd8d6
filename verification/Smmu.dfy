/** The SMMU driver: page allocation from a bump heap, domain set-up, and mapping loops over the page tables. */
module Smmu {
  import opened Bits
  import opened Wrappers
  import opened SmmuTables

  const PAGE_SIZE := 0x1000
  const REGION_SIZE := 0x40_0000

  // ----- the flat page map that the two-level tables stand for

  /**
   What page v translates to after smmu_map has gone over `pages` pages from virtual address iova on,
   given what it translated to before. Addresses wrap like the 32-bit and 64-bit variables of the loop.
   */
  function AfterMap(before: Option<Mapping>, v: nat, iova: u32, iopa: u64, pages: nat, attr: nat): Option<Mapping>
    decreases pages
  {
    if pages == 0 then before
    else AfterMap(if iova / PAGE_SIZE == v then ToMapping(Frame(iopa), attr % 8) else before,
                  v, NextPage(iova), NextFrame(iopa), pages - 1, attr)
  }

  /** Page v of a region that is mapped to the physical address iopa. */
  function InRegion(iopa: u64, v: nat, attr: nat): Option<Mapping> {
    ToMapping(Region(iopa) * ENTRIES + v % ENTRIES, attr % 8)
  }

  /** The same for smmu_map_huge and 4 MB regions. */
  function AfterMapHuge(before: Option<Mapping>, v: nat, iova: u32, iopa: u64, regions: nat, attr: nat): Option<Mapping>
    decreases regions
  {
    if regions == 0 then before
    else AfterMapHuge(if iova / REGION_SIZE == v / ENTRIES then InRegion(iopa, v, attr) else before,
                      v, NextRegion(iova), NextRegionFrame(iopa), regions - 1, attr)
  }

  /** The 22-bit frame field and the 12-bit region field. */
  function Frame(iopa: u64): nat { iopa / PAGE_SIZE % 0x40_0000 }
  function Region(iopa: u64): nat { iopa / REGION_SIZE % 0x1000 }
  function NextPage(iova: u32): u32 { (iova + PAGE_SIZE) % 0x1_0000_0000 }
  function NextRegion(iova: u32): u32 { (iova + REGION_SIZE) % 0x1_0000_0000 }
  function NextFrame(iopa: u64): u64 { (iopa + PAGE_SIZE) % 0x1_0000_0000_0000_0000 }
  function NextRegionFrame(iopa: u64): u64 { (iopa + REGION_SIZE) % 0x1_0000_0000_0000_0000 }

  /** Page number k pages behind v, in an address space of 2^20 pages. */
  function Forward(v: nat, k: nat): nat { (v + k) % 0x10_0000 }

  lemma NextPageNumber(iova: u32)
    ensures NextPage(iova) / PAGE_SIZE == Forward(iova / PAGE_SIZE, 1)
  {
  }

  lemma NextFrameNumber(iopa: u64, k: nat)
    ensures (NextFrame(iopa) / PAGE_SIZE + k) % 0x40_0000 == (iopa / PAGE_SIZE + (k + 1)) % 0x40_0000
  {
    var q := iopa / PAGE_SIZE;
    NextFrameQuotient(iopa, q);
    if q + 1 == 0x10_0000_0000_0000 {
      WholeTurns(k);
    }
  }

  /** The frame behind the last one of the 64-bit address space is the first one. */
  lemma NextFrameQuotient(iopa: u64, q: nat)
    requires q == iopa / PAGE_SIZE
    ensures NextFrame(iopa) / PAGE_SIZE == if q + 1 == 0x10_0000_0000_0000 then 0 else q + 1
  {
  }

  lemma WholeTurns(k: nat)
    ensures (0x10_0000_0000_0000 + k) % 0x40_0000 == k % 0x40_0000
  {
  }

  lemma ForwardStep(iova: u32, k: nat)
    ensures Forward(NextPage(iova) / PAGE_SIZE, k) == Forward(iova / PAGE_SIZE, k + 1)
  {
    NextPageNumber(iova);
  }

  lemma NotAgain(p: nat, k: nat)
    requires p < PAGES && 0 < k < PAGES
    ensures Forward(p, k) != p
  {
  }

  /** A page that the rest of the range does not reach keeps its translation. */
  lemma {:induction false} MapMiss(before: Option<Mapping>, v: nat, iova: u32, iopa: u64, pages: nat, attr: nat)
    requires forall k: nat :: k < pages ==> v != Forward(iova / 0x1000, k)
    ensures AfterMap(before, v, iova, iopa, pages, attr) == before
    decreases pages
  {
    if pages != 0 {
      assert Forward(iova / PAGE_SIZE, 0) == iova / PAGE_SIZE;
      forall k: nat | k < pages - 1
        ensures v != Forward(NextPage(iova) / PAGE_SIZE, k)
      {
        ForwardStep(iova, k);
      }
      MapMiss(before, v, NextPage(iova), NextFrame(iopa), pages - 1, attr);
    }
  }

  /** No step forward. The zero is a parameter, so that the induction can pass its own variable. */
  lemma ForwardZero(v: nat, k: nat)
    requires v < PAGES && k == 0
    ensures Forward(v, k) == v
  {
  }

  /** The first page of a range is not reached again. */
  lemma FirstHit(before: Option<Mapping>, iova: u32, iopa: u64, pages: nat, attr: nat, v: nat)
    requires 0 < pages <= PAGES && v == iova / PAGE_SIZE
    ensures AfterMap(before, v, iova, iopa, pages, attr) == ToMapping(Frame(iopa), attr % 8)
  {
    forall j: nat | j < pages - 1
      ensures v != Forward(NextPage(iova) / 0x1000, j)
    {
      ForwardStep(iova, j);
      NotAgain(v, j + 1);
    }
    MapMiss(ToMapping(Frame(iopa), attr % 8), v, NextPage(iova), NextFrame(iopa), pages - 1, attr);
  }

  /** Page k of a range that does not overlap itself is given frame k from the physical address on. */
  lemma {:induction false} MapHit(before: Option<Mapping>, iova: u32, iopa: u64, pages: nat, attr: nat, k: nat)
    requires k < pages <= 0x10_0000
    ensures AfterMap(before, Forward(iova / 0x1000, k), iova, iopa, pages, attr) ==
            ToMapping((iopa / 0x1000 + k) % 0x40_0000, attr % 8)
    decreases pages
  {
    if k == 0 {
      ForwardZero(iova / PAGE_SIZE, k);
      FirstHit(before, iova, iopa, pages, attr, iova / PAGE_SIZE);
    } else {
      ForwardStep(iova, k - 1);
      NextFrameNumber(iopa, k - 1);
      NotAgain(iova / PAGE_SIZE, k);
      MapHit(before, NextPage(iova), NextFrame(iopa), pages - 1, attr, k - 1);
    }
  }

  /** Region number k regions behind r, in an address space of 2^10 regions. */
  function ForwardRegion(r: nat, k: nat): nat { (r + k) % 1024 }

  lemma NextRegionNumber(iova: u32)
    ensures NextRegion(iova) / REGION_SIZE == ForwardRegion(iova / REGION_SIZE, 1)
  {
  }

  lemma ForwardRegionStep(iova: u32, k: nat, next: nat)
    requires next == k + 1
    ensures ForwardRegion(NextRegion(iova) / REGION_SIZE, k) == ForwardRegion(iova / REGION_SIZE, next)
  {
    NextRegionNumber(iova);
    TurnRegion(iova / REGION_SIZE + 1, k, iova / REGION_SIZE + next);
  }

  lemma TurnRegion(r: nat, k: nat, sum: nat)
    requires r <= 1024 && sum == r + k
    ensures (r % 1024 + k) % 1024 == sum % 1024
  {
  }

  lemma RegionNotAgain(r: nat, k: nat)
    requires r < ENTRIES && 0 < k < ENTRIES
    ensures ForwardRegion(r, k) != r
  {
  }

  /** No region forward, likewise. */
  lemma FirstRegion(r: nat, k: nat)
    requires r < ENTRIES && k == 0
    ensures ForwardRegion(r, k) == r
  {
  }

  /** The region behind the last one of the 64-bit address space is the first one. */
  lemma NextRegionQuotient(iopa: u64, q: nat)
    requires q == iopa / REGION_SIZE
    ensures NextRegionFrame(iopa) / REGION_SIZE == if q + 1 == 0x400_0000_0000 then 0 else q + 1
  {
  }

  lemma WholeRegionTurns(k: nat)
    ensures (0x400_0000_0000 + k) % 0x1000 == k % 0x1000
  {
  }

  lemma NextPhysicalRegion(iopa: u64, k: nat, next: nat)
    requires next == k + 1
    ensures (NextRegionFrame(iopa) / REGION_SIZE + k) % 0x1000 == (iopa / REGION_SIZE + next) % 0x1000
  {
    var q := iopa / REGION_SIZE;
    NextRegionQuotient(iopa, q);
    if q + 1 == 0x400_0000_0000 {
      WholeRegionTurns(k);
    }
  }

  /** A page whose region the rest of the range does not reach keeps its translation. */
  lemma {:induction false} MapHugeMiss(before: Option<Mapping>, v: nat, iova: u32, iopa: u64, regions: nat, attr: nat)
    requires forall k: nat :: k < regions ==> v / 1024 != ForwardRegion(iova / 0x40_0000, k)
    ensures AfterMapHuge(before, v, iova, iopa, regions, attr) == before
    decreases regions
  {
    if regions != 0 {
      FirstRegion(iova / REGION_SIZE, 0);
      forall k: nat | k < regions - 1
        ensures v / ENTRIES != ForwardRegion(NextRegion(iova) / REGION_SIZE, k)
      {
        ForwardRegionStep(iova, k, k + 1);
      }
      MapHugeMiss(before, v, NextRegion(iova), NextRegionFrame(iopa), regions - 1, attr);
    }
  }

  /** Region k of a range that does not overlap itself is given region k from the physical address on, page by page. */
  lemma {:induction false} MapHugeHit(before: Option<Mapping>, v: nat, iova: u32, iopa: u64, regions: nat, attr: nat,
                                      k: nat)
    requires k < regions <= 1024 && v / 1024 == ForwardRegion(iova / 0x40_0000, k)
    ensures AfterMapHuge(before, v, iova, iopa, regions, attr) ==
            ToMapping((iopa / 0x40_0000 + k) % 0x1000 * 1024 + v % 1024, attr % 8)
    decreases regions
  {
    var r := iova / REGION_SIZE;
    if k == 0 {
      FirstRegion(r, k);
      forall j: nat | j < regions - 1
        ensures v / ENTRIES != ForwardRegion(NextRegion(iova) / REGION_SIZE, j)
      {
        ForwardRegionStep(iova, j, j + 1);
        RegionNotAgain(r, j + 1);
      }
      MapHugeMiss(InRegion(iopa, v, attr), v, NextRegion(iova), NextRegionFrame(iopa), regions - 1, attr);
    } else {
      ForwardRegionStep(iova, k - 1, k);
      NextPhysicalRegion(iopa, k - 1, k);
      RegionNotAgain(r, k);
      MapHugeHit(before, v, NextRegion(iova), NextRegionFrame(iopa), regions - 1, attr, k - 1);
    }
  }

  // ----- the loop over pages, as a function of the tables

  function MapRun(s: Mmu, d: nat, iova: u32, iopa: u64, pages: nat, attr: nat): Mmu
    decreases pages
  {
    if pages == 0 then s
    else MapRun(MapPage(s, d, iova / PAGE_SIZE, Frame(iopa), attr % 8), d,
                NextPage(iova), NextFrame(iopa), pages - 1, attr)
  }

  function MapHugeRun(s: Mmu, d: nat, iova: u32, iopa: u64, regions: nat, attr: nat): Mmu
    decreases regions
  {
    if regions == 0 then s
    else MapHugeRun(MapRegion(s, d, iova / REGION_SIZE, Region(iopa), attr % 8), d, NextRegion(iova),
                    NextRegionFrame(iopa), regions - 1, attr)
  }

  /** No page of the range lies in a live 4 MB entry: the driver would take its region number for a table. */
  ghost predicate NoHuge(s: Mmu, d: nat, iova: u32, pages: nat) {
    forall k: nat :: k < pages ==> !IsHuge(Entries(s, d)[Forward(iova / PAGE_SIZE, k) / ENTRIES])
  }

  lemma {:induction false} RunGrows(s: Mmu, d: nat, iova: u32, iopa: u64, pages: nat, attr: nat)
    ensures s.bump <= MapRun(s, d, iova, iopa, pages, attr).bump
    decreases pages
  {
    if pages != 0 {
      RunGrows(MapPage(s, d, iova / PAGE_SIZE, Frame(iopa), attr % 8), d,
               NextPage(iova), NextFrame(iopa), pages - 1, attr);
    }
  }

  lemma MapPageDirectory(s: Mmu, base: nat, dirs: set<nat>, clients: set<nat>, d: nat, v: nat, frame: nat, attr: nat)
    requires Valid(s, base, dirs, clients) && d in dirs && v < PAGES && !IsHuge(Entries(s, d)[v / ENTRIES])
    requires Entries(s, d)[v / ENTRIES].attr == 0 ==> s.bump < PAGES
    ensures forall i :: 0 <= i < ENTRIES && !IsHuge(Entries(s, d)[i]) ==>
            !IsHuge(Entries(MapPage(s, d, v, frame, attr), d)[i])
  {
    EnsureValid(s, base, dirs, clients, d, v / ENTRIES);
    var s1 := EnsureTable(s, d, v / ENTRIES);
    var t := TableOf(s1, d, v / ENTRIES);
    EntriesSet(s1, t, v % ENTRIES, Entry(frame, Entries(s1, t)[v % ENTRIES].next, attr), d);
    if Entries(s, d)[v / ENTRIES].attr == 0 {
      EnsureEntries(s, d, v / ENTRIES, d);
    }
  }

  lemma TableCosts(s: Mmu, d: nat, v: nat, frame: nat, attr: nat)
    requires v < PAGES
    ensures Entries(s, d)[v / ENTRIES].attr == 0 ==> MapPage(s, d, v, frame, attr).bump == s.bump + 1
  {
  }

  /** The first page of the range can be mapped, with room for a table if it needs one. */
  lemma FirstFits(s: Mmu, d: nat, iova: u32, iopa: u64, pages: nat, attr: nat)
    requires pages > 0 && NoHuge(s, d, iova, pages) && MapRun(s, d, iova, iopa, pages, attr).bump <= PAGES
    ensures var e := Entries(s, d)[iova / PAGE_SIZE / ENTRIES]; !IsHuge(e) && (e.attr == 0 ==> s.bump < PAGES)
  {
    var v := iova / PAGE_SIZE;
    ForwardZero(v, 0);
    TableCosts(s, d, v, Frame(iopa), attr % 8);
    RunGrows(MapPage(s, d, v, Frame(iopa), attr % 8), d, NextPage(iova), NextFrame(iopa), pages - 1, attr);
  }

  lemma NextNoHuge(s: Mmu, base: nat, dirs: set<nat>, clients: set<nat>, d: nat, iova: u32, iopa: u64, pages: nat,
                   attr: nat)
    requires Valid(s, base, dirs, clients) && d in dirs && pages > 0 && NoHuge(s, d, iova, pages)
    requires MapRun(s, d, iova, iopa, pages, attr).bump <= PAGES
    ensures var e := Entries(s, d)[iova / PAGE_SIZE / ENTRIES]; !IsHuge(e) && (e.attr == 0 ==> s.bump < PAGES)
    ensures NoHuge(MapPage(s, d, iova / PAGE_SIZE, Frame(iopa), attr % 8), d, NextPage(iova), pages - 1)
  {
    var s1 := MapPage(s, d, iova / PAGE_SIZE, Frame(iopa), attr % 8);
    FirstFits(s, d, iova, iopa, pages, attr);
    MapPageDirectory(s, base, dirs, clients, d, iova / PAGE_SIZE, Frame(iopa), attr % 8);
    forall k: nat | k < pages - 1
      ensures !IsHuge(Entries(s1, d)[Forward(NextPage(iova) / PAGE_SIZE, k) / ENTRIES])
    {
      ForwardStep(iova, k);
    }
  }

  /** The two-level tables follow the flat page map, in every domain, and live frames stay apart. */
  lemma {:induction false} MapRunWorks(s: Mmu, base: nat, dirs: set<nat>, clients: set<nat>, d: nat, iova: u32,
                                       iopa: u64, pages: nat, attr: nat, d': nat, w: nat)
    requires Valid(s, base, dirs, clients) && d in dirs && d' in dirs && w < PAGES && NoHuge(s, d, iova, pages)
    requires MapRun(s, d, iova, iopa, pages, attr).bump <= PAGES
    ensures Valid(MapRun(s, d, iova, iopa, pages, attr), base, dirs, clients)
    ensures Translate(MapRun(s, d, iova, iopa, pages, attr), d', w) ==
            if d' == d then AfterMap(Translate(s, d, w), w, iova, iopa, pages, attr) else Translate(s, d', w)
    decreases pages
  {
    if pages != 0 {
      var v, frame := iova / PAGE_SIZE, Frame(iopa);
      NextNoHuge(s, base, dirs, clients, d, iova, iopa, pages, attr);
      MapPageValid(s, base, dirs, clients, d, v, frame, attr % 8);
      MapPageTranslate(s, base, dirs, clients, d, v, frame, attr % 8, d', w);
      MapRunWorks(MapPage(s, d, v, frame, attr % 8), base, dirs, clients, d, NextPage(iova), NextFrame(iopa), pages - 1,
                  attr, d', w);
    }
  }

  lemma MapRunValid(s: Mmu, base: nat, dirs: set<nat>, clients: set<nat>, d: nat, iova: u32, iopa: u64, pages: nat,
                    attr: nat)
    requires Valid(s, base, dirs, clients) && d in dirs && NoHuge(s, d, iova, pages)
    requires MapRun(s, d, iova, iopa, pages, attr).bump <= PAGES
    ensures Valid(MapRun(s, d, iova, iopa, pages, attr), base, dirs, clients)
  {
    MapRunWorks(s, base, dirs, clients, d, iova, iopa, pages, attr, d, 0);
  }

  lemma {:induction false} MapHugeRunWorks(s: Mmu, base: nat, dirs: set<nat>, clients: set<nat>, d: nat, iova: u32,
                                           iopa: u64, regions: nat, attr: nat, d': nat, w: nat)
    requires Valid(s, base, dirs, clients) && d in dirs && d' in dirs && w < PAGES
    ensures Valid(MapHugeRun(s, d, iova, iopa, regions, attr), base, dirs, clients)
    ensures Translate(MapHugeRun(s, d, iova, iopa, regions, attr), d', w) ==
            if d' == d then AfterMapHuge(Translate(s, d, w), w, iova, iopa, regions, attr) else Translate(s, d', w)
    decreases regions
  {
    if regions != 0 {
      var pdn, region := iova / REGION_SIZE, Region(iopa);
      MapRegionValid(s, base, dirs, clients, d, pdn, region, attr % 8);
      MapRegionTranslate(s, base, dirs, clients, d, pdn, region, attr % 8, d', w);
      MapHugeRunWorks(MapRegion(s, d, pdn, region, attr % 8), base, dirs, clients, d, NextRegion(iova),
                      NextRegionFrame(iopa), regions - 1, attr, d', w);
    }
  }

  /** The frames handed out together. */
  function Frames(page: nat, num: nat): (r: set<nat>)
    ensures forall f :: f in r <==> page <= f < page + num
  {
    if num == 0 then {} else Frames(page, num - 1) + {page + num - 1}
  }

  lemma MapRunStep(s: Mmu, d: nat, iova: u32, iopa: u64, pages: nat, attr: nat, s': Mmu, iova': u32, iopa': u64,
                   pages': nat)
    requires pages == pages' + 1 && iova' == NextPage(iova) && iopa' == NextFrame(iopa)
    requires s' == MapPage(s, d, iova / PAGE_SIZE, Frame(iopa), attr % 8)
    ensures MapRun(s, d, iova, iopa, pages, attr) == MapRun(s', d, iova', iopa', pages', attr)
  {
  }

  lemma MapHugeRunStep(s: Mmu, d: nat, iova: u32, iopa: u64, regions: nat, attr: nat, s': Mmu, iova': u32, iopa': u64,
                       regions': nat)
    requires regions == regions' + 1 && iova' == NextRegion(iova) && iopa' == NextRegionFrame(iopa)
    requires s' == MapRegion(s, d, iova / REGION_SIZE, Region(iopa), attr % 8)
    ensures MapHugeRun(s, d, iova, iopa, regions, attr) == MapHugeRun(s', d, iova', iopa', regions', attr)
  {
  }

  lemma RegionNumber(iova: u32)
    ensures iova / REGION_SIZE == iova / PAGE_SIZE / ENTRIES
  {
  }

  // ----- the driver

  class Driver {
    const base: nat
    var mem: map<nat, Page>
    var bump: nat
    ghost var dirs: set<nat>
    ghost var clients: set<nat>

    function State(): Mmu
      reads this
    {
      Mmu(mem, bump)
    }

    ghost predicate Ok()
      reads this
    {
      Valid(State(), base, dirs, clients)
    }

    /** The table heap starts empty, over memory with arbitrary contents. */
    constructor (heapFrame: nat, contents: map<nat, Page>)
      requires heapFrame <= PAGES
      ensures Ok() && bump == base == heapFrame && dirs == {} && clients == {} && mem == contents
    {
      base, mem, bump, dirs, clients := heapFrame, contents, heapFrame, {}, {};
    }

    /** smmu_page_zalloc: cleared pages, which the caller may use for anything. */
    method PageZalloc(num: nat) returns (page: nat)
      requires Ok() && bump + num <= PAGES
      modifies this
      ensures Ok() && page == old(bump) && bump == page + num && dirs == old(dirs)
      ensures clients == old(clients) + Frames(page, num)
      ensures forall f :: page <= f < page + num ==> f in mem && mem[f] == ZeroPage()
      ensures Grown(old(State()), State())
      ensures forall d, v :: d in dirs && 0 <= v < PAGES ==> Translate(State(), d, v) == old(Translate(State(), d, v))
    {
      ghost var s := State();
      page := bump;
      for i := 0 to num
        invariant bump == page && dirs == old(dirs) && clients == old(clients)
        invariant forall f :: page <= f < page + i ==> f in mem && mem[f] == ZeroPage()
        invariant Grown(s, State())
      {
        mem := mem[page + i := ZeroPage()];
      }
      bump := bump + num;
      ghost var more := Frames(page, num);
      GrownValid(s, State(), base, dirs, clients, more);
      forall d, v | d in dirs && 0 <= v < PAGES
        ensures Translate(State(), d, v) == Translate(s, d, v)
      {
        GrownTranslate(s, State(), base, dirs, clients, d, v);
      }
      clients := clients + more;
    }

    /** smmu_init_domain: a new directory whose entries hold their own region numbers, without permissions. */
    method InitDomain() returns (pdir: nat)
      requires Ok() && bump < PAGES
      modifies this
      ensures Ok() && pdir == old(bump) && bump == pdir + 1 && dirs == old(dirs) + {pdir} && pdir !in old(dirs)
      ensures forall v: nat :: v < PAGES ==> Translate(State(), pdir, v) == None
      ensures pdir in mem && forall i :: 0 <= i < 1024 ==> mem[pdir][i] == Entry(1024 * i, 0, 0)
      ensures forall d, v :: d in old(dirs) && 0 <= v < PAGES ==>
              Translate(State(), d, v) == old(Translate(State(), d, v))
    {
      ghost var s := State();
      pdir := PageZalloc(1);
      for pdn := 0 to ENTRIES
        invariant bump == pdir + 1 && dirs == old(dirs) && pdir in mem && pdir in clients
        invariant Valid(s, base, dirs, old(clients)) && clients == old(clients) + {pdir} && Grown(s, State())
        invariant forall i :: 0 <= i < ENTRIES ==> mem[pdir][i] == Entry(if i < pdn then 1024 * i else 0, 0, 0)
      {
        var e := mem[pdir][pdn];
        mem := mem[pdir := mem[pdir][pdn := e.(low := pdn * ENTRIES + e.low % ENTRIES)]];
      }
      GrownValid(s, State(), base, dirs, old(clients), {pdir});
      forall d, v | d in dirs && 0 <= v < PAGES
        ensures Translate(State(), d, v) == Translate(s, d, v)
      {
        GrownTranslate(s, State(), base, dirs, old(clients), d, v);
      }
      NewDomain(State(), base, dirs, clients, pdir);
      dirs, clients := dirs + {pdir}, clients - {pdir};
    }

    /** A page from the table heap, filled with page numbers. */
    method NewTable(pdn: nat) returns (ptbl: nat)
      modifies `mem, `bump
      ensures ptbl == old(bump) && bump == ptbl + 1 && mem == old(mem)[ptbl := FreshTable(pdn)]
    {
      ptbl := bump;
      mem, bump := mem[ptbl := ZeroPage()], bump + 1;
      for pn := 0 to ENTRIES
        invariant bump == ptbl + 1 && ptbl in mem && mem == old(mem)[ptbl := mem[ptbl]]
        invariant forall i :: 0 <= i < ENTRIES ==> mem[ptbl][i] == if i < pn then FreshTable(pdn)[i] else Entry(0, 0, 0)
      {
        mem := mem[ptbl := mem[ptbl][pn := mem[ptbl][pn].(low := pdn * ENTRIES + pn)]];
      }
      assert mem[ptbl] == FreshTable(pdn);
    }

    /** _smmu_get_pte: the table and index of the entry for iova; a missing table is allocated and filled. */
    method GetPte(pdir: nat, iova: u32) returns (ptbl: nat, index: nat)
      modifies `mem, `bump
      ensures State() == EnsureTable(old(State()), pdir, iova / PAGE_SIZE / ENTRIES)
      ensures ptbl == TableOf(State(), pdir, iova / PAGE_SIZE / ENTRIES) && index == iova / PAGE_SIZE % ENTRIES
    {
      var pdn := iova / REGION_SIZE;
      RegionNumber(iova);
      if Entries(State(), pdir)[pdn].attr != 0 {
        ptbl := Entries(State(), pdir)[pdn].low;
      } else {
        ptbl := NewTable(pdn);
        mem := mem[pdir := Entries(State(), pdir)[pdn := Entry(ptbl, 1, ATTR_ALL)]];
      }
      index := iova / PAGE_SIZE % ENTRIES;
    }

    /** One iteration of smmu_map. */
    method MapOne(ptb: nat, iova: u32, iopa: u64, attr: u32)
      modifies `mem, `bump
      ensures State() == MapPage(old(State()), ptb, iova / PAGE_SIZE, Frame(iopa), attr % 8)
    {
      var ptbl, index := GetPte(ptb, iova);
      var pte := Entries(State(), ptbl)[index];
      mem := mem[ptbl := Entries(State(), ptbl)[index := pte.(low := Frame(iopa), attr := attr % 8)]];
    }

    /** smmu_map. Where no page of the range lies in a live 4 MB entry, it refines the flat page map. */
    method Map(ptb: nat, iova0: u32, iopa0: u64, pages: u32, attr: u32)
      requires MapRun(State(), ptb, iova0, iopa0, pages, attr).bump <= PAGES
      modifies `mem, `bump
      ensures State() == MapRun(old(State()), ptb, iova0, iopa0, pages, attr)
      ensures old(Ok()) && ptb in dirs && old(NoHuge(State(), ptb, iova0, pages)) ==>
                && Ok()
                && forall d, w :: d in dirs && 0 <= w < PAGES ==>
                     Translate(State(), d, w) ==
                     if d == ptb then AfterMap(old(Translate(State(), d, w)), w, iova0, iopa0, pages, attr)
                     else old(Translate(State(), d, w))
    {
      ghost var s := State();
      var iova: u32, iopa: u64 := iova0, iopa0;
      ghost var left: nat := pages;
      for i := 0 to pages
        invariant left == pages - i
        invariant MapRun(State(), ptb, iova, iopa, left, attr) == MapRun(s, ptb, iova0, iopa0, pages, attr)
      {
        ghost var s0, iova', iopa', left' := State(), iova, iopa, left;
        MapOne(ptb, iova, iopa, attr);
        iova := NextPage(iova);
        iopa := NextFrame(iopa);
        left := left - 1;
        MapRunStep(s0, ptb, iova', iopa', left', attr, State(), iova, iopa, left);
      }
      if Valid(s, base, dirs, clients) && ptb in dirs && NoHuge(s, ptb, iova0, pages) {
        MapRunValid(s, base, dirs, clients, ptb, iova0, iopa0, pages, attr);
        forall d, w | d in dirs && 0 <= w < PAGES
          ensures Translate(State(), d, w) ==
                  if d == ptb then AfterMap(Translate(s, d, w), w, iova0, iopa0, pages, attr) else Translate(s, d, w)
        {
          MapRunWorks(s, base, dirs, clients, ptb, iova0, iopa0, pages, attr, d, w);
        }
      }
    }

    /** smmu_map_huge. */
    method MapHuge(ptb: nat, iova0: u32, iopa0: u64, regions: u32, attr: u32)
      requires Ok() && ptb in dirs
      modifies `mem
      ensures Ok() && State() == MapHugeRun(old(State()), ptb, iova0, iopa0, regions, attr)
      ensures forall d, w :: d in dirs && 0 <= w < PAGES ==>
                Translate(State(), d, w) ==
                if d == ptb then AfterMapHuge(old(Translate(State(), d, w)), w, iova0, iopa0, regions, attr)
                else old(Translate(State(), d, w))
    {
      ghost var s := State();
      var iova: u32, iopa: u64 := iova0, iopa0;
      ghost var left: nat := regions;
      for i := 0 to regions
        invariant Ok() && bump == old(bump) && left == regions - i
        invariant MapHugeRun(State(), ptb, iova, iopa, left, attr) == MapHugeRun(s, ptb, iova0, iopa0, regions, attr)
      {
        ghost var s0, iova', iopa', left' := State(), iova, iopa, left;
        var pdn := iova / REGION_SIZE;
        MapRegionValid(s0, base, dirs, clients, ptb, pdn, Region(iopa), attr % 8);
        var e := Entries(State(), ptb)[pdn];
        mem := mem[ptb := Entries(State(), ptb)[pdn := Entry(Region(iopa) * ENTRIES + e.low % ENTRIES, 0, attr % 8)]];
        iova := NextRegion(iova);
        iopa := NextRegionFrame(iopa);
        left := left - 1;
        MapHugeRunStep(s0, ptb, iova', iopa', left', attr, State(), iova, iopa, left);
      }
      forall d, w | d in dirs && 0 <= w < PAGES
        ensures Translate(State(), d, w) ==
                if d == ptb then AfterMapHuge(Translate(s, d, w), w, iova0, iopa0, regions, attr)
                else Translate(s, d, w)
      {
        MapHugeRunWorks(s, base, dirs, clients, ptb, iova0, iopa0, regions, attr, d, w);
      }
    }
  }
}
