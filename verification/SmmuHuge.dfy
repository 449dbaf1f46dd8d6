/**
 What smmu_map does where a live 4 MB entry covers the page. The driver looks at the permissions of the directory entry
 only, and takes its frame field, which holds a region number, for the frame of a table.
 */
module SmmuHuge {
  import opened Wrappers
  import opened SmmuTables

  /** What a directory entry n makes of page k of its region once it is stored as entry i of frame f. */
  function NewRegion(s: Mmu, f: nat, i: nat, n: Entry, k: nat): Option<Mapping>
    requires i < ENTRIES && k < ENTRIES
  {
    if IsTable(n) then
      var t := (if n.low == f then Entries(s, f)[i := n] else Entries(s, n.low))[k];
      ToMapping(t.low, t.attr)
    else if IsHuge(n) then Some(Mapping(n.low / ENTRIES * ENTRIES + k, n.attr))
    else None
  }

  /** The entry that the driver stores. */
  function Stored(s: Mmu, f: nat, i: nat, frame: nat, attr: nat): Entry
    requires i < ENTRIES
  {
    Entry(frame, Entries(s, f)[i].next, attr)
  }

  lemma StoreOverHuge(s: Mmu, d: nat, v: nat, frame: nat, attr: nat, f: nat, i: nat)
    requires v < PAGES && IsHuge(Entries(s, d)[v / ENTRIES]) && f == Entries(s, d)[v / ENTRIES].low && i == v % ENTRIES
    ensures MapPage(s, d, v, frame, attr) == SetEntry(s, f, i, Stored(s, f, i, frame, attr))
  {
  }

  /**
   The store over a live 4 MB entry, for every page of every domain: if it hits a directory, the whole region of the
   entry that it hits changes; if it hits a table in use, one page of that table's region does; otherwise nothing.
   */
  lemma MapPageOverHuge(s: Mmu, base: nat, dirs: set<nat>, clients: set<nat>, d: nat, v: nat, frame: nat, attr: nat,
                        d': nat, w: nat, f: nat, i: nat)
    requires Valid(s, base, dirs, clients) && d in dirs && d' in dirs && v < PAGES && w < PAGES
    requires IsHuge(Entries(s, d)[v / ENTRIES]) && f == Entries(s, d)[v / ENTRIES].low && i == v % ENTRIES
    ensures Translate(MapPage(s, d, v, frame, attr), d', w) ==
            if d' == f && w / ENTRIES == i then NewRegion(s, f, i, Stored(s, f, i, frame, attr), w % ENTRIES)
            else if TableAt(s, d', w / ENTRIES) && TableOf(s, d', w / ENTRIES) == f && w % ENTRIES == i
              then ToMapping(frame, attr)
            else Translate(s, d', w)
  {
    var n := Stored(s, f, i, frame, attr);
    var s' := MapPage(s, d, v, frame, attr);
    StoreOverHuge(s, d, v, frame, attr, f, i);
    EntriesSet(s, f, i, n, d');
    EntriesSet(s, f, i, n, Entries(s', d')[w / ENTRIES].low);
    if TableAt(s, d', w / ENTRIES) {
      assert ForTables(s, base, dirs, clients, TableOf(s, d', w / ENTRIES));
    }
  }

  /** The page itself is mapped if and only if its region is not a live 4 MB entry, or the case below holds. */
  lemma MapPageWorks(s: Mmu, base: nat, dirs: set<nat>, clients: set<nat>, d: nat, v: nat, frame: nat, attr: nat)
    requires Valid(s, base, dirs, clients) && d in dirs && v < PAGES
    requires Entries(s, d)[v / ENTRIES].attr == 0 ==> s.bump < PAGES
    ensures var e := Entries(s, d)[v / ENTRIES];
            Translate(MapPage(s, d, v, frame, attr), d, v) == ToMapping(frame, attr) <==>
            || !IsHuge(e)
            || (if e.low == d && v / ENTRIES == v % ENTRIES then attr == 0 || frame % ENTRIES == v % ENTRIES
                else Translate(s, d, v) == ToMapping(frame, attr))
  {
    if !IsHuge(Entries(s, d)[v / ENTRIES]) {
      MapPageTranslate(s, base, dirs, clients, d, v, frame, attr, d, v);
    } else {
      MapPageOverHuge(s, base, dirs, clients, d, v, frame, attr, d, v, Entries(s, d)[v / ENTRIES].low, v % ENTRIES);
    }
  }

  // ----- exactly when one page changes and no other

  /** This page is mapped, and every other page of every domain is as before. */
  ghost predicate Refines(s: Mmu, s': Mmu, dirs: set<nat>, d: nat, v: nat, frame: nat, attr: nat) {
    forall d', w :: d' in dirs && 0 <= w < PAGES ==>
      Translate(s', d', w) == if d' == d && w == v then ToMapping(frame, attr) else Translate(s, d', w)
  }

  /** The store to entry i of frame f shows nowhere: looked up in the tables as they are before it. */
  ghost predicate Invisible(s: Mmu, dirs: set<nat>, f: nat, i: nat, frame: nat, attr: nat)
    requires i < ENTRIES
  {
    && (forall d, j :: d in dirs && TableAt(s, d, j) && TableOf(s, d, j) == f ==> SeenInTable(s, d, j, i, frame, attr))
    && (f in dirs ==> forall k :: 0 <= k < ENTRIES ==> SeenInDirectory(s, f, i, frame, attr, k))
  }

  predicate SeenInTable(s: Mmu, d: nat, j: nat, i: nat, frame: nat, attr: nat)
    requires j < ENTRIES && i < ENTRIES
  {
    Translate(s, d, j * ENTRIES + i) == ToMapping(frame, attr)
  }

  predicate SeenInDirectory(s: Mmu, f: nat, i: nat, frame: nat, attr: nat, k: nat)
    requires i < ENTRIES && k < ENTRIES
  {
    NewRegion(s, f, i, Stored(s, f, i, frame, attr), k) == Translate(s, f, i * ENTRIES + k)
  }

  lemma PageOf(j: nat, k: nat, w: nat)
    requires j < ENTRIES && k < ENTRIES && w == j * ENTRIES + k
    ensures w < PAGES && w / ENTRIES == j && w % ENTRIES == k
  {
  }

  /** If the store hits the very entry of the page, all pages of the region change alike. */
  lemma OwnEntry(s: Mmu, base: nat, dirs: set<nat>, clients: set<nat>, d: nat, v: nat, frame: nat, attr: nat, i: nat)
    requires Valid(s, base, dirs, clients) && d in dirs && v < PAGES && i == v % ENTRIES == v / ENTRIES
    requires IsHuge(Entries(s, d)[i]) && Entries(s, d)[i].low == d
    requires Refines(s, MapPage(s, d, v, frame, attr), dirs, d, v, frame, attr)
    ensures Translate(s, d, v) == ToMapping(frame, attr)
    ensures forall k :: 0 <= k < ENTRIES ==> SeenInDirectory(s, d, i, frame, attr, k)
  {
    var k := if i == 0 then 1 else 0;
    var w := i * ENTRIES + k;
    PageOf(i, k, w);
    MapPageOverHuge(s, base, dirs, clients, d, v, frame, attr, d, w, d, i);
    MapPageOverHuge(s, base, dirs, clients, d, v, frame, attr, d, v, d, i);
    assert Translate(MapPage(s, d, v, frame, attr), d, w) == Translate(s, d, w);
    forall k | 0 <= k < ENTRIES
      ensures SeenInDirectory(s, d, i, frame, attr, k)
    {
      PageOf(i, k, i * ENTRIES + k);
    }
  }

  lemma RefinesThenInvisible(s: Mmu, base: nat, dirs: set<nat>, clients: set<nat>, d: nat, v: nat, frame: nat,
                             attr: nat, f: nat, i: nat)
    requires Valid(s, base, dirs, clients) && d in dirs && v < PAGES && i == v % ENTRIES
    requires IsHuge(Entries(s, d)[v / ENTRIES]) && f == Entries(s, d)[v / ENTRIES].low && !(f == d && v / ENTRIES == i)
    requires Refines(s, MapPage(s, d, v, frame, attr), dirs, d, v, frame, attr)
    ensures Translate(s, d, v) == ToMapping(frame, attr) && Invisible(s, dirs, f, i, frame, attr)
  {
    MapPageOverHuge(s, base, dirs, clients, d, v, frame, attr, d, v, f, i);
    forall d0, j: nat | d0 in dirs && TableAt(s, d0, j) && TableOf(s, d0, j) == f
      ensures SeenInTable(s, d0, j, i, frame, attr)
    {
      var w := j * ENTRIES + i;
      PageOf(j, i, w);
      MapPageOverHuge(s, base, dirs, clients, d, v, frame, attr, d0, w, f, i);
    }
    if f in dirs {
      forall k | 0 <= k < ENTRIES
        ensures SeenInDirectory(s, f, i, frame, attr, k)
      {
        var w := i * ENTRIES + k;
        PageOf(i, k, w);
        MapPageOverHuge(s, base, dirs, clients, d, v, frame, attr, f, w, f, i);
      }
    }
  }

  lemma InvisibleThenRefines(s: Mmu, base: nat, dirs: set<nat>, clients: set<nat>, d: nat, v: nat, frame: nat,
                             attr: nat, f: nat, i: nat)
    requires Valid(s, base, dirs, clients) && d in dirs && v < PAGES && i == v % ENTRIES
    requires IsHuge(Entries(s, d)[v / ENTRIES]) && f == Entries(s, d)[v / ENTRIES].low
    requires Translate(s, d, v) == ToMapping(frame, attr) && Invisible(s, dirs, f, i, frame, attr)
    ensures Refines(s, MapPage(s, d, v, frame, attr), dirs, d, v, frame, attr)
  {
    forall d', w | d' in dirs && 0 <= w < PAGES
      ensures Translate(MapPage(s, d, v, frame, attr), d', w) == Translate(s, d', w)
    {
      MapPageOverHuge(s, base, dirs, clients, d, v, frame, attr, d', w, f, i);
      var j, k := w / ENTRIES, w % ENTRIES;
      PageOf(j, k, w);
      if d' == f && j == i {
        assert SeenInDirectory(s, f, i, frame, attr, k);
      } else if TableAt(s, d', j) && TableOf(s, d', j) == f && k == i {
        assert SeenInTable(s, d', j, i, frame, attr);
      }
    }
  }

  /**
   Mapping a page refines the flat page map if and only if its region is not a live 4 MB entry, or the page has that
   mapping already and the store to the frame with the region's number shows nowhere.
   */
  lemma MapPageRefines(s: Mmu, base: nat, dirs: set<nat>, clients: set<nat>, d: nat, v: nat, frame: nat, attr: nat)
    requires Valid(s, base, dirs, clients) && d in dirs && v < PAGES
    requires Entries(s, d)[v / ENTRIES].attr == 0 ==> s.bump < PAGES
    ensures var e := Entries(s, d)[v / ENTRIES];
            Refines(s, MapPage(s, d, v, frame, attr), dirs, d, v, frame, attr) <==>
            !IsHuge(e) ||
            (Translate(s, d, v) == ToMapping(frame, attr) && Invisible(s, dirs, e.low, v % ENTRIES, frame, attr))
  {
    var e, i := Entries(s, d)[v / ENTRIES], v % ENTRIES;
    if !IsHuge(e) {
      forall d', w | d' in dirs && 0 <= w < PAGES
        ensures Translate(MapPage(s, d, v, frame, attr), d', w) ==
                if d' == d && w == v then ToMapping(frame, attr) else Translate(s, d', w)
      {
        MapPageTranslate(s, base, dirs, clients, d, v, frame, attr, d', w);
      }
    } else {
      if Refines(s, MapPage(s, d, v, frame, attr), dirs, d, v, frame, attr) {
        if e.low == d && v / ENTRIES == i {
          OwnEntry(s, base, dirs, clients, d, v, frame, attr, i);
          NoTable(s, base, dirs, clients, d);
        } else {
          RefinesThenInvisible(s, base, dirs, clients, d, v, frame, attr, e.low, i);
        }
      }
      if Translate(s, d, v) == ToMapping(frame, attr) && Invisible(s, dirs, e.low, i, frame, attr) {
        InvisibleThenRefines(s, base, dirs, clients, d, v, frame, attr, e.low, i);
      }
    }
  }

  lemma NoTable(s: Mmu, base: nat, dirs: set<nat>, clients: set<nat>, f: nat)
    requires Valid(s, base, dirs, clients) && f in dirs
    ensures forall d, j :: d in dirs && TableAt(s, d, j) ==> TableOf(s, d, j) != f
  {
  }

  // ----- failing inputs

  /**
   One domain in frame 1024, and the frames up to 2047 handed out. A page of region 1 is mapped, which puts a table into
   frame 2048, and region 0 is mapped to physical region 2, whose number the entry holds as 2048. Mapping page 3 as it
   is mapped already then maps page 1027 too.
   */
  lemma OtherPageMapped(s0: Mmu, s1: Mmu, s2: Mmu, s3: Mmu, dirs: set<nat>, clients: set<nat>, d: nat)
    requires d == 1024 && s0 == Mmu(map[d := ZeroPage()], 2048) && dirs == {d}
    requires forall f :: f in clients <==> 1025 <= f < 2048
    requires s1 == MapPage(s0, d, 1024, 5, 7) && s2 == MapRegion(s1, d, 0, 2, 7) && s3 == MapPage(s2, d, 3, 2051, 7)
    ensures Valid(s2, d, dirs, clients) && Translate(s2, d, 3) == ToMapping(2051, 7) == Translate(s3, d, 3)
    ensures Translate(s2, d, 1027) == None && Translate(s3, d, 1027) == ToMapping(2051, 7)
    ensures !Refines(s2, s3, dirs, d, 3, 2051, 7)
  {
    MapPageValid(s0, d, dirs, clients, d, 1024, 5, 7);
    MapPageTranslate(s0, d, dirs, clients, d, 1024, 5, 7, d, 1027);
    MapRegionValid(s1, d, dirs, clients, d, 0, 2, 7);
    MapRegionTranslate(s1, d, dirs, clients, d, 0, 2, 7, d, 1027);
    MapRegionTranslate(s1, d, dirs, clients, d, 0, 2, 7, d, 3);
    MapPageOverHuge(s2, d, dirs, clients, d, 3, 2051, 7, d, 1027, 2048, 3);
    MapPageOverHuge(s2, d, dirs, clients, d, 3, 2051, 7, d, 3, 2048, 3);
  }

  /**
   The same where the frame with the region's number is the directory itself: mapping page 3 as it is mapped already
   maps all of region 3.
   */
  lemma OtherRegionMapped(s0: Mmu, s1: Mmu, s2: Mmu, dirs: set<nat>, d: nat, k: nat)
    requires d == 1024 && s0 == Mmu(map[d := ZeroPage()], 1025) && dirs == {d} && k < ENTRIES
    requires s1 == MapRegion(s0, d, 0, 1, 7) && s2 == MapPage(s1, d, 3, 1027, 7)
    ensures Valid(s1, d, dirs, {}) && Translate(s1, d, 3) == ToMapping(1027, 7)
    ensures 3 * ENTRIES + k < PAGES && Translate(s1, d, 3 * ENTRIES + k) == None
    ensures Translate(s2, d, 3 * ENTRIES + k) == ToMapping(1024 + k, 7) && !Refines(s1, s2, dirs, d, 3, 1027, 7)
  {
    var w := 3 * ENTRIES + k;
    PageOf(3, k, w);
    MapRegionValid(s0, d, dirs, {}, d, 0, 1, 7);
    MapRegionTranslate(s0, d, dirs, {}, d, 0, 1, 7, d, w);
    MapRegionTranslate(s0, d, dirs, {}, d, 0, 1, 7, d, 3);
    MapPageOverHuge(s1, d, dirs, {}, d, 3, 1027, 7, d, w, d, 3);
  }
}
