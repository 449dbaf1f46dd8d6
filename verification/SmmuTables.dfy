/** The two-level page tables of the SMMU as values: what they translate, and what one store does to them. */
module SmmuTables {
  import opened Bits
  import opened Wrappers

  const ENTRIES := 1024
  const PAGES := 0x10_0000
  const ATTR_ALL := 7

  /**
   A directory or table entry. `low` is the 22-bit frame field; a 4 MB directory entry uses its upper
   12 bits as the region number. `next` is the type bit of a directory entry, `attr` the three permissions.
   */
  datatype Entry = Entry(low: nat, next: nat, attr: nat)

  type Page = p: seq<Entry> | |p| == ENTRIES witness seq(ENTRIES, _ => Entry(0, 0, 0))

  /** Page frames by number, and the bump pointer of the table heap. */
  datatype Mmu = Mmu(mem: map<nat, Page>, bump: nat)

  function ZeroPage(): Page { seq(ENTRIES, _ => Entry(0, 0, 0)) }

  datatype Mapping = Mapping(frame: nat, attr: nat)

  predicate IsTable(e: Entry) { e.attr != 0 && e.next == 1 }

  predicate IsHuge(e: Entry) { e.attr != 0 && e.next != 1 }

  function Entries(s: Mmu, f: nat): Page { if f in s.mem then s.mem[f] else ZeroPage() }

  /** What the hardware makes of virtual page v in the address space of directory d. */
  function Translate(s: Mmu, d: nat, v: nat): Option<Mapping>
    requires v < PAGES
  {
    var e := Entries(s, d)[v / ENTRIES];
    if IsTable(e) then
      var t := Entries(s, e.low)[v % ENTRIES];
      if t.attr == 0 then None else Some(Mapping(t.low, t.attr))
    else if IsHuge(e) then Some(Mapping(e.low / ENTRIES * ENTRIES + v % ENTRIES, e.attr))
    else None
  }

  predicate TableAt(s: Mmu, d: nat, i: nat) { i < ENTRIES && IsTable(Entries(s, d)[i]) }

  function TableOf(s: Mmu, d: nat, i: nat): nat
    requires i < ENTRIES
  {
    Entries(s, d)[i].low
  }

  /** A frame of the table heap that is neither a directory nor a client's page. */
  predicate ForTables(s: Mmu, base: nat, dirs: set<nat>, clients: set<nat>, t: nat) {
    base <= t < s.bump && t !in dirs && t !in clients
  }

  /** Directories, tables in use, and pages handed out to clients never share a frame. */
  ghost predicate Valid(s: Mmu, base: nat, dirs: set<nat>, clients: set<nat>) {
    && base <= s.bump <= PAGES
    && (forall d :: d in dirs ==> base <= d < s.bump && d !in clients)
    && (forall f :: f in clients ==> base <= f < s.bump)
    && (forall d, i :: d in dirs && TableAt(s, d, i) ==> ForTables(s, base, dirs, clients, TableOf(s, d, i)))
    && (forall d, i, d', i' ::
          && d in dirs && d' in dirs && TableAt(s, d, i) && TableAt(s, d', i')
          && TableOf(s, d, i) == TableOf(s, d', i')
          ==> d == d' && i == i')
  }

  // ----- the stores of the driver

  function SetEntry(s: Mmu, f: nat, i: nat, e: Entry): Mmu
    requires i < ENTRIES
  {
    s.(mem := s.mem[f := Entries(s, f)[i := e]])
  }

  /** A table without permissions, whose entries hold their own page numbers. */
  function FreshTable(pdn: nat): Page {
    seq(ENTRIES, i requires 0 <= i < ENTRIES => Entry(pdn * ENTRIES + i, 0, 0))
  }

  /** The table for directory entry pdn, allocated if that entry has no permissions. */
  function EnsureTable(s: Mmu, d: nat, pdn: nat): Mmu
    requires pdn < ENTRIES
  {
    if Entries(s, d)[pdn].attr != 0 then s
    else SetEntry(Mmu(s.mem[s.bump := FreshTable(pdn)], s.bump + 1), d, pdn, Entry(s.bump, 1, ATTR_ALL))
  }

  function MapPage(s: Mmu, d: nat, v: nat, frame: nat, attr: nat): Mmu
    requires v < PAGES
  {
    var s1 := EnsureTable(s, d, v / ENTRIES);
    var t := Entries(s1, d)[v / ENTRIES].low;
    SetEntry(s1, t, v % ENTRIES, Entry(frame, Entries(s1, t)[v % ENTRIES].next, attr))
  }

  function MapRegion(s: Mmu, d: nat, pdn: nat, region: nat, attr: nat): Mmu
    requires pdn < ENTRIES
  {
    SetEntry(s, d, pdn, Entry(region * ENTRIES + Entries(s, d)[pdn].low % ENTRIES, 0, attr))
  }

  function ToMapping(frame: nat, attr: nat): Option<Mapping> {
    if attr == 0 then None else Some(Mapping(frame, attr))
  }

  // ----- what the pages hold after a store

  lemma EntriesSet(s: Mmu, f: nat, i: nat, e: Entry, g: nat)
    requires i < ENTRIES
    ensures Entries(SetEntry(s, f, i, e), g) == if g == f then Entries(s, f)[i := e] else Entries(s, g)
  {
  }

  lemma EnsureEntries(s: Mmu, d: nat, pdn: nat, f: nat)
    requires pdn < ENTRIES && Entries(s, d)[pdn].attr == 0 && d < s.bump
    ensures Entries(EnsureTable(s, d, pdn), f) ==
            if f == d then Entries(s, d)[pdn := Entry(s.bump, 1, ATTR_ALL)]
            else if f == s.bump then FreshTable(pdn) else Entries(s, f)
  {
    var s1 := Mmu(s.mem[s.bump := FreshTable(pdn)], s.bump + 1);
    assert Entries(s1, f) == if f == s.bump then FreshTable(pdn) else Entries(s, f);
    EntriesSet(s1, d, pdn, Entry(s.bump, 1, ATTR_ALL), f);
  }

  /**
   A table made on demand: the directory entry points to it and allows everything, and page k of it holds its own number
   without permissions.
   */
  lemma TableMade(s: Mmu, d: nat, pdn: nat, k: nat)
    requires pdn < ENTRIES && k < ENTRIES && Entries(s, d)[pdn].attr == 0 && d < s.bump
    ensures var e := Entries(EnsureTable(s, d, pdn), d)[pdn];
            && e.low == s.bump && e.next == 1 && e.attr == 7
            && Entries(EnsureTable(s, d, pdn), e.low)[k] == Entry(1024 * pdn + k, 0, 0)
  {
    EnsureEntries(s, d, pdn, d);
    EnsureEntries(s, d, pdn, s.bump);
  }

  /** A store to a frame that is no directory, or of a directory entry that is no table, keeps frames apart. */
  lemma SetValid(s: Mmu, base: nat, dirs: set<nat>, clients: set<nat>, f: nat, i: nat, e: Entry)
    requires Valid(s, base, dirs, clients) && i < ENTRIES && (f in dirs ==> !IsTable(e))
    ensures Valid(SetEntry(s, f, i, e), base, dirs, clients)
  {
    var s' := SetEntry(s, f, i, e);
    forall d, j | d in dirs && TableAt(s', d, j)
      ensures TableAt(s, d, j) && TableOf(s', d, j) == TableOf(s, d, j)
    {
      EntriesSet(s, f, i, e, d);
    }
  }

  // ----- a fresh table changes no translation

  lemma EnsureTables(s: Mmu, base: nat, dirs: set<nat>, clients: set<nat>, d: nat, pdn: nat, d': nat, i: nat)
    requires Valid(s, base, dirs, clients) && d in dirs && d' in dirs && pdn < ENTRIES && Entries(s, d)[pdn].attr == 0
    requires TableAt(EnsureTable(s, d, pdn), d', i)
    ensures if d' == d && i == pdn then TableOf(EnsureTable(s, d, pdn), d', i) == s.bump
            else TableAt(s, d', i) && TableOf(EnsureTable(s, d, pdn), d', i) == TableOf(s, d', i)
  {
    EnsureEntries(s, d, pdn, d');
  }

  lemma EnsureValid(s: Mmu, base: nat, dirs: set<nat>, clients: set<nat>, d: nat, pdn: nat)
    requires Valid(s, base, dirs, clients) && d in dirs && pdn < ENTRIES
    requires Entries(s, d)[pdn].attr == 0 ==> s.bump < PAGES
    ensures Valid(EnsureTable(s, d, pdn), base, dirs, clients)
    ensures !IsHuge(Entries(s, d)[pdn]) ==> TableAt(EnsureTable(s, d, pdn), d, pdn)
  {
    if Entries(s, d)[pdn].attr == 0 {
      var s' := EnsureTable(s, d, pdn);
      EnsureEntries(s, d, pdn, d);
      forall d', i | d' in dirs && TableAt(s', d', i)
        ensures ForTables(s', base, dirs, clients, TableOf(s', d', i))
      {
        EnsureTables(s, base, dirs, clients, d, pdn, d', i);
      }
      forall d', i, d'', i' |
          d' in dirs && d'' in dirs && TableAt(s', d', i) && TableAt(s', d'', i')
          && TableOf(s', d', i) == TableOf(s', d'', i')
        ensures d' == d'' && i == i'
      {
        EnsureTables(s, base, dirs, clients, d, pdn, d', i);
        EnsureTables(s, base, dirs, clients, d, pdn, d'', i');
      }
    }
  }

  lemma EnsureTranslate(s: Mmu, base: nat, dirs: set<nat>, clients: set<nat>, d: nat, pdn: nat, d': nat, v: nat)
    requires Valid(s, base, dirs, clients) && d in dirs && d' in dirs && pdn < ENTRIES && v < PAGES
    ensures Translate(EnsureTable(s, d, pdn), d', v) == Translate(s, d', v)
  {
    if Entries(s, d)[pdn].attr == 0 {
      EnsureEntries(s, d, pdn, d');
      if TableAt(s, d', v / ENTRIES) {
        EnsureEntries(s, d, pdn, TableOf(s, d', v / ENTRIES));
      }
      EnsureEntries(s, d, pdn, s.bump);
    }
  }

  // ----- one mapped page changes one translation

  lemma MapPageValid(s: Mmu, base: nat, dirs: set<nat>, clients: set<nat>, d: nat, v: nat, frame: nat, attr: nat)
    requires Valid(s, base, dirs, clients) && d in dirs && v < PAGES && !IsHuge(Entries(s, d)[v / ENTRIES])
    requires Entries(s, d)[v / ENTRIES].attr == 0 ==> s.bump < PAGES
    ensures Valid(MapPage(s, d, v, frame, attr), base, dirs, clients)
  {
    EnsureValid(s, base, dirs, clients, d, v / ENTRIES);
    var s1 := EnsureTable(s, d, v / ENTRIES);
    var t := TableOf(s1, d, v / ENTRIES);
    SetValid(s1, base, dirs, clients, t, v % ENTRIES, Entry(frame, Entries(s1, t)[v % ENTRIES].next, attr));
  }

  lemma SamePage(v: nat, w: nat)
    ensures v / ENTRIES == w / ENTRIES && v % ENTRIES == w % ENTRIES <==> v == w
  {
  }

  /** A store to a table in use changes exactly the translation of the page that it belongs to. */
  lemma SetTableTranslate(s: Mmu, base: nat, dirs: set<nat>, clients: set<nat>, d: nat, v: nat, e: Entry, d': nat,
                          w: nat)
    requires Valid(s, base, dirs, clients) && d in dirs && d' in dirs && v < PAGES && w < PAGES
    requires TableAt(s, d, v / ENTRIES)
    ensures Translate(SetEntry(s, TableOf(s, d, v / ENTRIES), v % ENTRIES, e), d', w) ==
            if d' == d && w == v then ToMapping(e.low, e.attr) else Translate(s, d', w)
  {
    var t := TableOf(s, d, v / ENTRIES);
    EntriesSet(s, t, v % ENTRIES, e, d');
    assert ForTables(s, base, dirs, clients, t);
    SamePage(v, w);
    if TableAt(s, d', w / ENTRIES) {
      EntriesSet(s, t, v % ENTRIES, e, TableOf(s, d', w / ENTRIES));
    }
  }

  lemma MapPageTranslate(s: Mmu, base: nat, dirs: set<nat>, clients: set<nat>, d: nat, v: nat, frame: nat, attr: nat,
                         d': nat, w: nat)
    requires Valid(s, base, dirs, clients) && d in dirs && d' in dirs && v < PAGES && w < PAGES
    requires !IsHuge(Entries(s, d)[v / ENTRIES]) && (Entries(s, d)[v / ENTRIES].attr == 0 ==> s.bump < PAGES)
    ensures Translate(MapPage(s, d, v, frame, attr), d', w) ==
            if d' == d && w == v then ToMapping(frame, attr) else Translate(s, d', w)
  {
    EnsureValid(s, base, dirs, clients, d, v / ENTRIES);
    EnsureTranslate(s, base, dirs, clients, d, v / ENTRIES, d', w);
    var s1 := EnsureTable(s, d, v / ENTRIES);
    var t := TableOf(s1, d, v / ENTRIES);
    SetTableTranslate(s1, base, dirs, clients, d, v, Entry(frame, Entries(s1, t)[v % ENTRIES].next, attr), d', w);
  }

  // ----- one mapped region changes the translations of that region

  lemma MapRegionValid(s: Mmu, base: nat, dirs: set<nat>, clients: set<nat>, d: nat, pdn: nat, region: nat, attr: nat)
    requires Valid(s, base, dirs, clients) && d in dirs && pdn < ENTRIES
    ensures Valid(MapRegion(s, d, pdn, region, attr), base, dirs, clients)
  {
    SetValid(s, base, dirs, clients, d, pdn, Entry(region * ENTRIES + Entries(s, d)[pdn].low % ENTRIES, 0, attr));
  }

  lemma MapRegionTranslate(s: Mmu, base: nat, dirs: set<nat>, clients: set<nat>, d: nat, pdn: nat, region: nat,
                           attr: nat, d': nat, w: nat)
    requires Valid(s, base, dirs, clients) && d in dirs && d' in dirs && pdn < ENTRIES && w < PAGES
    ensures Translate(MapRegion(s, d, pdn, region, attr), d', w) ==
            if d' == d && w / ENTRIES == pdn then ToMapping(region * ENTRIES + w % ENTRIES, attr)
            else Translate(s, d', w)
  {
    var e := Entry(region * ENTRIES + Entries(s, d)[pdn].low % ENTRIES, 0, attr);
    EntriesSet(s, d, pdn, e, d');
    if TableAt(s, d', w / ENTRIES) {
      assert ForTables(s, base, dirs, clients, TableOf(s, d', w / ENTRIES));
      EntriesSet(s, d, pdn, e, TableOf(s, d', w / ENTRIES));
    }
  }

  // ----- pages handed out behind the bump pointer

  /** Only frames at or above the old bump pointer have changed. */
  ghost predicate Grown(s: Mmu, s': Mmu) {
    s.bump <= s'.bump && forall f: nat :: f < s.bump ==> Entries(s', f) == Entries(s, f)
  }

  lemma GrownValid(s: Mmu, s': Mmu, base: nat, dirs: set<nat>, clients: set<nat>, more: set<nat>)
    requires Valid(s, base, dirs, clients) && Grown(s, s') && s'.bump <= PAGES
    requires forall f :: f in more ==> s.bump <= f < s'.bump
    ensures Valid(s', base, dirs, clients + more)
  {
    forall d, i | d in dirs && TableAt(s', d, i)
      ensures TableAt(s, d, i) && TableOf(s', d, i) == TableOf(s, d, i)
    {
    }
  }

  lemma GrownTranslate(s: Mmu, s': Mmu, base: nat, dirs: set<nat>, clients: set<nat>, d: nat, v: nat)
    requires Valid(s, base, dirs, clients) && Grown(s, s') && d in dirs && v < PAGES
    ensures Translate(s', d, v) == Translate(s, d, v)
  {
    if TableAt(s, d, v / ENTRIES) {
      assert ForTables(s, base, dirs, clients, TableOf(s, d, v / ENTRIES));
    }
  }

  /** A new directory without permissions is a domain in which nothing is mapped. */
  lemma NewDomain(s: Mmu, base: nat, dirs: set<nat>, clients: set<nat>, d: nat)
    requires Valid(s, base, dirs, clients) && d in clients
    requires forall i :: 0 <= i < ENTRIES ==> Entries(s, d)[i].attr == 0
    ensures Valid(s, base, dirs + {d}, clients - {d})
    ensures forall v: nat :: v < PAGES ==> Translate(s, d, v) == None
  {
    forall d', i | d' in dirs + {d} && TableAt(s, d', i)
      ensures d' in dirs && ForTables(s, base, dirs, clients, TableOf(s, d', i)) && TableOf(s, d', i) != d
    {
    }
  }
}
