/** What the three walkers of the patch chain make of the same fuses. */
module FuseProperties {
  import opened Bits
  import opened SecdedCode
  import opened FuseChain

  // ----- fuse_check_patched_rcm walks the raw words of a T210 chip

  function RawWord(c: Chip, k: nat): u32
    requires !c.b01 && k < ARRAY_WORDS
  {
    c.fuses[ARRAY_WORDS - 1 - k]
  }

  /** The raw chain stays inside the fuse array, so the unbounded loop of the driver ends. */
  predicate InArray(c: Chip, pos: nat, count: nat)
    requires !c.b01
    decreases ARRAY_WORDS - pos
  {
    count == 0 ||
    (pos + count < ARRAY_WORDS && pos + PatchCount(RawWord(c, pos)) < ARRAY_WORDS &&
     InArray(c, pos + count, LinkField(RawWord(c, pos))))
  }

  const RCM_OFFSET := 0x769A

  predicate Hits(calls: seq<Call>) {
    exists i :: 0 <= i < |calls| && calls[i].offset == RCM_OFFSET
  }

  /** The patch words behind the header at word number pos, uncorrected. */
  function RawWords(c: Chip, pos: nat, n: nat): (r: seq<u32>)
    requires !c.b01 && pos + n < ARRAY_WORDS
    ensures |r| == n
  {
    seq(n, i requires 0 <= i < n => c.fuses[ARRAY_WORDS - 1 - (pos + 1 + i)])
  }

  lemma RawWordAt(c: Chip, pos: nat, n: nat, i: nat, addr: nat)
    requires !c.b01 && pos + n < ARRAY_WORDS && i < n && addr == ARRAY_WORDS - 1 - (pos + 1 + i)
    ensures RawWords(c, pos, n)[i] == c.fuses[addr]
  {
    assert RawWords(c, pos, n)[i] == RawWord(c, pos + 1 + i);
  }

  /** All patch words of the raw chain. */
  function RawChain(c: Chip, pos: nat, count: nat): seq<u32>
    requires !c.b01 && InArray(c, pos, count)
    decreases ARRAY_WORDS - pos
  {
    if count == 0 then []
    else
      var w := RawWord(c, pos);
      RawWords(c, pos, PatchCount(w)) + RawChain(c, pos + count, LinkField(w))
  }

  lemma HitsAppend(a: seq<Call>, b: seq<Call>)
    ensures Hits(a + b) <==> Hits(a) || Hits(b)
  {
    if Hits(a) {
      var i :| 0 <= i < |a| && a[i].offset == RCM_OFFSET;
      assert (a + b)[i] == a[i];
    }
    if Hits(b) {
      var i :| 0 <= i < |b| && b[i].offset == RCM_OFFSET;
      assert (a + b)[|a| + i] == b[i];
    }
  }

  lemma HitsEither(ws: seq<u32>, vs: seq<u32>)
    ensures Hits(CallsOf(ws + vs)) <==> Hits(CallsOf(ws)) || Hits(CallsOf(vs))
  {
    assert CallsOf(ws + vs) == CallsOf(ws) + CallsOf(vs);
    HitsAppend(CallsOf(ws), CallsOf(vs));
  }

  /** A call for the entry of the recovery mode, by the word behind it. */
  lemma HitsMean(ws: seq<u32>)
    ensures Hits(CallsOf(ws)) <==> exists i :: 0 <= i < |ws| && ws[i] / 0x1_0000 == 0x3b4d
  {
    forall i | 0 <= i < |ws|
      ensures CallsOf(ws)[i].offset == RCM_OFFSET <==> ws[i] / 0x1_0000 == 0x3b4d
    {
      assert CallsOf(ws)[i] == PatchOf(ws[i]);
    }
    if Hits(CallsOf(ws)) {
      var i :| 0 <= i < |CallsOf(ws)| && CallsOf(ws)[i].offset == RCM_OFFSET;
      assert ws[i] / 0x1_0000 == 0x3b4d;
    }
    if exists i :: 0 <= i < |ws| && ws[i] / 0x1_0000 == 0x3b4d {
      var i :| 0 <= i < |ws| && ws[i] / 0x1_0000 == 0x3b4d;
      assert CallsOf(ws)[i].offset == RCM_OFFSET;
    }
  }

  /** The inner loop: does one of the patch words of this record ask for the entry? */
  method RecordHits(c: Chip, wordAddr: nat, patchCount: nat, ghost pos: nat) returns (hits: bool)
    requires !c.b01 && pos + patchCount < ARRAY_WORDS && wordAddr == ARRAY_WORDS - 1 - pos
    ensures hits == Hits(CallsOf(RawWords(c, pos, patchCount)))
  {
    ghost var ws := RawWords(c, pos, patchCount);
    for i := 0 to patchCount
      invariant forall j :: 0 <= j < i ==> CallsOf(ws)[j].offset != RCM_OFFSET
    {
      var word := c.fuses[wordAddr - (i + 1)];
      RawWordAt(c, pos, patchCount, i, wordAddr - (i + 1));
      if Shr(word, 16) * 2 == RCM_OFFSET {
        assert CallsOf(ws)[i] == PatchOf(word);
        return true;
      }
    }
    hits := false;
  }

  method CheckPatchedRcm(c: Chip, reservedSw: u32) returns (patched: bool)
    requires !c.b01 ==> InArray(c, 0, FirstCount(c))
    ensures patched <==>
            || Bit(reservedSw, 7) || c.b01
            || (var ws := RawChain(c, 0, FirstCount(c)); exists i :: 0 <= i < |ws| && ws[i] / 0x1_0000 == 0x3b4d)
  {
    if Bit(reservedSw, 7) || c.b01 {
      return true;
    }
    ghost var all := RawChain(c, 0, FirstCount(c));
    HitsMean(all);
    var wordCount, wordAddr := Low(c.firstSize, 7), ARRAY_WORDS - 1;
    ghost var pos := 0;
    while wordCount != 0
      invariant 0 <= wordAddr && pos == ARRAY_WORDS - 1 - wordAddr
      invariant InArray(c, pos, wordCount)
      invariant Hits(CallsOf(all)) == Hits(CallsOf(RawChain(c, pos, wordCount)))
      decreases wordAddr
    {
      var word0 := c.fuses[wordAddr];
      var patchCount := PatchCount(word0);
      assert word0 == RawWord(c, pos);
      var hits := RecordHits(c, wordAddr, patchCount, pos);
      ghost var ws, rest := RawWords(c, pos, patchCount), RawChain(c, pos + wordCount, LinkField(word0));
      HitsEither(ws, rest);
      if hits {
        return true;
      }
      wordAddr := wordAddr - wordCount;
      pos := pos + wordCount;
      wordCount := LinkField(word0);
    }
    patched := false;
  }

  /** The chain ends by itself within the words that the other walkers are willing to read. */
  predicate Ends(c: Chip, pos: nat, count: nat)
    decreases MAX_WORDS - pos
  {
    count == 0 || (pos + count < MAX_WORDS && Ends(c, pos + count, LinkField(Record(c, pos, count)[0])))
  }

  lemma RawRecordAt(c: Chip, pos: nat, count: nat, i: nat, k: nat)
    requires !c.b01 && i < count && pos + count < MAX_WORDS && k == pos + i
    ensures Record(c, pos, count)[i] == RawWord(c, k)
  {
    assert Record(c, pos, count)[i] == c.fuses[Addr(c.b01, pos + i)];
  }

  lemma RawRecord(c: Chip, pos: nat, count: nat, buf: Buffer)
    requires !c.b01 && 0 < count && pos + count < MAX_WORDS && CleanWords(Record(c, pos, count))
    ensures RawWord(c, pos) == Record(c, pos, count)[0] && PatchCount(RawWord(c, pos)) < count
    ensures RawWords(c, pos, PatchCount(RawWord(c, pos))) == PatchWords(VisitOf(Record(c, pos, count), buf))
  {
    var r := Record(c, pos, count);
    var v := VisitOf(r, buf);
    CleanStep(r, buf);
    RawRecordAt(c, pos, count, 0, pos);
    var n := PatchCount(r[0]);
    forall i | 0 <= i < n
      ensures RawWords(c, pos, n)[i] == PatchWords(v)[i]
    {
      RawRecordAt(c, pos, count, 1 + i, pos + 1 + i);
      assert v.words[1..1 + n][i] == v.words[1..v.count][i] == r[1..][i] == r[1 + i];
    }
  }

  lemma {:induction false} RawWalkAgrees(c: Chip, pos: nat, count: nat, buf: Buffer)
    requires !c.b01 && Clean(c, pos, count) && Ends(c, pos, count)
    ensures InArray(c, pos, count)
    ensures RawChain(c, pos, count) == AllPatchWords(Walk(c, pos, count, buf).visits)
    decreases MAX_WORDS - pos
  {
    if count != 0 {
      var r := Record(c, pos, count);
      var v, pos', link := VisitOf(r, buf), pos + count, LinkField(r[0]);
      RawRecord(c, pos, count, buf);
      CleanWalk(c, pos, count, buf);
      RawWalkAgrees(c, pos', link, v.words[0 := r[0]]);
      WordsCons(v, Walk(c, pos', link, v.words[0 := r[0]]).visits);
    }
  }

  lemma WordsCons(v: Visit, vs: seq<Visit>)
    ensures AllPatchWords([v] + vs) == PatchWords(v) + AllPatchWords(vs)
  {
    assert ([v] + vs)[1..] == vs;
  }

  /**
   On every clean T210 chain that ends within the 80-word limit, with the reserved-software bit clear, the check says
   yes exactly when fuse_read_ipatch makes a call for offset 0x769a.
   */
  lemma PatchedRcmAgrees(c: Chip, buf: Buffer)
    requires !c.b01 && Clean(c, 0, FirstCount(c)) && Ends(c, 0, FirstCount(c))
    ensures InArray(c, 0, FirstCount(c))
    ensures var ws, calls := RawChain(c, 0, FirstCount(c)), AllPatches(Visits(c, buf));
            (exists i :: 0 <= i < |ws| && ws[i] / 0x1_0000 == 0x3b4d) <==>
            (exists i :: 0 <= i < |calls| && calls[i].offset == 0x769a)
  {
    RawWalkAgrees(c, 0, FirstCount(c), buf);
    var ws, calls := RawChain(c, 0, FirstCount(c)), AllPatches(Visits(c, buf));
    CallsMean(Visits(c, buf));
    assert |ws| == |calls| && forall i :: 0 <= i < |ws| ==> calls[i].offset == ws[i] / 0x1_0000 * 2;
    if i :| 0 <= i < |ws| && ws[i] / 0x1_0000 == 0x3b4d {
      assert calls[i].offset == 0x769a;
    }
    if i :| 0 <= i < |calls| && calls[i].offset == 0x769a {
      assert ws[i] / 0x1_0000 == 0x3b4d;
    }
  }

  // ----- patches and instructions divide up the words behind the headers

  /** The words that the two readers take from the visits, in order. */
  function Delivered(vs: seq<Visit>): seq<u32>
    requires forall v <- vs :: Fits(v)
  {
    if vs == [] then [] else PatchWords(vs[0]) + Insns(vs[0]) + Delivered(vs[1..])
  }

  /** All words of the chain but the first of each record. */
  function NonHeaders(c: Chip, pos: nat, count: nat): seq<u32>
    decreases MAX_WORDS - pos
  {
    if count == 0 || pos + count >= MAX_WORDS then []
    else
      var r := Record(c, pos, count);
      r[1..] + NonHeaders(c, pos + count, LinkField(r[0]))
  }

  lemma OneRecordDelivered(r: seq<u32>, buf: Buffer)
    requires CleanWords(r)
    ensures var v := VisitOf(r, buf);
            Fits(v) && PatchWords(v) + Insns(v) == r[1..] && Patches(v) == CallsOf(PatchWords(v))
  {
    var v := VisitOf(r, buf);
    CleanStep(r, buf);
    var n := PatchCount(v.words[0]);
    assert v.words[1..v.count][..n] == PatchWords(v) && v.words[1..v.count][n..] == Insns(v);
  }

  /**
   On a clean chain every word that is not the first of its record is delivered exactly once and in order,
   either as a patch or as an instruction.
   */
  lemma {:induction false} EachWordOnce(c: Chip, pos: nat, count: nat, buf: Buffer)
    requires Clean(c, pos, count)
    ensures forall v <- Walk(c, pos, count, buf).visits :: Fits(v) && Patches(v) == CallsOf(PatchWords(v))
    ensures Delivered(Walk(c, pos, count, buf).visits) == NonHeaders(c, pos, count)
    decreases MAX_WORDS - pos
  {
    if count != 0 && pos + count < MAX_WORDS {
      var r := Record(c, pos, count);
      var v, pos', link := VisitOf(r, buf), pos + count, LinkField(r[0]);
      OneRecordDelivered(r, buf);
      CleanWalk(c, pos, count, buf);
      EachWordOnce(c, pos', link, v.words[0 := r[0]]);
      DeliveredCons(v, Walk(c, pos', link, v.words[0 := r[0]]).visits);
    }
  }

  lemma DeliveredCons(v: Visit, vs: seq<Visit>)
    requires Fits(v) && forall x <- vs :: Fits(x)
    ensures (forall x <- [v] + vs :: Fits(x)) && Delivered([v] + vs) == PatchWords(v) + Insns(v) + Delivered(vs)
  {
    assert ([v] + vs)[1..] == vs;
  }

  // ----- a single inverted bit that loses a patch

  lemma {:induction false} SumOfZeros(column: nat -> nat, n: nat, m: nat)
    requires m <= 32 * n
    ensures Sum(column, seq(n, _ => 0), m) == 0
  {
    if m != 0 {
      SumOfZeros(column, n, m - 1);
      BitOfZero((m - 1) % 32);
      XorZero(0);
    }
  }

  /** Setting a bit above all others of the first word adds its column. */
  lemma AddBit(column: nat -> nat, a: u32, rest: seq<u32>, n: nat, p: nat, b: u32)
    requires n == 32 + 32 * |rest| && p < 32 && a < Pow2(p) && b == a + Pow2(p)
    ensures Sum(column, [b] + rest, n) == Xor(Sum(column, [a] + rest, n), column(p))
  {
    SumFlip(column, [a] + rest, p, n);
    SetBit(a, rest, p, b);
  }

  /** The columns of a first word with four bits set. */
  lemma FourBits(column: nat -> nat, rest: seq<u32>, n: nat, p: nat, q: nat, r: nat, s: nat, a: u32, b: u32, c: u32,
                 d: u32)
    requires n == 32 + 32 * |rest| && p < 32 && q < 32 && r < 32 && s < 32
    requires 0 < a == Pow2(p) < Pow2(q) && b == a + Pow2(q) < Pow2(r) && c == b + Pow2(r) < Pow2(s) && d == c + Pow2(s)
    requires Sum(column, [0] + rest, n) == 0
    ensures Sum(column, [d] + rest, n) == Xor(Xor(Xor(Xor(0, column(p)), column(q)), column(r)), column(s))
  {
    AddBit(column, 0, rest, n, p, a);
    AddBit(column, a, rest, n, q, b);
    AddBit(column, b, rest, n, r, c);
    AddBit(column, c, rest, n, s, d);
  }

  lemma SetBit(a: u32, rest: seq<u32>, p: nat, b: u32)
    requires p < 32 && a < Pow2(p) && b == a + Pow2(p)
    ensures Flip([a] + rest, p) == [b] + rest
  {
    Join(a, 1, p);
    FlipFirst([a] + rest, p, 0, b);
    assert ([a] + rest)[0 := b] == [b] + rest;
  }

  /** A bit of the first word. Its index is a parameter that matches the division in the definition of a flip. */
  lemma FlipFirst(ws: seq<u32>, p: nat, i: nat, w: u32)
    requires |ws| > 0 && p < 32 && i == 0 && w == Xor(ws[i], Pow2(p))
    ensures Flip(ws, p) == ws[i := w]
  {
    assert p / 32 == i && p % 32 == p;
  }

  const HEADER: u32 := 0x0550_0000
  const DAMAGED: u32 := 0x0150_0000
  const PATCH_HEADER: u32 := 0x0001_c010

  /** A header that links to a record of two words, and that record: one patch word, which is zero. */
  function ExampleChip(header: u32): Chip {
    Chip(seq(ARRAY_WORDS, i => if i == 191 then header else if i == 190 then PATCH_HEADER else 0), 1, false)
  }

  lemma HeaderSum(column: nat -> nat)
    ensures Sum(column, [HEADER], 32) == Xor(Xor(Xor(Xor(0, column(20)), column(22)), column(24)), column(26))
  {
    SumOfZeros(column, 1, 32);
    assert seq(1, _ => 0) == [0];
    assert [0] + [] == [0] && [HEADER] + [] == [HEADER];
    Pow2Values();
    FourBits(column, [], 32, 20, 22, 24, 26, 0x10_0000, 0x50_0000, 0x150_0000, HEADER);
  }

  lemma PatchHeaderSum(column: nat -> nat, rest: seq<u32>, n: nat)
    requires (rest == [] || rest == [0]) && n == 32 + 32 * |rest|
    ensures Sum(column, [PATCH_HEADER] + rest, n) ==
            Xor(Xor(Xor(Xor(0, column(4)), column(14)), column(15)), column(16))
  {
    SumOfZeros(column, 1 + |rest|, n);
    assert seq(1 + |rest|, _ => 0) == [0] + rest;
    Pow2Values();
    FourBits(column, rest, n, 4, 14, 15, 16, 0x10, 0x4010, 0xc010, PATCH_HEADER);
  }

  lemma FourTerms(a: nat, b: nat, c: nat, d: nat)
    requires Xor(a, b) == Xor(c, d)
    ensures Xor(Xor(Xor(Xor(0, a), b), c), d) == 0
  {
    XorZero(a);
    XorCancel(c, d);
    XorAssoc(Xor(a, b), c, d);
    XorSelf(Xor(a, b));
  }

  lemma Fields(w: u32, low: nat, high: nat)
    requires low < Pow2(25) && w == low + Shl(high, 25)
    ensures LinkField(w) == high
  {
    Join(low, high, 25);
  }

  lemma Count(w: u32, low: nat, high: nat)
    requires low < Pow2(16) && w == low + Shl(high, 16)
    ensures PatchCount(w) == Low(high, 4)
  {
    Join(low, high, 16);
  }

  lemma HeaderFields(h: u32, damaged: u32, p: u32)
    requires h == HEADER && damaged == DAMAGED && p == PATCH_HEADER
    ensures LinkField(h) == 2 && PatchCount(h) == 0 && LinkField(damaged) == 0
    ensures LinkField(p) == 0 && PatchCount(p) == 1
  {
    Pow2Values();
    ShlTimes(2, 25);
    ShlTimes(0x550, 16);
    ShlTimes(1, 16);
    ZeroParts(25);
    assert Low(0x550, 4) == 0 && Low(1, 4) == 1;
    Fields(h, 0x150_0000, 2);
    Fields(damaged, damaged, 0);
    Fields(p, p, 0);
    Count(h, 0, 0x550);
    Count(p, 0xc010, 1);
  }

  lemma HeaderRecordClean(h: u32)
    requires h == HEADER
    ensures CleanRecord([h])
  {
    HeaderSum(RecordColumn);
    HeaderSum(One);
    FourTerms(0, 0, 0, 0);
    FourTerms(1, 1, 1, 1);
  }

  lemma HeaderLinkClean(h: u32)
    requires h == HEADER
    ensures CleanLink(h)
  {
    HeaderLinkSyndrome(h);
    HeaderSum(LinkOne);
    FourTerms(1, 1, 1, 1);
  }

  lemma HeaderLinkSyndrome(h: u32)
    requires h == HEADER
    ensures LinkSyndrome(h) == 0
  {
    HeaderSum(LinkColumn);
    FourTerms(1, 4, 0, 5);
  }

  lemma PatchRecordClean(ws: seq<u32>)
    requires ws == [PATCH_HEADER, 0]
    ensures CleanRecord(ws)
  {
    assert [PATCH_HEADER] + [0] == ws;
    PatchHeaderSum(RecordColumn, [0], 64);
    PatchHeaderSum(One, [0], 64);
    Pow2Values();
    Join(16, 1, 14);
    XorZero(0x4010);
    FourTerms(16, 0x4000, 0, 0x4010);
    FourTerms(1, 1, 1, 1);
  }

  lemma PatchLinkClean(p: u32)
    requires p == PATCH_HEADER
    ensures CleanLink(p)
  {
    assert [PATCH_HEADER] + [] == [p];
    PatchHeaderSum(LinkColumn, [], 32);
    PatchHeaderSum(LinkOne, [], 32);
    FourTerms(0, 0, 0, 0);
  }

  lemma ExampleRecords(c: Chip, header: u32)
    requires c == ExampleChip(header)
    ensures Record(c, 0, 1) == [header] && Record(c, 1, 2) == [PATCH_HEADER, 0]
  {
    RawRecordAt(c, 0, 1, 0, 0);
    RawRecordAt(c, 1, 2, 0, 1);
    RawRecordAt(c, 1, 2, 1, 2);
  }

  lemma OneBitApart(a: seq<u32>, p: nat)
    requires |a| > 0 && p < 32 * |a|
    ensures Within(1, a, Flip(a, p))
  {
    FlipBit(a, p, p);
    FlipTwice(a, p);
    FlipDistance(Flip(a, p), a, p, 32 * |a|);
    NoDistance(a, 32 * |a|);
    DistanceSymmetric(a, Flip(a, p), 32 * |a|);
  }

  lemma {:induction false} NoDistance(a: seq<u32>, n: nat)
    requires n <= 32 * |a|
    ensures Distance(a, a, n) == 0
  {
    if n != 0 { NoDistance(a, n - 1); }
  }

  lemma {:induction false} DistanceSymmetric(a: seq<u32>, b: seq<u32>, n: nat)
    requires |a| == |b| && n <= 32 * |a|
    ensures Distance(a, b, n) == Distance(b, a, n)
  {
    if n != 0 { DistanceSymmetric(a, b, n - 1); }
  }

  lemma HeaderApart(h: u32, damaged: u32)
    requires h == HEADER && damaged == DAMAGED
    ensures Within(1, [h], [damaged])
  {
    Pow2Values();
    Join(damaged, 1, 26);
    assert Shl(1, 26) == Pow2(26) && Pow2(26) == 0x400_0000;
    XorCancel(damaged, Pow2(26));
    assert Flip([h], 26) == [damaged];
    OneBitApart([h], 26);
  }

  lemma ExampleDisturbed(c: Chip, d: Chip, h: u32, damaged: u32, p: u32)
    requires h == HEADER && damaged == DAMAGED && p == PATCH_HEADER && c == ExampleChip(h) && d == ExampleChip(damaged)
    ensures Disturbed(1, c, d, 0, 1)
  {
    ExampleRecords(c, h);
    ExampleRecords(d, damaged);
    HeaderFields(h, damaged, p);
    HeaderApart(h, damaged);
    NoDistance([p, 0], 64);
    assert Disturbed(1, c, d, 3, 0);
    assert Disturbed(1, c, d, 1, 2);
  }

  lemma ExampleClean(c: Chip, h: u32, p: u32)
    requires h == HEADER && p == PATCH_HEADER && c == ExampleChip(h)
    ensures Clean(c, 0, 1)
  {
    ExampleRecords(c, h);
    HeaderFields(h, DAMAGED, p);
    HeaderRecordClean(h);
    HeaderLinkClean(h);
    PatchRecordClean([p, 0]);
    PatchLinkClean(p);
    assert Clean(c, 3, 0);
    assert Clean(c, 1, 2);
  }

  /** The damaged chip delivers nothing. */
  lemma DamagedWalk(c: Chip, d: Chip, h: u32, damaged: u32, p: u32, buf: Buffer, buf': Buffer)
    requires h == HEADER && damaged == DAMAGED && p == PATCH_HEADER && c == ExampleChip(h) && d == ExampleChip(damaged)
    requires Clean(c, 0, 1) && Disturbed(1, c, d, 0, 1)
    ensures AllPatches(Walk(d, 0, 1, buf').visits) == [] && Cut(c, d, 0, 1)
  {
    ExampleRecords(c, h);
    ExampleRecords(d, damaged);
    HeaderFields(h, damaged, p);
    OneErrorStep([h], [damaged], buf');
    DisturbedVisit([h], [damaged], buf, buf');
    CleanStep([h], buf);
    WalkStep(d, 0, 1, buf', StepOf([damaged], buf'), Trace([], 0));
    var v, w := VisitOf([h], buf), VisitOf([damaged], buf');
    SameDelivery(w, v);
    assert AllPatches([w]) == Patches(w) + [];
  }

  /** The intact one delivers a patch. */
  lemma IntactWalk(c: Chip, h: u32, damaged: u32, p: u32, buf: Buffer)
    requires h == HEADER && damaged == DAMAGED && p == PATCH_HEADER && c == ExampleChip(h) && Clean(c, 0, 1)
    ensures |AllPatches(Walk(c, 0, 1, buf).visits)| == 1
  {
    ExampleRecords(c, h);
    HeaderFields(h, damaged, p);
    CleanStep([h], buf);
    var v := VisitOf([h], buf);
    CleanWalk(c, 0, 1, buf);
    CleanWalk(c, 1, 2, v.words[0 := h]);
    CleanStep([p, 0], v.words[0 := h]);
    var next := VisitOf([p, 0], v.words[0 := h]);
    assert AllPatches([next]) == Patches(next) + [];
    assert Walk(c, 3, 0, next.words[0 := p]).visits == [];
  }

  /**
   A single inverted bit can lose a patch: it clears the link field of the first header, the walk takes that
   for the end of the chain, and the patch of the second record is never delivered.
   */
  lemma OneErrorLosesPatch(buf: Buffer, buf': Buffer)
    ensures var c, d := ExampleChip(HEADER), ExampleChip(DAMAGED);
            && Clean(c, 0, FirstCount(c)) && Disturbed(1, c, d, 0, FirstCount(c)) && Cut(c, d, 0, FirstCount(c))
            && |AllPatches(Visits(c, buf))| == 1 && AllPatches(Visits(d, buf')) == []
  {
    var c, d := ExampleChip(HEADER), ExampleChip(DAMAGED);
    assert FirstCount(c) == 1 && FirstCount(d) == 1;
    ExampleClean(c, HEADER, PATCH_HEADER);
    ExampleDisturbed(c, d, HEADER, DAMAGED, PATCH_HEADER);
    DamagedWalk(c, d, HEADER, DAMAGED, PATCH_HEADER, buf, buf');
    IntactWalk(c, HEADER, DAMAGED, PATCH_HEADER, buf);
  }
}
