/**
 The chain of bootrom patch records in the fuse array, as the three walkers of the fuse driver see it.
 `Walk` is the common part of fuse_read_ipatch and fuse_read_evp_thunk; the methods are in `FuseWalkers`.
 */
module FuseChain {
  import opened Bits
  import opened SecdedCode

  const MAX_WORDS := 80
  const ARRAY_WORDS := 192
  const ARRAY_WORDS_B01 := 256

  /** The fuse array, and the register with the size of the first record. */
  datatype AnyChip = Chip(fuses: seq<u32>, firstSize: u32, b01: bool)

  type Chip = c: AnyChip | |c.fuses| == if c.b01 then ARRAY_WORDS_B01 else ARRAY_WORDS
    witness Chip(seq(ARRAY_WORDS, _ => 0), 0, false)

  /** Address of word number k of the chain: downwards from 191, on the B01 chip with a jump from 176 to 255. */
  function Addr(b01: bool, k: nat): (a: nat)
    requires k < MAX_WORDS
    ensures a < if b01 then ARRAY_WORDS_B01 else ARRAY_WORDS
  {
    if b01 && k >= 16 then ARRAY_WORDS_B01 - 1 - (k - 16) else ARRAY_WORDS - 1 - k
  }

  /** From each word to the next, in fuse addresses: one down, but on the B01 chip from 176 up to the last one. */
  lemma AddrNext(b01: bool, k: nat)
    requires k < 79
    ensures Addr(b01, 0) == 191
    ensures Addr(b01, k + 1) == if b01 && Addr(b01, k) == 176 then 255 else Addr(b01, k) - 1
  {
  }

  function Record(c: Chip, pos: nat, count: nat): (r: seq<u32>)
    requires pos + count <= MAX_WORDS
    ensures |r| == count
  {
    seq(count, i requires 0 <= i < count => c.fuses[Addr(c.b01, pos + i)])
  }

  function PatchCount(w: u32): (r: nat)
    ensures r == w / 0x1_0000 % 16
  {
    LowMod(Shr(w, 16), 4);
    ShrQuotient(w, 16);
    Pow2Values();
    Low(Shr(w, 16), 4)
  }

  /** One loop iteration that got past the record check: the word buffer after correction. */
  datatype AnyVisit = Visit(words: seq<u32>, count: nat)

  type Visit = v: AnyVisit | |v.words| == MAX_WORDS && 0 < v.count < MAX_WORDS
    witness Visit(seq(MAX_WORDS, _ => 0), 1)

  type Buffer = b: seq<u32> | |b| == MAX_WORDS witness seq(MAX_WORDS, _ => 0)

  datatype Trace = Trace(visits: seq<Visit>, code: nat)

  /** The visit that the walk makes of a record. */
  function VisitOf(r: seq<u32>, buf: Buffer): (v: Visit)
    requires 0 < |r| < MAX_WORDS
  {
    Visit(DecodeRecord(r).words + buf[|r|..], |r|)
  }

  /** What one iteration leads to: the end of the walk, or a further record of `link` words. */
  datatype Step = Halt(visits: seq<Visit>, code: nat) | Go(visit: Visit, next: Buffer, link: nat)

  function StepOf(raw: seq<u32>, buf: Buffer): (r: Step)
    requires 0 < |raw| < MAX_WORDS
  {
    if DecodeRecord(raw).code >= 2 then Halt([], 1)
    else
      var v := VisitOf(raw, buf);
      if LinkField(raw[0]) == 0 then Halt([v], 0)
      else
        var l := DecodeLink(raw[0]);
        if l.code >= 2 then Halt([v], 3) else Go(v, v.words[0 := raw[0]], LinkField(l.word))
  }

  function Extend(step: Step, rest: seq<Visit>): seq<Visit> {
    if step.Halt? then step.visits else [step.visit] + rest
  }

  /** The loop of both walkers, from word number pos on. The buffer keeps words of earlier records. */
  function Walk(c: Chip, pos: nat, count: nat, buf: Buffer): (t: Trace)
    decreases MAX_WORDS - pos
  {
    if count == 0 || pos + count >= MAX_WORDS then Trace([], 0)
    else
      match StepOf(Record(c, pos, count), buf)
      case Halt(vs, code) => Trace(vs, code)
      case Go(v, next, link) =>
        var rest := Walk(c, pos + count, link, next);
        Trace([v] + rest.visits, rest.code)
  }

  /** A walk, by its first step. */
  lemma WalkStep(c: Chip, pos: nat, count: nat, buf: Buffer, step: Step, rest: Trace)
    requires count != 0 && pos + count < MAX_WORDS && step == StepOf(Record(c, pos, count), buf)
    requires step.Go? ==> rest == Walk(c, pos + count, step.link, step.next)
    ensures Walk(c, pos, count, buf).visits == Extend(step, rest.visits)
    ensures Walk(c, pos, count, buf).code == if step.Go? then rest.code else step.code
  {
  }

  /** The walk stops quietly where its words would number 80 or more, and else exactly at a rejected record. */
  lemma WalkStops(c: Chip, pos: nat, count: nat, buf: Buffer)
    requires 0 < count
    ensures Walk(c, pos, count, buf).visits == [] <==>
            pos + count >= 80 || DecodeRecord(Record(c, pos, count)).code >= 2
    ensures Walk(c, pos, count, buf) == Trace([], 0) <==> pos + count >= 80
  {
  }

  /**
   A record that cannot be corrected delivers nothing and ends the walk with code 1: of even parity with a syndrome, or
   of odd parity with a syndrome that names no position.
   */
  lemma RejectedRecord(c: Chip, pos: nat, count: nat, buf: Buffer)
    requires 0 < count && pos + count < 80
    ensures var r := Record(c, pos, count);
            var s := RecordSyndrome(r);
            Walk(c, pos, count, buf) == Trace([], 1) <==>
            && s != 0
            && (Parity(r) == 0 ||
                ((forall k :: 0 <= k < 15 ==> Pow2(k) != s) && !(0x4010 <= s < 0x4000 + 32 * count)))
  {
    var r := Record(c, pos, count);
    CodeMeans(r);
    UncorrectableIs(r);
    ParityIsBit(r, 32 * count);
  }

  /** A link is followed only if its field is not zero and its code word is clean or can be corrected; else code 3. */
  lemma RejectedLink(c: Chip, pos: nat, count: nat, buf: Buffer)
    requires 0 < count && pos + count < 80 && DecodeRecord(Record(c, pos, count)).code < 2
    ensures var r := Record(c, pos, count);
            var v, s := VisitOf(r, buf), LinkSyndrome(r[0]);
            && (r[0] / 0x200_0000 == 0 ==> Walk(c, pos, count, buf) == Trace([v], 0))
            && (Walk(c, pos, count, buf) == Trace([v], 3) <==>
                r[0] / 0x200_0000 != 0 && s != 0 && (LinkParity(r[0]) == 0 || s >= 12))
  {
    var r := Record(c, pos, count);
    LinkCodeMeans(r[0]);
    LinkParityIsBit(r[0], 32);
    var step := StepOf(r, buf);
    if step.Go? {
      WalkNeedsVisit(c, pos + count, step.link, step.next);
    }
  }

  /** A walk that delivers nothing does not end at a link. */
  lemma WalkNeedsVisit(c: Chip, pos: nat, count: nat, buf: Buffer)
    ensures Walk(c, pos, count, buf).visits == [] ==> Walk(c, pos, count, buf).code < 2
  {
  }

  function FirstCount(c: Chip): (r: nat)
    ensures r == c.firstSize % 128
  {
    LowMod(c.firstSize, 7);
    Low(c.firstSize, 7)
  }

  // ----- what a visit delivers

  datatype Call = Call(offset: nat, value: nat)

  /** The upper half of a patch word is half the offset, the lower half is the value. */
  function PatchOf(w: u32): (r: Call)
    ensures r.offset % 2 == 0 && r.value < 0x1_0000 && r.offset / 2 * 0x1_0000 + r.value == w
  {
    LowMod(w, 16);
    ShrQuotient(w, 16);
    Pow2Values();
    Call(Shr(w, 16) * 2, Low(w, 16))
  }

  function CallsOf(ws: seq<u32>): (r: seq<Call>)
    ensures |r| == |ws|
  {
    seq(|ws|, i requires 0 <= i < |ws| => PatchOf(ws[i]))
  }

  function PatchWords(v: Visit): seq<u32> { v.words[1..1 + PatchCount(v.words[0])] }

  /** The ipatch calls of one visit. */
  function Patches(v: Visit): seq<Call> { CallsOf(PatchWords(v)) }

  predicate Fits(v: Visit)
  {
    PatchCount(v.words[0]) < v.count
  }

  /** The instruction words of one visit: what follows the patch words. */
  function Insns(v: Visit): seq<u32>
    requires Fits(v)
  {
    v.words[1 + PatchCount(v.words[0])..v.count]
  }

  function AllPatches(vs: seq<Visit>): seq<Call>
  {
    if vs == [] then [] else Patches(vs[0]) + AllPatches(vs[1..])
  }

  function AllPatchWords(vs: seq<Visit>): seq<u32>
  {
    if vs == [] then [] else PatchWords(vs[0]) + AllPatchWords(vs[1..])
  }

  /** The calls are made of the patch words, one for each and in order. */
  lemma {:induction false} CallsFromWords(vs: seq<Visit>, i: nat)
    ensures |AllPatches(vs)| == |AllPatchWords(vs)|
    ensures i < |AllPatchWords(vs)| ==> AllPatches(vs)[i] == PatchOf(AllPatchWords(vs)[i])
  {
    if vs != [] {
      var n := |PatchWords(vs[0])|;
      CallsFromWords(vs[1..], if i < n then 0 else i - n);
    }
  }

  /** Every call, by the word behind it: twice its upper half is the offset, and its lower half is the value. */
  lemma CallsMean(vs: seq<Visit>)
    ensures |AllPatches(vs)| == |AllPatchWords(vs)|
    ensures forall i :: 0 <= i < |AllPatches(vs)| ==>
              var call, w := AllPatches(vs)[i], AllPatchWords(vs)[i];
              call.offset == w / 0x1_0000 * 2 && call.value == w % 0x1_0000
  {
    CallsFromWords(vs, 0);
    forall i | 0 <= i < |AllPatches(vs)|
      ensures AllPatches(vs)[i] == PatchOf(AllPatchWords(vs)[i])
    {
      CallsFromWords(vs, i);
    }
  }

  function AllInsns(vs: seq<Visit>): seq<u32>
    requires forall v <- vs :: Fits(v)
  {
    if vs == [] then [] else Insns(vs[0]) + AllInsns(vs[1..])
  }

  // ----- well-formed chains and disturbed copies of them

  predicate CleanWords(r: seq<u32>) {
    0 < |r| < MAX_WORDS && CleanRecord(r) && CleanLink(r[0]) && PatchCount(r[0]) < |r|
  }

  /** Every record of the chain carries valid codes and has room for its patch words. */
  ghost predicate Clean(c: Chip, pos: nat, count: nat)
    decreases MAX_WORDS - pos
  {
    count == 0 || pos + count >= MAX_WORDS ||
    var r := Record(c, pos, count);
    CleanWords(r) && Clean(c, pos + count, LinkField(r[0]))
  }

  /** The number of bit positions below n at which two records differ. */
  function Distance(a: seq<u32>, b: seq<u32>, n: nat): nat
    requires |a| == |b| && n <= 32 * |a|
  {
    if n == 0 then 0
    else Distance(a, b, n - 1) + if BitAt(a, n - 1) == BitAt(b, n - 1) then 0 else 1
  }

  predicate Within(k: nat, a: seq<u32>, b: seq<u32>) {
    |a| == |b| && Distance(a, b, 32 * |a|) <= k
  }

  /** d differs from c in at most k bits of each record of the chain of c. */
  ghost predicate Disturbed(k: nat, c: Chip, d: Chip, pos: nat, count: nat)
    decreases MAX_WORDS - pos
  {
    count == 0 || pos + count >= MAX_WORDS ||
    var r := Record(c, pos, count);
    Within(k, r, Record(d, pos, count)) && Disturbed(k, c, d, pos + count, LinkField(r[0]))
  }

  // ----- one record with at most two errors

  lemma {:induction false} SameWords(a: seq<u32>, b: seq<u32>, n: nat)
    requires |a| == |b| && n <= 32 * |a| && Distance(a, b, n) == 0
    ensures forall p :: 0 <= p < n ==> BitAt(a, p) == BitAt(b, p)
  {
    if n != 0 {
      SameWords(a, b, n - 1);
    }
  }

  lemma NoDifference(a: seq<u32>, b: seq<u32>)
    requires Within(0, a, b)
    ensures a == b
  {
    SameWords(a, b, 32 * |a|);
    Pow2Values();
    forall i | 0 <= i < |a|
      ensures a[i] == b[i]
    {
      forall k | 0 <= k < 32
        ensures Bit(a[i], k) == Bit(b[i], k)
      {
        var p := 32 * i + k;
        assert p / 32 == i && p % 32 == k;
        assert BitAt(a, p) == BitAt(b, p);
      }
      SameLowBits(a[i], b[i], 32);
      LowBound(a[i], 32);
      LowBound(b[i], 32);
    }
  }

  lemma {:induction false} FindDifference(a: seq<u32>, b: seq<u32>, n: nat) returns (p: nat)
    requires |a| == |b| && n <= 32 * |a| && Distance(a, b, n) != 0
    ensures p < n && BitAt(a, p) != BitAt(b, p)
  {
    if BitAt(a, n - 1) != BitAt(b, n - 1) {
      p := n - 1;
    } else {
      p := FindDifference(a, b, n - 1);
    }
  }

  lemma {:induction false} FlipDistance(a: seq<u32>, b: seq<u32>, p: nat, n: nat)
    requires |a| == |b| && n <= 32 * |a| && p < 32 * |a| && BitAt(a, p) != BitAt(b, p)
    ensures Distance(a, b, n) == Distance(Flip(a, p), b, n) + if p < n then 1 else 0
  {
    if n != 0 {
      FlipDistance(a, b, p, n - 1);
      FlipBit(a, p, n - 1);
    }
  }

  /** A record within distance k+1 is one inverted bit away from a record within distance k. */
  lemma NextFlip(k: nat, a: seq<u32>, b: seq<u32>) returns (p: nat)
    requires Within(k + 1, a, b) && !Within(0, a, b)
    ensures p < 32 * |a| && BitAt(a, p) != BitAt(b, p) && Within(k, Flip(a, p), b)
  {
    p := FindDifference(a, b, 32 * |a|);
    FlipDistance(a, b, p, 32 * |a|);
  }

  /** At most two inverted bits: none, one, or two different ones. */
  lemma FewFlips(a: seq<u32>, b: seq<u32>) returns (n: nat, p: nat, q: nat)
    requires Within(2, a, b) && |a| > 0
    ensures n <= 2 && p < 32 * |a| && q < 32 * |a| && p != q
    ensures b == if n == 0 then a else if n == 1 then Flip(a, p) else Flip(Flip(a, p), q)
    ensures Within(1, a, b) ==> n <= 1
  {
    p, q := 0, 1;
    if Within(0, a, b) {
      NoDifference(a, b);
      return 0, p, q;
    }
    p := NextFlip(1, a, b);
    var c := Flip(a, p);
    if Within(0, c, b) {
      NoDifference(c, b);
      return 1, p, if p == 0 then 1 else 0;
    }
    q := NextFlip(0, c, b);
    NoDifference(Flip(c, q), b);
    FlipBit(a, p, p);
    FlipDistance(a, b, p, 32 * |a|);
    n := 2;
  }

  lemma PayloadSurvives(a: seq<u32>, b: seq<u32>)
    requires CleanRecord(a) && Within(2, a, b)
    ensures (DecodeRecord(b).code >= 2 || SamePayload(DecodeRecord(b).words, a))
    ensures Within(1, a, b) ==> DecodeRecord(b).code < 2
  {
    var n, p, q := FewFlips(a, b);
    if n == 0 {
      NoError(a);
    } else if n == 1 {
      SingleError(a, p);
    } else {
      DoubleError(a, p, q);
    }
  }

  lemma FirstWordFlip(a: seq<u32>, p: nat)
    requires |a| > 0 && p < 32 * |a|
    ensures Flip(a, p)[0] == if p < 32 then Flip([a[0]], p)[0] else a[0]
  {
  }

  lemma FlipSwap(w: u32, p: nat, q: nat)
    requires p < 32 && q < 32
    ensures Flip(Flip([w], p), q) == Flip(Flip([w], q), p)
  {
    XorSwap(w, Pow2(p), Pow2(q));
  }

  /** What the link decoder makes of a disturbed link word. */
  ghost predicate LinkSafe(w: u32, d: u32) {
    DecodeLink(d).code >= 2 || LinkField(DecodeLink(d).word) == LinkField(w)
  }

  lemma LinkOneFlip(w: u32, p: nat)
    requires CleanLink(w) && p < 32
    ensures var d := Flip([w], p)[0]; DecodeLink(d).code < 2 && LinkSafe(w, d)
  {
    if p < 20 {
      CleanLinkFlip(w, p);
    } else {
      SingleLinkError(w, p);
    }
  }

  lemma LinkTwoFlips(w: u32, p: nat, q: nat)
    requires CleanLink(w) && p < 32 && q < 32 && p != q
    ensures LinkSafe(w, Flip(Flip([w], p), q)[0])
  {
    var f, g := Flip([w], p), Flip([w], q);
    assert f == [f[0]] && g == [g[0]];
    if p < 20 {
      CleanLinkFlip(w, p);
      LinkOneFlip(f[0], q);
    } else if q < 20 {
      CleanLinkFlip(w, q);
      LinkOneFlip(g[0], p);
      FlipSwap(w, p, q);
    } else {
      DoubleLinkError(w, p, q);
    }
  }

  lemma LinkSurvives(a: seq<u32>, b: seq<u32>)
    requires |a| > 0 && CleanLink(a[0]) && Within(2, a, b)
    ensures LinkSafe(a[0], b[0])
    ensures Within(1, a, b) ==> DecodeLink(b[0]).code < 2
  {
    var n, p, q := FewFlips(a, b);
    if n >= 1 {
      FirstWordFlip(a, p);
      if p < 32 { LinkOneFlip(a[0], p); }
    }
    if n == 2 {
      FirstWordFlip(Flip(a, p), q);
      if q < 32 { LinkOneFlip(a[0], q); }
      if p < 32 && q < 32 {
        var f := Flip([a[0]], p);
        assert f == [f[0]];
        LinkTwoFlips(a[0], p, q);
      }
    }
  }

  // ----- a whole walk over a chain with errors

  /** Two visits that deliver the same patches and instructions. */
  ghost predicate SameVisit(v: Visit, w: Visit)
  {
    v.count == w.count && SamePayload(v.words[..v.count], w.words[..w.count])
  }

  lemma SliceSlice<T>(s: seq<T>, j: nat, n: nat)
    requires 1 + n <= j <= |s|
    ensures s[..j][1..][..n] == s[1..1 + n] && s[..j][1..][n..] == s[1 + n..j]
  {
  }

  lemma SameDelivery(v: Visit, w: Visit)
    requires SameVisit(v, w) && Fits(w)
    ensures Fits(v) && Patches(v) == Patches(w) && Insns(v) == Insns(w)
  {
    var n := PatchCount(w.words[0]);
    SliceSlice(v.words, v.count, n);
    SliceSlice(w.words, w.count, n);
  }

  lemma CleanStep(r: seq<u32>, buf: Buffer)
    requires CleanWords(r)
    ensures var v, link := VisitOf(r, buf), LinkField(r[0]);
            && Fits(v) && v.words[1..v.count] == r[1..] && PatchCount(v.words[0]) == PatchCount(r[0])
            && StepOf(r, buf) == if link == 0 then Halt([v], 0) else Go(v, v.words[0 := r[0]], link)
  {
    NoError(r);
    assert VisitOf(r, buf).words[1..|r|] == DecodeRecord(r).words[1..];
  }

  lemma DisturbedVisit(r: seq<u32>, s: seq<u32>, buf: Buffer, buf': Buffer)
    requires CleanWords(r) && Within(2, r, s)
    ensures |s| == |r|
    ensures DecodeRecord(s).code < 2 ==> SameVisit(VisitOf(s, buf'), VisitOf(r, buf))
  {
    PayloadSurvives(r, s);
    NoError(r);
    assert VisitOf(s, buf').words[..|r|] == DecodeRecord(s).words;
    assert VisitOf(r, buf).words[..|r|] == DecodeRecord(r).words;
  }

  /** Along the visits of a disturbed walk, each one repeats the clean visit at the same place. */
  ghost predicate FollowsCleanWalk(vs: seq<Visit>, ws: seq<Visit>)
  {
    |vs| <= |ws| && forall i :: 0 <= i < |vs| ==> SameVisit(vs[i], ws[i])
  }

  /** What a step adds to the visits: nothing, its own visit as the last one, or its own visit in front of the rest. */
  lemma StepShape(s: seq<u32>, buf: Buffer, vs: seq<Visit>)
    requires 0 < |s| < MAX_WORDS
    ensures var e := Extend(StepOf(s, buf), vs);
            e == [] || (DecodeRecord(s).code < 2 && (e == [VisitOf(s, buf)] || e == [VisitOf(s, buf)] + vs))
  {
  }

  lemma FollowCons(v: Visit, w: Visit, vs: seq<Visit>, ws: seq<Visit>)
    requires SameVisit(v, w) && FollowsCleanWalk(vs, ws)
    ensures FollowsCleanWalk([v], [w] + ws) && FollowsCleanWalk([v] + vs, [w] + ws)
  {
  }

  /** A disturbed record stops the walk, or delivers the right words and leads on to the right record. */
  lemma DisturbedStep(r: seq<u32>, s: seq<u32>, buf: Buffer, buf': Buffer, vs: seq<Visit>, ws: seq<Visit>)
    requires CleanWords(r) && Within(2, r, s) && FollowsCleanWalk(vs, ws)
    ensures |s| == |r|
    ensures FollowsCleanWalk(Extend(StepOf(s, buf'), vs), [VisitOf(r, buf)] + ws)
    ensures StepOf(s, buf').Go? ==> StepOf(s, buf').link == LinkField(r[0])
  {
    DisturbedVisit(r, s, buf, buf');
    LinkSurvives(r, s);
    StepShape(s, buf', vs);
    if DecodeRecord(s).code < 2 {
      FollowCons(VisitOf(s, buf'), VisitOf(r, buf), vs, ws);
    }
  }

  /** One error is never reported: only a zero link field can stop the walk early. */
  lemma OneErrorStep(r: seq<u32>, s: seq<u32>, buf: Buffer)
    requires CleanWords(r) && Within(1, r, s)
    ensures |s| == |r|
    ensures if LinkField(s[0]) == 0 then StepOf(s, buf) == Halt([VisitOf(s, buf)], 0) else StepOf(s, buf).Go?
  {
    LinkSurvives(r, s);
    PayloadSurvives(r, s);
  }

  lemma FitsCons(v: Visit, vs: seq<Visit>)
    requires Fits(v) && forall x <- vs :: Fits(x)
    ensures forall x <- [v] + vs :: Fits(x)
  {
  }

  /** Every visit of the walk over a clean chain fits its record. */
  lemma {:induction false} CleanFits(c: Chip, pos: nat, count: nat, buf: Buffer)
    requires Clean(c, pos, count)
    ensures Walk(c, pos, count, buf).code == 0
    ensures forall v <- Walk(c, pos, count, buf).visits :: Fits(v)
    decreases MAX_WORDS - pos
  {
    if count != 0 && pos + count < MAX_WORDS {
      var r := Record(c, pos, count);
      var v := VisitOf(r, buf);
      var rest := Walk(c, pos + count, LinkField(r[0]), v.words[0 := r[0]]);
      CleanStep(r, buf);
      CleanFits(c, pos + count, LinkField(r[0]), v.words[0 := r[0]]);
      WalkStep(c, pos, count, buf, StepOf(r, buf), rest);
      FitsCons(v, rest.visits);
    }
  }

  lemma CleanWalk(c: Chip, pos: nat, count: nat, buf: Buffer)
    requires Clean(c, pos, count) && count != 0 && pos + count < MAX_WORDS
    ensures var r := Record(c, pos, count); var w := VisitOf(r, buf);
            Walk(c, pos, count, buf).visits == [w] + Walk(c, pos + count, LinkField(r[0]), w.words[0 := r[0]]).visits
  {
    CleanStep(Record(c, pos, count), buf);
  }

  lemma ChainTail(k: nat, c: Chip, d: Chip, pos: nat, count: nat)
    requires count != 0 && pos + count < MAX_WORDS
    requires Clean(c, pos, count) && Disturbed(k, c, d, pos, count)
    ensures var r := Record(c, pos, count); var link := LinkField(r[0]);
            && CleanWords(r) && Within(k, r, Record(d, pos, count))
            && Clean(c, pos + count, link) && Disturbed(k, c, d, pos + count, link)
  {
  }

  lemma {:induction false} TwoErrorsWalk(c: Chip, d: Chip, pos: nat, count: nat, buf: Buffer, buf': Buffer)
    requires c.b01 == d.b01
    requires Clean(c, pos, count) && Disturbed(2, c, d, pos, count)
    ensures FollowsCleanWalk(Walk(d, pos, count, buf').visits, Walk(c, pos, count, buf).visits)
    decreases MAX_WORDS - pos
  {
    if count != 0 && pos + count < MAX_WORDS {
      var r, s := Record(c, pos, count), Record(d, pos, count);
      ChainTail(2, c, d, pos, count);
      var w, link, step := VisitOf(r, buf), LinkField(r[0]), StepOf(s, buf');
      var next, next' := w.words[0 := r[0]], if step.Go? then step.next else buf';
      TwoErrorsWalk(c, d, pos + count, link, next, next');
      CleanWalk(c, pos, count, buf);
      DisturbedStep(r, s, buf, buf', Walk(d, pos + count, link, next').visits, Walk(c, pos + count, link, next).visits);
    }
  }

  lemma {:induction false} PrefixDelivery(vs: seq<Visit>, ws: seq<Visit>)
    requires forall w <- ws :: Fits(w)
    requires FollowsCleanWalk(vs, ws)
    ensures forall v <- vs :: Fits(v)
    ensures AllPatches(vs) <= AllPatches(ws) && AllInsns(vs) <= AllInsns(ws)
  {
    if vs != [] {
      SameDelivery(vs[0], ws[0]);
      PrefixDelivery(vs[1..], ws[1..]);
      assert vs == [vs[0]] + vs[1..];
    }
  }

  function Visits(c: Chip, buf: Buffer): (vs: seq<Visit>)
  {
    Walk(c, 0, FirstCount(c), buf).visits
  }

  /**
   At most two inverted bits in each record: whatever the walkers deliver is a prefix of what they deliver
   from the intact fuses, so no wrong patch and no wrong instruction is ever used.
   */
  lemma NoWrongPatch(c: Chip, d: Chip, buf: Buffer, buf': Buffer)
    requires c.b01 == d.b01 && c.firstSize == d.firstSize
    requires Clean(c, 0, FirstCount(c)) && Disturbed(2, c, d, 0, FirstCount(c))
    ensures forall v <- Visits(d, buf') :: Fits(v)
    ensures forall v <- Visits(c, buf) :: Fits(v)
    ensures AllPatches(Visits(d, buf')) <= AllPatches(Visits(c, buf))
    ensures AllInsns(Visits(d, buf')) <= AllInsns(Visits(c, buf))
  {
    TwoErrorsWalk(c, d, 0, FirstCount(c), buf, buf');
    CleanFits(c, 0, FirstCount(c), buf);
    PrefixDelivery(Visits(d, buf'), Visits(c, buf));
  }

  // ----- at most one error: everything is delivered, unless the raw link field reads zero

  /** The visits of the intact walk that the disturbed walk misses: all after the first zero link field. */
  function Lost(c: Chip, d: Chip, pos: nat, count: nat, buf: Buffer): seq<Visit>
    decreases MAX_WORDS - pos
  {
    if count == 0 || pos + count >= MAX_WORDS then []
    else
      var r := Record(c, pos, count);
      var link, next := LinkField(r[0]), VisitOf(r, buf).words[0 := r[0]];
      if LinkField(Record(d, pos, count)[0]) == 0 then Walk(c, pos + count, link, next).visits
      else Lost(c, d, pos + count, link, next)
  }

  /** A link field that should not be zero reads zero. */
  predicate Cut(c: Chip, d: Chip, pos: nat, count: nat)
    decreases MAX_WORDS - pos
  {
    count != 0 && pos + count < MAX_WORDS &&
    var link := LinkField(Record(c, pos, count)[0]);
    link != 0 && (LinkField(Record(d, pos, count)[0]) == 0 || Cut(c, d, pos + count, link))
  }

  lemma {:induction false} NothingLost(c: Chip, d: Chip, pos: nat, count: nat, buf: Buffer)
    requires !Cut(c, d, pos, count)
    ensures Lost(c, d, pos, count, buf) == []
    decreases MAX_WORDS - pos
  {
    if count != 0 && pos + count < MAX_WORDS {
      var r := Record(c, pos, count);
      if LinkField(r[0]) != 0 {
        NothingLost(c, d, pos + count, LinkField(r[0]), VisitOf(r, buf).words[0 := r[0]]);
      }
    }
  }

  ghost predicate SameVisits(vs: seq<Visit>, ws: seq<Visit>) {
    |vs| == |ws| && FollowsCleanWalk(vs, ws)
  }

  lemma OneErrorJoin(r: seq<u32>, s: seq<u32>, buf: Buffer, buf': Buffer, vs: seq<Visit>, lost: seq<Visit>,
                     ws: seq<Visit>)
    requires CleanWords(r) && Within(1, r, s)
    requires if LinkField(s[0]) == 0 then lost == ws else SameVisits(vs + lost, ws)
    ensures SameVisits(Extend(StepOf(s, buf'), vs) + lost, [VisitOf(r, buf)] + ws)
    ensures StepOf(s, buf').Go? ==> StepOf(s, buf').link == LinkField(r[0])
  {
    OneErrorStep(r, s, buf');
    DisturbedVisit(r, s, buf, buf');
    LinkSurvives(r, s);
    if LinkField(s[0]) == 0 {
      FollowCons(VisitOf(s, buf'), VisitOf(r, buf), ws, ws);
    } else {
      FollowCons(VisitOf(s, buf'), VisitOf(r, buf), vs + lost, ws);
      assert ([VisitOf(s, buf')] + vs) + lost == [VisitOf(s, buf')] + (vs + lost);
    }
  }

  lemma LostStep(c: Chip, d: Chip, pos: nat, count: nat, buf: Buffer, r: seq<u32>, s: seq<u32>, link: nat, next: Buffer)
    requires count != 0 && pos + count < MAX_WORDS && r == Record(c, pos, count) && s == Record(d, pos, count)
    requires link == LinkField(r[0]) && next == VisitOf(r, buf).words[0 := r[0]]
    ensures Lost(c, d, pos, count, buf) ==
            if LinkField(s[0]) == 0 then Walk(c, pos + count, link, next).visits
            else Lost(c, d, pos + count, link, next)
  {
  }

  lemma {:induction false} OneErrorWalk(c: Chip, d: Chip, pos: nat, count: nat, buf: Buffer, buf': Buffer)
    requires c.b01 == d.b01
    requires Clean(c, pos, count) && Disturbed(1, c, d, pos, count)
    ensures Walk(d, pos, count, buf').code == 0
    ensures SameVisits(Walk(d, pos, count, buf').visits + Lost(c, d, pos, count, buf), Walk(c, pos, count, buf).visits)
    decreases MAX_WORDS - pos
  {
    if count != 0 && pos + count < MAX_WORDS {
      var r, s := Record(c, pos, count), Record(d, pos, count);
      ChainTail(1, c, d, pos, count);
      var w, link, step := VisitOf(r, buf), LinkField(r[0]), StepOf(s, buf');
      var next, next' := w.words[0 := r[0]], if step.Go? then step.next else buf';
      OneErrorWalk(c, d, pos + count, link, next, next');
      CleanWalk(c, pos, count, buf);
      OneErrorStep(r, s, buf');
      var rest, lost := Walk(d, pos + count, link, next'), Lost(c, d, pos, count, buf);
      LostStep(c, d, pos, count, buf, r, s, link, next);
      OneErrorJoin(r, s, buf, buf', rest.visits, lost, Walk(c, pos + count, link, next).visits);
      WalkStep(d, pos, count, buf', step, rest);
    }
  }

  lemma {:induction false} SameDeliveries(vs: seq<Visit>, ws: seq<Visit>)
    requires SameVisits(vs, ws) && forall w <- ws :: Fits(w)
    ensures forall v <- vs :: Fits(v)
    ensures AllPatches(vs) == AllPatches(ws) && AllInsns(vs) == AllInsns(ws)
  {
    if vs != [] {
      SameDelivery(vs[0], ws[0]);
      SameDeliveries(vs[1..], ws[1..]);
      assert vs == [vs[0]] + vs[1..];
    }
  }

  lemma AppendAssoc<T>(a: seq<T>, b: seq<T>, c: seq<T>)
    ensures a + (b + c) == (a + b) + c
  {
  }

  lemma {:induction false} AllPatchesAppend(vs: seq<Visit>, ws: seq<Visit>, all: seq<Visit>)
    requires all == vs + ws
    ensures AllPatches(all) == AllPatches(vs) + AllPatches(ws)
    decreases |vs|
  {
    if vs == [] {
      assert all == ws;
    } else {
      assert all[1..] == vs[1..] + ws && all[0] == vs[0];
      AllPatchesAppend(vs[1..], ws, all[1..]);
      AppendAssoc(Patches(vs[0]), AllPatches(vs[1..]), AllPatches(ws));
    }
  }

  lemma {:induction false} AllInsnsAppend(vs: seq<Visit>, ws: seq<Visit>, all: seq<Visit>)
    requires all == vs + ws && forall v <- all :: Fits(v)
    ensures (forall v <- vs :: Fits(v)) && (forall w <- ws :: Fits(w)) && AllInsns(all) == AllInsns(vs) + AllInsns(ws)
    decreases |vs|
  {
    if vs == [] {
      assert all == ws;
    } else {
      assert all[1..] == vs[1..] + ws && all[0] == vs[0];
      AllInsnsAppend(vs[1..], ws, all[1..]);
      AppendAssoc(Insns(vs[0]), AllInsns(vs[1..]), AllInsns(ws));
    }
  }

  /**
   At most one inverted bit in each record: the calls made, followed by the calls of the visits lost after the
   first link field that reads zero, are the calls made from the intact fuses. The delivery is therefore
   complete exactly when no lost visit carries a patch, and always when no link field reads zero.
   */
  lemma OneErrorDelivery(c: Chip, d: Chip, buf: Buffer, buf': Buffer)
    requires c.b01 == d.b01 && c.firstSize == d.firstSize
    requires Clean(c, 0, FirstCount(c)) && Disturbed(1, c, d, 0, FirstCount(c))
    ensures Walk(d, 0, FirstCount(d), buf').code == 0
    ensures var lost := AllPatches(Lost(c, d, 0, FirstCount(c), buf));
            && AllPatches(Visits(d, buf')) + lost == AllPatches(Visits(c, buf))
            && (AllPatches(Visits(d, buf')) == AllPatches(Visits(c, buf)) <==> lost == [])
            && (!Cut(c, d, 0, FirstCount(c)) ==> lost == [])
  {
    var lost := Lost(c, d, 0, FirstCount(c), buf);
    OneErrorWalk(c, d, 0, FirstCount(c), buf, buf');
    CleanFits(c, 0, FirstCount(c), buf);
    SameDeliveries(Visits(d, buf') + lost, Visits(c, buf));
    AllPatchesAppend(Visits(d, buf'), lost, Visits(d, buf') + lost);
    if !Cut(c, d, 0, FirstCount(c)) {
      NothingLost(c, d, 0, FirstCount(c), buf);
    }
  }

  /** The same for the instruction words of the thunk. */
  lemma OneErrorInsns(c: Chip, d: Chip, buf: Buffer, buf': Buffer)
    requires c.b01 == d.b01 && c.firstSize == d.firstSize
    requires Clean(c, 0, FirstCount(c)) && Disturbed(1, c, d, 0, FirstCount(c))
    ensures forall v <- Visits(d, buf') :: Fits(v)
    ensures forall v <- Visits(c, buf) :: Fits(v)
    ensures forall v <- Lost(c, d, 0, FirstCount(c), buf) :: Fits(v)
    ensures var lost := AllInsns(Lost(c, d, 0, FirstCount(c), buf));
            && AllInsns(Visits(d, buf')) + lost == AllInsns(Visits(c, buf))
            && (AllInsns(Visits(d, buf')) == AllInsns(Visits(c, buf)) <==> lost == [])
            && (!Cut(c, d, 0, FirstCount(c)) ==> lost == [])
  {
    var lost := Lost(c, d, 0, FirstCount(c), buf);
    OneErrorWalk(c, d, 0, FirstCount(c), buf, buf');
    CleanFits(c, 0, FirstCount(c), buf);
    SameDeliveries(Visits(d, buf') + lost, Visits(c, buf));
    AllInsnsAppend(Visits(d, buf'), lost, Visits(d, buf') + lost);
    if !Cut(c, d, 0, FirstCount(c)) {
      NothingLost(c, d, 0, FirstCount(c), buf);
    }
  }
}
