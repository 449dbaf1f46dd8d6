/**
 The two error-correcting codes of the bootrom patch fuses: one over a record of words, one over the
 twelve link bits of its first word. Both are described by the column that each bit position
 contributes to the syndrome; `Sum` adds up the columns of the bits that are set.
 */
module SecdedCode {
  import opened Bits
  import opened Wrappers

  predicate BitAt(ws: seq<u32>, p: nat)
    requires p < 32 * |ws|
  {
    Bit(ws[p / 32], p % 32)
  }

  /** The record with bit p inverted. */
  function Flip(ws: seq<u32>, p: nat): (r: seq<u32>)
    requires p < 32 * |ws|
    ensures |r| == |ws|
  {
    PowerFits(p % 32);
    ws[p / 32 := Xor32(ws[p / 32], Pow2(p % 32))]
  }

  /** Exclusive or of the columns of all bits below position n that are set. */
  function Sum(column: nat -> nat, ws: seq<u32>, n: nat): nat
    requires n <= 32 * |ws|
  {
    if n == 0 then 0
    else Xor(Sum(column, ws, n - 1), if BitAt(ws, n - 1) then column(n - 1) else 0)
  }

  // ----- the record code

  /** The value by which the decoder names a bit position; position 15 is the overall parity bit. */
  function Name(p: nat): nat {
    if p < 15 then Pow2(p) else if p == 15 then 0 else 0x4000 + p
  }

  /** The link bits 20 to 31 of the first word are left out of the record syndrome. */
  function RecordColumn(p: nat): nat {
    if 20 <= p < 32 then 0 else Name(p)
  }

  function One(p: nat): nat { 1 }

  function RecordSyndrome(ws: seq<u32>): nat { Sum(RecordColumn, ws, 32 * |ws|) }

  function Parity(ws: seq<u32>): nat { Sum(One, ws, 32 * |ws|) }

  predicate CleanRecord(ws: seq<u32>) {
    0 < |ws| <= 512 && RecordSyndrome(ws) == 0 && Parity(ws) == 0
  }

  /** The first word without its link bits. */
  function Strip(ws: seq<u32>): (r: seq<u32>)
    requires |ws| > 0
    ensures |r| == |ws|
  {
    Pow2Values();
    LowBound(ws[0], 20);
    ws[0 := Low(ws[0], 20)]
  }

  /** The position below n, other than the parity bit, that has the given name. */
  function Lookup(s: nat, n: nat): (r: Option<nat>) {
    if n == 0 then None
    else if n - 1 != 15 && Name(n - 1) == s then Some(n - 1)
    else Lookup(s, n - 1)
  }

  datatype Decoded = Decoded(code: nat, words: seq<u32>)

  /** Table decoder: find the position whose name is the syndrome and invert it. */
  function DecodeRecord(ws: seq<u32>): (r: Decoded)
    requires |ws| > 0
    ensures |r.words| == |ws|
  {
    var s, odd := RecordSyndrome(ws), Parity(ws);
    if s == 0 then
      if odd == 0 then Decoded(0, Strip(ws)) else Decoded(1, Flip(Strip(ws), 15))
    else if odd == 0 then Decoded(3, Strip(ws))
    else
      match Lookup(s, 32 * |ws|)
      case None => Decoded(2, Strip(ws))
      case Some(p) => LookupBound(s, 32 * |ws|); Decoded(1, Flip(Strip(ws), p))
  }

  lemma {:induction false} LookupBound(s: nat, n: nat)
    ensures Lookup(s, n).Some? ==> Lookup(s, n).value < n
  {
    if n != 0 {
      LookupBound(s, n - 1);
    }
  }

  // ----- the link code

  const HashVals: seq<nat> := [1, 2, 4, 8, 0, 3, 5, 6, 7, 9, 10, 11]

  function LinkColumn(p: nat): nat {
    if 20 <= p < 32 then HashVals[p - 20] else 0
  }

  function LinkOne(p: nat): nat {
    if 20 <= p < 32 then 1 else 0
  }

  function LinkSyndrome(w: u32): nat { Sum(LinkColumn, [w], 32) }

  function LinkParity(w: u32): nat { Sum(LinkOne, [w], 32) }

  predicate CleanLink(w: u32) {
    LinkSyndrome(w) == 0 && LinkParity(w) == 0
  }

  /** Index at or after i at which the table holds the value h, or 12. */
  function Find(h: nat, i: nat): (r: nat)
    requires i <= 12
    ensures i <= r <= 12
    decreases 12 - i
  {
    if i == 12 || HashVals[i] == h then i else Find(h, i + 1)
  }

  datatype DecodedLink = DecodedLink(code: nat, word: u32)

  function DecodeLink(w: u32): DecodedLink {
    var s, odd := LinkSyndrome(w), LinkParity(w);
    if s == 0 then
      if odd == 0 then DecodedLink(0, w) else DecodedLink(1, Flip([w], 24)[0])
    else if odd == 0 then DecodedLink(3, w)
    else if Find(s, 0) == 12 then DecodedLink(2, w)
    else DecodedLink(1, Flip([w], 20 + Find(s, 0))[0])
  }

  // ----- linearity: one inverted bit adds its column

  lemma PowerFits(b: nat)
    requires b < 32
    ensures Pow2(b) < 0x1_0000_0000
  {
    Pow2Values();
    Pow2Less(b, 32);
  }

  lemma FlipBit(ws: seq<u32>, p: nat, q: nat)
    requires p < 32 * |ws| && q < 32 * |ws|
    ensures BitAt(Flip(ws, p), q) == (BitAt(ws, q) != (p == q))
  {
    if p / 32 == q / 32 {
      BitXor(ws[p / 32], Pow2(p % 32), q % 32);
      BitPow2(p % 32, q % 32);
    }
  }

  lemma FlipTwice(ws: seq<u32>, p: nat)
    requires p < 32 * |ws|
    ensures Flip(Flip(ws, p), p) == ws
  {
    XorCancel(ws[p / 32], Pow2(p % 32));
  }

  lemma {:induction false} SumFlip(column: nat -> nat, ws: seq<u32>, p: nat, n: nat)
    requires p < 32 * |ws| && n <= 32 * |ws|
    ensures Sum(column, Flip(ws, p), n) == if p < n then Xor(Sum(column, ws, n), column(p)) else Sum(column, ws, n)
  {
    if n != 0 {
      var m := n - 1;
      SumFlip(column, ws, p, m);
      FlipBit(ws, p, m);
      var s := Sum(column, ws, m);
      if p < m {
        XorSwap(s, column(p), if BitAt(ws, m) then column(m) else 0);
      } else if p == m {
        XorZero(s);
        XorCancel(s, column(p));
        XorZero(Xor(s, column(p)));
      }
    }
  }

  // ----- every position has its own name

  lemma NamesDiffer(p: nat, q: nat)
    requires p != q && p != 15 && q != 15
    ensures Name(p) != Name(q) && Name(p) != 0
  {
    Pow2Values();
    Pow2Injective(p, q);
    Pow2Positive(p);
    if p < 14 { Pow2Less(p, 14); }
    if q < 14 { Pow2Less(q, 14); }
  }

  lemma {:induction false} LookupName(p: nat, n: nat)
    requires p != 15
    ensures Lookup(Name(p), n) == if p < n then Some(p) else None
  {
    if n != 0 {
      LookupName(p, n - 1);
      if n - 1 != 15 && n - 1 != p {
        NamesDiffer(p, n - 1);
      }
    }
  }

  lemma HashValsDiffer(i: nat, j: nat)
    requires i < 12 && j < 12 && i != j
    ensures HashVals[i] != HashVals[j]
  {
  }

  lemma {:induction false} FindHashVal(i: nat, k: nat)
    requires k <= i < 12
    ensures Find(HashVals[i], k) == i
    decreases i - k
  {
    if k < i {
      FindHashVal(i, k + 1);
    }
  }

  // ----- the record code corrects one and detects two errors, whatever the number of words

  /** The part of a record that the walkers consume: the patch count and all words after the first. */
  predicate SamePayload(a: seq<u32>, b: seq<u32>)
    requires |a| > 0 && |b| > 0
  {
    a[1..] == b[1..] && Low(Shr(a[0], 16), 4) == Low(Shr(b[0], 16), 4)
  }

  predicate IsLinkBit(p: nat) { 20 <= p < 32 }

  lemma FlipStrip(ws: seq<u32>, p: nat)
    requires p < 32 * |ws|
    ensures Strip(Flip(ws, p)) == if IsLinkBit(p) then Strip(ws) else Flip(Strip(ws), p)
  {
    if p < 32 {
      FlipParts(ws[0], p, 20);
    }
  }

  lemma StripPayload(ws: seq<u32>)
    requires |ws| > 0
    ensures SamePayload(Strip(ws), ws)
  {
    LowShr(ws[0], 16, 4);
  }

  /** Bits k .. k+n of a word survive a mask that keeps its low k+n bits. */
  lemma {:induction false} LowShr(a: nat, k: nat, n: nat)
    ensures Low(Shr(Low(a, k + n), k), n) == Low(Shr(a, k), n)
  {
    if k == 0 {
      LowLow(a, n);
    } else {
      LowShr(a / 2, k - 1, n);
    }
  }

  lemma {:induction false} LowLow(a: nat, n: nat)
    ensures Low(Low(a, n), n) == Low(a, n)
  {
    LowBound(a, n);
    LowBound(Low(a, n), n);
  }

  lemma CheckBitPayload(ws: seq<u32>, p: nat)
    requires |ws| > 0 && p < 16
    ensures SamePayload(Flip(ws, p), ws)
  {
    FlipParts(ws[0], p, 16);
  }

  lemma RecordFlip(ws: seq<u32>, p: nat)
    requires p < 32 * |ws|
    ensures RecordSyndrome(Flip(ws, p)) == Xor(RecordSyndrome(ws), RecordColumn(p))
    ensures Parity(Flip(ws, p)) == Xor(Parity(ws), 1)
  {
    SumFlip(RecordColumn, ws, p, 32 * |ws|);
    SumFlip(One, ws, p, 32 * |ws|);
  }

  lemma NoError(ws: seq<u32>)
    requires CleanRecord(ws)
    ensures DecodeRecord(ws) == Decoded(0, Strip(ws))
    ensures SamePayload(DecodeRecord(ws).words, ws)
  {
    StripPayload(ws);
  }

  /** Any single error outside the link bits is undone exactly; one inside them costs only the parity bit. */
  lemma SingleError(ws: seq<u32>, p: nat)
    requires CleanRecord(ws) && p < 32 * |ws|
    ensures DecodeRecord(Flip(ws, p)) == Decoded(1, if IsLinkBit(p) then Flip(Strip(ws), 15) else Strip(ws))
    ensures SamePayload(DecodeRecord(Flip(ws, p)).words, ws)
  {
    RecordFlip(ws, p);
    XorZero(RecordColumn(p));
    XorZero(1);
    FlipStrip(ws, p);
    StripPayload(ws);
    if IsLinkBit(p) {
      CheckBitPayload(Strip(ws), 15);
    } else {
      FlipTwice(Strip(ws), p);
      if p != 15 {
        NamesDiffer(p, p + 20);
        LookupName(p, 32 * |ws|);
      }
    }
  }

  /** Two errors are reported, unless both fall where the syndrome cannot see them: then they are harmless. */
  lemma DoubleError(ws: seq<u32>, p: nat, q: nat)
    requires CleanRecord(ws) && p < 32 * |ws| && q < 32 * |ws| && p != q
    ensures DecodeRecord(Flip(Flip(ws, p), q)).code ==
            if RecordColumn(p) == RecordColumn(q) == 0 then 0 else 3
    ensures RecordColumn(p) == RecordColumn(q) == 0 ==> SamePayload(DecodeRecord(Flip(Flip(ws, p), q)).words, ws)
  {
    RecordFlip(ws, p);
    RecordFlip(Flip(ws, p), q);
    XorZero(RecordColumn(p));
    XorZero(RecordColumn(q));
    XorZero(1);
    XorSelf(1);
    XorIsZero(RecordColumn(p), RecordColumn(q));
    if RecordColumn(p) == RecordColumn(q) == 0 {
      InvisiblePair(ws, p, q);
    } else if RecordColumn(p) == RecordColumn(q) {
      NamesDiffer(p, q);
    }
  }

  lemma InvisiblePair(ws: seq<u32>, p: nat, q: nat)
    requires p < 32 * |ws| && q < 32 * |ws| && p != q
    requires RecordColumn(p) == RecordColumn(q) == 0
    ensures |ws| > 0 && SamePayload(Strip(Flip(Flip(ws, p), q)), ws)
  {
    if !IsLinkBit(p) && p != 15 { NamesDiffer(p, p + 20); }
    if !IsLinkBit(q) && q != 15 { NamesDiffer(q, q + 20); }
    FlipStrip(ws, p);
    FlipStrip(Flip(ws, p), q);
    StripPayload(ws);
    CheckBitPayload(Strip(ws), 15);
  }

  // ----- all records, whatever the number of errors

  lemma {:induction false} LookupNone(s: nat, n: nat)
    ensures Lookup(s, n).None? <==> forall p :: 0 <= p < n && p != 15 ==> Name(p) != s
    ensures Lookup(s, n).Some? ==> Lookup(s, n).value != 15 && Name(Lookup(s, n).value) == s
  {
    if n != 0 {
      LookupNone(s, n - 1);
    }
  }

  lemma {:induction false} ParityIsBit(ws: seq<u32>, n: nat)
    requires n <= 32 * |ws|
    ensures Sum(One, ws, n) < 2
  {
    if n != 0 {
      ParityIsBit(ws, n - 1);
      XorZero(Sum(One, ws, n - 1));
      XorSelf(1);
      XorZero(1);
    }
  }

  /**
   The return code for every record. Even parity: clean, or more errors than can be corrected. Odd parity: corrected, if
   the syndrome is zero or the name of a position, and rejected with code 2 if it is no name.
   */
  lemma CodeMeans(ws: seq<u32>)
    requires |ws| > 0
    ensures var s, odd, code := RecordSyndrome(ws), Parity(ws) == 1, DecodeRecord(ws).code;
            && (code == 0 <==> !odd && s == 0)
            && (code == 3 <==> !odd && s != 0)
            && (code == 2 <==> odd && s != 0 && forall p :: 0 <= p < 32 * |ws| && p != 15 ==> Name(p) != s)
            && code <= 3
  {
    LookupNone(RecordSyndrome(ws), 32 * |ws|);
    ParityIsBit(ws, 32 * |ws|);
  }

  /** The same in numbers: the syndrome is one of fifteen powers of two, or 0x4000 and a position from 16 on. */
  lemma UncorrectableIs(ws: seq<u32>)
    requires 0 < |ws|
    ensures var s := RecordSyndrome(ws);
            DecodeRecord(ws).code == 2 <==>
            && Parity(ws) == 1 && s != 0 && (forall k :: 0 <= k < 15 ==> Pow2(k) != s)
            && !(0x4010 <= s < 0x4000 + 32 * |ws|)
  {
    var s, n := RecordSyndrome(ws), 32 * |ws|;
    CodeMeans(ws);
    if forall p :: 0 <= p < n && p != 15 ==> Name(p) != s {
      forall k | 0 <= k < 15
        ensures Pow2(k) != s
      {
        assert Name(k) != s;
      }
      if 0x4010 <= s < 0x4000 + n {
        assert Name(s - 0x4000) == s;
      }
    }
  }

  lemma StripBit(ws: seq<u32>, p: nat)
    requires |ws| > 0 && p < 32 * |ws|
    ensures BitAt(Strip(ws), p) == (BitAt(ws, p) && !IsLinkBit(p))
  {
    if p < 32 {
      BitLow(ws[0], 20, p);
    }
  }

  lemma {:induction false} StripSum(ws: seq<u32>, n: nat)
    requires |ws| > 0 && n <= 32 * |ws|
    ensures Sum(RecordColumn, Strip(ws), n) == Sum(RecordColumn, ws, n)
  {
    if n != 0 {
      StripSum(ws, n - 1);
      StripBit(ws, n - 1);
    }
  }

  /**
   An accepted record is a codeword after correction: its syndrome is zero, unless it was the name of a link bit, which
   the correction inverts although the syndrome does not cover it.
   */
  lemma AcceptedIsClean(ws: seq<u32>)
    requires |ws| > 0 && DecodeRecord(ws).code < 2
    ensures var s := RecordSyndrome(ws);
            RecordSyndrome(DecodeRecord(ws).words) == if 0x4014 <= s < 0x4020 then s else 0
  {
    var s, n := RecordSyndrome(ws), 32 * |ws|;
    StripSum(ws, n);
    XorZero(s);
    if s == 0 {
      RecordFlip(Strip(ws), 15);
    } else {
      LookupNone(s, n);
      LookupBound(s, n);
      var p := Lookup(s, n).value;
      RecordFlip(Strip(ws), p);
      XorSelf(s);
      NameOfLinkBit(p, s);
    }
  }

  lemma NameOfLinkBit(p: nat, s: nat)
    requires p != 15 && s == Name(p)
    ensures IsLinkBit(p) <==> 0x4014 <= s < 0x4020
  {
    if p < 15 {
      Pow2Values();
      if p < 14 {
        Pow2Less(p, 14);
      }
    }
  }

  // ----- the link code

  /** The number of words of the next record, as the raw link field gives it. */
  function LinkField(w: u32): (r: nat)
    ensures r == w / 0x200_0000
  {
    Pow2Values();
    ShrQuotient(w, 25);
    Shr(w, 25)
  }

  /** Link bits inverted, as opposed to bits that the link code does not cover. */
  lemma LinkFlip(w: u32, p: nat)
    requires p < 32
    ensures LinkSyndrome(Flip([w], p)[0]) == Xor(LinkSyndrome(w), LinkColumn(p))
    ensures LinkParity(Flip([w], p)[0]) == Xor(LinkParity(w), LinkOne(p))
    ensures p < 20 ==> LinkField(Flip([w], p)[0]) == LinkField(w)
  {
    SumFlip(LinkColumn, [w], p, 32);
    SumFlip(LinkOne, [w], p, 32);
    var f := Flip([w], p);
    assert f == [f[0]];
    FlipParts(w, p, 25);
  }

  lemma CleanLinkFlip(w: u32, p: nat)
    requires CleanLink(w) && p < 20
    ensures CleanLink(Flip([w], p)[0]) && LinkField(Flip([w], p)[0]) == LinkField(w)
  {
    LinkFlip(w, p);
    XorZero(0);
  }

  lemma SingleLinkError(w: u32, p: nat)
    requires CleanLink(w) && 20 <= p < 32
    ensures DecodeLink(Flip([w], p)[0]) == DecodedLink(1, w)
  {
    LinkFlip(w, p);
    XorZero(LinkColumn(p));
    XorZero(1);
    var f := Flip([w], p);
    assert f == [f[0]];
    FlipTwice([w], p);
    FindHashVal(p - 20, 0);
  }

  lemma DoubleLinkError(w: u32, p: nat, q: nat)
    requires CleanLink(w) && 20 <= p < 32 && 20 <= q < 32 && p != q
    ensures DecodeLink(Flip(Flip([w], p), q)[0]).code == 3
  {
    LinkFlip(w, p);
    var f := Flip([w], p);
    assert f == [f[0]];
    LinkFlip(f[0], q);
    XorZero(LinkColumn(p));
    XorZero(1);
    XorSelf(1);
    XorIsZero(LinkColumn(p), LinkColumn(q));
    HashValsDiffer(p - 20, q - 20);
  }

  // ----- every link word

  /** The columns of the link bits: four powers of two, the parity bit, and the seven other numbers below 12. */
  lemma LinkColumnsAre(p: nat, q: nat)
    requires 20 <= p < 32 && 25 <= q < 31
    ensures p < 24 ==> LinkColumn(p) == Pow2(p - 20)
    ensures LinkColumn(p) == 0 <==> p == 24
    ensures LinkColumn(p) < 12 && (p > 24 ==> forall k :: 0 <= k < 4 ==> LinkColumn(p) != Pow2(k))
    ensures LinkColumn(q) < LinkColumn(q + 1)
  {
    FirstPowers();
  }

  lemma FirstPowers()
    ensures Pow2(0) == 1 && Pow2(1) == 2 && Pow2(2) == 4 && Pow2(3) == 8
  {
  }

  lemma {:induction false} LinkParityIsBit(w: u32, n: nat)
    requires n <= 32
    ensures Sum(LinkOne, [w], n) < 2
  {
    if n != 0 {
      LinkParityIsBit(w, n - 1);
      XorZero(Sum(LinkOne, [w], n - 1));
      XorSelf(1);
      XorZero(1);
    }
  }

  lemma {:induction false} NotFound(h: nat, i: nat)
    requires i <= 12
    ensures Find(h, i) == 12 <==> forall j :: i <= j < 12 ==> HashVals[j] != h
    decreases 12 - i
  {
    if i < 12 {
      NotFound(h, i + 1);
    }
  }

  lemma AllHashVals(h: nat)
    ensures (exists j :: 0 <= j < 12 && HashVals[j] == h) <==> h < 12
  {
    if h < 12 {
      var i := [4, 0, 1, 5, 2, 6, 7, 8, 3, 9, 10, 11][h];
      assert HashVals[i] == h;
    }
  }

  /** The return code for every word: odd parity is corrected for syndromes below 12 and rejected with 2 otherwise. */
  lemma LinkCodeMeans(w: u32)
    ensures var s, odd, code := LinkSyndrome(w), LinkParity(w) == 1, DecodeLink(w).code;
            && (code == 0 <==> !odd && s == 0)
            && (code == 3 <==> !odd && s != 0)
            && (code == 2 <==> odd && s >= 12)
            && code <= 3
  {
    LinkParityIsBit(w, 32);
    NotFound(LinkSyndrome(w), 0);
    AllHashVals(LinkSyndrome(w));
  }

  /** An accepted link is a codeword after correction. */
  lemma AcceptedLinkIsClean(w: u32)
    requires DecodeLink(w).code < 2
    ensures CleanLink(DecodeLink(w).word)
  {
    var s := LinkSyndrome(w);
    LinkParityIsBit(w, 32);
    XorZero(s);
    XorSelf(s);
    XorSelf(1);
    if LinkParity(w) == 1 {
      if s == 0 {
        LinkFlip(w, 24);
      } else {
        FoundIs(s, 0);
        LinkFlip(w, 20 + Find(s, 0));
      }
    }
  }

  lemma {:induction false} FoundIs(h: nat, i: nat)
    requires i <= 12 && Find(h, i) < 12
    ensures HashVals[Find(h, i)] == h
    decreases 12 - i
  {
    if HashVals[i] != h {
      FoundIs(h, i + 1);
    }
  }
}
