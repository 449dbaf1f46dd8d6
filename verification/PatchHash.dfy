/** The decoders of the fuse driver as it runs them, proved equal to the table decoders of `SecdedCode`. */
module PatchHash {
  import opened Bits
  import opened SecdedCode
  import opened Wrappers

  // ----- parity of a word, by folding

  /** Exclusive or of all bits of a. */
  function BitParity(a: nat): nat {
    if a == 0 then 0 else Xor(Digit(Odd(a)), BitParity(a / 2))
  }

  lemma XorDigit(x: bool, y: bool)
    ensures Xor(Digit(x), Digit(y)) == Digit(x != y)
  {
  }

  lemma {:induction false} BitParityDigit(a: nat)
    ensures BitParity(a) == 0 || BitParity(a) == 1
    ensures BitParity(a) == Xor(Digit(Odd(a)), BitParity(a / 2))
  {
    if a != 0 {
      BitParityDigit(a / 2);
      XorDigit(Odd(a), BitParity(a / 2) == 1);
    }
  }

  lemma {:induction false} BitParityXor(a: nat, b: nat)
    ensures BitParity(Xor(a, b)) == Xor(BitParity(a), BitParity(b))
    decreases a + b
  {
    if a + b != 0 {
      BitParityXor(a / 2, b / 2);
      XorStep(a, b);
      BitParityDigit(a);
      BitParityDigit(b);
      BitParityDigit(Xor(a, b));
      BitParityDigit(a / 2);
      BitParityDigit(b / 2);
      var x, y := BitParity(a / 2) == 1, BitParity(b / 2) == 1;
      XorDigit(Odd(a), x);
      XorDigit(Odd(b), y);
      XorDigit(x, y);
      XorDigit(Odd(a) != x, Odd(b) != y);
      XorDigit(Odd(a) != Odd(b), x != y);
    }
  }

  lemma {:induction false} BitParityShl(a: nat, k: nat)
    ensures BitParity(Shl(a, k)) == BitParity(a)
  {
    if k != 0 {
      BitParityShl(a, k - 1);
      BitParityDigit(Shl(a, k));
      BitParityDigit(Shl(a, k - 1));
      XorZero(BitParity(a));
    }
  }

  /** Folding a word onto its low half keeps its parity. */
  lemma FoldParity(a: nat, k: nat)
    ensures BitParity(Xor(Low(a, k), Shr(a, k))) == BitParity(a)
  {
    Parts(a, k);
    LowBound(a, k);
    Join(Low(a, k), Shr(a, k), k);
    BitParityXor(Low(a, k), Shr(a, k));
    BitParityXor(Low(a, k), Shl(Shr(a, k), k));
    BitParityShl(Shr(a, k), k);
  }

  /** Halving the width of a word: the result of one fold fits into k bits. */
  lemma FoldFits(a: nat, k: nat)
    requires a < Pow2(k + k)
    ensures Xor(Low(a, k), Shr(a, k)) < Pow2(k)
  {
    LowBound(a, k);
    ShrLess(a, k, k, k + k);
    XorBound(Low(a, k), Shr(a, k), k);
  }

  /** The next step of a sum over bits, addressed by word and bit. */
  lemma NextBit(column: nat -> nat, ws: seq<u32>, i: nat, b: nat, p: nat, next: nat)
    requires i < |ws| && b < 32 && p == 32 * i + b && next == p + 1
    ensures Sum(column, ws, next) == Xor(Sum(column, ws, p), if Bit(ws[i], b) then column(p) else 0)
  {
    assert p / 32 == i && p % 32 == b;
  }

  /** The parity of a record, word by word and bit by bit. */
  lemma {:induction false} ParityOfBits(ws: seq<u32>, i: nat, b: nat, start: nat, p: nat)
    requires i < |ws| && b <= 32 && start == 32 * i && p == start + b
    ensures Sum(One, ws, p) == Xor(Sum(One, ws, start), BitParity(Low(ws[i], b)))
    decreases b
  {
    if b == 0 {
      XorZero(Sum(One, ws, start));
    } else {
      ParityOfBits(ws, i, b - 1, start, p - 1);
      ParityStep(ws, i, b - 1, b, p - 1, p, Sum(One, ws, start));
    }
  }

  lemma ParityStep(ws: seq<u32>, i: nat, c: nat, b: nat, p: nat, next: nat, s: nat)
    requires i < |ws| && c < 32 && b == c + 1 && p == 32 * i + c && next == p + 1
    requires Sum(One, ws, p) == Xor(s, BitParity(Low(ws[i], c)))
    ensures Sum(One, ws, next) == Xor(s, BitParity(Low(ws[i], b)))
  {
    NextBit(One, ws, i, c, p, next);
    LowParity(ws[i], c, b);
    XorAssoc(s, BitParity(Low(ws[i], c)), Digit(Bit(ws[i], c)));
  }

  lemma LowParity(a: nat, k: nat, next: nat)
    requires next == k + 1
    ensures BitParity(Low(a, next)) == Xor(BitParity(Low(a, k)), Digit(Bit(a, k)))
  {
    LowBits(a, k);
    BitParityXor(Low(a, k), if Bit(a, k) then Pow2(k) else 0);
    BitParityShl(1, k);
    XorZero(1);
  }

  lemma ParityOfWord(ws: seq<u32>, i: nat, width: nat, start: nat, end: nat)
    requires i < |ws| && width == 32 && start == 32 * i && end == start + width
    ensures Sum(One, ws, end) == Xor(Sum(One, ws, start), BitParity(ws[i]))
  {
    ParityOfBits(ws, i, width, start, end);
    Pow2Values();
    LowBound(ws[i], width);
  }

  method Parity32Even(words: seq<u32>) returns (parity: nat)
    requires |words| > 0
    ensures parity == Parity(words)
  {
    Pow2Values();
    var acc := words[0];
    ghost var done := 32;
    ParityOfWord(words, 0, 32, 0, done);
    XorZero(BitParity(acc));
    for i := 1 to |words|
      invariant done == 32 * i && BitParity(acc) == Sum(One, words, done)
    {
      ghost var start := done;
      done := done + 32;
      BitParityXor(acc, words[i]);
      ParityOfWord(words, i, 32, start, done);
      acc := Xor32(acc, words[i]);
    }
    parity := Fold32(acc);
  }

  /** The last three folds. */
  method FoldByte(x: nat) returns (parity: nat)
    requires x < Pow2(8)
    ensures parity == BitParity(x)
  {
    FoldParity(x, 4);
    FoldFits(x, 4);
    var z := Xor(Low(x, 4), Shr(x, 4));
    FoldParity(z, 2);
    FoldFits(z, 2);
    assert Pow2(2) == 4 && Pow2(1) == 2;
    var lo, hi := Low(z, 2), Shr(z, 2);
    XorComm(hi, lo);
    var y := Xor(hi, lo);
    FoldParity(y, 1);
    FoldFits(y, 1);
    parity := Xor(Low(y, 1), Shr(y, 1));
    assert BitParity(parity) == parity;
  }

  /** One word folded onto one bit. */
  method Fold32(acc: u32) returns (parity: nat)
    ensures parity == BitParity(acc)
  {
    Pow2Values();
    FoldParity(acc, 16);
    FoldFits(acc, 16);
    var y := Xor(Low(acc, 16), Shr(acc, 16));
    FoldParity(y, 8);
    FoldFits(y, 8);
    var lo, hi := Low(y, 8), Shr(y, 8);
    XorComm(hi, lo);
    parity := FoldByte(Xor(hi, lo));
  }

  // ----- the record decoder

  /** What the double loop adds up: the plain position numbers of bits 16 to 19 and of all later words. */
  function LoopColumn(p: nat): nat {
    if p < 16 || IsLinkBit(p) then 0 else 0x4000 + p
  }

  /** One of the low fifteen bits: the loop skips it, and its column is the bit itself. */
  lemma LowPosition(ws: seq<u32>, m: nat, n: nat)
    requires |ws| > 0 && m < 15 && n == m + 1
    requires Sum(RecordColumn, ws, m) == Xor(Sum(LoopColumn, ws, m), Low(ws[0], m))
    ensures Sum(RecordColumn, ws, n) == Xor(Sum(LoopColumn, ws, n), Low(ws[0], n))
  {
    var s, c := Sum(LoopColumn, ws, m), if BitAt(ws, m) then RecordColumn(m) else 0;
    XorZero(Sum(RecordColumn, ws, m));
    XorZero(s);
    LowBits(ws[0], m);
    XorAssoc(s, Low(ws[0], m), c);
  }

  /** Any later bit: the loop adds its column, or both sums skip it. */
  lemma HighPosition(ws: seq<u32>, m: nat, n: nat, low: nat)
    requires |ws| > 0 && low == 15 <= m && n == m + 1 <= 32 * |ws|
    requires Sum(RecordColumn, ws, m) == Xor(Sum(LoopColumn, ws, m), Low(ws[0], low))
    ensures Sum(RecordColumn, ws, n) == Xor(Sum(LoopColumn, ws, n), Low(ws[0], low))
  {
    var s, c := Sum(LoopColumn, ws, m), if BitAt(ws, m) then RecordColumn(m) else 0;
    XorZero(Sum(RecordColumn, ws, m));
    XorZero(s);
    XorSwap(s, Low(ws[0], low), c);
  }

  /** The loop covers bits 16 and up, and the low fifteen bits name themselves. */
  lemma {:induction false} LoopSyndrome(ws: seq<u32>, n: nat)
    requires |ws| > 0 && n <= 32 * |ws|
    ensures Sum(RecordColumn, ws, n) == Xor(Sum(LoopColumn, ws, n), Low(ws[0], if n < 15 then n else 15))
  {
    if n != 0 {
      var m := n - 1;
      LoopSyndrome(ws, m);
      if m < 15 {
        LowPosition(ws, m, n);
      } else {
        HighPosition(ws, m, n, 15);
      }
    }
  }

  /** A word of zeros adds nothing to the loop sum. */
  lemma {:induction false} ZeroWord(ws: seq<u32>, i: nat, b: nat, start: nat, p: nat)
    requires i < |ws| && ws[i] == 0 && b <= 32 && start == 32 * i && p == start + b
    ensures Sum(LoopColumn, ws, p) == Sum(LoopColumn, ws, start)
    decreases b
  {
    if b != 0 {
      ZeroWord(ws, i, b - 1, start, p - 1);
      NextBit(LoopColumn, ws, i, b - 1, p - 1, p);
      BitOfZero(b - 1);
      XorZero(Sum(LoopColumn, ws, start));
    }
  }

  lemma {:induction false} SumSmall(column: nat -> nat, ws: seq<u32>, n: nat, k: nat)
    requires n <= 32 * |ws| && forall p :: 0 <= p < n ==> column(p) < Pow2(k)
    ensures Sum(column, ws, n) < Pow2(k)
  {
    Pow2Positive(k);
    if n != 0 {
      SumSmall(column, ws, n - 1, k);
      XorBound(Sum(column, ws, n - 1), if BitAt(ws, n - 1) then column(n - 1) else 0, k);
    }
  }

  lemma SyndromeSmall(ws: seq<u32>)
    requires |ws| <= 512
    ensures RecordSyndrome(ws) < 0x8000
  {
    Pow2Values();
    forall p | 0 <= p < 32 * |ws|
      ensures RecordColumn(p) < Pow2(15)
    {
      if p < 15 { Pow2Less(p, 15); }
    }
    SumSmall(RecordColumn, ws, 32 * |ws|, 15);
  }

  function BitCount(a: nat, n: nat): nat {
    if n == 0 then 0 else BitCount(a, n - 1) + if Bit(a, n - 1) then 1 else 0
  }

  lemma {:induction false} NoBits(a: nat, n: nat)
    ensures BitCount(a, n) == 0 <==> Low(a, n) == 0
  {
    if n != 0 {
      NoBits(a, n - 1);
      LowBits(a, n - 1);
      XorZero(Low(a, n - 1));
      Pow2Positive(n - 1);
      LowBound(a, n - 1);
      XorIsZero(Low(a, n - 1), Pow2(n - 1));
    }
  }

  /** Exactly one bit set below n: the number is the name of that check bit. */
  lemma {:induction false} OneBit(a: nat, n: nat)
    requires n <= 15
    ensures BitCount(a, n) == 1 <==> Lookup(Low(a, n), n).Some?
    ensures BitCount(a, n) == 1 ==> Name(Lookup(Low(a, n), n).value) == Low(a, n)
  {
    if n != 0 {
      var m := n - 1;
      OneBit(a, m);
      NoBits(a, m);
      LowBits(a, m);
      LowBound(a, m);
      XorZero(Low(a, m));
      XorZero(Pow2(m));
      if Bit(a, m) {
        XorIsZero(Xor(Low(a, m), Pow2(m)), Pow2(m));
        XorCancel(Low(a, m), Pow2(m));
        BitXor(Low(a, m), Pow2(m), m);
        BitPow2(m, m);
        BitLow(a, m, m);
        LookupTop(Low(a, n), m);
      }
    }
  }

  /** A value with bit m set is not the name of a check bit below m. */
  lemma {:induction false} LookupTop(s: nat, m: nat)
    requires m <= 15 && Bit(s, m)
    ensures forall k: nat :: k <= m ==> Lookup(s, k) == None
  {
    forall k: nat | k <= m
      ensures Lookup(s, k) == None
    {
      LookupNone(s, k, m);
    }
  }

  lemma {:induction false} LookupNone(s: nat, k: nat, m: nat)
    requires k <= m <= 15 && Bit(s, m)
    ensures Lookup(s, k) == None
  {
    if k != 0 {
      LookupNone(s, k - 1, m);
      BitPow2(k - 1, m);
    }
  }

  /** The arithmetic test of the decoder finds what the table finds. */
  lemma LocateByArithmetic(s: nat, n: nat)
    requires 0 < s < 0x8000 && 32 <= n
    ensures 0x4010 <= s < 0x4000 + n ==> Lookup(s, n) == Some(s - 0x4000)
    ensures !(0x4010 <= s < 0x4000 + n) ==> Lookup(s, n) == Lookup(s, 15)
  {
    if 0x4010 <= s < 0x4000 + n {
      LookupName(s - 0x4000, n);
    } else {
      LookupLow(s, n);
    }
  }

  lemma {:induction false} LookupLow(s: nat, n: nat)
    requires 15 <= n && (s < 0x4010 || 0x4000 + n <= s)
    ensures Lookup(s, n) == Lookup(s, 15)
  {
    if n != 15 {
      LookupLow(s, n - 1);
    }
  }

  /** Only bits 16 to 19 of the first word enter the loop. */
  lemma {:induction false} LoopMask(a: seq<u32>, b: seq<u32>, n: nat)
    requires |a| == |b| > 0 && n <= 32 * |a| && a[1..] == b[1..]
    requires forall p :: 16 <= p < 20 ==> Bit(a[0], p) == Bit(b[0], p)
    ensures Sum(LoopColumn, a, n) == Sum(LoopColumn, b, n)
  {
    if n != 0 {
      LoopMask(a, b, n - 1);
      var i := (n - 1) / 32;
      assert i > 0 ==> a[i] == a[1..][i - 1] && b[i] == b[1..][i - 1];
      XorZero(Sum(LoopColumn, a, n - 1));
    }
  }

  lemma MaskedFirstWord(ms: seq<u32>, ws: seq<u32>)
    requires |ms| == |ws| > 0 && ms[1..] == ws[1..] && ms[0] == Mask(ws[0], 16, 4)
    ensures Sum(LoopColumn, ms, 32 * |ms|) == Sum(LoopColumn, ws, 32 * |ws|)
  {
    forall p | 16 <= p < 20
      ensures Bit(ms[0], p) == Bit(ws[0], p)
    {
      BitMask(ws[0], 16, 4, p);
    }
    LoopMask(ms, ws, 32 * |ws|);
  }

  /** The inner loop: one word, whose plain position numbers are added to the hash. */
  method WordLoop(ghost ms: seq<u32>, i: nat, w: u32, hash0: nat, ghost start: nat, ghost end: nat) returns (hash: nat)
    requires i < |ms| && w == ms[i] && (i == 0 ==> w == Mask(w, 16, 4)) && start == 32 * i && end == start + 32
    requires hash0 == Sum(LoopColumn, ms, start)
    ensures hash == Sum(LoopColumn, ms, end)
  {
    hash := hash0;
    if w == 0 {
      ZeroWord(ms, i, 32, start, end);
      return;
    }
    ghost var p := start;
    for bitPos := 0 to 32
      invariant p == start + bitPos && hash == Sum(LoopColumn, ms, p)
    {
      p := p + 1;
      hash := BitStep(ms, i, w, hash, bitPos, p - 1, p);
    }
  }

  method BitStep(ghost ms: seq<u32>, i: nat, w: u32, hash0: nat, bitPos: nat, ghost p: nat,
                 ghost next: nat) returns (hash: nat)
    requires i < |ms| && w == ms[i] && (i == 0 ==> w == Mask(w, 16, 4)) && bitPos < 32 && p == 32 * i + bitPos
    requires next == p + 1
    requires hash0 == Sum(LoopColumn, ms, p)
    ensures hash == Sum(LoopColumn, ms, next)
  {
    hash := hash0;
    NextBit(LoopColumn, ms, i, bitPos, p, next);
    XorZero(hash);
    if Bit(w, bitPos) {
      if i == 0 {
        BitMask(w, 16, 4, bitPos);
      }
      hash := Xor(hash, 0x4000 + i * 32 + bitPos);
    }
  }

  /** The first half of _patch_hash_multi: the syndrome, with the link bits masked off the first word. */
  method SyndromeLoop(words: array<u32>, count: nat) returns (hash: nat)
    requires 0 < count <= words.Length
    modifies words
    ensures hash == RecordSyndrome(old(words[..count]))
    ensures words[..count] == Strip(old(words[..count]))
    ensures words[count..] == old(words[count..])
  {
    ghost var ws := words[..count];
    var bits0to14 := Low(words[0], 15);
    var bit15 := Mask(words[0], 15, 1);
    var bits16to19 := Mask(words[0], 16, 4);
    FirstWord(words[0]);
    hash := 0;
    words[0] := bits16to19;
    ghost var ms := words[..count];
    ghost var done := 0;
    for i := 0 to count
      invariant words[..count] == ms && words[count..] == old(words[count..])
      invariant done == 32 * i && hash == Sum(LoopColumn, ms, done)
    {
      assert words[i] == ms[i];
      ghost var start := done;
      done := done + 32;
      hash := WordLoop(ms, i, words[i], hash, start, done);
    }
    MaskedFirstWord(ms, ws);
    LoopSyndrome(ws, 32 * count);
    hash := Xor(hash, bits0to14);
    words[0] := Xor(Xor(bits16to19, bit15), bits0to14);
  }

  lemma FirstWord(w: u32)
    ensures Xor(Xor(Mask(w, 16, 4), Mask(w, 15, 1)), Low(w, 15)) == Low(w, 20) < 0x10_0000
    ensures Mask(w, 16, 4) < 0x10_0000 && Mask(Mask(w, 16, 4), 16, 4) == Mask(w, 16, 4)
  {
    ShlShr(Low(Shr(w, 16), 4), 16);
    LowLow(Shr(w, 16), 4);
    MaskJoin(w, 15, 1);
    MaskJoin(w, 16, 4);
    LowSplit(w, 16, 4);
    XorAssoc(Mask(w, 16, 4), Mask(w, 15, 1), Low(w, 15));
    Pow2Values();
    LowBound(w, 20);
  }

  /** One bit of the record is inverted in place. */
  method InvertBit(words: array<u32>, count: nat, i: nat, mask: u32, ghost p: nat)
    requires i < count <= words.Length && p / 32 == i && mask == Pow2(p % 32)
    modifies words
    ensures words[..count] == Flip(old(words[..count]), p)
    ensures words[count..] == old(words[count..])
  {
    words[i] := Xor32(words[i], mask);
  }

  /** The odd case: the bit that the syndrome names is turned around, if it names one. */
  method CorrectRecord(words: array<u32>, count: nat, hash: nat) returns (code: nat)
    requires 0 < count <= words.Length && count <= 512 && 0 < hash < 0x8000
    modifies words
    ensures match Lookup(hash, 32 * count)
            case None => code == 2 && words[..count] == old(words[..count])
            case Some(p) => p < 32 * count && code == 1 && words[..count] == Flip(old(words[..count]), p)
    ensures words[count..] == old(words[count..])
  {
    ghost var found := Lookup(hash, 32 * count);
    PowerFits(15);
    LocateByArithmetic(hash, 32 * count);
    var bitCount := (hash + 0x1_0000_0000 - 0x4000) % 0x1_0000_0000;
    if bitCount < 16 || bitCount >= count * 32 {
      var numSet := CountBits(hash);
      if numSet != 1 {
        return 2;
      }
      InvertBit(words, count, 0, hash, found.value);
      return 1;
    }
    PowerFits(bitCount % 32);
    InvertBit(words, count, bitCount / 32, Pow2(bitCount % 32), found.value);
    code := 1;
  }

  /** _patch_hash_multi: the record in the array is corrected in place. */
  method PatchHashMulti(words: array<u32>, count: nat) returns (code: nat)
    requires 0 < count <= words.Length && count <= 512
    modifies words
    ensures Decoded(code, words[..count]) == DecodeRecord(old(words[..count]))
    ensures var s, odd := RecordSyndrome(old(words[..count])), Parity(old(words[..count])) == 1;
            && (code == 0 <==> !odd && s == 0) && (code == 3 <==> !odd && s != 0) && code <= 3
            && (code == 2 <==>
                odd && s != 0 && (forall k :: 0 <= k < 15 ==> Pow2(k) != s) && !(0x4010 <= s < 0x4000 + 32 * count))
    ensures words[count..] == old(words[count..])
  {
    ghost var ws := words[..count];
    CodeMeans(ws);
    UncorrectableIs(ws);
    Pow2Values();
    var parity := Parity32Even(words[..count]);
    var hash := SyndromeLoop(words, count);
    SyndromeSmall(ws);
    assert words[..count] == Strip(ws);
    PowerFits(15);
    if hash == 0 {
      if parity == 0 {
        return 0;
      }
      words[0] := Xor32(words[0], 0x8000);
      assert words[..count] == Flip(Strip(ws), 15);
      return 1;
    }
    if parity == 0 {
      return 3;
    }
    code := CorrectRecord(words, count, hash);
  }

  /** The number of bits set below bit 15. */
  method CountBits(hash: nat) returns (numSet: nat)
    requires hash < 0x8000
    ensures numSet == 1 <==> Lookup(hash, 15).Some?
    ensures numSet == 1 ==> Lookup(hash, 15).value < 15 && Pow2(Lookup(hash, 15).value) == hash
  {
    numSet := 0;
    for bitPos := 0 to 15
      invariant numSet == BitCount(hash, bitPos)
    {
      if Bit(hash, bitPos) {
        numSet := numSet + 1;
      }
    }
    Pow2Values();
    LowBound(hash, 15);
    OneBit(hash, 15);
    LookupBound(hash, 15);
  }

  // ----- the link decoder

  /** The link parity is the parity of the masked word. */
  lemma {:induction false} LinkParityMask(w: u32, m: u32, n: nat)
    requires n <= 32 && m == Mask(w, 20, 12)
    ensures Sum(LinkOne, [w], n) == Sum(One, [m], n)
  {
    if n != 0 {
      LinkParityMask(w, m, n - 1);
      BitMask(w, 20, 12, n - 1);
      XorZero(Sum(One, [m], n - 1));
    }
  }

  /** The bits below the link bits have no column. */
  lemma {:induction false} LowLinkBits(w: u32, n: nat)
    requires n <= 20
    ensures Sum(LinkColumn, [w], n) == 0
  {
    if n != 0 {
      LowLinkBits(w, n - 1);
      XorZero(0);
    }
  }

  /** The search in the table of bit names; 12 if there is none. */
  method FindName(hash: nat) returns (i: nat)
    ensures i == Find(hash, 0)
  {
    for k := 0 to 12
      invariant Find(hash, 0) == Find(hash, k)
    {
      if HashVals[k] == hash {
        return k;
      }
    }
    i := 12;
  }

  /** The parity of bits 20 to 31. */
  method LinkParityBits(w: u32) returns (parity: nat)
    ensures parity == LinkParity(w)
  {
    LowSplit(w, 20, 12);
    Pow2Values();
    LowBound(w, 32);
    var bits20to31: u32 := Mask(w, 20, 12);
    parity := Parity32Even([bits20to31]);
    LinkParityMask(w, bits20to31, 32);
  }

  /** The names of the bits that are set among them, added up. */
  method LinkHash(w: u32) returns (hash: nat)
    ensures hash == LinkSyndrome(w)
  {
    hash := 0;
    ghost var p := 20;
    LowLinkBits(w, p);
    for i := 0 to 12
      invariant p == 20 + i && hash == Sum(LinkColumn, [w], p)
    {
      p := p + 1;
      XorZero(hash);
      if Bit(w, 20 + i) {
        hash := Xor(hash, HashVals[i]);
      }
    }
  }

  /** _patch_hash_one, with the word passed by value. */
  method PatchHashOne(w: u32) returns (code: nat, word: u32)
    ensures DecodedLink(code, word) == DecodeLink(w)
    ensures var s, odd := LinkSyndrome(w), LinkParity(w) == 1;
            && (code == 0 <==> !odd && s == 0) && (code == 3 <==> !odd && s != 0) && code <= 3
            && (code == 2 <==> odd && s >= 12)
  {
    LinkCodeMeans(w);
    var parity := LinkParityBits(w);
    var hash := LinkHash(w);
    PowerFits(24);
    if hash == 0 {
      if parity == 0 {
        return 0, w;
      }
      return 1, Xor32(w, Pow2(24));
    }
    if parity == 0 {
      return 3, w;
    }
    var i := FindName(hash);
    if i < 12 {
      PowerFits(20 + i);
      return 1, Xor32(w, Pow2(20 + i));
    }
    return 2, w;
  }
}
