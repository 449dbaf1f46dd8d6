/** The three routines that walk the patch chain: fuse_read_ipatch, fuse_read_evp_thunk, fuse_check_patched_rcm. */
module FuseWalkers {
  import opened Bits
  import opened SecdedCode
  import opened PatchHash
  import opened FuseChain

  // ----- reading one record

  /** The words of a chain are read from pairwise different fuse addresses. */
  lemma AddrInjective(b01: bool, j: nat, k: nat)
    requires j < MAX_WORDS && k < MAX_WORDS
    ensures Addr(b01, j) == Addr(b01, k) <==> j == k
  {
  }

  method ReadRecord(c: Chip, words: array<u32>, pos: nat, count: nat, addr0: u32) returns (addr: u32)
    requires words.Length == MAX_WORDS && pos + count < MAX_WORDS && addr0 == Addr(c.b01, pos)
    modifies words
    ensures words[..] == Record(c, pos, count) + old(words[count..]) && addr == Addr(c.b01, pos + count)
  {
    addr := addr0;
    for i := 0 to count
      invariant addr == Addr(c.b01, pos + i)
      invariant forall j :: 0 <= j < i ==> words[j] == c.fuses[Addr(c.b01, pos + j)]
      invariant forall j :: i <= j < MAX_WORDS ==> words[j] == old(words[j])
    {
      words[i] := c.fuses[addr];
      addr := addr - 1;
      if c.b01 && addr == (ARRAY_WORDS - 1) - (ARRAY_WORDS_B01 - ARRAY_WORDS) / 4 {
        addr := ARRAY_WORDS_B01 - 1;
      }
    }
  }

  /** The first half of an iteration: read a record into the buffer and correct it there. */
  method CheckRecord(c: Chip, words: array<u32>, pos: nat, count: nat, addr0: u32)
      returns (addr: u32, code: nat, word0: u32)
    requires words.Length == MAX_WORDS && 0 < count && pos + count < MAX_WORDS && addr0 == Addr(c.b01, pos)
    modifies words
    ensures addr == Addr(c.b01, pos + count) && word0 == Record(c, pos, count)[0]
    ensures code == DecodeRecord(Record(c, pos, count)).code
    ensures words[..] == VisitOf(Record(c, pos, count), old(words[..])).words
  {
    ghost var raw := Record(c, pos, count);
    addr := ReadRecord(c, words, pos, count, addr0);
    word0 := words[0];
    assert words[..count] == raw;
    code := PatchHashMulti(words, count);
    assert words[..] == words[..count] + words[count..];
  }

  /** What the rest of a walk still delivers, and how it ends. */
  datatype Delivery = Delivery(patches: seq<Call>, code: nat)

  function Rest(c: Chip, pos: nat, count: nat, buf: Buffer): Delivery {
    var t := Walk(c, pos, count, buf);
    Delivery(AllPatches(t.visits), t.code)
  }

  lemma StopAtRecord(c: Chip, pos: nat, count: nat, buf: Buffer)
    requires 0 < count && pos + count < MAX_WORDS && DecodeRecord(Record(c, pos, count)).code >= 2
    ensures Rest(c, pos, count, buf) == Delivery([], 1)
  {
  }

  lemma StopAtLink(c: Chip, pos: nat, count: nat, buf: Buffer, word0: u32)
    requires 0 < count && pos + count < MAX_WORDS && DecodeRecord(Record(c, pos, count)).code < 2
    requires word0 == Record(c, pos, count)[0] && (LinkField(word0) == 0 || DecodeLink(word0).code >= 2)
    ensures Rest(c, pos, count, buf) ==
            Delivery(Patches(VisitOf(Record(c, pos, count), buf)), if LinkField(word0) == 0 then 0 else 3)
  {
    var v := VisitOf(Record(c, pos, count), buf);
    assert AllPatches([v]) == Patches(v) + [];
  }

  lemma GoOn(c: Chip, pos: nat, count: nat, buf: Buffer, word0: u32, pos': nat, count': nat, buf': Buffer)
    requires 0 < count && pos + count < MAX_WORDS && DecodeRecord(Record(c, pos, count)).code < 2
    requires word0 == Record(c, pos, count)[0] && LinkField(word0) != 0 && DecodeLink(word0).code < 2
    requires pos' == pos + count && count' == LinkField(DecodeLink(word0).word)
    requires buf' == VisitOf(Record(c, pos, count), buf).words[0 := word0]
    ensures Rest(c, pos, count, buf).patches ==
            Patches(VisitOf(Record(c, pos, count), buf)) + Rest(c, pos', count', buf').patches
    ensures Rest(c, pos, count, buf).code == Rest(c, pos', count', buf').code
  {
  }

  // ----- fuse_read_ipatch

  /** The calls made through the callback are collected in order. */
  method MakeCalls(v: Visit, calls0: seq<Call>) returns (calls: seq<Call>)
    ensures calls == calls0 + Patches(v)
  {
    calls := calls0;
    var patchCount := PatchCount(v.words[0]);
    for i := 0 to patchCount
      invariant calls == calls0 + CallsOf(v.words[1..1 + i])
    {
      calls := calls + [PatchOf(v.words[i + 1])];
    }
  }

  /** words is the uninitialised buffer on the stack of the driver. */
  method ReadIpatch(c: Chip, words: array<u32>) returns (code: nat, calls: seq<Call>)
    requires words.Length == MAX_WORDS
    modifies words
    ensures code == Walk(c, 0, FirstCount(c), old(words[..])).code
    ensures calls == AllPatches(Visits(c, old(words[..])))
    ensures var ws := AllPatchWords(Visits(c, old(words[..])));
            |calls| == |ws| &&
            forall i :: 0 <= i < |ws| ==> calls[i].offset == ws[i] / 0x1_0000 * 2 && calls[i].value == ws[i] % 0x1_0000
  {
    CallsMean(Visits(c, words[..]));
    ghost var whole, buf: Buffer := Rest(c, 0, FirstCount(c), words[..]), words[..];
    var count := Low(c.firstSize, 7);
    var addr: u32, total := ARRAY_WORDS - 1, 0;
    calls := [];
    while count != 0
      invariant total < MAX_WORDS && addr == Addr(c.b01, total) && words[..] == buf
      invariant whole.patches == calls + Rest(c, total, count, buf).patches
      invariant whole.code == Rest(c, total, count, buf).code
      decreases MAX_WORDS - total
    {
      ghost var calls0 := calls;
      if total + count >= MAX_WORDS {
        return 0, calls;
      }
      ghost var v := VisitOf(Record(c, total, count), buf);
      var hashCode, word0;
      addr, hashCode, word0 := CheckRecord(c, words, total, count, addr);
      if hashCode >= 2 {
        StopAtRecord(c, total, count, buf);
        return 1, calls;
      }
      calls := MakeCalls(Visit(words[..], count), calls);
      words[0] := word0;
      if LinkField(word0) == 0 {
        StopAtLink(c, total, count, buf, word0);
        return 0, calls;
      }
      var linkCode, link := PatchHashOne(word0);
      if linkCode >= 2 {
        StopAtLink(c, total, count, buf, word0);
        return 3, calls;
      }
      ghost var total0, count0, buf0 := total, count, buf;
      total, count, buf := total + count, LinkField(link), v.words[0 := word0];
      GoOn(c, total0, count0, buf0, word0, total, count, buf);
      AppendAssoc(calls0, Patches(v), Rest(c, total, count, buf).patches);
    }
    code := 0;
  }

  // ----- fuse_read_evp_thunk

  const TEMPLATE: seq<u32> := [
    0xe92d0007, 0xe1a0200e, 0xe2422002, 0xe5922000, 0xe20220ff, 0xe1a02082, 0xe59f001c, 0xe59f101c, 0xe0411000,
    0xe59f0018, 0xe0800001, 0xe0822000, 0xe3822001, 0xe8bd0003, 0xe12fff12, 0x001007b0, 0x001007f8, 0x40004c30]

  const OFFSETS_B01: seq<u32> := [0x0010022c, 0x00100174, 0x40004164]

  /** The thunk code that precedes the instructions; the B01 chip has other addresses at its end. */
  function Template(b01: bool): (r: seq<u32>)
    ensures |r| == 18
  {
    if b01 then TEMPLATE[..15] + OFFSETS_B01 else TEMPLATE
  }

  /** The three addresses at the end depend on the chip, the code before them does not. */
  lemma TemplateEnds(b01: bool)
    ensures Template(b01)[15..] ==
            if b01 then [0x0010_022c, 0x0010_0174, 0x4000_4164] else [0x0010_07b0, 0x0010_07f8, 0x4000_4c30]
    ensures Template(b01)[..15] == Template(!b01)[..15]
  {
    assert (TEMPLATE[..15] + OFFSETS_B01)[15..] == OFFSETS_B01;
  }

  /** What the thunk buffer is given when the walk delivers these instructions. */
  function Image(b01: bool, insns: seq<u32>): seq<u32> {
    if insns == [] then [] else Template(b01) + insns
  }

  ghost predicate AllFit(c: Chip, pos: nat, count: nat, buf: Buffer) {
    forall v <- Walk(c, pos, count, buf).visits :: Fits(v)
  }

  ghost function RestInsns(c: Chip, pos: nat, count: nat, buf: Buffer): seq<u32>
    requires AllFit(c, pos, count, buf)
  {
    AllInsns(Walk(c, pos, count, buf).visits)
  }

  lemma InsnsAtStop(c: Chip, pos: nat, count: nat, buf: Buffer, word0: u32)
    requires 0 < count && pos + count < MAX_WORDS && DecodeRecord(Record(c, pos, count)).code < 2
    requires word0 == Record(c, pos, count)[0] && (LinkField(word0) == 0 || DecodeLink(word0).code >= 2)
    requires AllFit(c, pos, count, buf)
    ensures Fits(VisitOf(Record(c, pos, count), buf))
    ensures RestInsns(c, pos, count, buf) == Insns(VisitOf(Record(c, pos, count), buf))
  {
    var v := VisitOf(Record(c, pos, count), buf);
    assert Walk(c, pos, count, buf).visits == [v];
    assert v in [v];
    assert AllInsns([v]) == Insns(v) + [];
  }

  lemma InsnsGoOn(c: Chip, pos: nat, count: nat, buf: Buffer, word0: u32, pos': nat, count': nat, buf': Buffer)
    requires 0 < count && pos + count < MAX_WORDS && DecodeRecord(Record(c, pos, count)).code < 2
    requires word0 == Record(c, pos, count)[0] && LinkField(word0) != 0 && DecodeLink(word0).code < 2
    requires pos' == pos + count && count' == LinkField(DecodeLink(word0).word)
    requires buf' == VisitOf(Record(c, pos, count), buf).words[0 := word0]
    requires AllFit(c, pos, count, buf)
    ensures Fits(VisitOf(Record(c, pos, count), buf)) && AllFit(c, pos', count', buf')
    ensures RestInsns(c, pos, count, buf) ==
            Insns(VisitOf(Record(c, pos, count), buf)) + RestInsns(c, pos', count', buf')
  {
    var v, rest := VisitOf(Record(c, pos, count), buf), Walk(c, pos', count', buf').visits;
    assert Walk(c, pos, count, buf).visits == [v] + rest;
    InsnsCons(v, rest, [v] + rest);
  }

  lemma InsnsCons(v: Visit, rest: seq<Visit>, all: seq<Visit>)
    requires all == [v] + rest && forall x <- all :: Fits(x)
    ensures Fits(v) && (forall x <- rest :: Fits(x)) && AllInsns(all) == Insns(v) + AllInsns(rest)
  {
    assert all[0] == v && all[1..] == rest;
    assert forall x <- rest :: x in all;
  }

  /** A walk delivers fewer instructions than there are words left. */
  lemma {:induction false} FewInsns(c: Chip, pos: nat, count: nat, buf: Buffer)
    requires AllFit(c, pos, count, buf) && pos < MAX_WORDS
    ensures |RestInsns(c, pos, count, buf)| < MAX_WORDS - pos
    decreases MAX_WORDS - pos
  {
    if 0 < count && pos + count < MAX_WORDS && DecodeRecord(Record(c, pos, count)).code < 2 {
      var w := Record(c, pos, count)[0];
      if LinkField(w) == 0 || DecodeLink(w).code >= 2 {
        InsnsAtStop(c, pos, count, buf, w);
      } else {
        var pos', count' := pos + count, LinkField(DecodeLink(w).word);
        var buf' := VisitOf(Record(c, pos, count), buf).words[0 := w];
        InsnsGoOn(c, pos, count, buf, w, pos', count', buf');
        FewInsns(c, pos', count', buf');
      }
    }
  }

  method CopyWords(dst: array<u32>, at: nat, src: seq<u32>)
    requires at + |src| <= dst.Length
    modifies dst
    ensures dst[..] == old(dst[..at]) + src + old(dst[at + |src|..])
  {
    for i := 0 to |src|
      invariant dst[..] == old(dst[..at]) + src[..i] + old(dst[at + i..])
    {
      dst[at + i] := src[i];
    }
  }

  /** The thunk buffer once the given instructions have been delivered; base is what it held before. */
  function Overlay(b01: bool, insns: seq<u32>, base: seq<u32>): seq<u32> {
    var image := Image(b01, insns);
    image + base[if |image| <= |base| then |image| else |base|..]
  }

  lemma OverlayStart(b01: bool, insns: seq<u32>, base: seq<u32>)
    requires insns != []
    ensures |Overlay(b01, insns, base)| >= 18 + |insns| && Overlay(b01, insns, base)[15..18] == Template(b01)[15..]
    ensures Overlay(b01, insns, base)[18..18 + |insns|] == insns
    ensures 18 + |insns| <= |base| ==>
              |Overlay(b01, insns, base)| == |base| &&
              Overlay(b01, insns, base)[18 + |insns|..] == base[18 + |insns|..]
  {
    var t := Template(b01);
    assert Overlay(b01, insns, base)[..18] == t;
    assert Overlay(b01, insns, base)[15..18] == Overlay(b01, insns, base)[..18][15..];
  }

  /** The local variables of the driver: whether anything is written, where to go on, and the reported length. */
  datatype Cursor = Cursor(written: bool, dst: nat, len: nat) {
    ghost predicate At(insns: seq<u32>, len0: nat) {
      if insns == [] then !written && len == len0 else written && dst == 18 + |insns| && len == 4 * dst
    }
  }

  method WriteTemplate(b01: bool, thunks: array<u32>, k0: Cursor) returns (k: Cursor)
    requires 18 <= thunks.Length
    modifies thunks
    ensures k.written && if k0.written then k == k0 && thunks[..] == old(thunks[..])
            else k.dst == 18 && k.len == 4 * 18 && thunks[..] == Template(b01) + old(thunks[18..])
  {
    k := k0;
    if !k.written {
      CopyWords(thunks, 0, Template(b01));
      k := Cursor(true, 18, 4 * 18);
    }
  }

  lemma SplitAppend<T>(a: seq<T>, b: seq<T>, n: nat)
    requires n <= |b|
    ensures (a + b)[..|a|] == a && (a + b)[|a| + n..] == b[n..]
  {
  }

  lemma MoreBehind<T>(template: seq<T>, insns0: seq<T>, insns: seq<T>, base: seq<T>, dst: nat, end: nat)
    requires dst == |template + insns0| && end == dst + |insns| <= |base|
    ensures var thunks := template + insns0 + base[dst..];
            thunks[..dst] + insns + thunks[end..] == template + (insns0 + insns) + base[end..]
  {
    SplitAppend(template + insns0, base[dst..], |insns|);
    assert base[dst..][|insns|..] == base[end..];
    AppendAssoc(template, insns0, insns);
  }

  lemma ImageMore(b01: bool, insns0: seq<u32>, insns: seq<u32>, base: seq<u32>)
    requires insns != [] && 18 + |insns0| + |insns| <= |base|
    ensures var dst := 18 + |insns0|;
            var thunks := Template(b01) + insns0 + base[dst..];
            thunks[..dst] + insns + thunks[dst + |insns|..] == Overlay(b01, insns0 + insns, base)
  {
    var dst := 18 + |insns0|;
    MoreBehind(Template(b01), insns0, insns, base, dst, dst + |insns|);
  }

  /** Append the instructions of one visit, after the template if they are the first. */
  method AppendThunk(b01: bool, thunks: array<u32>, k0: Cursor, insns: seq<u32>, ghost insns0: seq<u32>,
                     ghost base: seq<u32>, ghost len0: nat)
      returns (k: Cursor)
    requires thunks[..] == Overlay(b01, insns0, base) && |base| == thunks.Length && k0.At(insns0, len0)
    requires 18 + |insns0| + |insns| <= thunks.Length
    modifies thunks
    ensures thunks[..] == Overlay(b01, insns0 + insns, base) && k.At(insns0 + insns, len0)
  {
    k := k0;
    if |insns| == 0 {
      assert insns0 + insns == insns0;
      return;
    }
    k := WriteTemplate(b01, thunks, k);
    WithTemplate(b01, insns0, base, thunks[..]);
    k := AppendInsns(b01, thunks, k, insns, insns0, base, len0);
  }

  /** Once the template is there, the thunk so far is the template and the instructions. */
  lemma WithTemplate(b01: bool, insns0: seq<u32>, base: seq<u32>, thunks: seq<u32>)
    requires 18 + |insns0| <= |base|
    requires if insns0 == [] then thunks == Template(b01) + Overlay(b01, insns0, base)[18..]
             else thunks == Overlay(b01, insns0, base)
    ensures thunks == Template(b01) + insns0 + base[18 + |insns0|..]
  {
    if insns0 == [] {
      assert Overlay(b01, insns0, base) == base;
      assert Template(b01) + insns0 == Template(b01);
    }
  }

  method AppendInsns(b01: bool, thunks: array<u32>, k0: Cursor, insns: seq<u32>, ghost insns0: seq<u32>,
                     ghost base: seq<u32>, ghost len0: nat)
      returns (k: Cursor)
    requires insns != [] && |base| == thunks.Length && 18 + |insns0| + |insns| <= thunks.Length
    requires thunks[..] == Template(b01) + insns0 + base[18 + |insns0|..]
    requires k0 == Cursor(true, 18 + |insns0|, 4 * (18 + |insns0|))
    modifies thunks
    ensures thunks[..] == Overlay(b01, insns0 + insns, base) && k.At(insns0 + insns, len0)
  {
    ImageMore(b01, insns0, insns, base);
    CopyWords(thunks, k0.dst, insns);
    k := Cursor(true, k0.dst + |insns|, k0.len + 4 * |insns|);
  }

  lemma Regroup<T>(whole: seq<T>, got: seq<T>, rest: seq<T>, more: seq<T>, rest': seq<T>)
    requires whole == got + rest && rest == more + rest'
    ensures whole == (got + more) + rest'
  {
  }

  /** The instructions of the next visit are the first ones still to come. */
  lemma StepInsns(c: Chip, pos: nat, count: nat, buf: Buffer, word0: u32)
    requires 0 < count && pos + count < MAX_WORDS && DecodeRecord(Record(c, pos, count)).code < 2
    requires word0 == Record(c, pos, count)[0] && AllFit(c, pos, count, buf)
    ensures Fits(VisitOf(Record(c, pos, count), buf))
    ensures |Insns(VisitOf(Record(c, pos, count), buf))| <= |RestInsns(c, pos, count, buf)|
  {
    if LinkField(word0) == 0 || DecodeLink(word0).code >= 2 {
      InsnsAtStop(c, pos, count, buf, word0);
    } else {
      var buf' := VisitOf(Record(c, pos, count), buf).words[0 := word0];
      InsnsGoOn(c, pos, count, buf, word0, pos + count, LinkField(DecodeLink(word0).word), buf');
    }
  }

  /** The instructions of one record, taken from the word buffer. */
  method VisitThunk(b01: bool, words: array<u32>, count: nat, thunks: array<u32>, k0: Cursor, ghost v: Visit,
                    ghost got: seq<u32>, ghost base: seq<u32>, ghost len0: nat)
      returns (k: Cursor)
    requires words != thunks && words[..] == v.words && count == v.count && Fits(v)
    requires thunks[..] == Overlay(b01, got, base) && |base| == thunks.Length && k0.At(got, len0)
    requires 18 + |got| + |Insns(v)| <= thunks.Length
    modifies thunks
    ensures thunks[..] == Overlay(b01, got + Insns(v), base) && k.At(got + Insns(v), len0)
  {
    var patchCount := PatchCount(words[0]);
    var insnCount := count - patchCount - 1;
    var insns := words[patchCount + 1..patchCount + 1 + insnCount];
    assert insns == Insns(v);
    k := AppendThunk(b01, thunks, k0, insns, got, base, len0);
  }

  /** How an iteration ends: with a return code, or with the size of the next record. */
  datatype Outcome = Return(code: nat) | Next(count: nat)

  /** What is left after an iteration that delivered `more`. */
  ghost predicate Left(c: Chip, pos: nat, count: nat, buf: Buffer, more: seq<u32>, o: Outcome, pos': nat, buf': Buffer)
    requires AllFit(c, pos, count, buf)
  {
    match o
    case Return(code) => Rest(c, pos, count, buf).code == code && RestInsns(c, pos, count, buf) == more
    case Next(count') =>
      && AllFit(c, pos', count', buf') && Rest(c, pos, count, buf).code == Rest(c, pos', count', buf').code
      && RestInsns(c, pos, count, buf) == more + RestInsns(c, pos', count', buf')
  }

  /** The second half of an iteration: on to the next record, if there is one. */
  method FollowLink(c: Chip, ghost pos: nat, ghost count: nat, ghost buf: Buffer, word0: u32, ghost pos': nat)
      returns (o: Outcome, ghost buf': Buffer)
    requires 0 < count && pos' == pos + count < MAX_WORDS && DecodeRecord(Record(c, pos, count)).code < 2
    requires word0 == Record(c, pos, count)[0] && AllFit(c, pos, count, buf)
    ensures buf' == VisitOf(Record(c, pos, count), buf).words[0 := word0]
    ensures Fits(VisitOf(Record(c, pos, count), buf))
    ensures Left(c, pos, count, buf, Insns(VisitOf(Record(c, pos, count), buf)), o, pos', buf')
  {
    buf' := VisitOf(Record(c, pos, count), buf).words[0 := word0];
    if LinkField(word0) == 0 {
      StopAtLink(c, pos, count, buf, word0);
      InsnsAtStop(c, pos, count, buf, word0);
      return Return(0), buf';
    }
    var code, link := PatchHashOne(word0);
    if code >= 2 {
      StopAtLink(c, pos, count, buf, word0);
      InsnsAtStop(c, pos, count, buf, word0);
      return Return(3), buf';
    }
    GoOn(c, pos, count, buf, word0, pos', LinkField(link), buf');
    InsnsGoOn(c, pos, count, buf, word0, pos', LinkField(link), buf');
    o := Next(LinkField(link));
  }

  /** One iteration of fuse_read_evp_thunk. */
  method EvpStep(c: Chip, words: array<u32>, thunks: array<u32>, pos: nat, count: nat, addr0: u32, k0: Cursor,
                 ghost got: seq<u32>, ghost base: seq<u32>, ghost len0: nat, ghost pos': nat)
      returns (o: Outcome, addr: u32, k: Cursor, ghost more: seq<u32>)
    requires words.Length == MAX_WORDS && words != thunks && 0 < count && pos' == pos + count < MAX_WORDS
    requires addr0 == Addr(c.b01, pos) && AllFit(c, pos, count, words[..])
    requires thunks[..] == Overlay(c.b01, got, base) && |base| == thunks.Length && k0.At(got, len0)
    requires 18 + |got| + |RestInsns(c, pos, count, words[..])| <= thunks.Length
    modifies words, thunks
    ensures addr == Addr(c.b01, pos')
    ensures thunks[..] == Overlay(c.b01, got + more, base) && k.At(got + more, len0)
    ensures Left(c, pos, count, old(words[..]), more, o, pos', words[..])
  {
    ghost var buf: Buffer := words[..];
    ghost var v := VisitOf(Record(c, pos, count), buf);
    var hashCode, word0;
    addr, hashCode, word0 := CheckRecord(c, words, pos, count, addr0);
    if hashCode >= 2 {
      StopAtRecord(c, pos, count, buf);
      assert got + [] == got;
      return Return(1), addr, k0, [];
    }
    StepInsns(c, pos, count, buf, word0);
    more := Insns(v);
    k := VisitThunk(c.b01, words, count, thunks, k0, v, got, base, len0);
    words[0] := word0;
    ghost var buf': Buffer;
    o, buf' := FollowLink(c, pos, count, buf, word0, pos');
    assert words[..] == buf';
  }

  /** What has been delivered and what is still to come make up the whole, and the code is still to come as well. */
  ghost predicate Going(c: Chip, pos: nat, o: Outcome, buf: Buffer, whole: seq<u32>, got: seq<u32>, end: nat) {
    match o
    case Return(code) => whole == got && end == code
    case Next(count) =>
      AllFit(c, pos, count, buf) && whole == got + RestInsns(c, pos, count, buf) && end == Rest(c, pos, count, buf).code
  }

  lemma GoneOn(c: Chip, pos: nat, count: nat, buf: Buffer, more: seq<u32>, o: Outcome, pos': nat, buf': Buffer,
               whole: seq<u32>, got: seq<u32>, end: nat)
    requires Going(c, pos, Next(count), buf, whole, got, end) && Left(c, pos, count, buf, more, o, pos', buf')
    ensures Going(c, pos', o, buf', whole, got + more, end)
  {
    match o
    case Return(_) => assert whole == got + more;
    case Next(count') =>
      Regroup(whole, got, RestInsns(c, pos, count, buf), more, RestInsns(c, pos', count', buf'));
  }

  /** Nothing is still to come when the walk ends, or has no more words to read. */
  lemma Arrived(c: Chip, pos: nat, o: Outcome, buf: Buffer, whole: seq<u32>, got: seq<u32>, end: nat)
    requires Going(c, pos, o, buf, whole, got, end)
    requires o.Next? ==> o.count == 0 || pos + o.count >= MAX_WORDS
    ensures whole == got && end == if o.Next? then 0 else o.code
  {
  }

  /** One turn of the loop, seen from the whole delivery. */
  method EvpTurn(c: Chip, words: array<u32>, thunks: array<u32>, pos: nat, count: nat, addr0: u32, k0: Cursor,
                 ghost whole: seq<u32>, ghost got0: seq<u32>, ghost end: nat, ghost base: seq<u32>, ghost len0: nat,
                 ghost pos': nat)
      returns (o: Outcome, addr: u32, k: Cursor, ghost got: seq<u32>)
    requires words.Length == MAX_WORDS && words != thunks && 0 < count && pos' == pos + count < MAX_WORDS
    requires addr0 == Addr(c.b01, pos) && Going(c, pos, Next(count), words[..], whole, got0, end)
    requires thunks[..] == Overlay(c.b01, got0, base) && |base| == thunks.Length && k0.At(got0, len0)
    requires 18 + |whole| <= thunks.Length
    modifies words, thunks
    ensures addr == Addr(c.b01, pos') && Going(c, pos', o, words[..], whole, got, end)
    ensures thunks[..] == Overlay(c.b01, got, base) && k.At(got, len0)
  {
    ghost var more, buf := [], words[..];
    o, addr, k, more := EvpStep(c, words, thunks, pos, count, addr0, k0, got0, base, len0, pos');
    GoneOn(c, pos, count, buf, more, o, pos', words[..], whole, got0, end);
    got := got0 + more;
  }

  /** The loop of fuse_read_evp_thunk. */
  method EvpLoop(c: Chip, words: array<u32>, thunks: array<u32>, len0: nat) returns (code: nat, k: Cursor)
    requires words.Length == MAX_WORDS && words != thunks && 18 + MAX_WORDS <= thunks.Length
    requires AllFit(c, 0, FirstCount(c), words[..])
    modifies words, thunks
    ensures code == Rest(c, 0, FirstCount(c), old(words[..])).code
    ensures thunks[..] == Overlay(c.b01, RestInsns(c, 0, FirstCount(c), old(words[..])), old(thunks[..]))
    ensures k.At(RestInsns(c, 0, FirstCount(c), old(words[..])), len0)
  {
    ghost var base, got := thunks[..], [];
    ghost var whole, end := RestInsns(c, 0, FirstCount(c), words[..]), Rest(c, 0, FirstCount(c), words[..]).code;
    FewInsns(c, 0, FirstCount(c), words[..]);
    var o := Next(Low(c.firstSize, 7));
    var addr: u32, total: nat := ARRAY_WORDS - 1, 0;
    k := Cursor(false, 0, len0);
    while o.Next? && o.count != 0 && total + o.count < MAX_WORDS
      invariant thunks[..] == Overlay(c.b01, got, base) && k.At(got, len0)
      invariant o.Next? ==> total < MAX_WORDS && addr == Addr(c.b01, total)
      invariant Going(c, total, o, words[..], whole, got, end)
      decreases o.Next?, MAX_WORDS - total
    {
      var start, count := total, o.count;
      total := total + count;
      o, addr, k, got := EvpTurn(c, words, thunks, start, count, addr, k, whole, got, end, base, len0, total);
    }
    Arrived(c, total, o, words[..], whole, got, end);
    code := if o.Next? then 0 else o.code;
  }

  /** The first n words cleared. */
  method ClearWords(thunks: array<u32>, n: nat)
    requires n <= thunks.Length
    modifies thunks
    ensures thunks[..] == seq(n, _ => 0) + old(thunks[n..])
  {
    for i := 0 to n
      invariant forall k :: 0 <= k < i ==> thunks[k] == 0
      invariant forall k :: i <= k < thunks.Length ==> thunks[k] == old(thunks[k])
    {
      thunks[i] := 0;
    }
  }

  /**
   words is the uninitialised buffer on the stack. The caller's length is in bytes and counts whole words.
   Every visited record must have room for its patch words: otherwise the driver copies a negative count.
   */
  method ReadEvpThunk(c: Chip, words: array<u32>, thunks: array<u32>, len0: nat) returns (code: nat, len: nat)
    requires words.Length == MAX_WORDS && words != thunks
    requires len0 % 4 == 0 && len0 / 4 <= thunks.Length && 18 + MAX_WORDS <= thunks.Length
    requires AllFit(c, 0, FirstCount(c), words[..])
    modifies words, thunks
    ensures code == Walk(c, 0, FirstCount(c), old(words[..])).code
    ensures var insns := AllInsns(Visits(c, old(words[..])));
            && thunks[..] == Overlay(c.b01, insns, seq(len0 / 4, _ => 0) + old(thunks[len0 / 4..]))
            && len == if insns == [] then len0 else 4 * (18 + |insns|)
    ensures var insns := AllInsns(Visits(c, old(words[..])));
            insns != [] ==>
              && 18 + |insns| <= thunks.Length && thunks[18..18 + |insns|] == insns
              && thunks[18 + |insns|..] == (seq(len0 / 4, _ => 0) + old(thunks[len0 / 4..]))[18 + |insns|..]
              && thunks[15..18] ==
                 if c.b01 then [0x0010_022c, 0x0010_0174, 0x4000_4164] else [0x0010_07b0, 0x0010_07f8, 0x4000_4c30]
  {
    ghost var insns, base := AllInsns(Visits(c, words[..])), seq(len0 / 4, _ => 0) + thunks[len0 / 4..];
    ClearWords(thunks, len0 / 4);
    var k;
    code, k := EvpLoop(c, words, thunks, len0);
    len := k.len;
    if insns != [] {
      OverlayStart(c.b01, insns, base);
      TemplateEnds(c.b01);
    }
  }
}
