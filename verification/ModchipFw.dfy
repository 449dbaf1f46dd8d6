/**
 Writing a modchip firmware image from a file to the boot partition, and the configuration record behind it. The disk
 is an array of bytes that is read and written by whole sectors of 512 bytes.
 */
module ModchipFw {
  import opened Bits
  import opened Words

  const SECTOR := 512
  const FW_START: nat := 0x1f00
  const CMD_SECTOR: nat := 1
  const CMD_SIZE: nat := 0x10
  const CFG_SECTOR: nat := 0x1fff
  const CFG_OFFSET: nat := 0x100
  const CFG_SIZE: nat := 12
  const FW_UPDATE: u32 := 0x6db9_2148

  /** The size of the image of a file of n bytes: whole sectors. */
  function Padded(n: nat): (r: nat)
    ensures r % 512 == 0 && n <= r < n + 512
  {
    (n + 511) / 512 * 512
  }

  /** Byte k of the image: the file, and zeros behind it. */
  function ImageByte(file: seq<u8>, k: nat): u8 { if k < |file| then file[k] else 0 }

  /** The bytes of d from a to b are those of the image, and all others are those of d0. */
  ghost predicate HasImage(d0: seq<u8>, d: seq<u8>, file: seq<u8>, a: nat, b: nat) {
    && |d| == |d0| && (a < b ==> b <= |d|)
    && (forall k :: a <= k < b ==> d[k] == ImageByte(file, k - a))
    && (forall k :: 0 <= k < |d| && !(a <= k < b) ==> d[k] == d0[k])
  }

  // ----- the disk and the file

  /** disk_write of n bytes; if it fails, the bytes are unknown. */
  method DiskWrite(disk: array<u8>, buf: array<u8>, sector: nat, n: nat) returns (ok: bool)
    requires n % 512 == 0 && n <= buf.Length && disk != buf
    modifies disk
    ensures SameOutside(old(disk[..]), disk[..], 512 * sector, 512 * sector + n)
    ensures ok ==> 512 * sector + n <= disk.Length && disk[512 * sector..512 * sector + n] == buf[..n]
  {
    ok := *;
    if 512 * sector + n > disk.Length {
      ok := false;
    }
    if ok {
      forall k | 0 <= k < n {
        disk[512 * sector + k] := buf[k];
      }
    }
  }

  method DiskRead(disk: array<u8>, buf: array<u8>, sector: nat) returns (ok: bool)
    requires buf.Length >= 512 && disk != buf
    modifies buf
    ensures ok ==> 512 * sector + 512 <= disk.Length && buf[..512] == disk[512 * sector..512 * sector + 512]
  {
    ok := *;
    if 512 * sector + 512 > disk.Length {
      ok := false;
    }
    if ok {
      forall k | 0 <= k < 512 {
        buf[k] := disk[512 * sector + k];
      }
    }
  }

  /** f_read: as many bytes as are asked for and left. */
  method FileRead(file: seq<u8>, pos: nat, buf: array<u8>, n: nat) returns (ok: bool, br: nat)
    requires pos <= |file| && n <= buf.Length
    modifies buf
    ensures br == if n <= |file| - pos then n else |file| - pos
    ensures ok ==> forall k :: 0 <= k < br ==> buf[k] == file[pos + k]
    ensures forall k :: br <= k < buf.Length ==> buf[k] == old(buf[k])
  {
    ok := *;
    br := if n <= |file| - pos then n else |file| - pos;
    if ok {
      forall k | 0 <= k < br {
        buf[k] := file[pos + k];
      }
    }
  }

  // ----- the image

  /** One piece of the file in the buffer, padded with zeros to a whole sector. */
  method ReadPiece(file: seq<u8>, pos: nat, buf: array<u8>, n: nat, clear: bool) returns (ok: bool)
    requires n <= |file| - pos && pos <= |file|
    requires clear ==> n / 512 * 512 + 512 <= buf.Length
    requires !clear ==> n % 512 == 0 && n <= buf.Length
    modifies buf
    ensures ok ==> forall k :: 0 <= k < n ==> buf[k] == file[pos + k]
    ensures ok ==> clear ==> forall k :: n <= k < Padded(n) ==> buf[k] == 0
  {
    if clear {
      var start := n / 512 * 512;
      forall k | start <= k < start + 512 {
        buf[k] := 0;
      }
    }
    var br;
    ok, br := FileRead(file, pos, buf, n);
    if br != n {
      ok := false;
    }
  }

  /** The image with one more piece. */
  lemma PieceWritten(d0: seq<u8>, was: seq<u8>, d: seq<u8>, file: seq<u8>, piece: seq<u8>, pos: nat, n: nat, from: nat,
                     to: nat)
    requires HasImage(d0, was, file, 512 * FW_START, from) && SameOutside(was, d, from, to)
    requires from == 512 * FW_START + pos && to == from + |piece| <= |d| && d[from..to] == piece
    requires n <= |piece| && pos + n <= |file| && (pos + n == |file| || n == |piece|)
    requires forall k :: 0 <= k < n ==> piece[k] == file[pos + k]
    requires forall k :: n <= k < |piece| ==> piece[k] == 0
    ensures HasImage(d0, d, file, 512 * FW_START, to)
  {
    forall k | from <= k < to
      ensures d[k] == ImageByte(file, k - 512 * FW_START)
    {
      var i := k - from;
      assert d[k] == d[from..to][i] == piece[i];
      assert k - 512 * FW_START == pos + i;
    }
  }

  /** The piece of n bytes written behind the pieces before it. */
  method WritePiece(disk: array<u8>, buf: array<u8>, file: seq<u8>, pos: nat, n: nat, ghost d0: seq<u8>,
                    ghost from: nat, ghost to: nat)
      returns (ok: bool)
    requires disk != buf && pos % 512 == 0 && pos + n <= |file| && Padded(n) <= buf.Length
    requires forall k :: 0 <= k < n ==> buf[k] == file[pos + k]
    requires forall k :: n <= k < Padded(n) ==> buf[k] == 0
    requires pos + n == |file| || n % 512 == 0
    requires from == 512 * FW_START + pos && to == from + Padded(n)
    requires HasImage(d0, disk[..], file, 512 * FW_START, from)
    modifies disk
    ensures ok ==> HasImage(d0, disk[..], file, 512 * FW_START, to)
  {
    ghost var was := disk[..];
    ok := DiskWrite(disk, buf, FW_START + pos / 512, Padded(n));
    if ok {
      assert 512 * (FW_START + pos / 512) == from;
      PieceWritten(d0, was, disk[..], file, buf[..Padded(n)], pos, n, from, to);
    }
  }

  /** How much of the image is written once i bytes of the file are done with. */
  function Done(i: nat, size: nat): nat { 512 * FW_START + if i < size then i else Padded(size) }

  lemma PaddedShift(i: nat, n: nat, size: nat)
    requires i % 512 == 0 && size == i + n
    ensures Padded(size) == i + Padded(n)
  {
    WholeSectors(i / 512, n + 511, size + 511);
  }

  lemma WholeSectors(q: nat, x: nat, y: nat)
    requires y == 512 * q + x
    ensures y / 512 == q + x / 512
  {
    assert y == 512 * (q + x / 512) + x % 512;
  }

  lemma DoneNext(i: nat, size: nat, max: nat, n: nat, next: nat)
    requires i % 512 == 0 && max % 512 == 0 && 0 < max && i < size && next == i + max
    requires n == if size - i < max then size - i else max
    ensures Done(next, size) == Done(i, size) + Padded(n) && next % 512 == 0
    ensures Padded(n) <= max && (n < max ==> n / 512 * 512 + 512 <= max)
  {
    if n < max {
      PaddedShift(i, n, size);
    }
  }

  method NextPiece(disk: array<u8>, buf: array<u8>, file: seq<u8>, i: nat, next: nat, ghost d0: seq<u8>)
      returns (ok: bool)
    requires disk != buf && buf.Length % 512 == 0 && 0 < buf.Length && i % 512 == 0 && i < |file|
    requires next == i + buf.Length
    requires HasImage(d0, disk[..], file, 512 * FW_START, Done(i, |file|))
    modifies disk, buf
    ensures ok ==> HasImage(d0, disk[..], file, 512 * FW_START, Done(next, |file|))
  {
    var max, size := buf.Length, |file|;
    var btr := if size - i < max then size - i else max;
    DoneNext(i, size, max, btr, next);
    ok := ReadPiece(file, i, buf, btr, btr < max);
    if ok {
      ok := WritePiece(disk, buf, file, i, btr, d0, Done(i, size), Done(next, size));
    }
  }

  /** Both ways of writing the image: at once if the buffer holds it, or piece by piece. */
  method WriteImage(disk: array<u8>, buf: array<u8>, file: seq<u8>) returns (ok: bool)
    requires disk != buf && buf.Length % 512 == 0 && 512 <= buf.Length <= 0x1000_0000
    requires |file| < 0x1_0000_0000 && disk.Length < 0x4000_0000
    modifies disk, buf
    ensures ok ==> HasImage(old(disk[..]), disk[..], file, 512 * FW_START, 512 * FW_START + Padded(|file|))
  {
    ghost var d0 := disk[..];
    var size: nat := |file|;
    if size < buf.Length {
      ok := ReadPiece(file, 0, buf, size, true);
      if ok {
        ok := WritePiece(disk, buf, file, 0, size, d0, 512 * FW_START, 512 * FW_START + Padded(size));
      }
      return;
    }
    var i: u32 := 0;
    ok := true;
    while i < size
      invariant i % 512 == 0 && i < 0x6000_0000 && HasImage(d0, disk[..], file, 512 * FW_START, Done(i, size))
      decreases size - i
    {
      StillFits(d0, disk[..], file, i, size);
      var next := i + buf.Length;
      ok := NextPiece(disk, buf, file, i, next, d0);
      if !ok {
        return;
      }
      i := next;
    }
  }

  /** The counter cannot wrap around: what has been written fits on the disk. */
  lemma StillFits(d0: seq<u8>, d: seq<u8>, file: seq<u8>, i: nat, size: nat)
    requires i < size && HasImage(d0, d, file, 512 * FW_START, Done(i, size)) && |d| < 0x4000_0000
    ensures i < 0x4000_0000
  {
  }

  // ----- the update command

  function Word(w: u32): (b: seq<u8>)
    ensures |b| == 4
  {
    [ByteOf(w, 0), ByteOf(w, 1), ByteOf(w, 2), ByteOf(w, 3)]
  }

  function Command(start: u32, count: u32): (b: seq<u8>)
    ensures |b| == CMD_SIZE
  {
    Word(FW_UPDATE) + Word(start) + Word(count) + [0, 0, 0, 0]
  }

  /** A word inside a piece of the disk, least significant byte first, read back. */
  lemma WordAt(d: seq<u8>, c: seq<u8>, start: nat, i: nat, at: nat, w: u32)
    requires start + |c| <= |d| && d[start..start + |c|] == c && at == start + i
    requires i + 4 <= |c| && c[i..i + 4] == Word(w)
    ensures Load(d, at) == w
  {
    var b := Word(w);
    assert c[i] == c[i..i + 4][0] && c[i + 1] == c[i..i + 4][1] && c[i + 2] == c[i..i + 4][2];
    assert c[i + 3] == c[i..i + 4][3];
    assert d[at] == c[i] && d[at + 1] == c[i + 1] && d[at + 2] == c[i + 2] && d[at + 3] == c[i + 3];
    LoadHeld(d, at, w);
  }

  lemma CommandWords(start: u32, count: u32)
    ensures var c := Command(start, count);
            && c[0..4] == Word(FW_UPDATE) && c[4..8] == Word(start) && c[8..12] == Word(count) && c[12..16] == Word(0)
  {
    ZeroParts(8);
    ZeroParts(16);
    ZeroParts(24);
    FourParts(Word(FW_UPDATE), Word(start), Word(count), [0, 0, 0, 0]);
  }

  lemma FourParts<T>(a: seq<T>, b: seq<T>, c: seq<T>, d: seq<T>)
    requires |a| == |b| == |c| == |d| == 4
    ensures var s := a + b + c + d; s[0..4] == a && s[4..8] == b && s[8..12] == c && s[12..16] == d
  {
  }

  /** The command as the modchip reads it: the code of an update, the first sector, and how many there are. */
  lemma CommandMeans(d: seq<u8>, start: u32, count: u32)
    requires 528 <= |d| && d[512..528] == Command(start, count)
    ensures Load(d, 512) == 0x6db9_2148 && Load(d, 516) == start && Load(d, 520) == count && Load(d, 524) == 0
  {
    var c := Command(start, count);
    CommandWords(start, count);
    WordAt(d, c, 512, 0, 512, FW_UPDATE);
    WordAt(d, c, 512, 4, 516, start);
    WordAt(d, c, 512, 8, 520, count);
    WordAt(d, c, 512, 12, 524, 0);
  }

  /** modchip_write_cmd: the first bytes of the command sector are replaced. */
  method WriteCommand(disk: array<u8>, buf: array<u8>, start: u32, count: u32) returns (ok: bool)
    requires disk != buf && buf.Length >= 512
    modifies disk, buf
    ensures ok ==> 1024 <= disk.Length && disk[512..512 + CMD_SIZE] == Command(start, count)
    ensures ok ==>
              var d := disk[..];
              Load(d, 512) == 0x6db9_2148 && Load(d, 516) == start && Load(d, 520) == count && Load(d, 524) == 0
    ensures ok ==> SameOutside(old(disk[..]), disk[..], 512, 528)
  {
    ghost var d := disk[..];
    ok := DiskRead(disk, buf, CMD_SECTOR);
    if !ok {
      return;
    }
    Splice(buf, 0, Command(start, count));
    ok := DiskWrite(disk, buf, CMD_SECTOR, 512);
    if ok {
      Spliced(d, disk[..], buf[..512], CMD_SECTOR, 0, Command(start, count));
      CommandMeans(disk[..], start, count);
    }
  }

  /** Some bytes of a buffer are replaced. */
  method Splice(buf: array<u8>, offset: nat, bytes: seq<u8>)
    requires offset + |bytes| <= buf.Length
    modifies buf
    ensures buf[offset..offset + |bytes|] == bytes && SameOutside(old(buf[..]), buf[..], offset, offset + |bytes|)
  {
    forall k | 0 <= k < |bytes| {
      buf[offset + k] := bytes[k];
    }
  }

  /** A sector that is written back after a splice differs from before in those bytes only. */
  lemma Spliced(d0: seq<u8>, d: seq<u8>, b: seq<u8>, sector: nat, offset: nat, bytes: seq<u8>)
    requires |b| == 512 && offset + |bytes| <= 512 && b[offset..offset + |bytes|] == bytes && 512 * sector + 512 <= |d|
    requires SameOutside(d0, d, 512 * sector, 512 * sector + 512) && d[512 * sector..512 * sector + 512] == b
    requires forall k :: 0 <= k < 512 && !(offset <= k < offset + |bytes|) ==>
            b[k] == d0[512 * sector..512 * sector + 512][k]
    ensures d[512 * sector + offset..512 * sector + offset + |bytes|] == bytes
    ensures SameOutside(d0, d, 512 * sector + offset, 512 * sector + offset + |bytes|)
  {
    var s := 512 * sector;
    forall k | 0 <= k < |bytes|
      ensures d[s + offset + k] == bytes[k]
    {
      assert d[s..s + 512][offset + k] == b[offset..offset + |bytes|][k];
    }
    forall k | 0 <= k < |d| && !(s + offset <= k < s + offset + |bytes|)
      ensures d[k] == d0[k]
    {
      if s <= k < s + 512 {
        assert d[s..s + 512][k - s] == d0[s..s + 512][k - s];
      }
    }
  }

  /** The bytes of the disk that belong to the image of a file. */
  predicate InImage(file: seq<u8>, k: int) { 512 * FW_START <= k < 512 * FW_START + Padded(|file|) }

  /** What a finished update leaves on the disk. */
  ghost predicate Updated(d0: seq<u8>, d: seq<u8>, file: seq<u8>, count: u32) {
    && |d| == |d0| >= 1024
    && (forall k :: InImage(file, k) ==> k < |d| && d[k] == ImageByte(file, k - 512 * FW_START))
    && d[512..512 + CMD_SIZE] == Command(FW_START, count)
    && forall k :: 0 <= k < |d| && !InImage(file, k) && !(512 <= k < 512 + CMD_SIZE) ==> d[k] == d0[k]
  }

  /** The count in the command: sectors for an image written at once, and the size itself for one written in pieces. */
  function CountFor(size: u32, bufSize: nat): u32 { if size < bufSize then Padded(size) / 512 else size }

  lemma FileInImage(file: seq<u8>, i: nat, k: nat)
    requires i < |file| && k == 0x3e_0000 + i
    ensures InImage(file, k) && ImageByte(file, k - 512 * FW_START) == file[i]
  {
  }

  lemma ByteOnDisk(d0: seq<u8>, d: seq<u8>, file: seq<u8>, count: u32, i: nat, k: nat)
    requires Updated(d0, d, file, count) && i < |file| && k == 0x3e_0000 + i
    ensures k < |d| && d[k] == file[i]
  {
    FileInImage(file, i, k);
    assert d[k] == ImageByte(file, k - 512 * FW_START);
  }

  /** The same byte by byte: the file from sector 0x1f00 on, zeros up to a whole sector, and the command. */
  lemma UpdatedMeans(d0: seq<u8>, d: seq<u8>, file: seq<u8>, count: u32, end: nat)
    requires Updated(d0, d, file, count) && end == 0x3e_0000 + Padded(|file|)
    ensures |d| == |d0| >= 1024 && (file != [] ==> end <= |d|)
    ensures forall i :: 0 <= i < |file| ==> d[0x3e_0000 + i] == file[i]
    ensures forall k :: 0x3e_0000 + |file| <= k < end ==> d[k] == 0
    ensures Load(d, 512) == 0x6db9_2148 && Load(d, 516) == 0x1f00 && Load(d, 520) == count && Load(d, 524) == 0
    ensures forall k :: 0 <= k < |d| && !(0x3e_0000 <= k < end) && !(512 <= k < 528) ==> d[k] == d0[k]
  {
    if file != [] {
      assert InImage(file, 512 * FW_START + Padded(|file|) - 1);
    }
    forall i | 0 <= i < |file|
      ensures d[0x3e_0000 + i] == file[i]
    {
      ByteOnDisk(d0, d, file, count, i, 0x3e_0000 + i);
    }
    forall k | 0x3e_0000 + |file| <= k < end
      ensures d[k] == 0
    {
      assert InImage(file, k);
    }
    CommandMeans(d, FW_START, count);
  }

  /** The image first, and then the command, which lies in front of it. */
  lemma ImageAndCommand(d0: seq<u8>, d1: seq<u8>, d: seq<u8>, file: seq<u8>, count: u32)
    requires HasImage(d0, d1, file, 512 * FW_START, 512 * FW_START + Padded(|file|)) && SameOutside(d1, d, 512, 528)
    requires 1024 <= |d| && d[512..512 + CMD_SIZE] == Command(FW_START, count)
    ensures Updated(d0, d, file, count)
  {
    forall k | InImage(file, k)
      ensures k < |d| && d[k] == ImageByte(file, k - 512 * FW_START)
    {
      assert d1[k] == ImageByte(file, k - 512 * FW_START);
    }
  }

  /** modchip_write_fw_update_from_file. */
  method UpdateFromFile(disk: array<u8>, buf: array<u8>, file: seq<u8>) returns (ok: bool)
    requires disk != buf && buf.Length % 512 == 0 && 512 <= buf.Length <= 0x1000_0000
    requires |file| < 0x1_0000_0000 && disk.Length < 0x4000_0000
    modifies disk, buf
    ensures ok ==> Updated(old(disk[..]), disk[..], file, CountFor(|file|, buf.Length))
  {
    ok := WriteImage(disk, buf, file);
    if ok {
      var count := CountFor(|file|, buf.Length);
      ghost var d0, d1 := old(disk[..]), disk[..];
      ok := WriteCommand(disk, buf, FW_START, count);
      if ok {
        ImageAndCommand(d0, d1, disk[..], file, count);
      }
    }
  }

  /** An image written in pieces never gets the right count, as it has more than one byte. */
  lemma CountInPieces(size: u32, bufSize: nat)
    requires bufSize >= 512
    ensures CountFor(size, bufSize) == (size + 511) / 512 <==> size < bufSize
    ensures size >= bufSize ==> CountFor(size, bufSize) == size
  {
  }

  /** The smallest image that is written in pieces fills the buffer: its command counts 512 times too many sectors. */
  lemma FullBufferMiscounted(size: u32, bufSize: nat)
    requires size == bufSize && bufSize >= 512 && bufSize % 512 == 0
    ensures CountFor(size, bufSize) == 512 * (Padded(size) / 512) != Padded(size) / 512
  {
    CountInPieces(size, bufSize);
  }

  // ----- the configuration record

  method SetConfig(disk: array<u8>, buf: array<u8>, cfg: seq<u8>) returns (ok: bool)
    requires disk != buf && buf.Length >= 512 && |cfg| == CFG_SIZE
    modifies disk, buf
    ensures var a := 512 * 0x1fff + 0x100;
            ok ==>
              && a + 12 <= disk.Length && disk[a..a + 12] == cfg
              && SameOutside(old(disk[..]), disk[..], a, a + 12)
  {
    ghost var d := disk[..];
    ok := DiskRead(disk, buf, CFG_SECTOR);
    if !ok {
      return;
    }
    Splice(buf, CFG_OFFSET, cfg);
    ok := DiskWrite(disk, buf, CFG_SECTOR, 512);
    if ok {
      Spliced(d, disk[..], buf[..512], CFG_SECTOR, CFG_OFFSET, cfg);
    }
  }

  method GetConfig(disk: array<u8>, buf: array<u8>) returns (ok: bool, cfg: seq<u8>)
    requires disk != buf && buf.Length >= 512
    modifies buf
    ensures var a := 512 * 0x1fff + 0x100;
            ok ==> a + 12 <= disk.Length && cfg == disk[a..a + 12]
  {
    cfg := [];
    ok := DiskRead(disk, buf, CFG_SECTOR);
    if ok {
      cfg := buf[CFG_OFFSET..CFG_OFFSET + CFG_SIZE];
      var s := 512 * CFG_SECTOR;
      forall k | 0 <= k < CFG_SIZE
        ensures cfg[k] == disk[s + CFG_OFFSET + k]
      {
        assert buf[..512][CFG_OFFSET + k] == disk[s..s + 512][CFG_OFFSET + k];
      }
    }
  }

  /** The record lies in the 256th sector from the start of the image: up to 255 sectors leave it alone. */
  lemma ConfigSurvives(d0: seq<u8>, d: seq<u8>, file: seq<u8>, count: u32)
    requires Updated(d0, d, file, count) && Padded(|file|) <= 255 * 512 && 512 * 0x1fff + 512 <= |d0|
    ensures var a := 512 * 0x1fff; d[a..a + 512] == d0[a..a + 512]
  {
  }
}
