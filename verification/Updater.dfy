/** `UpdaterClass`: an image arrives in chunks of any size and is staged in flash for the bootloader. */
module Updater {
  import opened Bytes
  import opened Division
  import opened Flash
  import opened FlashIo
  import opened Image
  import opened Staging
  import opened EbootCommand

  const U_FLASH := 0
  const U_FS := 100

  const ERROR_OK := 0
  const ERROR_WRITE := 1
  const ERROR_ERASE := 2
  const ERROR_READ := 3
  const ERROR_SPACE := 4
  const ERROR_SIZE := 5
  const ERROR_MD5 := 7
  const ERROR_FLASH_CONFIG := 8
  const ERROR_NEW_FLASH_CONFIG := 9
  const ERROR_MAGIC_BYTE := 10
  const ERROR_BOOTSTRAP := 11
  const ERROR_NO_DATA := 13
  const ERROR_OOM := 14
  const ERROR_RUNNING_ALREADY := 15
  const ERROR_UNKNOWN_COMMAND := 16

  /** What `begin` asks of the device. */
  datatype Environment = Environment(uartBoot: bool, configOk: bool, freeHeap: nat, allocates: bool)

  ghost predicate OnBoundary(p: nat, bufferSize: nat) {
    if bufferSize == 0x1000 then p % 0x1000 == 0 else p % 0x100 == 0
  }

  lemma PageIsWords(start: nat, p: nat, bufferSize: nat)
    requires start % 0x1000 == 0 && OnBoundary(p, bufferSize)
    ensures (start + p) % 4 == 0
  {
    WholeSectors(start);
    if bufferSize == 0x1000 {
      WholeSectors(p);
      Words(start + p, 0x400 * (start / 0x1000 + p / 0x1000));
    } else {
      WholePages(p);
      Words(start + p, 0x400 * (start / 0x1000) + 0x40 * (p / 0x100));
    }
  }

  lemma FitsSector(start: nat, p: nat, n: nat, bufferSize: nat)
    requires start % 0x1000 == 0 && (bufferSize == 0x1000 || bufferSize == 0x100)
    requires OnBoundary(p, bufferSize) && n <= bufferSize
    ensures (start + p) % 0x1000 + n <= 0x1000
    ensures (start + p) % 4 == 0
    ensures n == bufferSize ==> OnBoundary(p + n, bufferSize)
    ensures p > 0 ==> p > 2
    ensures n > 0 ==> Reach(start + p, n) == SectorUp(start + p + n)
  {
    PageIsWords(start, p, bufferSize);
    WholeSectors(start);
    SectorsAdded(start / 0x1000, p);
    if bufferSize == 0x100 {
      WholePages(p);
      PageInSector(p / 0x100);
      if n == 0x100 {
        Pages(p + n, p / 0x100 + 1);
      }
    } else {
      WholeSectors(p);
      if n == 0x1000 {
        Sectors(p + n, p / 0x1000 + 1);
      }
    }
  }

  /** The part of flash a flush of `n` bytes at `at` may touch. */
  ghost function Reach(at: nat, n: nat): nat {
    if n > 0 then SectorUp(at + n) else if at % 0x1000 == 0 then at + 0x1000 else at
  }

  /** What a flush of nothing at `at` does to flash when no operation fails. */
  ghost function EmptyFlush(mem: seq<byte>, at: nat): (r: seq<byte>)
    ensures |r| == |mem|
  {
    if at % 0x1000 == 0 && at + 0x1000 <= |mem| then EraseSector(mem, at / 0x1000) else mem
  }

  /**
    An empty write after the last byte: the update ends at `fsStart - SectorUp(size) + size`, and the flush of nothing
    there leaves flash alone exactly when the image does not fill its last sector, there is no flash behind it, or
    the first sector of the file system happens to be erased.
  */
  lemma EmptyWriteHarmlessExactly(mem: seq<byte>, fsStart: nat, size: nat)
    requires fsStart % 0x1000 == 0 && SectorUp(size) <= fsStart
    ensures EmptyFlush(mem, fsStart - SectorUp(size) + size) == mem <==>
            size % 0x1000 != 0 || fsStart + 0x1000 > |mem| ||
              forall i :: fsStart <= i < fsStart + 0x1000 ==> mem[i] == 0xFF
  {
    hide SectorUp;
    hide EraseSector;
    EndOfUpdate(fsStart, size);
    if size % 0x1000 == 0 && fsStart + 0x1000 <= |mem| {
      WholeSectors(fsStart);
      EraseHarmlessExactly(mem, fsStart / 0x1000);
    }
  }

  lemma EndOfUpdate(fsStart: nat, size: nat)
    requires fsStart % 0x1000 == 0 && SectorUp(size) <= fsStart
    ensures var at := fsStart - SectorUp(size) + size;
            at % 0x1000 == size % 0x1000 && (size % 0x1000 == 0 ==> at == fsStart)
  {
    WholeSectors(fsStart);
    WholeSectors(SectorUp(size));
    SectorsAdded(fsStart / 0x1000 - SectorUp(size) / 0x1000, size);
  }

  lemma EraseHarmlessExactly(mem: seq<byte>, sector: nat)
    requires (sector + 1) * 0x1000 <= |mem|
    ensures EraseSector(mem, sector) == mem <==>
            forall i :: sector * 0x1000 <= i < sector * 0x1000 + 0x1000 ==> mem[i] == 0xFF
  {
    var now := EraseSector(mem, sector);
    assert forall i :: sector * 0x1000 <= i < sector * 0x1000 + 0x1000 ==> now[i] == 0xFF;
  }

  lemma EraseInReach(now: seq<byte>, mem: seq<byte>, at: nat, n: nat)
    requires n > 0 ==> at % 0x1000 + n <= 0x1000
    requires SameOutside(now, mem, at, if at % 0x1000 == 0 then at + 0x1000 else at)
    ensures SameOutside(now, mem, at, Reach(at, n)) && |now| == |mem|
  {
    if n > 0 {
      SectorEnd(at, n);
    }
  }

  lemma WriteInReach(now: seq<byte>, prepared: seq<byte>, mem: seq<byte>, at: nat, n: nat)
    requires 0 < n && at % 0x1000 + n <= 0x1000 && at % 4 == 0
    requires SameOutside(prepared, mem, at, Reach(at, n)) && OnlyCoverChanged(now, prepared, at, n)
    ensures SameOutside(now, mem, at, Reach(at, n)) && |now| == |mem|
  {
    CoverInSector(at, n);
  }

  lemma FlushIsLocal(now: seq<byte>, mem: seq<byte>, base: seq<byte>, start: nat, bytes: seq<byte>, n: nat, size: nat)
    requires Staged(mem, base, start, bytes) && 0 < n && |bytes| + n <= size
    requires (start + |bytes|) % 0x1000 + n <= 0x1000
    requires SameOutside(now, mem, start + |bytes|, Reach(start + |bytes|, n))
    ensures SameOutside(now, base, start, SectorUp(start + size)) && |now| == |mem|
  {
    FailureIsLocal(now, mem, base, start, bytes, n, size);
  }

  lemma FirstFlush(mem: seq<byte>, base: seq<byte>, start: nat, bytes: seq<byte>)
    requires Staged(mem, base, start, bytes) && bytes == []
    ensures mem == base
  {
    assert SectorUp(start) == start;
  }

  lemma BelowUntouched(prepared: seq<byte>, mem: seq<byte>, at: nat, n: nat)
    requires SameOutside(prepared, mem, at, Reach(at, n)) && (at % 0x1000 == 0 ==> at + 0x1000 <= |mem|)
    ensures at >= 0x1000 && at % 0x1000 == 0 ==> |prepared| == |mem| && |mem| > 4 && prepared[2] == mem[2]
  {
  }

  lemma AlignUpLeast(x: nat, m: nat)
    requires x <= 4 * m
    ensures AlignUp(x) <= 4 * m
  {
  }

  lemma CoverInSector(at: nat, n: nat)
    requires 0 < n && at % 0x1000 + n <= 0x1000 && at % 4 == 0
    ensures AlignUp(at + n) <= SectorUp(at + n)
  {
    WholeSectors(SectorUp(at + n));
    AlignUpLeast(at + n, 0x400 * (SectorUp(at + n) / 0x1000));
  }

  lemma ReachOfSome(at: nat, n: nat)
    requires 0 < n && at % 0x1000 + n <= 0x1000 && at % 4 == 0
    ensures AlignUp(at + n) <= Reach(at, n) && (at % 0x1000 == 0 ==> Reach(at, n) == at + 0x1000)
  {
    hide AlignUp;
    SectorEnd(at, n);
    CoverInSector(at, n);
  }

  /** The flash and log part of a successful flush. */
  lemma FlushStages(mem: seq<byte>, base: seq<byte>, start: nat, bytes: seq<byte>, data: seq<byte>)
    requires Staged(mem, base, start, bytes) && data != []
    requires var at := start + |bytes|;
             at % 0x1000 + |data| <= 0x1000 && at + |data| <= |mem| && (at % 0x1000 == 0 ==> at + 0x1000 <= |mem|)
    ensures var at := start + |bytes|; Staged(Program(Prepared(mem, at), at, data), base, start, bytes + data)
    ensures SectorsErased(start, |bytes| + |data|) ==
            SectorsErased(start, |bytes|) + if (start + |bytes|) % 0x1000 == 0 then [(start + |bytes|) / 0x1000] else []
  {
    SectorEnd(start + |bytes|, |data|);
    assert SectorUp(start + |bytes| + |data|) <= |mem|;
    StageMore(mem, base, start, bytes, data);
    EraseMore(start, |bytes|, |data|);
  }

  /**
    Image bytes as they lie in flash, and as the hash is fed them; only a plain (not a file system) update is patched.
  */
  ghost function InFlash(bytes: seq<byte>, plain: bool, mode: byte): (r: seq<byte>)
    ensures |r| == |bytes|
  {
    if plain then Patched(bytes, mode) else bytes
  }

  ghost function InHash(bytes: seq<byte>, plain: bool, mode: byte): (r: seq<byte>)
    ensures |r| == |bytes|
  {
    if plain then Fed(bytes, mode) else bytes
  }

  /** `bytes` are staged in flash and fed to the hash, and each of their sectors was erased once. */
  ghost predicate Committed(mem: seq<byte>, base: seq<byte>, start: nat, bytes: seq<byte>, plain: bool, mode: byte,
                            fed: seq<byte>, erases: seq<nat>, erases0: seq<nat>)
  {
    && Staged(mem, base, start, InFlash(bytes, plain, mode))
    && fed == InHash(bytes, plain, mode)
    && erases == erases0 + SectorsErased(start, |bytes|)
  }

  lemma Rejoined(start: seq<byte>, data: seq<byte>, k: nat, filled: seq<byte>, image: seq<byte>)
    requires k <= |data| && filled == start + data[..k] && image == filled + data[k..|data|]
    ensures image == start + data
  {
  }

  lemma NothingCommitted(base: seq<byte>, start: nat, plain: bool, mode: byte, erases: seq<nat>)
    requires start % 0x1000 == 0
    ensures Committed(base, base, start, [], plain, mode, [], erases, erases)
  {
    NothingStaged(base, start);
  }

  ghost predicate PatchesBuffer(p: nat, buf: seq<byte>, plain: bool, mode: byte)
    requires |buf| > 2
  {
    p == 0 && plain && buf[0] != 0x1f && MagicMode(buf[2]) != mode
  }

  /** The buffer while it is written to flash, and after its mode byte is put back. */
  ghost function Sent(p: nat, buf: seq<byte>, plain: bool, mode: byte): (r: seq<byte>)
    requires |buf| > 2
    ensures |r| == |buf|
  {
    if PatchesBuffer(p, buf, plain, mode) then buf[2 := mode] else buf
  }

  ghost function PutBack(p: nat, buf: seq<byte>, plain: bool, mode: byte): (r: seq<byte>)
    requires |buf| > 2
    ensures |r| == |buf|
  {
    if PatchesBuffer(p, buf, plain, mode) then buf[2 := MagicMode(buf[2])] else buf
  }

  /** What is sent and what is put back, for the buffer `patched` and then put back with `bufferMode`. */
  lemma PatchIs(p: nat, buf: seq<byte>, plain: bool, mode: byte, modified: bool, patched: seq<byte>)
    requires |buf| > 2 && modified == (p == 0 && plain && buf[0] != 0x1f && MagicMode(buf[2]) != mode)
    requires patched == if modified then buf[2 := mode] else buf
    ensures Sent(p, buf, plain, mode) == patched
    ensures PutBack(p, buf, plain, mode) == if modified then patched[2 := MagicMode(buf[2])] else patched
  {
  }

  lemma FlushedForms(image: seq<byte>, p: nat, n: nat, buf: seq<byte>, mode0: byte, mode: byte, plain: bool)
    requires p + n == |image| && n <= |buf| && |buf| > 2 && image[p..] == buf[..n]
    requires p == 0 || (p > 2 && mode == mode0)
    ensures InFlash(image, plain, mode) == InFlash(image[..p], plain, mode0) + Sent(p, buf, plain, mode)[..n]
    ensures InHash(image, plain, mode) == InHash(image[..p], plain, mode0) + PutBack(p, buf, plain, mode)[..n]
  {
    assert image == image[..p] + image[p..];
    if p > 0 {
      PatchedGrows(image[..p], image[p..], mode);
    } else {
      assert image == buf[..n];
    }
  }

  /** A successful flush commits the buffered bytes. */
  lemma CommitMore(mem: seq<byte>, base: seq<byte>, start: nat, image: seq<byte>, p: nat, n: nat, plain: bool,
                   mode0: byte, mode: byte, fed: seq<byte>, erases: seq<nat>, erases0: seq<nat>, buf: seq<byte>)
    requires p + n == |image| && 0 < n <= |buf| && |buf| > 2 && image[p..] == buf[..n]
    requires p == 0 || (p > 2 && mode == mode0)
    requires Committed(mem, base, start, image[..p], plain, mode0, fed, erases, erases0)
    requires var at := start + p;
             at % 0x1000 + n <= 0x1000 && at + n <= |mem| && (at % 0x1000 == 0 ==> at + 0x1000 <= |mem|)
    ensures var at := start + p;
            Committed(Program(Prepared(mem, at), at, Sent(p, buf, plain, mode)[..n]), base, start, image, plain, mode,
                      fed + PutBack(p, buf, plain, mode)[..n],
                      erases + if at % 0x1000 == 0 then [at / 0x1000] else [], erases0)
    ensures p == 0 ==> mem == base
  {
    hide Staged;
    hide SectorsErased;
    hide Program;
    hide Prepared;
    hide InFlash;
    hide InHash;
    hide Sent;
    hide PutBack;
    var bytes := InFlash(image[..p], plain, mode0);
    FlushStages(mem, base, start, bytes, Sent(p, buf, plain, mode)[..n]);
    FlushedForms(image, p, n, buf, mode0, mode, plain);
    if p == 0 {
      FirstFlush(mem, base, start, bytes);
    }
  }

  lemma CommittedIsLocal(now: seq<byte>, mem: seq<byte>, base: seq<byte>, start: nat, bytes: seq<byte>, plain: bool,
                         mode: byte, fed: seq<byte>, erases: seq<nat>, erases0: seq<nat>, n: nat, size: nat)
    requires Committed(mem, base, start, bytes, plain, mode, fed, erases, erases0) && 0 < n && |bytes| + n <= size
    requires (start + |bytes|) % 0x1000 + n <= 0x1000
    requires SameOutside(now, mem, start + |bytes|, Reach(start + |bytes|, n))
    ensures SameOutside(now, base, start, SectorUp(start + size)) && |now| == |mem|
  {
    FlushIsLocal(now, mem, base, start, InFlash(bytes, plain, mode), n, size);
  }

  /** Where flash offset `x` is mapped, as a 32-bit address. */
  function Mapped(x: nat): word {
    (x + 0x4020_0000) % 0x1_0000_0000
  }

  /** A size rounded up to sectors in 32-bit arithmetic, as `begin` computes it. */
  function Rounded(size: word): (r: word)
    ensures size <= 0xffff_f000 ==> r == SectorUp(size)
    ensures size > 0xffff_f000 ==> r == 0
  {
    var sum := (size + 0xfff) % 0x1_0000_0000;
    sum - sum % 0x1000
  }

  lemma RoundedUp(size: nat)
    ensures size <= SectorUp(size)
  {
  }

  lemma RoundedIs32(size: word)
    requires size <= 0xffff_f000
    ensures Rounded(size) == SectorUp(size)
  {
  }

  lemma MappedIs(x: nat)
    requires x + 0x4020_0000 < 0x1_0000_0000
    ensures Mapped(x) == x + 0x4020_0000
  {
  }

  /** `magicFlashChipSize`, in bytes. */
  function MagicSize(b: byte): nat {
    match b % 16
    case 0 => 0x8_0000
    case 1 => 0x4_0000
    case 2 => 0x10_0000
    case 3 => 0x20_0000
    case 4 => 0x40_0000
    case 8 => 0x80_0000
    case 9 => 0x100_0000
    case _ => 0
  }

  /** `fsizeb` of `elf2bin.py`: the code of a flash size in kilobytes, -1 for a size without one. */
  function SizeCode(kB: nat): (code: int) {
    if kB == 512 then 0
    else if kB == 256 then 1
    else if kB == 1024 then 2
    else if kB == 2048 then 3
    else if kB == 4096 then 4
    else if kB == 8192 then 8
    else if kB == 16384 then 9
    else -1
  }

  /** The size that `elf2bin.py` writes into a header is the size read back, and nothing else is read as a size. */
  lemma SizeReadBack(code: byte, kB: nat)
    requires code < 16 && kB > 0
    ensures SizeCode(kB) == code <==> MagicSize(code) == kB * 1024
  {
  }

  /** `_verifyEnd`'s view of the first four bytes of a staged application: 0, or the error it raises. */
  function HeaderError(header: seq<byte>, realSize: nat): nat
    requires |header| == 4
  {
    if header[0] == 0x1f && header[1] == 0x8b then ERROR_OK
    else if header[0] != 0xE9 then ERROR_MAGIC_BYTE
    else if MagicSize(header[3] / 16) > realSize then ERROR_NEW_FLASH_CONFIG
    else ERROR_OK
  }

  /**
    A compressed image passes. A plain one must begin with 0xE9, and the flash size that it was built for must not be
    larger than the real one; a code without a size passes.
  */
  lemma HeaderErrorExactly(header: seq<byte>, realSize: nat)
    requires |header| == 4
    ensures header[..2] == [0x1f, 0x8b] ==> HeaderError(header, realSize) == 0
    ensures header[..2] != [0x1f, 0x8b] && header[0] != 0xE9 ==> HeaderError(header, realSize) == ERROR_MAGIC_BYTE
    ensures header[0] == 0xE9 ==>
              (HeaderError(header, realSize) == ERROR_NEW_FLASH_CONFIG <==>
                 exists kB :: kB > 0 && SizeCode(kB) == header[3] / 16 && kB * 1024 > realSize)
    ensures header[0] == 0xE9 ==> HeaderError(header, realSize) in {0, ERROR_NEW_FLASH_CONFIG}
  {
    hide MagicSize;
    hide SizeCode;
    assert header[..2][0] == header[0] && header[..2][1] == header[1];
    var code := header[3] / 16;
    SizesAreWhole(code);
    forall kB: nat | kB > 0
      ensures SizeCode(kB) == code <==> MagicSize(code) == kB * 1024
    {
      SizeReadBack(code, kB);
    }
    var kB := MagicSize(code) / 1024;
    assert kB > 0 ==> SizeCode(kB) == code;
  }

  lemma SizesAreWhole(code: byte)
    ensures MagicSize(code) % 1024 == 0
  {
  }

  function Lower(c: char): char {
    if 'A' <= c <= 'Z' then c + 32 as char else c
  }

  /** `strcasecmp(a, b) == 0`. */
  predicate SameText(a: string, b: string) {
    |a| == |b| && forall i :: 0 <= i < |a| ==> Lower(a[i]) == Lower(b[i])
  }

  /** The same character, or the same letter in the other case. */
  predicate SameLetter(c: char, d: char) {
    || c == d
    || ('A' <= c <= 'Z' && d as int == c as int + 32)
    || ('A' <= d <= 'Z' && c as int == d as int + 32)
  }

  ghost predicate EqualButForCase(a: string, b: string) {
    |a| == |b| && forall i :: 0 <= i < |a| ==> SameLetter(a[i], b[i])
  }

  lemma SameTextExactly(a: string, b: string)
    ensures SameText(a, b) <==> EqualButForCase(a, b)
    ensures SameText(a, b) <==>
              && |a| == |b|
              && forall i :: 0 <= i < |a| ==>
                   || a[i] == b[i]
                   || ('A' <= a[i] <= 'Z' && b[i] as int == a[i] as int + 32)
                   || ('A' <= b[i] <= 'Z' && a[i] as int == b[i] as int + 32)
  {
    assert forall i :: 0 <= i < |a| == |b| ==> (Lower(a[i]) == Lower(b[i]) <==> SameLetter(a[i], b[i]));
  }

  /** The flash part when an update began. */
  datatype Origin = Origin(mem: seq<byte>, erases: seq<nat>, failures: nat)

  class UpdaterClass {
    const chip: Chip
    const rtc: array<word>
    /** The file system's area, as offsets into flash. */
    const fsStart: word
    const fsEnd: word
    const atomicFs: bool
    const md5Of: seq<byte> -> string

    var error: nat
    var buffer: array?<byte>
    var bufferLen: nat
    var bufferSize: nat
    var size: word
    var startAddress: word
    var currentAddress: nat
    var command: int
    var targetMd5: string
    /** What the MD5 builder has been given. */
    var md5Fed: seq<byte>

    /** The bytes accepted since `begin`, the state of the flash part at that time, and the mode byte used. */
    ghost var image: seq<byte>
    ghost var origin: Origin
    ghost var mode: byte

    constructor (chip: Chip, rtc: array<word>, fsStart: word, fsEnd: word, atomicFs: bool, md5Of: seq<byte> -> string)
      ensures Idle() && Valid() && error == ERROR_OK
      ensures this.chip == chip && this.rtc == rtc && this.fsStart == fsStart && this.fsEnd == fsEnd
      ensures this.atomicFs == atomicFs && this.md5Of == md5Of
    {
      this.chip, this.rtc, this.fsStart, this.fsEnd := chip, rtc, fsStart, fsEnd;
      this.atomicFs, this.md5Of := atomicFs, md5Of;
      error, buffer, bufferLen, bufferSize := ERROR_OK, null, 0, 0;
      size, startAddress, currentAddress, command := 0, 0, 0, U_FLASH;
      targetMd5, md5Fed := "", [];
    }

    ghost function Progress(): int
      reads `startAddress, `currentAddress
    {
      currentAddress - startAddress
    }

    ghost predicate Idle()
      reads this
    {
      size == 0 && bufferLen == 0 && startAddress == 0 && currentAddress == 0 && command == U_FLASH && buffer == null
    }

    /** Bytes accepted = bytes staged + bytes buffered. */
    ghost predicate Filled()
      reads this, buffer
    {
      && error == ERROR_OK && 0 < size && (command == U_FLASH || command == U_FS)
      && buffer != null && buffer.Length == bufferSize && (bufferSize == 0x1000 || bufferSize == 0x100)
      && bufferLen <= bufferSize
      && startAddress % 0x1000 == 0 && startAddress <= currentAddress
      && Progress() + bufferLen == |image| <= size
      && image[Progress()..] == buffer[..bufferLen]
    }

    /** And whole buffers are staged, until the last. */
    ghost predicate Buffered()
      reads this, buffer
    {
      Filled() && (Progress() == size || OnBoundary(Progress(), bufferSize))
    }

    /** The staged bytes are in flash and in the hash, and each of their sectors was erased once. */
    ghost predicate InPlace()
      reads `startAddress, `currentAddress, `command, `image, `origin, `mode, `md5Fed, chip
    {
      && 0 <= Progress() <= |image|
      && Committed(chip.mem, origin.mem, startAddress, image[..Progress()], command == U_FLASH, mode, md5Fed,
                   chip.erases, origin.erases)
      && chip.failures >= origin.failures && LegalMode(mode)
      && (chip.failures == origin.failures && startAddress > 0 && |origin.mem| > 2 ==> mode == MagicMode(origin.mem[2]))
    }

    ghost predicate Running()
      reads this, buffer, chip
    {
      Buffered() && InPlace() && (|image| == size ==> bufferLen == 0)
    }

    ghost predicate Valid()
      reads this, buffer, chip
    {
      Idle() || Running()
    }

    lemma Counts()
      requires Buffered()
      ensures error == ERROR_OK && 0 < size && buffer != null && bufferLen <= bufferSize
      ensures startAddress <= currentAddress && Progress() + bufferLen == |image| <= size
      ensures startAddress % 0x1000 == 0 && (command == U_FLASH || command == U_FS)
    {
    }

    lemma NotRunning()
      requires Idle()
      ensures !Running()
    {
    }

    /** What an update in progress must not change. */
    twostate predicate SameUpdate()
      reads this
    {
      && size == old(size) && startAddress == old(startAddress) && command == old(command)
      && bufferSize == old(bufferSize) && buffer == old(buffer)
      && origin == old(origin)
    }

    method Reset()
      modifies `buffer, `bufferLen, `startAddress, `currentAddress, `size, `command
      ensures Idle()
    {
      buffer, bufferLen := null, 0;
      startAddress, currentAddress, size, command := 0, 0, 0, U_FLASH;
    }

    /** Any error ends the update. */
    method SetError(e: nat)
      modifies `error, `buffer, `bufferLen, `startAddress, `currentAddress, `size, `command
      ensures Idle() && error == e
    {
      error := e;
      Reset();
    }

    /** `getFlashChipMode`: the mode byte at the start of flash, or 0xff when it cannot be read. */
    method GetFlashChipMode() returns (m: byte)
      modifies chip`failures
      ensures chip.failures >= old(chip.failures) && LegalMode(m)
      ensures chip.failures == old(chip.failures) && |chip.mem| >= 4 ==> m == MagicMode(chip.mem[2])
    {
      m := 0xff;
      var ok, data := chip.SpiRead(0, 4);
      if ok {
        m := MagicMode(data[2]);
      }
    }

    /** The first step of `_writeBuffer`. */
    method EraseOnBoundary() returns (ok: bool)
      modifies chip`mem, chip`erases, chip`failures
      ensures SameOutside(chip.mem, old(chip.mem), currentAddress,
                          if currentAddress % 0x1000 == 0 then currentAddress + 0x1000 else currentAddress)
      ensures ok ==> (currentAddress % 0x1000 == 0 ==> currentAddress + 0x1000 <= |chip.mem|)
      ensures ok ==> chip.mem == Prepared(old(chip.mem), currentAddress)
      ensures ok ==>
                chip.erases == old(chip.erases) + if currentAddress % 0x1000 == 0 then [currentAddress / 0x1000] else []
      ensures !ok ==> currentAddress % 0x1000 == 0 && chip.erases == old(chip.erases)
      ensures chip.failures >= old(chip.failures)
      ensures ok <== chip.failures == old(chip.failures) &&
              (currentAddress % 0x1000 == 0 ==> currentAddress + 0x1000 <= |chip.mem|)
      ensures chip.failures == old(chip.failures) ==> chip.mem == EmptyFlush(old(chip.mem), currentAddress)
    {
      ok := true;
      if currentAddress % 0x1000 == 0 {
        assert currentAddress / 0x1000 * 0x1000 == currentAddress;
        ok := chip.SpiErase(currentAddress / 0x1000);
      }
    }

    /** The middle of `_writeBuffer`: give the first buffer of a plain image the mode of this flash part. */
    method PatchMode() returns (modified: bool, bufferMode: byte)
      requires buffer != null && buffer.Length > 2
      modifies buffer, this`mode, chip`failures
      ensures chip.failures >= old(chip.failures) && (old(LegalMode(mode)) ==> LegalMode(mode))
      ensures mode == old(mode) || (currentAddress == startAddress && command == U_FLASH)
      ensures chip.failures == old(chip.failures) && |chip.mem| >= 4 ==>
                mode == old(mode) || mode == MagicMode(chip.mem[2])
      ensures bufferMode == if modified then MagicMode(old(buffer[2])) else 0
      ensures buffer[..] == if modified then old(buffer[..])[2 := mode] else old(buffer[..])
      ensures modified <==>
                currentAddress == startAddress && command == U_FLASH && old(buffer[0]) != 0x1f &&
                  MagicMode(old(buffer[2])) != mode
    {
      modified, bufferMode := false, 0;
      if currentAddress == startAddress && buffer[0] != 0x1f && command == U_FLASH {
        var flashMode := GetFlashChipMode();
        mode := flashMode;
        if MagicMode(buffer[2]) != flashMode {
          bufferMode := MagicMode(buffer[2]);
          buffer[2] := flashMode;
          modified := true;
        }
      }
    }

    /** ... and its own mode back. */
    method Restore(modified: bool, bufferMode: byte)
      requires buffer != null && buffer.Length > 2
      modifies buffer
      ensures buffer[..] == if modified then old(buffer[..])[2 := bufferMode] else old(buffer[..])
    {
      if modified {
        buffer[2] := bufferMode;
      }
    }

    /** The rest of `_writeBuffer`'s flash part, after the erase: patch, write, put the mode byte back. */
    method PatchedWrite(erased: bool) returns (written: bool)
      requires buffer != null && buffer.Length > 2 && bufferLen <= buffer.Length && startAddress <= currentAddress
      modifies buffer, this`mode, chip`mem, chip`writes, chip`failures
      ensures chip.failures >= old(chip.failures) && (old(LegalMode(mode)) ==> LegalMode(mode))
      ensures mode == old(mode) || (currentAddress == startAddress && command == U_FLASH)
      ensures chip.failures == old(chip.failures) && |old(chip.mem)| >= 4 ==>
                mode == old(mode) || mode == MagicMode(old(chip.mem)[2])
      ensures !erased || bufferLen == 0 ==> !written && chip.mem == old(chip.mem)
      ensures OnlyCoverChanged(chip.mem, old(chip.mem), currentAddress, bufferLen)
      ensures erased ==> buffer[..] == PutBack(currentAddress - startAddress, old(buffer[..]), command == U_FLASH, mode)
      ensures written ==>
                && currentAddress + bufferLen <= |chip.mem|
                && var sent := Sent(currentAddress - startAddress, old(buffer[..]), command == U_FLASH, mode);
                chip.mem == Program(old(chip.mem), currentAddress, sent[..bufferLen])
      ensures erased && bufferLen > 0 && AlignUp(currentAddress + bufferLen) <= |chip.mem| ==>
                (chip.failures == old(chip.failures) ==> written)
    {
      hide Program;
      hide Sent;
      hide PutBack;
      hide MagicMode;
      hide LegalMode;
      ghost var buf := buffer[..];
      var modified, bufferMode := PatchMode();
      written := false;
      if !erased {
        return;
      }
      PatchIs(currentAddress - startAddress, buf, command == U_FLASH, mode, modified, buffer[..]);
      var aligned := *;
      written := FlashWrite(chip, currentAddress, buffer[..bufferLen], aligned);
      Restore(modified, bufferMode);
    }

    /** The flash part of `_writeBuffer`: erase, patch, write, put the mode byte back. */
    method Flush() returns (erased: bool, written: bool)
      requires buffer != null && buffer.Length > 2 && bufferLen <= buffer.Length && startAddress % 0x1000 == 0 &&
               startAddress <= currentAddress
      requires bufferLen > 0 ==> currentAddress % 0x1000 + bufferLen <= 0x1000 && currentAddress % 4 == 0
      modifies buffer, this`mode, chip
      ensures chip.failures >= old(chip.failures) && |chip.mem| == |old(chip.mem)| &&
              (old(LegalMode(mode)) ==> LegalMode(mode))
      ensures SameOutside(chip.mem, old(chip.mem), currentAddress, Reach(currentAddress, bufferLen))
      ensures mode == old(mode) || (currentAddress == startAddress && command == U_FLASH)
      ensures erased && chip.failures == old(chip.failures) && currentAddress == startAddress >= 0x1000 ==>
                |old(chip.mem)| > 4 && (mode == old(mode) || mode == MagicMode(old(chip.mem)[2]))
      ensures bufferLen == 0 && chip.failures == old(chip.failures) ==>
                chip.mem == EmptyFlush(old(chip.mem), currentAddress)
      ensures erased && written ==>
                && bufferLen > 0 && currentAddress + bufferLen <= |chip.mem|
                && (currentAddress % 0x1000 == 0 ==> currentAddress + 0x1000 <= |chip.mem|)
                && var buf, p, plain := old(buffer[..]), currentAddress - startAddress, command == U_FLASH;
                && chip.mem ==
                   Program(Prepared(old(chip.mem), currentAddress), currentAddress,
                           Sent(p, buf, plain, mode)[..bufferLen])
                && buffer[..] == PutBack(p, buf, plain, mode)
      ensures erased ==>
                chip.erases == old(chip.erases) + if currentAddress % 0x1000 == 0 then [currentAddress / 0x1000] else []
      ensures !erased ==> currentAddress % 0x1000 == 0 && chip.erases == old(chip.erases)
      ensures bufferLen > 0 && chip.failures == old(chip.failures) && Reach(currentAddress, bufferLen) <= |chip.mem| ==>
                erased && written
    {
      hide Prepared;
      hide Program;
      hide SameOutside;
      hide SectorUp;
      hide OnlyCoverChanged;
      hide Sent;
      hide PutBack;
      hide MagicMode;
      hide LegalMode;
      hide EmptyFlush;
      hide Reach;
      hide AlignUp;
      ghost var mem := chip.mem;
      erased := EraseOnBoundary();
      EraseInReach(chip.mem, mem, currentAddress, bufferLen);
      ghost var prepared := chip.mem;
      if bufferLen > 0 {
        ReachOfSome(currentAddress, bufferLen);
      }
      written := PatchedWrite(erased);
      if erased {
        BelowUntouched(prepared, mem, currentAddress, bufferLen);
        if bufferLen > 0 {
          WriteInReach(chip.mem, prepared, mem, currentAddress, bufferLen);
        }
      }
    }

    lemma BufferFits()
      requires Buffered()
      ensures buffer != null && buffer.Length > 2 && bufferLen <= buffer.Length && startAddress % 0x1000 == 0
      ensures startAddress <= currentAddress && Progress() + bufferLen == |image| <= size
      ensures image[Progress()..] == buffer[..bufferLen]
      ensures bufferLen > 0 ==>
                && currentAddress % 0x1000 + bufferLen <= 0x1000 && currentAddress % 4 == 0
                && (Progress() > 0 ==> Progress() > 2)
                && Reach(currentAddress, bufferLen) == SectorUp(startAddress + |image|)
    {
      hide OnBoundary;
      hide Reach;
      hide SectorUp;
      if bufferLen > 0 {
        FitsSector(startAddress, Progress(), bufferLen, bufferSize);
      }
    }

    /**
      Flushing, seen from the update: the buffered bytes are committed, or only the update's own sectors were touched.
    */
    method Commit() returns (erased: bool, written: bool)
      requires Buffered() && InPlace()
      modifies buffer, this`mode, chip
      ensures chip.failures >= old(chip.failures) && LegalMode(mode)
      ensures |chip.mem| == |old(chip.mem)|
      ensures SameOutside(chip.mem, old(chip.mem), currentAddress, Reach(currentAddress, bufferLen))
      ensures bufferLen > 0 ==> SameOutside(chip.mem, origin.mem, startAddress, SectorUp(startAddress + size))
      ensures bufferLen == 0 && chip.failures == old(chip.failures) ==>
                chip.mem == EmptyFlush(old(chip.mem), currentAddress)
      ensures erased && written ==>
                && bufferLen > 0
                && Committed(chip.mem, origin.mem, startAddress, image, command == U_FLASH, mode,
                             md5Fed + buffer[..bufferLen], chip.erases, origin.erases)
                && (chip.failures == origin.failures && startAddress > 0 && |origin.mem| > 2 ==>
                    mode == MagicMode(origin.mem[2]))
      ensures bufferLen > 0 && SectorUp(startAddress + |image|) <= |old(chip.mem)| ==>
                (chip.failures == old(chip.failures) ==> erased && written)
      ensures !erased ==> currentAddress % 0x1000 == 0 && chip.erases == old(chip.erases)
      ensures erased && currentAddress % 0x1000 == 0 ==>
                chip.erases == old(chip.erases) + [currentAddress / 0x1000]
    {
      hide Committed;
      hide Prepared;
      hide Program;
      hide SameOutside;
      hide Sent;
      hide PutBack;
      hide SectorUp;
      hide MagicMode;
      hide LegalMode;
      hide Buffered;
      hide Reach;
      hide EmptyFlush;
      BufferFits();
      ghost var p, n, mem, buf, plain := Progress(), bufferLen, chip.mem, buffer[..], command == U_FLASH;
      erased, written := Flush();
      if n > 0 {
        CommittedIsLocal(chip.mem, mem, origin.mem, startAddress, image[..p], plain, old(mode), md5Fed,
                         old(chip.erases), origin.erases, n, size);
        if erased && written {
          CommitMore(mem, origin.mem, startAddress, image, p, n, plain, old(mode), mode, md5Fed, old(chip.erases),
                     origin.erases, buf);
        }
      }
    }

    /** The end of `_writeBuffer`, once the buffered bytes are in flash. */
    method Advance()
      requires error == ERROR_OK && 0 < size && startAddress % 0x1000 == 0 && startAddress <= currentAddress
      requires command == U_FLASH || command == U_FS
      requires buffer != null && buffer.Length == bufferSize && (bufferSize == 0x1000 || bufferSize == 0x100) &&
               bufferLen <= bufferSize
      requires Progress() + bufferLen == |image| <= size
      requires Committed(chip.mem, origin.mem, startAddress, image, command == U_FLASH, mode,
                         md5Fed + buffer[..bufferLen], chip.erases, origin.erases)
      requires chip.failures >= origin.failures && LegalMode(mode)
      requires chip.failures == origin.failures && startAddress > 0 && |origin.mem| > 2 ==>
                 mode == MagicMode(origin.mem[2])
      modifies this`md5Fed, this`currentAddress, this`bufferLen
      ensures Filled() && InPlace() && bufferLen == 0
    {
      hide Committed;
      hide OnBoundary;
      assert image[..|image|] == image;
      md5Fed := md5Fed + buffer[..bufferLen];
      currentAddress := currentAddress + bufferLen;
      bufferLen := 0;
      assert image[Progress()..] == [] == buffer[..bufferLen];
    }

    /**
      `_writeBuffer`. With bytes in the buffer, either they join the staged ones or the update is over and only its own
      sectors were touched. With none (an empty write to a finished update) it always fails, after erasing the sector
      behind the image if the image ends on a sector boundary.
    */
    method WriteBuffer() returns (ok: bool)
      requires Buffered() && InPlace()
      modifies `error, `buffer, `bufferLen, `startAddress, `currentAddress, `size, `command, `md5Fed, `mode, buffer,
               chip
      ensures chip.failures >= old(chip.failures) && |chip.mem| == |old(chip.mem)|
      ensures ok ==> old(bufferLen) > 0 && Filled() && InPlace() && SameUpdate()
      ensures ok ==> bufferLen == 0 && image == old(image)
      ensures ok && (old(bufferLen) == old(bufferSize) || |old(image)| == old(size)) ==> Running()
      ensures !ok ==> Idle() && (error == ERROR_ERASE || error == ERROR_WRITE) && md5Fed == old(md5Fed)
      ensures error == ERROR_ERASE ==> old(currentAddress) % 0x1000 == 0 && chip.erases == old(chip.erases)
      ensures error == ERROR_WRITE && old(currentAddress) % 0x1000 == 0 ==>
                chip.erases == old(chip.erases) + [old(currentAddress) / 0x1000]
      ensures !ok ==>
                SameOutside(chip.mem, old(chip.mem), old(currentAddress), Reach(old(currentAddress), old(bufferLen)))
      ensures old(bufferLen) == 0 && chip.failures == old(chip.failures) ==>
                chip.mem == EmptyFlush(old(chip.mem), old(currentAddress))
      ensures !ok && old(bufferLen) > 0 ==>
                SameOutside(chip.mem, old(origin).mem, old(startAddress), SectorUp(old(startAddress) + old(size)))
      ensures old(bufferLen) > 0 && SectorUp(old(startAddress) + |old(image)|) <= |old(chip.mem)| ==>
                (chip.failures == old(chip.failures) ==> ok)
    {
      hide Committed;
      hide SameOutside;
      hide SectorUp;
      hide Reach;
      hide OnBoundary;
      if bufferLen == bufferSize {
        FitsSector(startAddress, Progress(), bufferLen, bufferSize);
      }
      var erased, written := Commit();
      if !erased {
        currentAddress := startAddress + size;
        SetError(ERROR_ERASE);
        return false;
      }
      if !written {
        currentAddress := startAddress + size;
        SetError(ERROR_WRITE);
        return false;
      }
      Advance();
      ok := true;
    }

    /** Where `begin` puts an update: before the file system, or over it. */
    function StartFor(cmd: int, size: word): word {
      if cmd == U_FLASH || atomicFs then (if fsStart > Rounded(size) then fsStart - Rounded(size) else 0) else fsStart
    }

    /** Whether there is room for an update, for a current sketch of `sketch` bytes, as an error code. */
    function RoomError(cmd: int, size: word, sketch: word): nat {
      if cmd != U_FLASH && cmd != U_FS then ERROR_UNKNOWN_COMMAND
      else if cmd == U_FS && Mapped(fsStart + Rounded(size)) > Mapped(fsEnd) then ERROR_SPACE
      else if (cmd == U_FLASH || atomicFs) && StartFor(cmd, size) < Rounded(sketch) then ERROR_SPACE
      else ERROR_OK
    }

    /** The outcome of `begin` as an error code. */
    function BeginError(running: bool, cmd: int, size: word, env: Environment, sketch: word): nat {
      if running then ERROR_RUNNING_ALREADY
      else if env.uartBoot then ERROR_BOOTSTRAP
      else if size == 0 then ERROR_SIZE
      else if !env.configOk then ERROR_FLASH_CONFIG
      else if RoomError(cmd, size, sketch) != ERROR_OK then RoomError(cmd, size, sketch)
      else if !env.allocates then ERROR_OOM
      else ERROR_OK
    }

    /** The part of `begin` that finds the place for the update. */
    method FindRoom(cmd: int, size: word, sketch: word) returns (e: nat, start: word)
      ensures e == RoomError(cmd, size, sketch)
      ensures e in {ERROR_OK, ERROR_SPACE, ERROR_UNKNOWN_COMMAND}
      ensures e == ERROR_UNKNOWN_COMMAND <==> cmd != U_FLASH && cmd != U_FS
      ensures e == ERROR_OK ==> start == StartFor(cmd, size)
    {
      e, start := ERROR_OK, 0;
      if cmd == U_FLASH {
        start := if fsStart > Rounded(size) then fsStart - Rounded(size) else 0;
        if start < Rounded(sketch) {
          e := ERROR_SPACE;
        }
      } else if cmd == U_FS {
        if Mapped(fsStart + Rounded(size)) > Mapped(fsEnd) {
          e := ERROR_SPACE;
        } else if atomicFs {
          start := if fsStart > Rounded(size) then fsStart - Rounded(size) else 0;
          if start < Rounded(sketch) {
            e := ERROR_SPACE;
          }
        } else {
          start := fsStart;
        }
      } else {
        e := ERROR_UNKNOWN_COMMAND;
      }
    }

    static method NewBuffer(freeHeap: nat) returns (b: array<byte>)
      ensures fresh(b) && b.Length == if freeHeap > 2 * 0x1000 then 0x1000 else 0x100
    {
      b := new byte[if freeHeap > 2 * 0x1000 then 0x1000 else 0x100];
    }

    /** Nothing has been staged yet. */
    ghost method Begun()
      requires startAddress == currentAddress && startAddress % 0x1000 == 0 && md5Fed == []
      modifies `image, `origin, `mode
      ensures InPlace() && image == [] && origin == Origin(chip.mem, chip.erases, chip.failures)
    {
      hide Committed;
      image, origin := [], Origin(chip.mem, chip.erases, chip.failures);
      mode := if |chip.mem| > 2 then MagicMode(chip.mem[2]) else 0xff;
      NothingCommitted(chip.mem, startAddress, command == U_FLASH, mode, chip.erases);
    }

    /** The last part of `begin`. */
    method Initialize(size: word, start: word, cmd: int, b: array<byte>)
      requires error == ERROR_OK && 0 < size && start % 0x1000 == 0 && bufferLen == 0 && md5Fed == []
      requires cmd == U_FLASH || cmd == U_FS
      requires b.Length == 0x1000 || b.Length == 0x100
      modifies `startAddress, `currentAddress, `size, `bufferSize, `buffer, `command, `image, `origin, `mode
      ensures Running() && buffer == b && image == [] && origin.mem == chip.mem
      ensures this.size == size && startAddress == start && command == cmd && origin.failures == chip.failures
    {
      hide InPlace;
      startAddress, currentAddress, this.size, bufferSize, buffer, command := start, start, size, b.Length, b, cmd;
      Begun();
    }

    method Begin(size: word, cmd: int, env: Environment) returns (ok: bool)
      requires Valid() && fsStart % 0x1000 == 0
      modifies this, chip`failures
      ensures chip.failures >= old(chip.failures)
      ensures ok == (error == ERROR_OK)
      ensures error == BeginError(old(this.size) > 0, cmd, size, env, 0) ||
              error == BeginError(old(this.size) > 0, cmd, size, env, SketchSize(chip.mem))
      ensures chip.failures == old(chip.failures) ==>
                error == BeginError(old(this.size) > 0, cmd, size, env, SketchSize(chip.mem))
      ensures !ok ==> Idle()
      ensures ok ==> Running() && fresh(buffer) && image == [] && origin.mem == chip.mem && targetMd5 == ""
      ensures ok ==> this.size == size && command == cmd && startAddress == StartFor(cmd, size)
      ensures ok ==> origin.failures == chip.failures
      // the first test that fails
      ensures old(this.size) > 0 <==> error == ERROR_RUNNING_ALREADY
      ensures old(this.size) == 0 ==> (env.uartBoot <==> error == ERROR_BOOTSTRAP)
      ensures old(this.size) == 0 && !env.uartBoot ==> (size == 0 <==> error == ERROR_SIZE)
      ensures old(this.size) == 0 && !env.uartBoot && size > 0 ==> (!env.configOk <==> error == ERROR_FLASH_CONFIG)
      ensures error == ERROR_OOM ==> !env.allocates
      ensures error == ERROR_UNKNOWN_COMMAND ==> cmd != U_FLASH && cmd != U_FS
      // the place: ending at the file system, at offset 0 if there is no room for it, or over the file system
      ensures ok && cmd == U_FS && !atomicFs ==> startAddress == fsStart
      ensures ok && (cmd == U_FLASH || atomicFs) && size <= fsStart ==> startAddress + SectorUp(size) == fsStart
      ensures ok && (cmd == U_FLASH || atomicFs) && fsStart < size <= 0xffff_f000 ==> startAddress == 0
    {
      hide SketchSize;
      hide StartFor;
      hide SectorUp;
      hide RoomError;
      hide Running;
      hide Valid;
      if this.size > 0 {
        SetError(ERROR_RUNNING_ALREADY);
        return false;
      }
      if env.uartBoot {
        SetError(ERROR_BOOTSTRAP);
        return false;
      }
      if size == 0 {
        SetError(ERROR_SIZE);
        return false;
      }
      if !env.configOk {
        SetError(ERROR_FLASH_CONFIG);
        return false;
      }
      Reset();
      error, targetMd5, md5Fed := ERROR_OK, "", [];
      var sketch := GetSketchSize(chip);
      var e, start := FindRoom(cmd, size, sketch);
      if e != ERROR_OK {
        SetError(e);
        return false;
      }
      if !env.allocates {
        SetError(ERROR_OOM);
        Reset();
        return false;
      }
      StartIsAligned(cmd, size);
      StartIs(cmd, size);
      var b := NewBuffer(env.freeHeap);
      Initialize(size, start, cmd, b);
      ok := true;
    }

    lemma StartIs(cmd: int, size: word)
      requires fsStart % 0x1000 == 0
      ensures cmd == U_FS && !atomicFs ==> StartFor(cmd, size) == fsStart
      ensures (cmd == U_FLASH || atomicFs) && size <= fsStart ==> StartFor(cmd, size) + SectorUp(size) == fsStart
      ensures (cmd == U_FLASH || atomicFs) && fsStart < size <= 0xffff_f000 ==> StartFor(cmd, size) == 0
    {
      WholeSectors(fsStart);
    }

    /** With 32-bit sums that do not wrap, a file system update has room exactly if it ends within the file system. */
    lemma FileSystemFits(size: word, sketch: word)
      requires fsStart + SectorUp(size) + 0x4020_0000 < 0x1_0000_0000 && fsEnd + 0x4020_0000 < 0x1_0000_0000
      ensures !atomicFs ==> (RoomError(U_FS, size, sketch) == ERROR_OK <==> fsStart + SectorUp(size) <= fsEnd)
      ensures RoomError(U_FS, size, sketch) in {ERROR_OK, ERROR_SPACE}
    {
      hide Rounded;
      hide SectorUp;
      hide Mapped;
      hide StartFor;
      RoundedUp(size);
      MappedIs(fsStart + SectorUp(size));
      MappedIs(fsEnd);
    }

    /** An update before the file system has room exactly if it fits between the sketch and the file system. */
    lemma FlashFits(size: word, sketch: word)
      requires fsStart % 0x1000 == 0 && size <= 0xffff_f000 && 0 < sketch <= 0xffff_f000
      ensures StartFor(U_FLASH, size) >= Rounded(sketch) <==> SectorUp(sketch) + SectorUp(size) <= fsStart
      ensures atomicFs ==> StartFor(U_FS, size) == StartFor(U_FLASH, size)
    {
      RoundedUp(sketch);
      hide Rounded;
      hide SectorUp;
    }

    /**
      For a sketch that was found, and with 32-bit sums that do not wrap, `begin` starts an update exactly if none is
      running, the chip was not booted for serial download, the flash configuration is right, there is memory, the
      command is known, and a size that is not 0 fits: over the file system, or between the sketch and the file system.
    */
    lemma BeginsExactly(running: bool, cmd: int, size: word, env: Environment, sketch: word)
      requires fsStart % 0x1000 == 0 && 0 < sketch <= 0xffff_f000 && size <= 0xffff_f000
      requires fsStart + SectorUp(size) + 0x4020_0000 < 0x1_0000_0000 && fsEnd + 0x4020_0000 < 0x1_0000_0000
      ensures BeginError(running, cmd, size, env, sketch) == ERROR_OK <==>
                && !running && !env.uartBoot && env.configOk && env.allocates && size > 0
                && (cmd == U_FLASH || cmd == U_FS)
                && (cmd == U_FS ==> fsStart + SectorUp(size) <= fsEnd)
                && (cmd == U_FLASH || atomicFs ==> SectorUp(sketch) + SectorUp(size) <= fsStart)
    {
      hide Rounded;
      hide SectorUp;
      hide Mapped;
      hide StartFor;
      FlashFits(size, sketch);
      RoundedIs32(size);
      MappedIs(fsStart + SectorUp(size));
      MappedIs(fsEnd);
    }

    lemma StartIsAligned(cmd: int, size: word)
      requires fsStart % 0x1000 == 0
      ensures StartFor(cmd, size) % 0x1000 == 0
    {
      var sum := (size + 0xfff) % 0x1_0000_0000;
      assert Rounded(size) == sum / 0x1000 * 0x1000;
    }

    /** `memcpy` of the next `n` bytes into the buffer. */
    static method Fill(buffer: array<byte>, at: nat, data: seq<byte>, from: nat, n: nat)
      requires from + n <= |data| && at + n <= buffer.Length
      modifies buffer
      ensures buffer[..at + n] == old(buffer[..at]) + data[from..from + n]
    {
      forall i | 0 <= i < n {
        buffer[at + i] := data[from + i];
      }
    }

    lemma ImageGrows(image: seq<byte>, p: nat, more: seq<byte>)
      requires p <= |image|
      ensures (image + more)[..p] == image[..p] && (image + more)[p..] == image[p..] + more
    {
    }

    /** The next `n` bytes join those in the buffer. */
    method CopyIn(data: seq<byte>, from: nat, n: nat)
      requires Buffered() && InPlace() && from + n <= |data| && bufferLen + n <= bufferSize && |image| + n <= size
      modifies buffer, this`bufferLen, this`image
      ensures Buffered() && InPlace()
      ensures bufferLen == old(bufferLen) + n && image == old(image) + data[from..from + n]
    {
      hide Committed;
      hide OnBoundary;
      hide MagicMode;
      hide LegalMode;
      ImageGrows(image, Progress(), data[from..from + n]);
      Fill(buffer, bufferLen, data, from, n);
      bufferLen := bufferLen + n;
      image := image + data[from..from + n];
    }

    /** One turn of the loop in `write`: fill the buffer from `data[from..]` and flush it. */
    method FillAndFlush(data: seq<byte>, from: nat) returns (ok: bool, n: nat)
      requires Running() && from < |data| && bufferLen + (|data| - from) > bufferSize &&
               |image| + (|data| - from) <= size
      modifies `error, `buffer, `bufferLen, `startAddress, `currentAddress, `size, `command, `md5Fed, `mode, `image,
               buffer, chip
      ensures chip.failures >= old(chip.failures) && |chip.mem| == |old(chip.mem)|
      ensures n == old(bufferSize) - old(bufferLen)
      ensures ok ==> Running() && SameUpdate() && bufferLen == 0 && image == old(image) + data[from..from + n]
      ensures !ok ==> Idle() && (error == ERROR_ERASE || error == ERROR_WRITE)
      ensures !ok ==> SameOutside(chip.mem, old(origin).mem, old(startAddress), SectorUp(old(startAddress) + old(size)))
      ensures chip.failures == old(chip.failures) && SectorUp(old(startAddress) + old(size)) <= |old(chip.mem)| ==> ok
    {
      hide Committed;
      hide SameOutside;
      hide OnBoundary;
      hide Reach;
      n := bufferSize - bufferLen;
      CopyIn(data, from, n);
      hide SectorUp;
      ok := WriteBuffer();
    }

    /** The loop of `write`. */
    method WriteFullBuffers(data: seq<byte>) returns (ok: bool, left: nat)
      requires Running() && |image| + |data| <= size
      modifies `error, `buffer, `bufferLen, `startAddress, `currentAddress, `size, `command, `md5Fed, `mode, `image,
               buffer, chip
      ensures chip.failures >= old(chip.failures) && |chip.mem| == |old(chip.mem)| && left <= |data|
      ensures data == [] ==>
                ok && chip.mem == old(chip.mem) && currentAddress == old(currentAddress) && bufferLen == old(bufferLen)
      ensures data != [] ==> left > 0
      ensures ok ==> Buffered() && InPlace() && SameUpdate() && bufferLen + left <= bufferSize
      ensures ok ==> image == old(image) + data[..|data| - left]
      ensures !ok ==> Idle() && (error == ERROR_ERASE || error == ERROR_WRITE) && data != []
      ensures !ok ==> SameOutside(chip.mem, old(origin).mem, old(startAddress), SectorUp(old(startAddress) + old(size)))
      ensures chip.failures == old(chip.failures) && SectorUp(old(startAddress) + old(size)) <= |old(chip.mem)| ==> ok
    {
      hide InPlace;
      hide SameOutside;
      hide OnBoundary;
      hide SectorUp;
      left := |data|;
      ok := true;
      assert old(image) + data[..0] == old(image);
      while bufferLen + left > bufferSize
        invariant left <= |data| && Running() && SameUpdate()
        invariant data != [] ==> left > 0
        invariant data == [] ==>
                    chip.mem == old(chip.mem) && currentAddress == old(currentAddress) &&
                      bufferLen == old(bufferLen) <= bufferSize
        invariant image == old(image) + data[..|data| - left]
        invariant chip.failures >= old(chip.failures) && |chip.mem| == |old(chip.mem)|
        decreases left, bufferLen
      {
        ghost var done := |data| - left;
        var n;
        ok, n := FillAndFlush(data, |data| - left);
        if !ok {
          return;
        }
        left := left - n;
        assert data[..done] + data[done..done + n] == data[..done + n];
      }
    }

    /** An empty write to an update that is already complete; the one call that can touch flash outside the update. */
    ghost predicate EmptyAtEnd(data: seq<byte>)
      reads this
    {
      size > 0 && |image| == size && data == []
    }

    /** The end of `write`: the last bytes go into the buffer, which is flushed if they complete the update. */
    method KeepRest(data: seq<byte>, left: nat) returns (ok: bool)
      requires Buffered() && InPlace() && left <= |data| && bufferLen + left <= bufferSize && |image| + left <= size
      modifies `error, `buffer, `bufferLen, `startAddress, `currentAddress, `size, `command, `md5Fed, `mode, `image,
               buffer, chip
      ensures chip.failures >= old(chip.failures) && |chip.mem| == |old(chip.mem)|
      ensures ok ==> Running() && SameUpdate() && image == old(image) + data[|data| - left..|data|]
      ensures !ok ==> Idle() && (error == ERROR_ERASE || error == ERROR_WRITE) && |old(image)| + left == old(size)
      ensures |old(image)| == old(size) && old(bufferLen) == 0 ==>
                !ok && SameOutside(chip.mem, old(chip.mem), old(currentAddress), Reach(old(currentAddress), 0))
      ensures |old(image)| == old(size) && old(bufferLen) == 0 && chip.failures == old(chip.failures) ==>
                chip.mem == EmptyFlush(old(chip.mem), old(currentAddress))
      ensures old(bufferLen) + left > 0 && !ok ==>
                SameOutside(chip.mem, old(origin).mem, old(startAddress), SectorUp(old(startAddress) + old(size)))
      ensures old(bufferLen) + left > 0 && SectorUp(old(startAddress) + old(size)) <= |old(chip.mem)| ==>
                (chip.failures == old(chip.failures) ==> ok)
    {
      hide SameOutside;
      hide SectorUp;
      hide Reach;
      hide InPlace;
      hide EmptyFlush;
      hide Buffered;
      hide Filled;
      Counts();
      CopyIn(data, |data| - left, left);
      Counts();
      ok := true;
      if bufferLen == size - (currentAddress - startAddress) {
        ok := WriteBuffer();
      }
    }

    /** `write`. */
    method Write(data: seq<byte>) returns (n: nat)
      requires Valid()
      modifies `error, `buffer, `bufferLen, `startAddress, `currentAddress, `size, `command, `md5Fed, `mode, `image,
               buffer, chip
      ensures Valid() && chip.failures >= old(chip.failures) && |chip.mem| == |old(chip.mem)|
      // not running, or after an error
      ensures old(error) != ERROR_OK || old(size) == 0 ==>
                n == 0 && Idle() && error == old(error) && chip.mem == old(chip.mem)
      // too much
      ensures old(Running()) && |old(image)| + |data| > old(size) ==>
                n == 0 && Idle() && error == ERROR_SPACE && chip.mem == old(chip.mem)
      // accepted
      ensures old(Running()) && Running() ==> n == |data| && SameUpdate() && image == old(image) + data
      // an erase or write failed
      ensures old(Running()) && !Running() && |old(image)| + |data| <= old(size) ==>
                Idle() && (error == ERROR_ERASE || error == ERROR_WRITE)
      ensures old(Running()) && !Running() && |old(image)| + |data| <= old(size) && !old(EmptyAtEnd(data)) ==>
                SameOutside(chip.mem, old(origin).mem, old(startAddress), SectorUp(old(startAddress) + old(size)))
      ensures old(EmptyAtEnd(data)) ==>
                !Running() && SameOutside(chip.mem, old(chip.mem), old(currentAddress), Reach(old(currentAddress), 0))
      ensures old(EmptyAtEnd(data)) && chip.failures == old(chip.failures) ==>
                chip.mem == EmptyFlush(old(chip.mem), old(currentAddress))
      // the count tells
      ensures n <= |data| && (old(Running()) && data != [] ==> (n == |data| <==> Running()))
      // without failures
      ensures old(Running()) && |old(image)| + |data| <= old(size) && !old(EmptyAtEnd(data)) ==>
                chip.failures == old(chip.failures) && SectorUp(old(startAddress) + old(size)) <= |chip.mem| ==>
                  Running()
    {
      hide Committed;
      hide SameOutside;
      hide OnBoundary;
      hide SectorUp;
      hide Reach;
      hide InPlace;
      hide EmptyFlush;
      hide Buffered;
      hide Filled;
      if Running() {
        Counts();
      }
      if error != ERROR_OK || size == 0 {
        return 0;
      }
      if currentAddress - startAddress + bufferLen + |data| > size {
        SetError(ERROR_SPACE);
        NotRunning();
        return 0;
      }
      var ok, left := WriteFullBuffers(data);
      if !ok {
        NotRunning();
        return |data| - left;
      }
      Counts();
      ghost var filled := image;
      ok := KeepRest(data, left);
      if !ok {
        NotRunning();
        return |data| - left;
      }
      Rejoined(old(image), data, |data| - left, filled, image);
      n := |data|;
    }

    method SetMd5(expected: string) returns (ok: bool)
      modifies `targetMd5
      ensures ok == (|expected| == 32)
      ensures targetMd5 == if ok then expected else old(targetMd5)
      ensures old(Running()) ==> Running()
    {
      hide Committed;
      hide OnBoundary;
      hide MagicMode;
      hide LegalMode;
      ok := |expected| == 32;
      if ok {
        targetMd5 := expected;
      }
    }

    /** What the hash has been fed matches the announced hash, if one was announced. */
    ghost predicate HashMatches()
      reads `targetMd5, `md5Fed
    {
      targetMd5 == "" || EqualButForCase(targetMd5, md5Of(md5Fed))
    }

    /** The start of the staged application, as `_verifyEnd` reads it back. */
    ghost predicate HeaderFits(realSize: nat)
      reads this, chip
    {
      HeaderAt(startAddress, realSize)
    }

    ghost predicate HeaderAt(at: nat, realSize: nat)
      reads chip`mem
    {
      HeaderErrorAt(at, realSize) == ERROR_OK
    }

    /** What `_verifyEnd` raises for the application at `at`, if its header can be read. */
    ghost function HeaderErrorAt(at: nat, realSize: nat): nat
      reads chip`mem
    {
      if at + 4 <= |chip.mem| then HeaderError(chip.mem[at..at + 4], realSize) else ERROR_READ
    }

    /** `_verifyEnd`. */
    method VerifyEnd(realSize: nat) returns (ok: bool)
      requires startAddress % 0x1000 == 0
      modifies `error, `buffer, `bufferLen, `startAddress, `currentAddress, `size, `command, chip`failures
      ensures chip.failures >= old(chip.failures)
      ensures ok && old(command) == U_FLASH ==> old(HeaderFits(realSize))
      ensures !ok && chip.failures == old(chip.failures) ==>
                old(command) == U_FLASH && error == old(HeaderErrorAt(startAddress, realSize))
      ensures ok ==> startAddress == old(startAddress) && size == old(size) && command == old(command)
      ensures ok ==> error == old(error)
      ensures !ok ==> Idle() && error != ERROR_OK
      ensures chip.failures == old(chip.failures) && (old(command) == U_FLASH ==> old(HeaderFits(realSize))) ==> ok
    {
      hide Committed;
      hide OnBoundary;
      hide MagicSize;
      if command != U_FLASH {
        return true;
      }
      assert startAddress == 4 * (startAddress / 0x1000 * 0x400);
      var read, header := chip.SpiRead(startAddress, 4);
      if !read {
        SetError(ERROR_READ);
        return false;
      }
      var e := HeaderError(header, realSize);
      if e != ERROR_OK {
        SetError(e);
        return false;
      }
      ok := true;
    }

    /** The bootloader will copy `n` bytes from `src` to `dst`. */
    ghost predicate Ordered(src: word, dst: word, n: word)
      reads rtc
      requires rtc.Length >= WORDS
    {
      && Accepts(rtc[..WORDS])
      && var cmd := Decode(rtc[..WORDS]);
         cmd.action == ACTION_COPY_RAW && cmd.args[0] == src && cmd.args[1] == dst && cmd.args[2] == n
    }

    /** Leave the copy command in RTC memory; the arguments not set here are whatever was on the stack. */
    method Order(src: word, dst: word, n: word)
      requires rtc.Length >= WORDS
      modifies rtc
      ensures Ordered(src, dst, n) && rtc[WORDS..] == old(rtc[WORDS..])
    {
      hide Accepts;
      hide Encode;
      var args: seq<word> := [src, dst, n];
      while |args| < WORDS - 3
        invariant 3 <= |args| <= WORDS - 3 && args[..3] == [src, dst, n]
      {
        var junk: word := *;
        args := args + [junk];
      }
      var cmd := Command(ACTION_COPY_RAW, args);
      WrittenCommandIsReadBack(cmd);
      assert args[0] == args[..3][0] && args[1] == args[..3][1] && args[2] == args[..3][2];
      EbootCommand.Write(rtc, cmd);
    }

    /** Everything `end` demands of an update. */
    ghost predicate Complete(realSize: nat)
      reads this, buffer, chip
    {
      && Running() && |image| == size && HashMatches()
      && (command == U_FLASH ==> HeaderFits(realSize))
    }

    /** What a complete application update has achieved. */
    lemma CompleteIsStaged(realSize: nat)
      requires Complete(realSize) && command == U_FLASH
      ensures Staged(chip.mem, origin.mem, startAddress, Patched(image, mode))
      ensures md5Fed == Fed(image, mode)
      ensures chip.erases == origin.erases + SectorsErased(startAddress, size)
    {
      hide *;
      CompleteIs(realSize);
      FinishedIsStaged();
    }

    lemma CompleteIs(realSize: nat)
      requires Complete(realSize)
      ensures Running() && |image| == size
    {
    }

    lemma FinishedIsStaged()
      requires Running() && |image| == size && command == U_FLASH
      ensures Staged(chip.mem, origin.mem, startAddress, Patched(image, mode))
      ensures md5Fed == Fed(image, mode)
      ensures chip.erases == origin.erases + SectorsErased(startAddress, size)
    {
      hide Staged;
      assert image[..Progress()] == image;
    }

    /** The second half of `end`, without a signature verifier: the hash, the header, and the command. */
    method CheckAndOrder(realSize: nat) returns (ok: bool)
      requires rtc.Length >= WORDS && startAddress % 0x1000 == 0 && (command == U_FLASH || command == U_FS)
      modifies `error, `buffer, `bufferLen, `startAddress, `currentAddress, `size, `command, chip`failures, rtc
      ensures Idle() && chip.failures >= old(chip.failures)
      ensures ok ==> error == old(error) && HashMatches()
      ensures !HashMatches() ==> !ok && error == ERROR_MD5
      ensures !ok ==> error != ERROR_OK
      ensures ok && old(command) == U_FLASH ==> old(HeaderFits(realSize))
      ensures HashMatches() && (old(command) == U_FLASH ==> old(HeaderFits(realSize))) ==>
                (chip.failures == old(chip.failures) ==> ok)
      ensures HashMatches() && !ok && chip.failures == old(chip.failures) ==>
                old(command) == U_FLASH && error == old(HeaderErrorAt(startAddress, realSize))
      ensures ok && old(command) == U_FLASH ==> Ordered(old(startAddress), 0, old(size))
      ensures ok && old(command) == U_FS && atomicFs ==> Ordered(old(startAddress), fsStart, old(size))
      ensures !ok || (old(command) == U_FS && !atomicFs) ==> rtc[..] == old(rtc[..])
      ensures rtc[WORDS..] == old(rtc[WORDS..])
    {
      hide SameText;
      hide EqualButForCase;
      hide HeaderFits;
      hide HeaderErrorAt;
      hide Ordered;
      SameTextExactly(targetMd5, md5Of(md5Fed));
      if targetMd5 != "" && !SameText(targetMd5, md5Of(md5Fed)) {
        SetError(ERROR_MD5);
        return false;
      }
      var verified := VerifyEnd(realSize);
      if !verified {
        Reset();
        return false;
      }
      if command == U_FLASH {
        Order(startAddress, 0, size);
      } else if atomicFs {
        Order(startAddress, fsStart, size);
      }
      Reset();
      ok := true;
    }

    /**
      `end(false)` without a signature verifier: true exactly for a complete update, and only then is a command left.
    */
    method End(realSize: nat) returns (ok: bool)
      requires Valid() && rtc.Length >= WORDS
      modifies `error, `buffer, `bufferLen, `startAddress, `currentAddress, `size, `command, chip`failures, rtc
      ensures Idle() && chip.failures >= old(chip.failures)
      ensures ok ==> old(Complete(realSize)) && error == ERROR_OK
      ensures chip.failures == old(chip.failures) && old(Complete(realSize)) ==> ok
      // what went wrong
      ensures old(Idle()) ==> !ok && error == old(error)
      ensures old(Running()) && old(currentAddress) == old(startAddress) ==> !ok && error == ERROR_NO_DATA
      ensures old(Running()) && old(startAddress) < old(currentAddress) && |image| < old(size) ==>
                !ok && error == ERROR_OK
      ensures old(Running()) && |image| == old(size) && targetMd5 != "" &&
              !EqualButForCase(targetMd5, md5Of(md5Fed)) ==>
                !ok && error == ERROR_MD5
      ensures ok && targetMd5 != "" ==> EqualButForCase(targetMd5, md5Of(md5Fed))
      ensures old(Running()) && |image| == old(size) && HashMatches() && !ok && chip.failures == old(chip.failures) ==>
                old(command) == U_FLASH && error == old(HeaderErrorAt(startAddress, realSize)) != ERROR_OK
      ensures ok && old(command) == U_FLASH ==> Ordered(old(startAddress), 0, old(size))
      ensures ok && old(command) == U_FS && atomicFs ==> Ordered(old(startAddress), fsStart, old(size))
      ensures !ok || (old(command) == U_FS && !atomicFs) ==> rtc[..] == old(rtc[..])
      ensures rtc[WORDS..] == old(rtc[WORDS..])
    {
      hide Committed;
      hide OnBoundary;
      hide EqualButForCase;
      hide HeaderFits;
      hide HeaderErrorAt;
      hide Ordered;
      if size == 0 {
        Reset();
        return false;
      }
      if currentAddress == startAddress {
        SetError(ERROR_NO_DATA);
      }
      if error != ERROR_OK || currentAddress != startAddress + size {
        Reset();
        return false;
      }
      ok := CheckAndOrder(realSize);
    }

    /**
      The start of `end(true)`: the rest of the buffer is flushed, whatever comes of it, and the size is what was
      staged.
    */
    method FlushRest() returns (ok: bool)
      requires Running() && startAddress < currentAddress
      modifies `error, `buffer, `bufferLen, `startAddress, `currentAddress, `size, `command, `md5Fed, `mode, buffer,
               chip
      ensures chip.failures >= old(chip.failures) && |chip.mem| == |old(chip.mem)|
      ensures ok ==> Running() && image == old(image) && size == |image| && startAddress == old(startAddress)
      ensures ok ==> command == old(command) && origin == old(origin)
      ensures !ok ==> Idle() && (error == ERROR_ERASE || error == ERROR_WRITE) && md5Fed == old(md5Fed)
      ensures !ok ==>
                SameOutside(chip.mem, old(origin).mem, old(startAddress), SectorUp(old(startAddress) + old(size)))
      ensures SectorUp(old(startAddress) + |old(image)|) <= |chip.mem| ==> (chip.failures == old(chip.failures) ==> ok)
    {
      hide SameOutside;
      hide SectorUp;
      hide Reach;
      hide EmptyFlush;
      hide InPlace;
      ok := true;
      if bufferLen > 0 {
        ok := WriteBuffer();
      }
      size := currentAddress - startAddress;
    }

    /**
      A reset update points to the start of flash: if the hash so far and the header there pass, nothing is ordered.
    */
    ghost predicate FalseSuccess(realSize: nat)
      reads this, chip
    {
      HashMatches() && HeaderAt(0, realSize)
    }

    /**
      `end(true)` without a signature verifier. It fails before any of the image is staged. Otherwise `flushed` says
      whether the rest of the buffer got into flash, and then the update is complete at that size. If it did not, the
      result is ignored: the hash so far and the header at the start of flash are checked, where the reset update
      points, and exactly if they pass `end` answers true and orders a copy of nothing. `quiet` says that no SPI
      operation failed after the flush.
    */
    method EndRemaining(realSize: nat) returns (ok: bool, ghost flushed: bool, ghost quiet: bool)
      requires Valid() && rtc.Length >= WORDS
      modifies `error, `buffer, `bufferLen, `startAddress, `currentAddress, `size, `command, `md5Fed, `mode, buffer,
               chip, rtc
      ensures Idle() && chip.failures >= old(chip.failures) && |chip.mem| == |old(chip.mem)|
      ensures rtc[WORDS..] == old(rtc[WORDS..]) && (!ok ==> rtc[..] == old(rtc[..]))
      ensures chip.failures == old(chip.failures) ==> quiet
      // nothing is staged yet
      ensures old(Idle()) || old(currentAddress) == old(startAddress) ==> !ok && !flushed && chip.mem == old(chip.mem)
      // the rest is staged
      ensures flushed && old(command) == U_FLASH ==>
                Staged(chip.mem, old(origin).mem, old(startAddress), Patched(image, mode)) && md5Fed == Fed(image, mode)
      ensures flushed ==> image == old(image) && old(currentAddress) > old(startAddress)
      ensures flushed && ok && old(command) == U_FLASH ==> Ordered(old(startAddress), 0, |image|) && error == ERROR_OK
      ensures flushed && quiet && old(command) == U_FLASH ==>
                (ok <==> HashMatches() && HeaderAt(old(startAddress), realSize))
      ensures flushed && ok && old(command) == U_FS && atomicFs ==> Ordered(old(startAddress), fsStart, |image|)
      ensures flushed && quiet && old(command) == U_FS ==> (ok <==> HashMatches())
      ensures flushed && targetMd5 != "" && !EqualButForCase(targetMd5, md5Of(md5Fed)) ==> !ok && error == ERROR_MD5
      ensures ok && targetMd5 != "" ==> EqualButForCase(targetMd5, md5Of(md5Fed))
      // the flush failed
      ensures old(Running()) && old(currentAddress) > old(startAddress) && !flushed ==>
                && SameOutside(chip.mem, old(origin).mem, old(startAddress), SectorUp(old(startAddress) + old(size)))
                && md5Fed == old(md5Fed) && (ok ==> Ordered(0, 0, 0) && error != ERROR_OK)
                && (quiet ==> (ok <==> FalseSuccess(realSize)))
      // it does not fail by itself
      ensures old(Running()) && old(currentAddress) > old(startAddress) ==>
                (SectorUp(old(startAddress) + |old(image)|) <= |chip.mem| ==>
                   (chip.failures == old(chip.failures) ==> flushed))
    {
      hide SameOutside;
      hide SectorUp;
      hide Ordered;
      hide EqualButForCase;
      hide HeaderErrorAt;
      hide Patched;
      hide Fed;
      hide Staged;
      hide Filled;
      hide InPlace;
      ok, flushed, quiet := false, false, true;
      if Running() {
        Counts();
      }
      if size == 0 {
        Reset();
        return;
      }
      if currentAddress == startAddress {
        SetError(ERROR_NO_DATA);
      }
      if error != ERROR_OK {
        Reset();
        return;
      }
      var done := FlushRest();
      flushed := done;
      ghost var failures := chip.failures;
      if done {
        Counts();
        if command == U_FLASH {
          FinishedIsStaged();
        }
      }
      ok := CheckAndOrder(realSize);
      quiet := chip.failures == failures;
    }
  }
}
