/**
  The firmware file: `elf2bin.py` writes it, `load_app_from_flash_raw` and `getSketchSize` walk it, `add_crc` seals
  it and `checkFlashCRC` checks the seal.
*/
module Image {
  import opened Bytes
  import opened Options
  import opened Crc
  import opened Flash

  /** A section of the program and the address it belongs at. */
  datatype Segment = Segment(address: word, data: seq<byte>)

  datatype Header = Header(mode: byte, sizeAndSpeed: byte, entry: word)

  ghost predicate Storable(segs: seq<Segment>) {
    forall i :: 0 <= i < |segs| ==> |segs[i].data| < 0x1_0000_0000
  }

  // ----- the file format

  function HeaderBytes(h: Header, segments: byte): (s: seq<byte>)
    ensures |s| == 8
  {
    [0xe9, segments, h.mode, h.sizeAndSpeed] + WordBytes(h.entry)
  }

  function SectionBytes(seg: Segment): (s: seq<byte>)
    requires |seg.data| < 0x1_0000_0000
    ensures |s| == 8 + |seg.data|
  {
    WordBytes(seg.address) + WordBytes(|seg.data|) + seg.data
  }

  ghost function Sections(segs: seq<Segment>): seq<byte>
    requires Storable(segs)
  {
    if segs == [] then [] else Sections(segs[..|segs| - 1]) + SectionBytes(segs[|segs| - 1])
  }

  function XorAll(start: byte, data: seq<byte>): byte
    decreases |data|
  {
    if data == [] then start else Xor(XorAll(start, data[..|data| - 1]), data[|data| - 1])
  }

  /** The running checksum of all section bytes, from 0xef. */
  ghost function Checksum(segs: seq<Segment>): byte {
    if segs == [] then 0xef else XorAll(Checksum(segs[..|segs| - 1]), segs[|segs| - 1].data)
  }

  function Repeat(b: byte, n: nat): (s: seq<byte>)
    ensures |s| == n
  {
    seq(n, i => b)
  }

  /** Header, sections, zeros up to one byte short of a multiple of 16, checksum. */
  ghost function Bin(h: Header, segs: seq<Segment>): (s: seq<byte>)
    requires |segs| < 256 && Storable(segs)
    ensures |s| % 16 == 0
  {
    var body := HeaderBytes(h, |segs|) + Sections(segs);
    body + Repeat(0, 15 - |body| % 16) + [Checksum(segs)]
  }

  /** The inner loop of `write_bin`. */
  method UpdateChecksum(start: byte, raw: seq<byte>) returns (checksum: byte)
    ensures checksum == XorAll(start, raw)
  {
    hide Xor;
    checksum := start;
    for k := 0 to |raw|
      invariant checksum == XorAll(start, raw[..k])
    {
      assert raw[..k + 1][..k] == raw[..k];
      checksum := Xor(checksum, raw[k]);
    }
    assert raw[..|raw|] == raw;
  }

  /** The segment loop of `write_bin`, with the size and the checksum it keeps. */
  method WriteSections(header: seq<byte>, segs: seq<Segment>) returns (out: seq<byte>, total: nat, checksum: byte)
    requires Storable(segs) && |header| == 8
    ensures out == header + Sections(segs)
    ensures total == |out| && checksum == Checksum(segs)
  {
    hide XorAll;
    hide SectionBytes;
    out, total, checksum := header, 8, 0xef;
    for i := 0 to |segs|
      invariant out == header + Sections(segs[..i])
      invariant total == |out| && checksum == Checksum(segs[..i])
    {
      assert segs[..i + 1][..i] == segs[..i];
      out := out + SectionBytes(segs[i]);
      total := total + 8 + |segs[i].data|;
      checksum := UpdateChecksum(checksum, segs[i].data);
    }
    assert segs[..|segs|] == segs;
  }

  /** Fill bytes, one at a time, until `out` is `size` long. */
  method Fill(body: seq<byte>, b: byte, size: nat) returns (out: seq<byte>)
    ensures out == body + Repeat(b, if |body| < size then size - |body| else 0)
  {
    out := body;
    while |out| < size
      invariant |body| <= |out| && (|out| <= size || out == body) && out == body + Repeat(b, |out| - |body|)
    {
      out := out + [b];
    }
  }

  lemma RepeatMore(b: byte, n: nat)
    ensures Repeat(b, n) + [b] == Repeat(b, n + 1)
  {
  }

  lemma NextSixteen(n: nat, total: nat)
    requires n < total <= n + 16 - n % 16 && total % 16 == 0
    ensures total == n + 16 - n % 16
  {
  }

  /** The padding loop of `write_bin`; `start` counts the checksum to come as well. */
  method Pad(body: seq<byte>, start: nat) returns (out: seq<byte>, total: nat)
    requires start == |body| + 1
    ensures out == body + Repeat(0, 15 - |body| % 16) && total == |out| + 1
  {
    hide Repeat;
    out, total := body, start;
    ghost var end := |body| + 16 - |body| % 16;
    assert end % 16 == 0;
    while total % 16 != 0
      invariant |body| < total == |out| + 1 <= end
      invariant out == body + Repeat(0, |out| - |body|)
      decreases end - total
    {
      RepeatMore(0, |out| - |body|);
      total := total + 1;
      out := out + [0];
    }
    NextSixteen(|body|, total);
  }

  /**
    `write_bin`: fails when there are more segments than the header's byte can count, or when an image with a
    target size leaves less than eight bytes before it; otherwise the image, filled with 0xaa up to the target.
  */
  method WriteBin(h: Header, segs: seq<Segment>, toAddr: nat) returns (ok: bool, out: seq<byte>)
    requires Storable(segs)
    ensures ok <==> |segs| < 256 && (toAddr == 0 || |Bin(h, segs)| + 8 <= toAddr)
    ensures ok ==> out == Bin(h, segs) + Repeat(0xaa, if toAddr == 0 then 0 else toAddr - |Bin(h, segs)|)
  {
    hide Sections;
    hide Checksum;
    hide HeaderBytes;
    if |segs| >= 256 {
      return false, [];
    }
    var total, checksum;
    out, total, checksum := WriteSections(HeaderBytes(h, |segs|), segs);
    total := total + 1;
    out, total := Pad(out, total);
    out := out + [checksum];
    if toAddr != 0 {
      if total + 8 > toAddr {
        return false, [];
      }
      out := Fill(out, 0xaa, toAddr);
    }
    ok := true;
  }

  // ----- walking the file

  datatype SectionAt = SectionAt(address: word, size: word, at: word)
  datatype Walked = Walked(sections: seq<SectionAt>, end: word)

  function Add32(x: word, y: word): word {
    (x + y) % 0x1_0000_0000
  }

  function WordAt(mem: seq<byte>, pos: nat): word
    requires pos + 4 <= |mem|
  {
    BytesWord(mem[pos..pos + 4])
  }

  /** The `n` section headers met from `pos` on; 32-bit positions wrap. */
  function Walk(mem: seq<byte>, pos: word, n: nat): Option<Walked>
    decreases n
  {
    if n == 0 then Some(Walked([], pos)) else
    if pos + 8 > |mem| then None else
    var section := SectionHeaderAt(mem, pos);
    match Walk(mem, Add32(section.at, section.size), n - 1)
    case None => None
    case Some(rest) => Some(Walked([section] + rest.sections, rest.end))
  }

  /** The sections in flash are the segments of the program. */
  ghost predicate Meets(mem: seq<byte>, sections: seq<SectionAt>, segs: seq<Segment>) {
    && |sections| == |segs|
    && forall i :: 0 <= i < |segs| ==> Holds(mem, sections[i], segs[i])
  }

  ghost predicate Holds(mem: seq<byte>, section: SectionAt, seg: Segment) {
    && section.address == seg.address && section.size == |seg.data|
    && section.at + section.size <= |mem| && mem[section.at..section.at + section.size] == seg.data
  }

  lemma {:induction false} SectionsCons(segs: seq<Segment>)
    requires Storable(segs) && segs != []
    ensures Sections(segs) == SectionBytes(segs[0]) + Sections(segs[1..])
  {
    hide SectionBytes;
    if |segs| > 1 {
      var front, last := segs[..|segs| - 1], segs[|segs| - 1];
      SectionsCons(front);
      assert segs[1..][..|segs| - 2] == front[1..];
    }
  }

  lemma Slice<T>(s: seq<T>, lo: nat, hi: nat, i: nat, j: nat)
    requires lo <= hi <= |s| && i <= j <= hi - lo
    ensures s[lo..hi][i..j] == s[lo + i..lo + j]
  {
    assert forall k :: 0 <= k < j - i ==> s[lo..hi][i..j][k] == s[lo..hi][i + k];
  }

  lemma SectionHeld(mem: seq<byte>, pos: word, seg: Segment)
    requires |seg.data| < 0x1_0000_0000 && pos + |SectionBytes(seg)| <= |mem| && |mem| < 0x1_0000_0000
    requires mem[pos..pos + |SectionBytes(seg)|] == SectionBytes(seg)
    ensures Holds(mem, SectionHeaderAt(mem, pos), seg)
  {
    hide WordBytes;
    hide BytesWord;
    var end := pos + |SectionBytes(seg)|;
    Slice(mem, pos, end, 0, 4);
    Slice(mem, pos, end, 4, 8);
    Slice(mem, pos, end, 8, 8 + |seg.data|);
    assert SectionBytes(seg)[0..4] == WordBytes(seg.address);
    assert SectionBytes(seg)[4..8] == WordBytes(|seg.data|);
    assert SectionBytes(seg)[8..8 + |seg.data|] == seg.data;
    WordBytesInverse(seg.address);
    WordBytesInverse(|seg.data|);
  }

  function SectionHeaderAt(mem: seq<byte>, pos: word): SectionAt
    requires pos + 8 <= |mem|
  {
    SectionAt(WordAt(mem, pos), WordAt(mem, pos + 4), Add32(pos, 8))
  }

  lemma HeldSection(mem: seq<byte>, pos: word, seg: Segment)
    requires pos + 8 + |seg.data| <= |mem| < 0x1_0000_0000 && Holds(mem, SectionHeaderAt(mem, pos), seg)
    ensures var section := SectionHeaderAt(mem, pos);
            && Add32(section.at, section.size) == section.at + section.size == pos + 8 + |seg.data|
            && Segment(section.address, mem[section.at..section.at + section.size]) == seg
  {
    hide WordAt;
  }

  lemma FirstSection(mem: seq<byte>, pos: word, segs: seq<Segment>)
    requires Storable(segs) && segs != [] && pos + |Sections(segs)| <= |mem| && |mem| < 0x1_0000_0000
    requires mem[pos..pos + |Sections(segs)|] == Sections(segs)
    ensures |Sections(segs)| == 8 + |segs[0].data| + |Sections(segs[1..])|
    ensures Holds(mem, SectionHeaderAt(mem, pos), segs[0])
    ensures var next := pos + 8 + |segs[0].data|; mem[next..next + |Sections(segs[1..])|] == Sections(segs[1..])
  {
    hide Holds;
    hide Sections;
    hide SectionBytes;
    hide SectionHeaderAt;
    var first, end := SectionBytes(segs[0]), pos + |Sections(segs)|;
    SectionsCons(segs);
    Slice(mem, pos, end, 0, |first|);
    Slice(mem, pos, end, |first|, |Sections(segs)|);
    assert Sections(segs)[0..|first|] == first;
    RestOfSum(Sections(segs), first, Sections(segs[1..]));
    SectionHeld(mem, pos, segs[0]);
    var next := pos + 8 + |segs[0].data|;
    assert next == pos + |first| && next + |Sections(segs[1..])| == end;
  }

  lemma RestOfSum(all: seq<byte>, first: seq<byte>, rest: seq<byte>)
    requires all == first + rest
    ensures all[|first|..|all|] == rest
  {
  }

  /** The walk over written sections meets exactly the written segments and ends behind the last one. */
  lemma {:induction false} WalkMeetsSections(mem: seq<byte>, pos: word, segs: seq<Segment>)
    requires Storable(segs) && pos + |Sections(segs)| <= |mem| && |mem| < 0x1_0000_0000
    requires mem[pos..pos + |Sections(segs)|] == Sections(segs)
    ensures Walk(mem, pos, |segs|).Some?
    ensures var w := Walk(mem, pos, |segs|).value; Meets(mem, w.sections, segs) && w.end == pos + |Sections(segs)|
    decreases |segs|
  {
    hide Sections;
    hide SectionHeaderAt;
    hide Holds;
    hide Meets;
    if segs == [] {
      EmptyWalk(mem);
    } else {
      var next := pos + 8 + |segs[0].data|;
      FirstSection(mem, pos, segs);
      WalkMeetsSections(mem, next, segs[1..]);
      HeldSection(mem, pos, segs[0]);
      MeetsCons(mem, SectionHeaderAt(mem, pos), Walk(mem, next, |segs| - 1).value.sections, segs);
    }
  }

  lemma EmptyWalk(mem: seq<byte>)
    ensures Sections([]) == [] && Meets(mem, [], [])
  {
  }

  lemma MeetsCons(mem: seq<byte>, section: SectionAt, rest: seq<SectionAt>, segs: seq<Segment>)
    requires segs != [] && Holds(mem, section, segs[0]) && Meets(mem, rest, segs[1..])
    ensures Meets(mem, [section] + rest, segs)
  {
    hide Holds;
    assert forall i :: 1 <= i < |segs| ==> segs[i] == segs[1..][i - 1];
  }

  // ----- the readers

  /** Flash from 0x1000 on holds an application of these segments. */
  ghost predicate Carries(mem: seq<byte>, entry: word, segs: seq<Segment>) {
    && |segs| < 256 && Storable(segs)
    && 0x1008 + |Sections(segs)| <= |mem| < 0x1_0000_0000
    && mem[0x1001] == |segs| && WordAt(mem, 0x1004) == entry
    && mem[0x1008..0x1008 + |Sections(segs)|] == Sections(segs)
  }

  /** A firmware file is the bootloader image, filled to 0x1000 bytes, and the application image. */
  lemma FirmwareCarries(mem: seq<byte>, boot: seq<byte>, h: Header, segs: seq<Segment>)
    requires |segs| < 256 && Storable(segs) && |boot| == 0x1000 && |mem| < 0x1_0000_0000
    requires boot + Bin(h, segs) <= mem
    ensures Carries(mem, h.entry, segs)
  {
    hide WordBytes;
    hide BytesWord;
    var file := boot + Bin(h, segs);
    var body := HeaderBytes(h, |segs|) + Sections(segs);
    assert body <= Bin(h, segs);
    assert file[0x1000..0x1000 + |body|] == body;
    assert mem[0x1000..0x1000 + |body|] == body by {
      assert forall i :: 0 <= i < |file| ==> mem[i] == file[i];
    }
    Slice(mem, 0x1000, 0x1000 + |body|, 4, 8);
    Slice(mem, 0x1000, 0x1000 + |body|, 8, |body|);
    assert mem[0x1001] == mem[0x1000..0x1000 + |body|][1];
    assert body[4..8] == WordBytes(h.entry);
    assert body[8..|body|] == Sections(segs);
    WordBytesInverse(h.entry);
  }

  /** Nothing below the application matters to it. */
  lemma CarriesAbove(mem: seq<byte>, now: seq<byte>, entry: word, segs: seq<Segment>)
    requires Carries(mem, entry, segs) && SameOutside(now, mem, 0, 0x1000)
    ensures Carries(now, entry, segs)
  {
    assert now[0x1004..0x1008] == mem[0x1004..0x1008];
    assert now[0x1008..0x1008 + |Sections(segs)|] == mem[0x1008..0x1008 + |Sections(segs)|];
  }

  /** The program with the two words of the seal, which lie at the start of its first section. */
  function WithSeal(segs: seq<Segment>, words: seq<byte>): (r: seq<Segment>)
    requires segs != [] && |segs[0].data| >= 8 == |words|
    ensures |r| == |segs|
  {
    [Segment(segs[0].address, words + segs[0].data[8..])] + segs[1..]
  }

  lemma SealStaysInFirstSection(mem: seq<byte>, now: seq<byte>, entry: word, segs: seq<Segment>)
    requires Carries(mem, entry, segs) && segs != [] && |segs[0].data| >= 8
    requires SameOutside(now, mem, 4112, 4120) && |mem| >= 4120
    ensures Carries(now, entry, WithSeal(segs, now[4112..4120]))
  {
    hide Sections;
    var sealed, s := WithSeal(segs, now[4112..4120]), Sections(segs);
    SealedSections(segs, now[4112..4120]);
    assert forall k :: 0 <= k < |s| ==> s[k] == mem[0x1008..0x1008 + |s|][k] == mem[0x1008 + k];
    assert now[0x1008..0x1008 + |s|] == Sections(sealed);
    assert now[0x1004..0x1008] == mem[0x1004..0x1008];
  }

  lemma SealedSections(segs: seq<Segment>, words: seq<byte>)
    requires Storable(segs) && segs != [] && |segs[0].data| >= 8 && |words| == 8
    ensures var s, t := Sections(segs), Sections(WithSeal(segs, words));
            |t| == |s| >= 16 && forall k :: 0 <= k < |s| ==> t[k] == if 8 <= k < 16 then words[k - 8] else s[k]
  {
    hide Sections;
    var sealed := WithSeal(segs, words);
    SectionsCons(segs);
    SectionsCons(sealed);
    assert sealed[1..] == segs[1..];
  }

  /** `getSketchSize` on flash contents; 0 stands for a failed read. */
  function SketchSize(mem: seq<byte>): word {
    if 0x1008 > |mem| then 0 else
    match Walk(mem, 0x1008, mem[0x1001])
    case None => 0
    case Some(w) => var end := Add32(w.end, 16); end - end % 16
  }

  /** The length of an image with `n` bytes of sections: header, sections, padding and checksum. */
  function BinLength(n: nat): nat {
    8 + n + 16 - (8 + n) % 16
  }

  lemma BinHasLength(h: Header, segs: seq<Segment>)
    requires |segs| < 256 && Storable(segs)
    ensures |Bin(h, segs)| == BinLength(|Sections(segs)|)
  {
    hide Sections;
    hide Checksum;
  }

  /** `getSketchSize` of any flash that carries an application is where its image ends. */
  lemma SketchSizeOfApp(mem: seq<byte>, entry: word, segs: seq<Segment>)
    requires Carries(mem, entry, segs) && 0x1000 + BinLength(|Sections(segs)|) < 0x1_0000_0000
    ensures SketchSize(mem) == 0x1000 + BinLength(|Sections(segs)|)
  {
    hide Walk;
    hide Sections;
    WalkMeetsSections(mem, 0x1008, segs);
    var body := 8 + |Sections(segs)|;
    assert (0x1000 + body + 16) % 16 == body % 16;
  }

  lemma SealKeepsLength(segs: seq<Segment>, words: seq<byte>)
    requires segs != [] && |segs[0].data| >= 8 == |words| && Storable(segs)
    ensures Storable(WithSeal(segs, words)) && |Sections(WithSeal(segs, words))| == |Sections(segs)|
  {
    var sealed := WithSeal(segs, words);
    SectionsCons(segs);
    SectionsCons(sealed);
    assert sealed[1..] == segs[1..];
  }

  /** `getSketchSize` of a firmware file in flash is the length of the file. */
  lemma SketchSizeIsFileLength(mem: seq<byte>, boot: seq<byte>, h: Header, segs: seq<Segment>)
    requires |segs| < 256 && Storable(segs) && |boot| == 0x1000 && |mem| < 0x1_0000_0000
    requires boot + Bin(h, segs) <= mem
    ensures SketchSize(mem) == |boot + Bin(h, segs)|
  {
    hide Bin;
    hide SketchSize;
    BinHasLength(h, segs);
    FirmwareCarries(mem, boot, h, segs);
    SketchSizeOfApp(mem, h.entry, segs);
  }

  method GetSketchSize(chip: Chip) returns (result: word)
    modifies chip`failures
    ensures result == 0 || result == SketchSize(chip.mem)
    ensures chip.failures >= old(chip.failures)
    ensures chip.failures == old(chip.failures) ==> result == SketchSize(chip.mem)
  {
    hide WordAt;
    hide Walk;
    hide Reaches;
    hide SketchSize;
    hide BytesWord;
    var pos: word := 0x1000;
    var ok, header := chip.RomRead(pos, 8);
    NoHeaderNoSize(chip.mem);
    if !ok {
      return 0;
    }
    pos := Add32(pos, 8);
    var i := 0;
    StartReaches(chip.mem, pos, header[1]);
    while i < header[1]
      invariant 0 <= i <= header[1] && chip.failures == old(chip.failures)
      invariant Reaches(chip.mem, 0x1008, header[1], pos, header[1] - i)
    {
      NextReaches(chip.mem, 0x1008, header[1], pos, header[1] - i);
      var section;
      ok, section := chip.RomRead(pos, 8);
      if !ok {
        EndsEarly(chip.mem, header[1]);
        return 0;
      }
      SectionRead(chip.mem, pos, section);
      var size := BytesWord(section[4..8]);
      pos := Add32(Add32(pos, 8), size);
      i := i + 1;
    }
    EndReaches(chip.mem, header[1], pos);
    pos := Add32(pos, 16);
    result := pos - pos % 16;
  }

  lemma NoHeaderNoSize(mem: seq<byte>)
    ensures |mem| < 0x1008 ==> SketchSize(mem) == 0
  {
  }

  lemma StartReaches(mem: seq<byte>, pos: word, n: nat)
    ensures Reaches(mem, pos, n, pos, n)
  {
  }

  lemma NextReaches(mem: seq<byte>, from: word, n: nat, pos: word, left: nat)
    requires Reaches(mem, from, n, pos, left) && left > 0
    ensures if pos + 8 > |mem| then Walk(mem, from, n) == None
            else Reaches(mem, from, n, Add32(Add32(pos, 8), WordAt(mem, pos + 4)), left - 1)
  {
    hide WordAt;
  }

  lemma EndsEarly(mem: seq<byte>, n: nat)
    ensures 0x1008 <= |mem| && mem[0x1001] == n && Walk(mem, 0x1008, n) == None ==> SketchSize(mem) == 0
  {
    hide Walk;
  }

  lemma EndReaches(mem: seq<byte>, n: nat, pos: word)
    requires 0x1008 <= |mem| && mem[0x1001] == n && Reaches(mem, 0x1008, n, pos, 0)
    ensures var end := Add32(pos, 16); SketchSize(mem) == end - end % 16
  {
    assert Walk(mem, pos, 0) == Some(Walked([], pos));
  }

  lemma SectionRead(mem: seq<byte>, pos: nat, s: seq<byte>)
    requires pos + 8 <= |mem| && s == mem[pos..pos + 8]
    ensures BytesWord(s[0..4]) == WordAt(mem, pos) && BytesWord(s[4..8]) == WordAt(mem, pos + 4)
  {
    hide BytesWord;
    Slice(mem, pos, pos + 8, 0, 4);
    Slice(mem, pos, pos + 8, 4, 8);
  }

  /** Walking `n` sections from `pos` ends where walking the remaining `left` from `at` ends. */
  ghost predicate Reaches(mem: seq<byte>, pos: word, n: nat, at: word, left: nat) {
    var whole, rest := Walk(mem, pos, n), Walk(mem, at, left);
    whole.Some? == rest.Some? && (whole.Some? ==> whole.value.end == rest.value.end)
  }

  // ----- the seal

  function Store(raw: seq<byte>, at: nat, v: word): (r: seq<byte>)
    requires at + 4 <= |raw|
    ensures |r| == |raw|
  {
    Overwrite(raw, at, WordBytes(v))
  }

  /** The image with the length and CRC words zeroed. */
  function Blank(raw: seq<byte>): (r: seq<byte>)
    requires |raw| >= 4120
    ensures |r| == |raw|
  {
    Store(Store(raw, 4112, 0), 4116, 0)
  }

  function Seal(raw: seq<byte>): (r: seq<byte>)
    requires |raw| >= 4120
    ensures |r| == |raw|
  {
    Store(Store(Blank(raw), 4112, |raw| % 0x1_0000_0000), 4116, Crc32(INITIAL, Blank(raw)))
  }

  /** `checkFlashCRC`, over the flash mapped at 0x40200000: three pieces, the two words read as zero. */
  predicate CheckFlashCrc(mem: seq<byte>)
    requires |mem| >= 4120 && 4120 <= WordAt(mem, 4112) <= |mem|
  {
    Crc32(Crc32(Crc32(INITIAL, mem[..4112]), Repeat(0, 8)), mem[4120..WordAt(mem, 4112)]) == WordAt(mem, 4116)
  }

  lemma BlankIs(raw: seq<byte>)
    requires |raw| >= 4120
    ensures Blank(raw) == raw[..4112] + Repeat(0, 8) + raw[4120..]
  {
  }

  lemma SealKeepsTheRest(raw: seq<byte>)
    requires |raw| >= 4120
    ensures SameOutside(Seal(raw), raw, 4112, 4120)
    ensures Seal(raw)[4112..4116] == WordBytes(|raw| % 0x1_0000_0000)
    ensures Seal(raw)[4116..4120] == WordBytes(Crc32(INITIAL, Blank(raw)))
  {
    hide Crc32;
    hide WordBytes;
  }

  /** Sealing twice is sealing once. */
  lemma SealIsIdempotent(raw: seq<byte>)
    requires |raw| >= 4120
    ensures Seal(Seal(raw)) == Seal(raw)
  {
    hide Crc32;
    hide WordBytes;
    hide Seal;
    SealKeepsTheRest(raw);
    SealKeepsTheRest(Seal(raw));
    assert Blank(Seal(raw)) == Blank(raw) by {
      BlankIs(raw);
      BlankIs(Seal(raw));
    }
    var once, twice := Seal(raw), Seal(Seal(raw));
    forall i | 0 <= i < |raw|
      ensures once[i] == twice[i]
    {
      if 4112 <= i < 4116 {
        assert once[4112..4116][i - 4112] == twice[4112..4116][i - 4112];
      } else if 4116 <= i < 4120 {
        assert once[4116..4120][i - 4116] == twice[4116..4120][i - 4116];
      }
    }
  }

  lemma CrcOfThreePieces(mem: seq<byte>, len: nat)
    requires 4120 <= len <= |mem|
    ensures Crc32(Crc32(Crc32(INITIAL, mem[..4112]), Repeat(0, 8)), mem[4120..len]) == Crc32(INITIAL, Blank(mem[..len]))
  {
    hide Crc32;
    BlankIs(mem[..len]);
    assert mem[..len][..4112] == mem[..4112] && mem[..len][4120..] == mem[4120..len];
    CrcConcat(INITIAL, mem[..4112], Repeat(0, 8));
    CrcConcat(INITIAL, mem[..4112] + Repeat(0, 8), mem[4120..len]);
  }

  /** Flash that starts with a sealed file. */
  ghost predicate StartsSealed(mem: seq<byte>, raw: seq<byte>) {
    4120 <= |raw| < 0x1_0000_0000 && Seal(raw) <= mem
  }

  lemma SealedWords(mem: seq<byte>, raw: seq<byte>)
    requires StartsSealed(mem, raw)
    ensures mem[..|raw|] == Seal(raw)
    ensures WordAt(mem, 4112) == |raw| && WordAt(mem, 4116) == Crc32(INITIAL, Blank(raw))
  {
    hide Crc32;
    hide Seal;
    hide WordBytes;
    hide BytesWord;
    SealKeepsTheRest(raw);
    assert mem[..|raw|] == Seal(raw);
    assert mem[4112..4116] == Seal(raw)[4112..4116] && mem[4116..4120] == Seal(raw)[4116..4120];
    WordBytesInverse(|raw|);
    WordBytesInverse(Crc32(INITIAL, Blank(raw)));
  }

  /** The device accepts what the builder sealed. */
  lemma SealAccepted(mem: seq<byte>, raw: seq<byte>)
    requires StartsSealed(mem, raw)
    ensures WordAt(mem, 4112) == |raw| && CheckFlashCrc(mem)
  {
    hide Crc32;
    hide Seal;
    hide WordAt;
    SealedWords(mem, raw);
    CrcOfThreePieces(mem, |raw|);
    assert Blank(Seal(raw)) == Blank(raw) by {
      SealKeepsTheRest(raw);
      BlankIs(raw);
      BlankIs(Seal(raw));
    }
  }

  /** A change confined to four consecutive bytes of the sealed file, the two seal words aside, is rejected. */
  lemma TamperingRejected(mem: seq<byte>, now: seq<byte>, raw: seq<byte>, lo: nat)
    requires StartsSealed(mem, raw) && SameOutside(now, mem, lo, lo + 4)
    requires now[..|raw|] != mem[..|raw|] && (lo + 4 <= 4112 || 4120 <= lo)
    ensures WordAt(now, 4112) == |raw| && !CheckFlashCrc(now)
  {
    hide Crc32;
    hide Seal;
    SealAccepted(mem, raw);
    assert now[4112..4116] == mem[4112..4116] && now[4116..4120] == mem[4116..4120];
    CrcOfThreePieces(mem, |raw|);
    CrcOfThreePieces(now, |raw|);
    var x, y := Blank(mem[..|raw|]), Blank(now[..|raw|]);
    BlankIs(mem[..|raw|]);
    BlankIs(now[..|raw|]);
    var i :| 0 <= i < |raw| && now[..|raw|][i] != mem[..|raw|][i];
    assert x[i] != y[i];
    BurstDetected(INITIAL, x, y, lo);
  }

  /** `store_word`, in place. */
  method StoreWord(raw: array<byte>, at: nat, v: word)
    requires at + 4 <= raw.Length
    modifies raw
    ensures raw[..] == Store(old(raw[..]), at, v)
  {
    raw[at] := v % 256;
    raw[at + 1] := v / 256 % 256;
    raw[at + 2] := v / 0x1_0000 % 256;
    raw[at + 3] := v / 0x100_0000;
  }

  /** `add_crc`; a file too short for the two words raises an index error and stays as it was. */
  method AddCrc(file: seq<byte>) returns (ok: bool, sealed: seq<byte>)
    ensures ok == (|file| >= 4120)
    ensures ok ==> sealed == Seal(file)
  {
    hide Crc32;
    hide Store;
    if |file| < 4120 {
      return false, [];
    }
    var raw := new byte[|file|](i requires 0 <= i < |file| => file[i]);
    assert raw[..] == file;
    StoreWord(raw, 4112, 0);
    StoreWord(raw, 4116, 0);
    var crc := CrcUpdate(INITIAL, raw[..]);
    StoreWord(raw, 4112, |file| % 0x1_0000_0000);
    StoreWord(raw, 4116, crc);
    ok, sealed := true, raw[..];
  }

  /** `checkFlashCRC`; a stored length that ends before the seal or behind flash makes it read what is not flash. */
  method CheckCrc(mem: seq<byte>) returns (accepted: bool)
    requires |mem| >= 4120
    ensures 4120 <= WordAt(mem, 4112) <= |mem| ==> accepted == CheckFlashCrc(mem)
  {
    hide Crc32;
    if !(4120 <= WordAt(mem, 4112) <= |mem|) {
      accepted := *;
      return;
    }
    var crc := CrcUpdate(INITIAL, mem[..4112]);
    crc := CrcUpdate(crc, Repeat(0, 8));
    crc := CrcUpdate(crc, mem[4120..WordAt(mem, 4112)]);
    accepted := crc == WordAt(mem, 4116);
  }
}
