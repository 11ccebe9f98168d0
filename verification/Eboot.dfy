/** The bootloader: the raw copy of a staged image, the loader, and the boot sequence around them. */
module Eboot {
  import opened Bytes
  import opened Options
  import opened Flash
  import opened Image
  import opened Crc
  import opened EbootCommand

  // ----- copying sector by sector

  /** One sector copied within flash. */
  ghost function CopySector(mem: seq<byte>, src: nat, dst: nat): (r: seq<byte>)
    requires src + 0x1000 <= |mem| && dst + 0x1000 <= |mem|
    ensures |r| == |mem|
  {
    Overwrite(mem, dst, mem[src..src + 0x1000])
  }

  predicate InRange(mem: seq<byte>, src: nat, dst: nat, n: nat) {
    n == 0 || (src + n * 0x1000 <= |mem| && dst + n * 0x1000 <= |mem|)
  }

  /** `n` sectors copied one after the other, each from flash as its predecessors left it. */
  ghost function CopySectors(mem: seq<byte>, src: nat, dst: nat, n: nat): (r: seq<byte>)
    requires InRange(mem, src, dst, n)
    ensures |r| == |mem|
  {
    if n == 0 then mem else
    CopySector(CopySectors(mem, src, dst, n - 1), src + (n - 1) * 0x1000, dst + (n - 1) * 0x1000)
  }

  /** What `memmove` would leave. */
  ghost function Moved(mem: seq<byte>, src: nat, dst: nat, size: nat): (r: seq<byte>)
    requires src + size <= |mem| && dst + size <= |mem|
    ensures |r| == |mem|
  {
    Overwrite(mem, dst, mem[src..src + size])
  }

  lemma MoveNothing(mem: seq<byte>, src: nat, dst: nat)
    requires src <= |mem| && dst <= |mem|
    ensures Moved(mem, src, dst, 0) == mem
  {
  }

  lemma MovedAt(mem: seq<byte>, src: nat, dst: nat, size: nat, i: nat)
    requires src + size <= |mem| && dst + size <= |mem| && i < |mem|
    ensures Moved(mem, src, dst, size)[i] == if dst <= i < dst + size then mem[src + i - dst] else mem[i]
  {
  }

  lemma MoveStep(mem: seq<byte>, src: nat, dst: nat, k: nat)
    requires src + k + 0x1000 <= |mem| && dst + k + 0x1000 <= |mem|
    requires dst <= src || src + k + 0x1000 <= dst
    ensures CopySector(Moved(mem, src, dst, k), src + k, dst + k) == Moved(mem, src, dst, k + 0x1000)
  {
    var before, after := Moved(mem, src, dst, k), CopySector(Moved(mem, src, dst, k), src + k, dst + k);
    forall i | 0 <= i < |mem|
      ensures after[i] == Moved(mem, src, dst, k + 0x1000)[i]
    {
      if dst + k <= i < dst + k + 0x1000 {
        assert after[i] == before[src + i - dst];
      } else {
        assert after[i] == before[i];
      }
    }
  }

  /** Forward copying is a move when the destination is not inside the source. */
  lemma {:induction false} CopyIsMove(mem: seq<byte>, src: nat, dst: nat, n: nat)
    requires src + n * 0x1000 <= |mem| && dst + n * 0x1000 <= |mem|
    requires dst <= src || src + n * 0x1000 <= dst
    ensures CopySectors(mem, src, dst, n) == Moved(mem, src, dst, n * 0x1000)
  {
    hide Moved;
    hide CopySector;
    if n == 0 {
      MoveNothing(mem, src, dst);
    } else {
      var k := (n - 1) * 0x1000;
      CopyIsMove(mem, src, dst, n - 1);
      MoveStep(mem, src, dst, k);
    }
  }

  /** Otherwise it is not: for every such overlap by whole sectors there are contents that come out wrong. */
  lemma OverlapFromBelowIsNotAMove(size: nat, src: nat, d: nat, n: nat) returns (mem: seq<byte>)
    requires 1 <= d < n && src + d * 0x1000 + n * 0x1000 <= size
    ensures |mem| == size
    ensures CopySectors(mem, src, src + d * 0x1000, n) != Moved(mem, src, src + d * 0x1000, n * 0x1000)
  {
    mem := seq(size, i requires 0 <= i < size => if src + d * 0x1000 <= i then 1 as byte else 0);
    TornCopyDiffers(mem, src, src + d * 0x1000, d, n);
  }

  /** The first `d` sectors are copied faithfully, so the source of sector `d` is by then a copy of sector 0. */
  lemma TornCopyDiffers(mem: seq<byte>, src: nat, dst: nat, d: nat, n: nat)
    requires 1 <= d < n && dst == src + d * 0x1000 && dst + n * 0x1000 <= |mem|
    requires mem[src] != mem[dst]
    ensures CopySectors(mem, src, dst, n) != Moved(mem, src, dst, n * 0x1000)
  {
    hide CopySectors;
    hide Moved;
    CopyIsMove(mem, src, dst, d);
    MovedAt(mem, src, dst, d * 0x1000, dst);
    SectorCopied(mem, src, dst, d);
    LaterSectorsKeep(mem, src, dst, d + 1, n, dst + d * 0x1000);
    MovedAt(mem, src, dst, n * 0x1000, dst + d * 0x1000);
  }

  lemma SectorCopied(mem: seq<byte>, src: nat, dst: nat, k: nat)
    requires InRange(mem, src, dst, k + 1)
    ensures CopySectors(mem, src, dst, k + 1)[dst + k * 0x1000] == CopySectors(mem, src, dst, k)[src + k * 0x1000]
  {
  }

  lemma {:induction false} LaterSectorsKeep(mem: seq<byte>, src: nat, dst: nat, k: nat, n: nat, i: nat)
    requires k <= n && src + n * 0x1000 <= |mem| && dst + n * 0x1000 <= |mem|
    requires i < |mem| && !(dst + k * 0x1000 <= i < dst + n * 0x1000)
    ensures CopySectors(mem, src, dst, n)[i] == CopySectors(mem, src, dst, k)[i]
  {
    if k < n {
      LaterSectorsKeep(mem, src, dst, k, n - 1, i);
    }
  }

  // ----- copy_raw

  /** `((size + 4095) & ~4095)` held in an `int32_t`: the sum wraps at 2^32 and half of the results are negative. */
  function Left(size: word): (left: int)
    ensures left % 0x1000 == 0
  {
    var sectors := (size + 0xfff) % 0x1_0000_0000 / 0x1000;
    0x1000 * if sectors >= 0x8_0000 then sectors - 0x10_0000 else sectors
  }

  /** How many sectors the loop copies. */
  function SectorCount(size: word): (n: nat)
    ensures size <= 0x7fff_f000 ==> size <= n * 0x1000 < size + 0x1000
    ensures size > 0x7fff_f000 ==> n == 0
  {
    var left := Left(size);
    if left <= 0 then 0 else left / 0x1000
  }

  /** The state a copy can be in after any number of whole sectors and part of one more. */
  ghost predicate CutShort(now: seq<byte>, mem: seq<byte>, src: nat, dst: nat, n: nat) {
    exists k :: 0 <= k <= n && CutAt(now, mem, src, dst, n, k)
  }

  ghost predicate CutAt(now: seq<byte>, mem: seq<byte>, src: nat, dst: nat, n: nat, k: nat) {
    && k <= n && InRange(mem, src, dst, k)
    && var done, at := CopySectors(mem, src, dst, k), dst + k * 0x1000;
       SameOutside(now, done, at, if k == n || BootSectorSame(done, src + k * 0x1000, at) then at else at + 0x1000)
  }

  /** The bootloader's own sector is to be overwritten with what it already holds. */
  ghost predicate BootSectorSame(mem: seq<byte>, src: nat, dst: nat) {
    dst == 0 && src + 0x1000 <= |mem| && mem[..0x1000] == mem[src..src + 0x1000]
  }

  /** One turn of the loop in `copy_raw`. */
  method CopyOne(chip: Chip, src: nat, dst: nat) returns (res: nat)
    requires src % 0x1000 == 0 && dst % 0x1000 == 0
    modifies chip
    ensures res == 0 ==> InRange(old(chip.mem), src, dst, 1) && chip.mem == CopySector(old(chip.mem), src, dst)
    ensures SameOutside(chip.mem, old(chip.mem), dst,
                        if BootSectorSame(old(chip.mem), src, dst) then dst else dst + 0x1000)
    ensures chip.failures >= old(chip.failures)
    ensures (res == 0) == (InRange(chip.mem, src, dst, 1) && chip.failures == old(chip.failures))
  {
    var ok, buffer := chip.RomRead(src, 0x1000);
    if !ok {
      return 3;
    }
    if dst == 0 {
      var there;
      ok, there := chip.RomRead(0, 0x1000);
      if !ok {
        return 4;
      }
      if there == buffer {
        assert CopySector(chip.mem, src, 0) == chip.mem;
        return 0;
      }
      assert chip.mem[0..0x1000] == chip.mem[..0x1000];
    }
    res := Rewrite(chip, dst, buffer);
  }

  /** Erase a sector and write it anew. */
  method Rewrite(chip: Chip, dst: nat, buffer: seq<byte>) returns (res: nat)
    requires dst % 0x1000 == 0 && |buffer| == 0x1000
    modifies chip
    ensures SameOutside(chip.mem, old(chip.mem), dst, dst + 0x1000)
    ensures res == 0 ==> dst + 0x1000 <= |chip.mem| && chip.mem == Overwrite(old(chip.mem), dst, buffer)
    ensures chip.failures >= old(chip.failures)
    ensures (res == 0) == (dst + 0x1000 <= |chip.mem| && chip.failures == old(chip.failures))
  {
    hide Program;
    hide Overwrite;
    ghost var mem := chip.mem;
    var sector := dst / 0x1000;
    assert sector * 0x1000 == dst && dst == 4 * (sector * 0x400);
    var ok := chip.SpiErase(sector);
    if !ok {
      return 2;
    }
    ok := chip.SpiWrite(dst, buffer);
    if !ok {
      return 4;
    }
    WrittenOnErased(chip, mem, sector, buffer);
    res := 0;
  }

  lemma WrittenOnErased(chip: Chip, mem: seq<byte>, sector: nat, data: seq<byte>)
    requires (sector + 1) * 0x1000 <= |mem| && |data| == 0x1000
    ensures chip.Written(EraseSector(mem, sector), sector * 0x1000, data) == Overwrite(mem, sector * 0x1000, data)
  {
    var erased := EraseSector(mem, sector);
    assert Overwrite(erased, sector * 0x1000, data) == Overwrite(mem, sector * 0x1000, data);
    ProgramErased(erased, sector * 0x1000, data);
  }

  predicate IsGzip(mem: seq<byte>, src: nat) {
    src + 1 < |mem| && mem[src] == 0x1f && mem[src + 1] == 0x8b
  }

  lemma SignatureIs(mem: seq<byte>, src: nat)
    requires src + 2 <= |mem|
    ensures IsGzip(mem, src) <==> mem[src..src + 2] == [0x1f, 0x8b]
  {
    var bytes := mem[src..src + 2];
    assert bytes[0] == mem[src] && bytes[1] == mem[src + 1];
  }

  /** `read_flash_byte`, which ignores a failed read and returns whatever the stack held. */
  method ReadFlashByte(chip: Chip, addr: nat) returns (b: byte)
    modifies chip`failures
    ensures chip.failures >= old(chip.failures)
    ensures chip.failures == old(chip.failures) && addr - addr % 4 + 4 <= |chip.mem| ==> b == chip.mem[addr]
  {
    var ok, buff := chip.RomRead(addr - addr % 4, 4);
    if ok {
      b := buff[addr % 4];
    } else {
      b := *;
    }
  }

  /** What a copy needs to succeed when no SPI operation fails. */
  predicate Copyable(mem: seq<byte>, src: word, dst: word, size: word) {
    && src % 0x1000 == 0 && dst % 0x1000 == 0
    && InRange(mem, src, dst, SectorCount(size)) && src + 4 <= |mem| && !IsGzip(mem, src)
  }

  lemma WordBorder(x: nat)
    requires x % 0x1000 == 0
    ensures x % 4 == 0
  {
  }

  lemma LeftIsSectors(size: word)
    ensures if Left(size) > 0 then Left(size) == SectorCount(size) * 0x1000 else SectorCount(size) == 0
  {
  }

  lemma PartInRange(now: seq<byte>, mem: seq<byte>, src: nat, dst: nat, n: nat, k: nat)
    requires k < n && |now| == |mem|
    ensures InRange(mem, src, dst, n) ==> InRange(now, src + k * 0x1000, dst + k * 0x1000, 1)
  {
  }

  lemma NothingCut(mem: seq<byte>, src: nat, dst: nat, n: nat)
    ensures InRange(mem, src, dst, 0) && CopySectors(mem, src, dst, 0) == mem && CutShort(mem, mem, src, dst, n)
  {
    assert CutAt(mem, mem, src, dst, n, 0);
  }

  lemma SectorCut(now: seq<byte>, before: seq<byte>, mem: seq<byte>, src: nat, dst: nat, n: nat, k: nat)
    requires k < n && InRange(mem, src, dst, k) && before == CopySectors(mem, src, dst, k)
    requires var s, d := src + k * 0x1000, dst + k * 0x1000;
             SameOutside(now, before, d, if BootSectorSame(before, s, d) then d else d + 0x1000)
    ensures CutShort(now, mem, src, dst, n) && |now| == |mem|
  {
    hide CopySectors;
    assert CutAt(now, mem, src, dst, n, k);
  }

  lemma SectorDone(before: seq<byte>, mem: seq<byte>, src: nat, dst: nat, k: nat)
    requires InRange(mem, src, dst, k) && before == CopySectors(mem, src, dst, k)
    requires InRange(before, src + k * 0x1000, dst + k * 0x1000, 1)
    ensures InRange(mem, src, dst, k + 1) && src + (k + 1) * 0x1000 <= |mem| && dst + (k + 1) * 0x1000 <= |mem|
    ensures CopySectors(mem, src, dst, k + 1) == CopySector(before, src + k * 0x1000, dst + k * 0x1000)
  {
    hide CopySector;
  }

  /** The loop of `copy_raw`. */
  method CopyLoop(chip: Chip, src: word, dst: word, ghost n: nat, left0: int) returns (res: nat)
    requires |chip.mem| < 0x1_0000_0000 && src % 0x1000 == 0 && dst % 0x1000 == 0
    requires if left0 > 0 then left0 == n * 0x1000 else n == 0
    modifies chip
    ensures |chip.mem| == |old(chip.mem)| && CutShort(chip.mem, old(chip.mem), src, dst, n)
    ensures res == 0 ==> InRange(old(chip.mem), src, dst, n) && chip.mem == CopySectors(old(chip.mem), src, dst, n)
    ensures chip.failures >= old(chip.failures)
    ensures chip.failures == old(chip.failures) && InRange(old(chip.mem), src, dst, n) ==> res == 0
  {
    hide CopySectors;
    hide CopySector;
    hide CutShort;
    hide SameOutside;
    hide BootSectorSame;
    hide InRange;
    ghost var mem, k := chip.mem, 0;
    NothingCut(mem, src, dst, n);
    var saddr, daddr, left := src, dst, left0;
    while left > 0
      invariant if left > 0 then left == (n - k) * 0x1000 else k == n
      invariant saddr == src + k * 0x1000 && daddr == dst + k * 0x1000
      invariant saddr % 0x1000 == 0 && daddr % 0x1000 == 0
      invariant chip.failures >= old(chip.failures)
      invariant k <= n && InRange(mem, src, dst, k) && |chip.mem| == |mem|
      invariant chip.mem == CopySectors(mem, src, dst, k)
      invariant CutShort(chip.mem, mem, src, dst, n)
      decreases left
    {
      ghost var before := chip.mem;
      res := CopyOne(chip, saddr, daddr);
      SectorCut(chip.mem, before, mem, src, dst, n, k);
      PartInRange(chip.mem, mem, src, dst, n, k);
      if res != 0 {
        return;
      }
      SectorDone(before, mem, src, dst, k);
      saddr, daddr, left := saddr + 0x1000, daddr + 0x1000, left - 0x1000;
      k := k + 1;
    }
    res := 0;
  }

  /** The signature test of `copy_raw`, which cannot tell a failed read. */
  method HasSignature(chip: Chip, src: word) returns (gzip: bool)
    requires src % 4 == 0
    modifies chip`failures
    ensures chip.failures >= old(chip.failures)
    ensures chip.failures == old(chip.failures) && src + 4 <= |chip.mem| ==> gzip == IsGzip(chip.mem, src)
  {
    var b0 := ReadFlashByte(chip, src);
    var b1 := ReadFlashByte(chip, src + 1);
    gzip := b0 == 0x1f && b1 == 0x8b;
  }

  /** The compressed branch of `copy_raw`: its sectors go to `dst` and up, and nothing else is promised of it. */
  method Uncompress(chip: Chip, dst: nat) returns (res: nat)
    modifies chip
    ensures SameOutside(chip.mem, old(chip.mem), dst, |chip.mem|) && |chip.mem| == |old(chip.mem)|
    ensures chip.failures >= old(chip.failures)
  {
    if dst <= |chip.mem| {
      chip.Spoil(dst, |chip.mem| - dst);
    }
    var failed: bool := *;
    if failed {
      chip.failures := chip.failures + 1;
    }
    res := *;
  }

  /**
    `copy_raw` with `verify` off; `gzip` says whether the signature was seen. For a plain image any result but 0 leaves
    flash as some cut through the copy left it.
  */
  method CopyRaw(chip: Chip, src: word, dst: word, size: word) returns (res: nat, ghost gzip: bool)
    requires |chip.mem| < 0x1_0000_0000
    modifies chip
    ensures src % 0x1000 != 0 || dst % 0x1000 != 0 ==> res == 1 && !gzip
    ensures |chip.mem| == |old(chip.mem)| && chip.failures >= old(chip.failures)
    ensures chip.failures == old(chip.failures) && src + 4 <= |chip.mem| ==>
              && gzip == (src % 0x1000 == 0 && dst % 0x1000 == 0 && IsGzip(old(chip.mem), src))
              && (gzip <==> src % 0x1000 == 0 && dst % 0x1000 == 0 && old(chip.mem)[src..src + 2] == [0x1f, 0x8b])
    ensures gzip ==> SameOutside(chip.mem, old(chip.mem), dst, |chip.mem|)
    ensures !gzip ==> CutShort(chip.mem, old(chip.mem), src, dst, SectorCount(size))
    ensures !gzip && res == 0 ==>
              InRange(old(chip.mem), src, dst, SectorCount(size)) &&
              chip.mem == CopySectors(old(chip.mem), src, dst, SectorCount(size))
    ensures chip.failures == old(chip.failures) && Copyable(old(chip.mem), src, dst, size) ==> res == 0
  {
    hide CopySectors;
    hide CutShort;
    hide SameOutside;
    hide InRange;
    hide IsGzip;
    hide Left;
    hide SectorCount;
    NothingCut(chip.mem, src, dst, SectorCount(size));
    if src + 4 <= |chip.mem| {
      SignatureIs(chip.mem, src);
    }
    if src % 0x1000 != 0 || dst % 0x1000 != 0 {
      return 1, false;
    }
    LeftIsSectors(size);
    WordBorder(src);
    var signed := HasSignature(chip, src);
    gzip := signed;
    if signed {
      res := Uncompress(chip, dst);
      return;
    }
    res := CopyLoop(chip, src, dst, SectorCount(size), Left(size));
  }

  // ----- load_app_from_flash_raw

  /** Sections that belong in RAM; the others are run from flash. */
  predicate Loadable(address: word) {
    address < 0x4000_0000 || 0x4010_0000 <= address < 0x4010_C000 || address >= 0x6000_0000
  }

  /** What the section loop brings into RAM: each loadable section, in order. */
  function LoadWalk(mem: seq<byte>, pos: word, n: nat): Option<seq<Segment>>
    decreases n
  {
    if n == 0 then Some([]) else
    if pos + 8 > |mem| then None else
    var section := SectionHeaderAt(mem, pos);
    var next := Add32(section.at, section.size);
    if !Loadable(section.address) then LoadWalk(mem, next, n - 1) else
    if section.at + section.size > |mem| then None else
    match LoadWalk(mem, next, n - 1)
    case None => None
    case Some(rest) => Some([Segment(section.address, mem[section.at..section.at + section.size])] + rest)
  }

  /** Where the loader jumps to and what it has loaded by then. */
  datatype App = App(entry: word, loaded: seq<Segment>)

  function LoadResult(mem: seq<byte>, base: word): Option<App> {
    var pos := Add32(base, 0x1000);
    if pos + 8 > |mem| then None else
    match LoadWalk(mem, Add32(pos, 8), mem[pos + 1])
    case None => None
    case Some(loaded) => Some(App(WordAt(mem, pos + 4), loaded))
  }

  function LoadableOf(segs: seq<Segment>): seq<Segment> {
    if segs == [] then [] else
    if Loadable(segs[0].address) then [segs[0]] + LoadableOf(segs[1..]) else LoadableOf(segs[1..])
  }

  /** One section in front of a walk that succeeds. */
  lemma HeldSectionLoads(mem: seq<byte>, pos: word, seg: Segment, n: nat)
    requires n > 0 && pos + 8 + |seg.data| <= |mem| < 0x1_0000_0000
    requires Holds(mem, SectionHeaderAt(mem, pos), seg)
    requires LoadWalk(mem, pos + 8 + |seg.data|, n - 1).Some?
    ensures var rest := LoadWalk(mem, pos + 8 + |seg.data|, n - 1).value;
            LoadWalk(mem, pos, n) == Some(if Loadable(seg.address) then [seg] + rest else rest)
  {
    hide Loadable;
    hide SectionHeaderAt;
    hide Holds;
    HeldSection(mem, pos, seg);
  }

  lemma {:induction false} LoadWalkMeetsSections(mem: seq<byte>, pos: word, segs: seq<Segment>)
    requires Storable(segs) && pos + |Sections(segs)| <= |mem| && |mem| < 0x1_0000_0000
    requires mem[pos..pos + |Sections(segs)|] == Sections(segs)
    ensures LoadWalk(mem, pos, |segs|) == Some(LoadableOf(segs))
    decreases |segs|
  {
    hide Sections;
    hide Loadable;
    hide Holds;
    hide SectionHeaderAt;
    if segs != [] {
      FirstSection(mem, pos, segs);
      LoadWalkMeetsSections(mem, pos + 8 + |segs[0].data|, segs[1..]);
      HeldSectionLoads(mem, pos, segs[0], |segs|);
    }
  }

  /** `loaded` are the segments at these places of the program, in its order. */
  ghost predicate TakenInOrder(segs: seq<Segment>, loaded: seq<Segment>, places: seq<nat>) {
    && |places| == |loaded| && (forall i, j :: 0 <= i < j < |places| ==> places[i] < places[j])
    && (forall i :: 0 <= i < |places| ==> places[i] < |segs| && loaded[i] == segs[places[i]])
  }

  /**
    What is loaded is taken in order, all that lies below 0x4000_0000, in the instruction RAM, or from 0x6000_0000 on,
    and nothing else.
  */
  ghost predicate Brings(segs: seq<Segment>, loaded: seq<Segment>, places: seq<nat>) {
    && TakenInOrder(segs, loaded, places)
    && (forall j :: 0 <= j < |segs| ==>
          (j in places <==>
             || segs[j].address < 0x4000_0000
             || 0x4010_0000 <= segs[j].address < 0x4010_C000
             || 0x6000_0000 <= segs[j].address))
  }

  /** The places of the loadable segments, from the `k`th segment on. */
  ghost function LoadedPlaces(segs: seq<Segment>, k: nat): (places: seq<nat>)
    requires k <= |segs|
    ensures forall i :: 0 <= i < |places| ==> k <= places[i] < |segs|
    decreases |segs| - k
  {
    if k == |segs| then [] else
    (if Loadable(segs[k].address) then [k] else []) + LoadedPlaces(segs, k + 1)
  }

  lemma {:induction false} PlacesInOrder(segs: seq<Segment>, k: nat)
    requires k <= |segs|
    ensures TakenInOrder(segs, LoadableOf(segs[k..]), LoadedPlaces(segs, k))
    decreases |segs| - k
  {
    hide Loadable;
    hide TakenInOrder;
    if k < |segs| {
      PlacesInOrder(segs, k + 1);
      assert segs[k..][1..] == segs[k + 1..] && segs[k..][0] == segs[k];
      OneBefore(segs, LoadableOf(segs[k + 1..]), LoadedPlaces(segs, k + 1), k);
      assert [] + LoadedPlaces(segs, k + 1) == LoadedPlaces(segs, k + 1);
    } else {
      NoneTaken(segs);
    }
  }

  lemma NoneTaken(segs: seq<Segment>)
    ensures TakenInOrder(segs, [], [])
  {
  }

  lemma OneBefore(segs: seq<Segment>, loaded: seq<Segment>, places: seq<nat>, k: nat)
    requires k < |segs| && TakenInOrder(segs, loaded, places) && forall i :: 0 <= i < |places| ==> k < places[i]
    ensures TakenInOrder(segs, [segs[k]] + loaded, [k] + places)
  {
  }

  lemma {:induction false} PlacesAre(segs: seq<Segment>, k: nat, j: nat)
    requires k <= j < |segs|
    ensures j in LoadedPlaces(segs, k) <==> Loadable(segs[j].address)
    decreases |segs| - k
  {
    hide Loadable;
    if k < j {
      PlacesAre(segs, k + 1, j);
    } else {
      assert j !in LoadedPlaces(segs, k + 1);
    }
  }

  /** What the loader takes of a program. */
  lemma LoadableAre(segs: seq<Segment>)
    ensures Brings(segs, LoadableOf(segs), LoadedPlaces(segs, 0))
  {
    hide LoadableOf;
    hide LoadedPlaces;
    hide TakenInOrder;
    PlacesInOrder(segs, 0);
    assert segs[0..] == segs;
    forall j | 0 <= j < |segs|
      ensures j in LoadedPlaces(segs, 0) <==> Loadable(segs[j].address)
    {
      PlacesAre(segs, 0, j);
    }
  }

  /** The loader runs exactly the program that flash carries. */
  lemma LoaderRunsTheApp(mem: seq<byte>, entry: word, segs: seq<Segment>)
    requires Carries(mem, entry, segs)
    ensures LoadResult(mem, 0) == Some(App(entry, LoadableOf(segs)))
    ensures Brings(segs, LoadResult(mem, 0).value.loaded, LoadedPlaces(segs, 0))
  {
    hide LoadWalk;
    hide LoadableOf;
    hide Sections;
    hide Brings;
    LoadWalkMeetsSections(mem, 0x1008, segs);
    LoadableAre(segs);
  }

  /** `loaded` and then what the walk from `pos` brings is what the whole walk brings. */
  ghost predicate Continues(mem: seq<byte>, whole: Option<seq<Segment>>, loaded: seq<Segment>, pos: word, left: nat) {
    match LoadWalk(mem, pos, left)
    case None => whole == None
    case Some(rest) => whole == Some(loaded + rest)
  }

  lemma Starts(mem: seq<byte>, pos: word, n: nat)
    ensures Continues(mem, LoadWalk(mem, pos, n), [], pos, n)
  {
    hide LoadWalk;
    match LoadWalk(mem, pos, n)
    case None =>
    case Some(rest) =>
      assert [] + rest == rest;
  }

  lemma Finishes(mem: seq<byte>, whole: Option<seq<Segment>>, loaded: seq<Segment>, pos: word)
    requires Continues(mem, whole, loaded, pos, 0)
    ensures whole == Some(loaded)
  {
    assert loaded + [] == loaded;
  }

  lemma NoHeader(mem: seq<byte>, whole: Option<seq<Segment>>, loaded: seq<Segment>, pos: word, left: nat)
    requires left > 0 && Continues(mem, whole, loaded, pos, left)
    ensures pos + 8 > |mem| ==> whole == None
  {
  }

  lemma Skips(mem: seq<byte>, whole: Option<seq<Segment>>, loaded: seq<Segment>, pos: word, left: nat)
    requires left > 0 && pos + 8 <= |mem| && Continues(mem, whole, loaded, pos, left)
    requires !Loadable(WordAt(mem, pos))
    ensures Continues(mem, whole, loaded, Add32(Add32(pos, 8), WordAt(mem, pos + 4)), left - 1)
  {
    hide Loadable;
    hide WordAt;
  }

  lemma Loads(mem: seq<byte>, whole: Option<seq<Segment>>, loaded: seq<Segment>, pos: word, left: nat)
    requires left > 0 && pos + 8 <= |mem| && Continues(mem, whole, loaded, pos, left)
    requires Loadable(WordAt(mem, pos))
    ensures var section := SectionHeaderAt(mem, pos);
            if section.at + section.size > |mem| then whole == None else
            Continues(mem, whole, loaded + [Segment(section.address, mem[section.at..section.at + section.size])],
                      Add32(section.at, section.size), left - 1)
  {
    hide Loadable;
    hide WordAt;
    var section := SectionHeaderAt(mem, pos);
    if section.at + section.size <= |mem| {
      match LoadWalk(mem, Add32(section.at, section.size), left - 1)
      case None =>
      case Some(rest) =>
        var it := [Segment(section.address, mem[section.at..section.at + section.size])];
        assert loaded + (it + rest) == loaded + it + rest;
    }
  }

  method LoadApp(chip: Chip, base: word) returns (res: nat, app: App)
    modifies chip`failures
    ensures res == 0 ==> LoadResult(chip.mem, base) == Some(app)
    ensures chip.failures >= old(chip.failures)
    ensures chip.failures == old(chip.failures) && LoadResult(chip.mem, base).Some? ==> res == 0
  {
    hide WordAt;
    hide Loadable;
    hide Continues;
    hide LoadWalk;
    app := App(0, []);
    var pos := Add32(base, 0x1000);
    var ok, header := chip.RomRead(pos, 8);
    if !ok {
      return 1, app;
    }
    SectionRead(chip.mem, pos, header);
    ghost var whole := LoadWalk(chip.mem, Add32(pos, 8), header[1]);
    pos := Add32(pos, 8);
    Starts(chip.mem, pos, header[1]);
    var loaded := [];
    var index := 0;
    while index < header[1]
      invariant 0 <= index <= header[1] && chip.failures == old(chip.failures)
      invariant Continues(chip.mem, whole, loaded, pos, header[1] - index)
    {
      var section;
      ok, section := chip.RomRead(pos, 8);
      if !ok {
        NoHeader(chip.mem, whole, loaded, pos, header[1] - index);
        return 2, app;
      }
      SectionRead(chip.mem, pos, section);
      if Loadable(WordAt(chip.mem, pos)) {
        Loads(chip.mem, whole, loaded, pos, header[1] - index);
      } else {
        Skips(chip.mem, whole, loaded, pos, header[1] - index);
      }
      pos := Add32(pos, 8);
      var address, size := BytesWord(section[0..4]), BytesWord(section[4..8]);
      if Loadable(address) {
        var data;
        ok, data := chip.RomRead(pos, size);
        if !ok {
          return 3, app;
        }
        loaded := loaded + [Segment(address, data)];
      }
      pos := Add32(pos, size);
      index := index + 1;
    }
    Finishes(chip.mem, whole, loaded, pos);
    res, app := 0, App(BytesWord(header[4..8]), loaded);
  }

  // ----- the boot sequence

  datatype Outcome = Started(app: App) | Restarted(res: nat)

  /** Where a copy command leads when it completes. */
  ghost function AfterCopy(mem: seq<byte>, args: seq<word>): seq<byte>
    requires |args| >= 3 && InRange(mem, args[0], args[1], SectorCount(args[2]))
  {
    CopySectors(mem, args[0], args[1], SectorCount(args[2]))
  }

  /**
    Without a command the application in flash is started, certainly so if it is readable and no SPI operation fails.
  */
  ghost predicate BootsInPlace(before: seq<byte>, now: seq<byte>, outcome: Outcome, clean: bool) {
    && now == before
    && (outcome.Started? ==> LoadResult(now, 0) == Some(outcome.app))
    && (clean && LoadResult(now, 0).Some? ==> outcome.Started?)
  }

  /**
    A copy command for a plain image moves it into place, certainly so if the copy is possible and no SPI operation
    fails, and starts what is then there, certainly so if that is readable too. Otherwise flash is as some cut through
    the copy left it. Whether the image is plain is what the two signature bytes were read as.
  */
  ghost predicate BootsCopy(before: seq<byte>, now: seq<byte>, args: seq<word>, outcome: Outcome, clean: bool,
                            gzip: bool)
    requires |args| >= 3
  {
    var n := SectorCount(args[2]);
    && (outcome.Started? ==> LoadResult(now, args[1]) == Some(outcome.app))
    && (clean && Copyable(before, args[0], args[1], args[2]) ==> !gzip && now == AfterCopy(before, args))
    && (gzip ==> SameOutside(now, before, args[1], |now|))
    && (!gzip ==> CutShort(now, before, args[0], args[1], n))
    && (!gzip && outcome.Started? ==> InRange(before, args[0], args[1], n) && now == AfterCopy(before, args))
    && (clean && Copyable(before, args[0], args[1], args[2]) && LoadResult(AfterCopy(before, args), args[1]).Some? ==>
          outcome.Started?)
  }

  /** `main`. A valid command is cleared whether or not it succeeded. */
  method Boot(chip: Chip, rtc: array<word>) returns (outcome: Outcome, ghost gzip: bool)
    requires |chip.mem| < 0x1_0000_0000 && rtc.Length >= WORDS
    modifies chip, rtc
    ensures !Accepts(rtc[..WORDS])
    ensures rtc[WORDS..] == old(rtc[WORDS..])
    ensures chip.failures >= old(chip.failures) && |chip.mem| == |old(chip.mem)|
    ensures !old(Accepts(rtc[..WORDS])) ==>
              BootsInPlace(old(chip.mem), chip.mem, outcome, chip.failures == old(chip.failures)) &&
                rtc[..] == old(rtc[..])
    ensures old(Accepts(rtc[..WORDS])) && old(Decode(rtc[..WORDS])).action == ACTION_COPY_RAW ==>
              BootsCopy(old(chip.mem), chip.mem, old(Decode(rtc[..WORDS])).args, outcome,
                        chip.failures == old(chip.failures), gzip)
    ensures old(Accepts(rtc[..WORDS])) && old(Decode(rtc[..WORDS])).action == ACTION_LOAD_APP ==>
              var loads := LoadResult(chip.mem, old(Decode(rtc[..WORDS])).args[0]);
              && (outcome.Started? ==> loads == Some(outcome.app))
              && (chip.failures == old(chip.failures) && loads.Some? ==> outcome.Started?)
    ensures old(Accepts(rtc[..WORDS])) && old(Decode(rtc[..WORDS])).action !in {ACTION_COPY_RAW, ACTION_LOAD_APP} ==>
              outcome == Restarted(9)
    ensures old(Accepts(rtc[..WORDS])) && old(Decode(rtc[..WORDS])).action != ACTION_COPY_RAW ==>
              chip.mem == old(chip.mem)
  {
    hide Crc32;
    hide Flat;
    hide CopySectors;
    hide CutShort;
    hide LoadResult;
    var res := 9;
    gzip := false;
    var _, _ := chip.RomRead(0x1010, 4);
    var valid, cmd := Read(rtc);
    if !valid {
      cmd := Command(ACTION_LOAD_APP, cmd.args[0 := 0]);
    }
    var action, base := cmd.action, cmd.args[0];
    if action == ACTION_COPY_RAW {
      res, gzip := CopyRaw(chip, cmd.args[0], cmd.args[1], cmd.args[2]);
      if res == 0 {
        action, base := ACTION_LOAD_APP, cmd.args[1];
      }
    }
    if valid {
      Clear(rtc);
    }
    if action == ACTION_LOAD_APP {
      var app;
      res, app := LoadApp(chip, base);
      if res == 0 {
        outcome := Started(app);
        return;
      }
    }
    outcome := Restarted(res);
  }
}
