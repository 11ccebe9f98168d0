/** An update from the first chunk to the running program: staging, reboot, copy, load. */
module EndToEnd {
  import opened Bytes
  import opened Options
  import opened Flash
  import opened Image
  import opened Staging
  import opened EbootCommand
  import opened Eboot
  import opened Restart
  import opened Updater
  import opened Division

  ghost function Concat(chunks: seq<seq<byte>>): seq<byte> {
    if chunks == [] then [] else Concat(chunks[..|chunks| - 1]) + chunks[|chunks| - 1]
  }

  /** An application image waits at `start`, ordered for copying to the start of flash. */
  ghost predicate Waiting(mem: seq<byte>, base: seq<byte>, start: nat, image: seq<byte>, mode: byte) {
    && 0 < |image| && LegalMode(mode) && Staged(mem, base, start, Patched(image, mode))
    && start + SectorUp(|image|) <= |mem| == |base|
  }

  /** An update in progress has touched only its own sectors. */
  lemma RunningIsLocal(u: UpdaterClass)
    requires u.Running()
    ensures SameOutside(u.chip.mem, u.origin.mem, u.startAddress, SectorUp(u.startAddress + u.size))
  {
    hide Staged;
    hide InHash;
    hide Patched;
    hide SectorsErased;
    hide OnBoundary;
    var bytes := InFlash(u.image[..u.Progress()], u.command == U_FLASH, u.mode);
    StagedIsLocal(u.chip.mem, u.origin.mem, u.startAddress, bytes, u.size);
  }

  lemma StagedIsLocal(mem: seq<byte>, base: seq<byte>, start: nat, bytes: seq<byte>, size: nat)
    requires Staged(mem, base, start, bytes) && |bytes| <= size
    ensures SameOutside(mem, base, start, SectorUp(start + size))
  {
    SectorsInOrder(start + |bytes|, start + size);
  }

  /** One `write`, whatever comes of it: a chunk that is not empty touches only the sectors of the update. */
  method WriteOne(u: UpdaterClass, data: seq<byte>, ghost base: seq<byte>, ghost start: nat, ghost size: nat)
    requires u.Valid() && (u.Running() ==> u.origin.mem == base && u.startAddress == start && u.size == size)
    modifies u`error, u`buffer, u`bufferLen, u`startAddress, u`currentAddress, u`size, u`command, u`md5Fed, u`mode,
             u`image, u.buffer, u.chip
    ensures u.Valid() && |u.chip.mem| == |old(u.chip.mem)| && u.chip.failures >= old(u.chip.failures)
    ensures u.buffer == old(u.buffer) || u.buffer == null
    ensures u.Running() ==> old(u.Running()) && u.SameUpdate() && u.image == old(u.image) + data
    ensures data != [] && SameOutside(old(u.chip.mem), base, start, SectorUp(start + size)) ==>
              SameOutside(u.chip.mem, base, start, SectorUp(start + size))
    ensures (old(u.Running()) && data != [] && |old(u.image)| + |data| <= size &&
             u.chip.failures == old(u.chip.failures) &&
             SectorUp(start + size) <= |u.chip.mem|) ==> u.Running()
  {
    hide SectorUp;
    hide SameOutside;
    hide Reach;
    hide EmptyFlush;
    hide u.InPlace;
    var _ := u.Write(data);
    if u.Running() {
      RunningIsLocal(u);
    }
  }

  /**
    A run of `write` calls; an update that survives them has accepted exactly their bytes. If none is empty, only the
    sectors of the update are touched, whether it survives or not.
  */
  method WriteAll(u: UpdaterClass, chunks: seq<seq<byte>>)
    requires u.Running() && u.image == []
    modifies u`error, u`buffer, u`bufferLen, u`startAddress, u`currentAddress, u`size, u`command, u`md5Fed, u`mode,
             u`image, u.buffer, u.chip
    ensures u.Valid() && |u.chip.mem| == |old(u.chip.mem)| && u.chip.failures >= old(u.chip.failures)
    ensures u.Running() ==> u.SameUpdate() && u.image == Concat(chunks)
    ensures NoneEmpty(chunks) ==>
              SameOutside(u.chip.mem, old(u.origin).mem, old(u.startAddress),
                          SectorUp(old(u.startAddress) + old(u.size)))
    ensures (NoneEmpty(chunks) && |Concat(chunks)| <= old(u.size) && u.chip.failures == old(u.chip.failures) &&
             SectorUp(old(u.startAddress) + old(u.size)) <= |u.chip.mem|) ==> u.Running()
  {
    hide SectorUp;
    hide SameOutside;
    hide Concat;
    hide u.Running;
    hide NoneEmpty;
    RunningIsLocal(u);
    var i := 0;
    ConcatNothing(chunks);
    while i < |chunks|
      invariant 0 <= i <= |chunks| && u.Valid()
      invariant |u.chip.mem| == |old(u.chip.mem)| && u.chip.failures >= old(u.chip.failures)
      invariant u.buffer == old(u.buffer) || u.buffer == null
      invariant u.Running() ==> u.SameUpdate() && u.image == Concat(chunks[..i])
      invariant NoneEmpty(chunks) ==>
                  SameOutside(u.chip.mem, old(u.origin).mem, old(u.startAddress),
                              SectorUp(old(u.startAddress) + old(u.size)))
      invariant (NoneEmpty(chunks) && |Concat(chunks)| <= old(u.size) && u.chip.failures == old(u.chip.failures) &&
                 SectorUp(old(u.startAddress) + old(u.size)) <= |u.chip.mem|) ==> u.Running()
    {
      ConcatNext(chunks, i);
      WriteOne(u, chunks[i], old(u.origin).mem, old(u.startAddress), old(u.size));
      i := i + 1;
    }
    assert chunks[..|chunks|] == chunks;
  }

  lemma ConcatNothing(chunks: seq<seq<byte>>)
    ensures Concat(chunks[..0]) == []
  {
  }

  lemma ConcatNext(chunks: seq<seq<byte>>, i: nat)
    requires i < |chunks|
    ensures Concat(chunks[..i + 1]) == Concat(chunks[..i]) + chunks[i]
    ensures |Concat(chunks[..i + 1])| <= |Concat(chunks)|
    ensures NoneEmpty(chunks) ==> chunks[i] != []
  {
    assert chunks[..i + 1][..i] == chunks[..i];
    ConcatGrows(chunks, i + 1);
  }

  lemma {:induction false} ConcatGrows(chunks: seq<seq<byte>>, n: nat)
    requires n <= |chunks|
    ensures |Concat(chunks[..n])| <= |Concat(chunks)|
    decreases |chunks|
  {
    if n < |chunks| {
      var front := chunks[..|chunks| - 1];
      assert front[..n] == chunks[..n];
      ConcatGrows(front, n);
    } else {
      assert chunks[..n] == chunks;
    }
  }

  ghost predicate NoneEmpty(chunks: seq<seq<byte>>) {
    forall i :: 0 <= i < |chunks| ==> chunks[i] != []
  }

  /** What `Stage` promises of an update it reports as staged. */
  ghost predicate StagedUpdate(u: UpdaterClass, before: seq<byte>, image: seq<byte>, start: word, mode: byte)
    reads u, u.chip, u.rtc
    requires u.rtc.Length >= WORDS
  {
    && |image| <= 0xffff_f000 && start == u.StartFor(U_FLASH, |image|)
    && Waiting(u.chip.mem, before, start, image, mode)
    && u.Ordered(start, 0, |image|)
  }

  /** An announced hash is the hash of what was fed. */
  ghost predicate HashAgrees(u: UpdaterClass, md5: string, image: seq<byte>, mode: byte) {
    |md5| == 32 ==> EqualButForCase(md5, u.md5Of(Fed(image, mode)))
  }

  /** When no SPI operation failed, the running sketch is out of reach and the mode byte is that of the part. */
  ghost predicate CleanStart(before: seq<byte>, start: nat, mode: byte) {
    start >= Rounded(SketchSize(before)) && (start > 0 && |before| > 2 ==> mode == MagicMode(before[2]))
  }

  lemma HashWasChecked(u: UpdaterClass, md5: string, image: seq<byte>)
    requires u.HashMatches() && u.md5Fed == Fed(image, u.mode) && (|md5| == 32 ==> u.targetMd5 == md5)
    ensures HashAgrees(u, md5, image, u.mode)
  {
  }

  /**
    Where `begin` succeeds, the update lies behind the rounded sketch. It ends at the file system if and only if it is
    not larger than all of flash before that; a sketch that was found makes sure of it, unless the size wraps.
  */
  lemma RoomBeforeFileSystem(u: UpdaterClass, size: word, env: Environment, sketch: word)
    requires u.BeginError(false, U_FLASH, size, env, sketch) == ERROR_OK && u.fsStart % 0x1000 == 0
    ensures u.StartFor(U_FLASH, size) >= Rounded(sketch)
    ensures u.StartFor(U_FLASH, size) + SectorUp(size) == u.fsStart <==> size <= u.fsStart
    ensures u.StartFor(U_FLASH, size) + SectorUp(size) <= u.fsStart <==> size <= u.fsStart
    ensures Rounded(sketch) > 0 && size <= 0xffff_f000 ==> size <= u.fsStart
  {
    RoundedIs(size, u.fsStart);
    hide Rounded;
    hide SectorUp;
  }

  /** Rounding wraps for sizes in the last sector of 32 bits. */
  lemma RoundedIs(size: word, x: nat)
    requires x % 0x1000 == 0 && x < 0x1_0000_0000
    ensures Rounded(size) == if size <= 0xffff_f000 then SectorUp(size) else 0
    ensures SectorUp(size) <= x <==> size <= x
  {
    WholeSectors(x);
  }

  /**
    If no sketch is found, an update that is larger than all of flash before the file system is accepted too: it starts
    at offset 0 and runs into the file system.
  */
  lemma TooLargeIsAccepted(u: UpdaterClass, size: word, env: Environment, sketch: word)
    requires u.fsStart < size <= 0xffff_f000 && u.fsStart % 0x1000 == 0 && Rounded(sketch) == 0
    requires !env.uartBoot && env.configOk && env.allocates
    ensures u.BeginError(false, U_FLASH, size, env, sketch) == ERROR_OK
    ensures u.StartFor(U_FLASH, size) == 0 && SectorUp(size) > u.fsStart
  {
    RoundedIs(size, u.fsStart);
    hide Rounded;
    hide SectorUp;
  }

  lemma CompleteIsWaiting(u: UpdaterClass, realSize: nat, before: seq<byte>, image: seq<byte>)
    requires u.Complete(realSize) && u.command == U_FLASH && u.origin.mem == before && u.image == image
    ensures Waiting(u.chip.mem, before, u.startAddress, image, u.mode)
    ensures u.md5Fed == Fed(image, u.mode)
  {
    hide Patched;
    u.CompleteIsStaged(realSize);
    SectorUpFrom(u.startAddress, |image|);
  }

  lemma CompleteRuns(u: UpdaterClass, realSize: nat)
    requires u.Complete(realSize)
    ensures u.Running()
  {
  }

  lemma CompleteMeans(u: UpdaterClass, realSize: nat, before: seq<byte>, image: seq<byte>, md5: string)
    requires u.Complete(realSize) && u.command == U_FLASH && u.origin.mem == before && u.image == image
    requires |md5| == 32 ==> u.targetMd5 == md5
    ensures |image| == u.size && |image| <= |u.chip.mem| && u.chip.failures >= u.origin.failures
    ensures Waiting(u.chip.mem, before, u.startAddress, image, u.mode) && HashAgrees(u, md5, image, u.mode)
    ensures u.chip.failures == u.origin.failures && u.startAddress > 0 && |before| > 2 ==>
              u.mode == MagicMode(before[2])
  {
    hide Fed;
    CompleteIsWaiting(u, realSize, before, image);
    hide Waiting;
    HashWasChecked(u, md5, image);
  }

  lemma SectorUpFrom(start: nat, n: nat)
    requires start % 0x1000 == 0
    ensures SectorUp(start + n) == start + SectorUp(n)
  {
  }

  /**
    Whatever became of the update, only its sectors were touched: they start behind the rounded sketch and, if a sketch
    was found and the size does not wrap, end at the file system.
  */
  ghost predicate OnlyUpdateTouched(now: seq<byte>, before: seq<byte>, start: nat, size: nat, sketch: word,
                                    fsStart: nat) {
    && start >= Rounded(sketch) && SameOutside(now, before, start, SectorUp(start + size))
    && (Rounded(sketch) > 0 && size <= 0xffff_f000 ==> SameOutside(now, before, start, fsStart))
  }

  lemma UpdateIsBetween(u: UpdaterClass, now: seq<byte>, before: seq<byte>, size: word, env: Environment, sketch: word)
    requires u.BeginError(false, U_FLASH, size, env, sketch) == ERROR_OK && u.fsStart % 0x1000 == 0
    requires var start := u.StartFor(U_FLASH, size); SameOutside(now, before, start, SectorUp(start + size))
    ensures OnlyUpdateTouched(now, before, u.StartFor(U_FLASH, size), size, sketch, u.fsStart)
  {
    hide SameOutside;
    RoomBeforeFileSystem(u, size, env, sketch);
    u.StartIsAligned(U_FLASH, size);
    SectorUpFrom(u.StartFor(U_FLASH, size), size);
  }

  /** The first four bytes of a staged image, as `_verifyEnd` reads them back. */
  ghost function HeaderOf(image: seq<byte>, mode: byte): (h: seq<byte>)
    ensures |h| == 4
  {
    (Patched(image, mode) + [0xFF, 0xFF, 0xFF, 0xFF])[..4]
  }

  lemma HeaderIsStaged(mem: seq<byte>, base: seq<byte>, start: nat, image: seq<byte>, mode: byte)
    requires Staged(mem, base, start, Patched(image, mode)) && image != []
    ensures start + 4 <= |mem| && mem[start..start + 4] == HeaderOf(image, mode)
  {
    var bytes := Patched(image, mode);
    assert |bytes| == |image|;
    hide Patched;
    SectorHolds(start, |bytes|);
    forall i | 0 <= i < 4
      ensures start + i < |mem| && mem[start + i] == HeaderOf(image, mode)[i]
    {
      if i >= |bytes| {
        assert mem[start + i] == 0xFF;
      }
    }
  }

  lemma SectorHolds(start: nat, n: nat)
    requires start % 0x1000 == 0 && n > 0
    ensures SectorUp(start + n) >= start + 0x1000
  {
  }

  /** What is wrong with an update that has got all its bytes: its hash, or else its header, or nothing. */
  ghost function EndError(u: UpdaterClass, md5: string, image: seq<byte>, mode: byte, realSize: nat): nat {
    if !HashAgrees(u, md5, image, mode) then ERROR_MD5 else HeaderError(HeaderOf(image, mode), realSize)
  }

  /** The mode byte written is that of the flash part; at offset 0 the part's own has been erased before it is read. */
  ghost predicate ModeOfPart(mode: byte, before: seq<byte>, start: nat) {
    LegalMode(mode) && (start > 0 && |before| > 2 ==> mode == MagicMode(before[2]))
  }

  lemma RunningMode(u: UpdaterClass)
    requires u.Running()
    ensures u.chip.failures == u.origin.failures ==> ModeOfPart(u.mode, u.origin.mem, u.startAddress)
  {
    hide Committed;
    hide OnBoundary;
    hide MagicMode;
    hide LegalMode;
  }

  /** `end` looks at exactly that. */
  lemma EndChecks(u: UpdaterClass, md5: string, realSize: nat)
    requires u.Running() && u.command == U_FLASH && |u.image| == u.size &&
             u.targetMd5 == (if |md5| == 32 then md5 else "")
    ensures u.HashMatches() <==> HashAgrees(u, md5, u.image, u.mode)
    ensures u.HeaderErrorAt(u.startAddress, realSize) == HeaderError(HeaderOf(u.image, u.mode), realSize)
    ensures u.Complete(realSize) <==> EndError(u, md5, u.image, u.mode, realSize) == ERROR_OK
  {
    hide EqualButForCase;
    hide HeaderError;
    hide HeaderOf;
    hide OnBoundary;
    hide Staged;
    assert u.image[..u.size] == u.image;
    HeaderIsStaged(u.chip.mem, u.origin.mem, u.startAddress, u.image, u.mode);
  }

  /** `begin` and `setMD5`; `sketch` is the sketch size that `begin` found, 0 after a failed read. */
  method StartUpdate(u: UpdaterClass, size: word, md5: string, env: Environment)
    returns (begun: bool, ghost sketch: word)
    requires u.Idle() && u.fsStart % 0x1000 == 0
    modifies u, u.chip`failures
    ensures u.chip.failures >= old(u.chip.failures) && (sketch == 0 || sketch == SketchSize(u.chip.mem))
    ensures u.chip.failures == old(u.chip.failures) ==>
              && sketch == SketchSize(u.chip.mem)
              && (u.BeginError(false, U_FLASH, size, env, sketch) == ERROR_OK ==> begun)
    ensures !begun ==> u.Idle()
    ensures begun ==>
              && u.Running() && fresh(u.buffer) && u.image == [] && u.origin.mem == u.chip.mem
              && u.origin.failures == u.chip.failures
              && u.size == size && u.command == U_FLASH && u.startAddress == u.StartFor(U_FLASH, size)
              && u.targetMd5 == (if |md5| == 32 then md5 else "")
              && u.BeginError(false, U_FLASH, size, env, sketch) == ERROR_OK
  {
    hide u.BeginError;
    hide SketchSize;
    hide u.StartFor;
    hide u.Running;
    hide SectorUp;
    sketch := SketchSize(u.chip.mem);
    begun := u.Begin(size, U_FLASH, env);
    if !begun {
      return;
    }
    if u.BeginError(false, U_FLASH, size, env, sketch) != ERROR_OK {
      sketch := 0;
    }
    var _ := u.SetMd5(md5);
  }

  /** The writes and `end(false)`. */
  method FinishUpdate(u: UpdaterClass, chunks: seq<seq<byte>>, md5: string, realSize: nat)
    returns (ok: bool, ghost mode: byte)
    requires u.Running() && u.image == [] && u.command == U_FLASH && u.rtc.Length >= WORDS
    requires u.targetMd5 == if |md5| == 32 then md5 else ""
    modifies u, u.buffer, u.chip, u.rtc
    ensures u.Idle() && |u.chip.mem| == |old(u.chip.mem)| && u.chip.failures >= old(u.chip.failures)
    ensures ok ==>
              && |Concat(chunks)| == old(u.size) && |Concat(chunks)| <= |u.chip.mem|
              && Waiting(u.chip.mem, old(u.origin).mem, old(u.startAddress), Concat(chunks), mode)
              && u.Ordered(old(u.startAddress), 0, |Concat(chunks)|) && HashAgrees(u, md5, Concat(chunks), mode)
    ensures ok && u.chip.failures == old(u.origin).failures && old(u.startAddress) > 0 && |old(u.origin).mem| > 2 ==>
              mode == MagicMode(old(u.origin).mem[2])
    ensures NoneEmpty(chunks) ==>
              SameOutside(u.chip.mem, old(u.origin).mem, old(u.startAddress),
                          SectorUp(old(u.startAddress) + old(u.size)))
    ensures !ok ==> u.rtc[..] == old(u.rtc[..])
    ensures (NoneEmpty(chunks) && |Concat(chunks)| == old(u.size) && u.chip.failures == old(u.chip.failures) &&
             SectorUp(old(u.startAddress) + old(u.size)) <= |u.chip.mem|) ==>
              && u.error == EndError(u, md5, Concat(chunks), mode, realSize)
              && (ok <==> u.error == ERROR_OK)
              && (u.chip.failures == old(u.origin).failures ==>
                    ModeOfPart(mode, old(u.origin).mem, old(u.startAddress)))
  {
    hide HashAgrees;
    hide Waiting;
    hide u.Ordered;
    hide NoneEmpty;
    hide SameOutside;
    hide SectorUp;
    hide u.Complete;
    hide u.Running;
    hide HeaderOf;
    hide HeaderError;
    hide MagicMode;
    hide LegalMode;
    WriteAll(u, chunks);
    mode := u.mode;
    if u.Complete(realSize) {
      CompleteRuns(u, realSize);
      CompleteMeans(u, realSize, old(u.origin).mem, Concat(chunks), md5);
    }
    if u.Running() && |u.image| == u.size {
      EndChecks(u, md5, realSize);
      RunningMode(u);
    }
    ok := u.End(realSize);
  }

  /** All that an update needs to be staged, besides an SPI bus that does not fail. */
  ghost predicate CanStage(u: UpdaterClass, mem: seq<byte>, chunks: seq<seq<byte>>, size: word, env: Environment) {
    && u.BeginError(false, U_FLASH, size, env, SketchSize(mem)) == ERROR_OK
    && NoneEmpty(chunks) && |Concat(chunks)| == size && SectorUp(u.StartFor(U_FLASH, size) + size) <= |mem|
  }

  /**
    Staging an application in any number of chunks. True means that all of it waits in flash, that the bootloader
    has been told so, and that nothing outside the update's sectors has changed. The last holds without success too, if
    no chunk is empty. An update with room and without SPI failures succeeds exactly if its hash and header are right;
    otherwise RTC memory stays, and the error says which is wrong.
  */
  method Stage(u: UpdaterClass, chunks: seq<seq<byte>>, size: word, md5: string, env: Environment, realSize: nat)
    returns (ok: bool, ghost start: word, ghost mode: byte, ghost sketch: word)
    requires u.Idle() && u.rtc.Length >= WORDS && u.fsStart % 0x1000 == 0
    requires |u.chip.mem| <= 0x7fff_f000
    modifies u, u.chip, u.rtc
    ensures u.Idle() && |u.chip.mem| == |old(u.chip.mem)| && u.chip.failures >= old(u.chip.failures)
    ensures ok ==> |Concat(chunks)| == size && StagedUpdate(u, old(u.chip.mem), Concat(chunks), start, mode)
    ensures ok ==> HashAgrees(u, md5, Concat(chunks), mode)
    ensures ok && u.chip.failures == old(u.chip.failures) ==> CleanStart(old(u.chip.mem), start, mode)
    ensures sketch == 0 || sketch == SketchSize(old(u.chip.mem))
    ensures u.chip.failures == old(u.chip.failures) ==> sketch == SketchSize(old(u.chip.mem))
    ensures NoneEmpty(chunks) ==>
              || u.chip.mem == old(u.chip.mem)
              || OnlyUpdateTouched(u.chip.mem, old(u.chip.mem), start, size, sketch, u.fsStart)
    ensures !ok ==> u.rtc[..] == old(u.rtc[..])
    ensures CanStage(u, old(u.chip.mem), chunks, size, env) && u.chip.failures == old(u.chip.failures) ==>
              && ModeOfPart(mode, old(u.chip.mem), u.StartFor(U_FLASH, size))
              && u.error == EndError(u, md5, Concat(chunks), mode, realSize)
              && (ok <==> u.error == ERROR_OK)
  {
    hide u.BeginError;
    hide HashAgrees;
    hide SketchSize;
    hide Waiting;
    hide u.Ordered;
    hide u.StartFor;
    hide NoneEmpty;
    hide OnlyUpdateTouched;
    hide SameOutside;
    hide SectorUp;
    hide Rounded;
    hide u.Running;
    hide HeaderOf;
    hide HeaderError;
    hide MagicMode;
    ok, start, mode := false, 0, 0;
    ghost var before := u.chip.mem;
    var begun;
    begun, sketch := StartUpdate(u, size, md5, env);
    if !begun {
      return;
    }
    RoomBeforeFileSystem(u, size, env, sketch);
    start := u.startAddress;
    ok, mode := FinishUpdate(u, chunks, md5, realSize);
    if SameOutside(u.chip.mem, before, start, SectorUp(start + size)) {
      UpdateIsBetween(u, u.chip.mem, before, size, env, sketch);
    }
  }

  // ----- the reboot

  /** Flash starts with the image, but for its mode byte. */
  ghost predicate Installed(mem: seq<byte>, image: seq<byte>, mode: byte) {
    |image| <= |mem| && mem[..|image|] == Patched(image, mode)
  }

  lemma WaitingSectors(mem: seq<byte>, base: seq<byte>, start: nat, image: seq<byte>, mode: byte)
    requires Waiting(mem, base, start, image, mode) && |mem| <= 0x7fff_f000
    ensures |image| <= 0x7fff_f000
    ensures var n := SectorCount(|image|); n > 0 && n * 0x1000 == SectorUp(|image|) && InRange(mem, start, 0, n)
  {
    hide SectorCount;
    hide SectorUp;
    hide Staged;
    RoundedUp(|image|);
    SectorsOf(|image|);
  }

  lemma SectorsOf(size: nat)
    requires 0 < size <= 0x7fff_f000
    ensures SectorCount(size) > 0 && SectorCount(size) * 0x1000 == SectorUp(size)
  {
    hide SectorCount;
  }

  /** Copying the waiting image installs it, whether or not source and destination overlap. */
  lemma CopyInstalls(mem: seq<byte>, base: seq<byte>, start: nat, image: seq<byte>, mode: byte)
    requires Waiting(mem, base, start, image, mode) && |mem| <= 0x7fff_f000 && |image| <= 0x7fff_f000
    requires InRange(mem, start, 0, SectorCount(|image|))
    ensures Installed(CopySectors(mem, start, 0, SectorCount(|image|)), image, mode)
    ensures SameOutside(CopySectors(mem, start, 0, SectorCount(|image|)), mem, 0, SectorUp(|image|))
  {
    hide CopySectors;
    hide Patched;
    WaitingSectors(mem, base, start, image, mode);
    var n := SectorCount(|image|);
    CopyIsMove(mem, start, 0, n);
    var now := Moved(mem, start, 0, n * 0x1000);
    MoveIsLocal(mem, start, 0, n * 0x1000);
    forall i | 0 <= i < |image|
      ensures now[i] == Patched(image, mode)[i]
    {
      MovedAt(mem, start, 0, n * 0x1000, i);
    }
  }

  /**
    The reboot after `Stage`. Without SPI failures a plain image is installed, whether or not anything can be loaded
    from it; `gzip` says whether the bootloader took the image for a compressed one.
  */
  method Reboot(u: UpdaterClass, ghost before: seq<byte>, ghost image: seq<byte>, ghost start: word, ghost mode: byte)
    returns (outcome: Outcome, ghost gzip: bool)
    requires u.rtc.Length >= WORDS && |u.chip.mem| <= 0x7fff_f000
    requires StagedUpdate(u, before, image, start, mode)
    modifies u.chip, u.rtc
    ensures !Accepts(u.rtc[..WORDS]) && u.chip.failures >= old(u.chip.failures) && |u.chip.mem| == |old(u.chip.mem)|
    ensures outcome.Started? ==> LoadResult(u.chip.mem, 0) == Some(outcome.app)
    ensures !gzip && outcome.Started? ==>
              Installed(u.chip.mem, image, mode) && SameOutside(u.chip.mem, old(u.chip.mem), 0, SectorUp(|image|))
    ensures u.chip.failures == old(u.chip.failures) && !IsGzip(old(u.chip.mem), start) ==>
              !gzip && Installed(u.chip.mem, image, mode) &&
                SameOutside(u.chip.mem, old(u.chip.mem), 0, SectorUp(|image|))
    ensures u.chip.failures == old(u.chip.failures) && !IsGzip(old(u.chip.mem), start)
            && (forall now :: Installed(now, image, mode) && |now| == |before| ==> LoadResult(now, 0).Some?) ==>
              outcome.Started?
  {
    hide Accepts;
    hide CutShort;
    hide CopySectors;
    hide LoadResult;
    hide Installed;
    ghost var mem := u.chip.mem;
    WaitingSectors(mem, before, start, image, mode);
    CopyInstalls(mem, before, start, image, mode);
    ghost var args := Decode(u.rtc[..WORDS]).args;
    outcome, gzip := Boot(u.chip, u.rtc);
    assert AfterCopy(mem, args) == CopySectors(mem, start, 0, SectorCount(|image|));
  }

  lemma NothingCopied(now: seq<byte>, mem: seq<byte>)
    requires CutShort(now, mem, 0, 0, SectorCount(0))
    ensures now == mem
  {
    hide SectorCount;
    var k :| 0 <= k <= SectorCount(0) && CutAt(now, mem, 0, 0, SectorCount(0), k);
    assert k == 0 && now == mem;
  }

  /**
    The reboot after an `end(true)` that answered true although its flush had failed: nothing is installed, whatever the
    bus does, and the program in flash is started as before.
  */
  method RebootAfterFalseSuccess(u: UpdaterClass) returns (outcome: Outcome, ghost gzip: bool)
    requires u.rtc.Length >= WORDS && 4 <= |u.chip.mem| < 0x1_0000_0000 && u.Ordered(0, 0, 0)
    modifies u.chip, u.rtc
    ensures !Accepts(u.rtc[..WORDS]) && (!gzip ==> u.chip.mem == old(u.chip.mem))
    ensures u.chip.failures == old(u.chip.failures) && !IsGzip(old(u.chip.mem), 0) ==>
              !gzip && (LoadResult(u.chip.mem, 0).Some? ==> outcome.Started?)
    ensures outcome.Started? ==> LoadResult(u.chip.mem, 0) == Some(outcome.app)
  {
    hide Accepts;
    hide CopySectors;
    hide CutShort;
    hide IsGzip;
    hide LoadResult;
    hide SectorCount;
    hide SameOutside;
    ghost var mem := u.chip.mem;
    outcome, gzip := Boot(u.chip, u.rtc);
    if !gzip {
      NothingCopied(u.chip.mem, mem);
    }
    NoSectors(mem);
  }

  lemma NoSectors(mem: seq<byte>)
    ensures SectorCount(0) == 0 && InRange(mem, 0, 0, SectorCount(0)) && CopySectors(mem, 0, 0, SectorCount(0)) == mem
  {
  }

  // ----- firmware files

  /** A firmware file as `elf2bin.py` makes it: bootloader, application, seal. */
  ghost predicate IsFirmware(file: seq<byte>, h: Header, segs: seq<Segment>) {
    && 0 < |segs| < 256 && Storable(segs) && |segs[0].data| >= 8
    && exists boot: seq<byte> :: |boot| == 0x1000 && 4120 <= |boot + Bin(h, segs)| && file == Seal(boot + Bin(h, segs))
  }

  /** Flash as it would be had the mode byte been left alone. */
  ghost function Unpatched(mem: seq<byte>, file: seq<byte>): (r: seq<byte>)
    requires |file| <= |mem|
    ensures |r| == |mem|
  {
    Overwrite(mem, 0, file)
  }

  lemma OnlyModeByteDiffers(mem: seq<byte>, file: seq<byte>, mode: byte)
    requires Installed(mem, file, mode) && LegalMode(mode)
    ensures file <= Unpatched(mem, file) && SameOutside(mem, Unpatched(mem, file), 2, 3)
    ensures if Repatches(file, mode) then mem[..|file|] != Unpatched(mem, file)[..|file|]
            else mem == Unpatched(mem, file)
  {
    assert forall i :: 0 <= i < |file| ==> mem[i] == mem[..|file|][i];
    if Repatches(file, mode) {
      ModeByteChanged(file, mode);
      assert mem[..|file|][2] != Unpatched(mem, file)[..|file|][2];
    }
  }

  lemma SealedCarries(sealed: seq<byte>, boot: seq<byte>, h: Header, segs: seq<Segment>)
    requires 0 < |segs| < 256 && Storable(segs) && |segs[0].data| >= 8 && |boot| == 0x1000 && |sealed| < 0x1_0000_0000
    requires 4120 <= |boot + Bin(h, segs)| && Seal(boot + Bin(h, segs)) <= sealed
    ensures Carries(sealed, h.entry, WithSeal(segs, sealed[4112..4120]))
  {
    hide Bin;
    hide Seal;
    hide Carries;
    var raw := boot + Bin(h, segs);
    var plain := Overwrite(sealed, 0, raw);
    SealKeepsTheRest(raw);
    assert raw <= plain && SameOutside(sealed, plain, 4112, 4120);
    FirmwareCarries(plain, boot, h, segs);
    SealStaysInFirstSection(plain, sealed, h.entry, segs);
  }

  /**
    Installed firmware runs as built, its size is read back as that of the file, and its seal holds exactly when its
    mode byte was not changed on the way.
  */
  lemma InstalledFirmware(mem: seq<byte>, file: seq<byte>, h: Header, segs: seq<Segment>, mode: byte)
    requires IsFirmware(file, h, segs) && Installed(mem, file, mode) && LegalMode(mode) && |mem| < 0x1_0000_0000
    ensures 4120 <= |mem| && LoadResult(mem, 0) == Some(App(h.entry, LoadableOf(WithSeal(segs, mem[4112..4120]))))
    ensures WordAt(mem, 4112) == |file| == SketchSize(mem) && (CheckFlashCrc(mem) <==> !Repatches(file, mode))
  {
    hide SketchSize;
    hide Bin;
    hide Seal;
    hide CheckFlashCrc;
    hide LoadResult;
    hide WordAt;
    hide Carries;
    hide Unpatched;
    var boot: seq<byte> :| |boot| == 0x1000 && 4120 <= |boot + Bin(h, segs)| && file == Seal(boot + Bin(h, segs));
    var sealed := Unpatched(mem, file);
    OnlyModeByteDiffers(mem, file, mode);
    SealedCarries(sealed, boot, h, segs);
    assert mem[4112..4120] == sealed[4112..4120];
    CarriesAbove(sealed, mem, h.entry, WithSeal(segs, mem[4112..4120]));
    LoaderRunsTheApp(mem, h.entry, WithSeal(segs, mem[4112..4120]));
    SealKeepsTheRest(boot + Bin(h, segs));
    BinHasLength(h, segs);
    SealKeepsLength(segs, mem[4112..4120]);
    SketchSizeOfApp(mem, h.entry, WithSeal(segs, mem[4112..4120]));
    if Repatches(file, mode) {
      TamperingRejected(sealed, mem, boot + Bin(h, segs), 0);
    } else {
      SealAccepted(mem, boot + Bin(h, segs));
    }
  }

  lemma ModeByteChanged(image: seq<byte>, mode: byte)
    requires Repatches(image, mode) && LegalMode(mode)
    ensures Patched(image, mode)[2] != image[2]
  {
  }

  /** What runs after `file` has been installed. */
  ghost predicate RunsFirmware(mem: seq<byte>, file: seq<byte>, h: Header, segs: seq<Segment>, mode: byte, app: App) {
    && Installed(mem, file, mode)
    && 4120 <= |mem| && |segs| > 0 && |segs[0].data| >= 8
    && app == App(h.entry, LoadableOf(WithSeal(segs, mem[4112..4120])))
  }

  /**
    The whole way of a firmware file, sent in any chunks: if `begin` and `end` succeed, a reboot that takes the image
    for a plain one either starts exactly the program of the file, from flash that starts with the file but for its mode
    byte, or fails to; and with a plain image and no SPI failure during the reboot it does start it.
  */
  method UpdateFirmware(u: UpdaterClass, chunks: seq<seq<byte>>, ghost h: Header, ghost segs: seq<Segment>, size: word,
                        md5: string, env: Environment, realSize: nat)
    returns (ok: bool, outcome: Outcome, ghost mode: byte, ghost clean: bool, ghost gzip: bool)
    requires u.Idle() && u.rtc.Length >= WORDS && u.fsStart % 0x1000 == 0
    requires |u.chip.mem| <= 0x7fff_f000
    requires IsFirmware(Concat(chunks), h, segs)
    modifies u, u.chip, u.rtc
    ensures ok ==> |Concat(chunks)| == size && LegalMode(mode) && !Accepts(u.rtc[..WORDS])
    ensures ok && !gzip && outcome.Started? ==>
              && RunsFirmware(u.chip.mem, Concat(chunks), h, segs, mode, outcome.app)
              && var program := WithSeal(segs, u.chip.mem[4112..4120]);
                 Brings(program, outcome.app.loaded, LoadedPlaces(program, 0))
    ensures ok && clean && !IsGzip(Concat(chunks), 0) ==> !gzip && outcome.Started?
    ensures ok && outcome.Started? && |md5| == 32 ==> HashAgrees(u, md5, Concat(chunks), mode)
    ensures !ok ==> u.rtc[..] == old(u.rtc[..])
    ensures CanStage(u, old(u.chip.mem), chunks, size, env) && u.chip.failures == old(u.chip.failures) ==>
              && ModeOfPart(mode, old(u.chip.mem), u.StartFor(U_FLASH, size))
              && (ok <==> EndError(u, md5, Concat(chunks), mode, realSize) == ERROR_OK)
  {
    hide IsFirmware;
    hide Accepts;
    hide LoadResult;
    hide HashAgrees;
    hide Installed;
    hide Waiting;
    hide IsGzip;
    hide SameOutside;
    hide RunsFirmware;
    ghost var before, image := u.chip.mem, Concat(chunks);
    outcome, clean, gzip := Restarted(0), false, false;
    ghost var start, sketch;
    ok, start, mode, sketch := Stage(u, chunks, size, md5, env, realSize);
    if !ok {
      return;
    }
    WaitingIsPlain(u.chip.mem, before, start, image, mode);
    EveryInstallLoads(image, h, segs, mode, |before|);
    ghost var failures := u.chip.failures;
    outcome, gzip := Reboot(u, before, image, start, mode);
    clean := u.chip.failures == failures;
    if outcome.Started? && !gzip {
      FirmwareStarts(u.chip.mem, image, h, segs, mode, outcome.app);
    }
  }

  lemma FirmwareStarts(now: seq<byte>, file: seq<byte>, h: Header, segs: seq<Segment>, mode: byte, app: App)
    requires IsFirmware(file, h, segs) && Installed(now, file, mode) && LegalMode(mode) && |now| < 0x1_0000_0000
    requires LoadResult(now, 0) == Some(app)
    ensures RunsFirmware(now, file, h, segs, mode, app)
    ensures var program := WithSeal(segs, now[4112..4120]); Brings(program, app.loaded, LoadedPlaces(program, 0))
  {
    hide Installed;
    hide Brings;
    InstalledFirmware(now, file, h, segs, mode);
    LoadableAre(WithSeal(segs, now[4112..4120]));
  }

  lemma EveryInstallLoads(file: seq<byte>, h: Header, segs: seq<Segment>, mode: byte, size: nat)
    requires IsFirmware(file, h, segs) && LegalMode(mode) && size < 0x1_0000_0000
    ensures |file| >= 4120
    ensures forall now :: Installed(now, file, mode) && |now| == size ==> LoadResult(now, 0).Some?
  {
    hide LoadResult;
    forall now | Installed(now, file, mode) && |now| == size
      ensures LoadResult(now, 0).Some?
    {
      InstalledFirmware(now, file, h, segs, mode);
    }
  }

  lemma WaitingIsPlain(mem: seq<byte>, base: seq<byte>, start: nat, image: seq<byte>, mode: byte)
    requires Waiting(mem, base, start, image, mode)
    ensures LegalMode(mode)
    ensures |image| >= 4120 && !IsGzip(image, 0) ==> !IsGzip(mem, start)
  {
    if |image| >= 4120 {
      assert mem[start] == Patched(image, mode)[0] && mem[start + 1] == Patched(image, mode)[1];
    }
  }

  /**
    Resets during that reboot. If the staged image ends before it begins to be overwritten, any number of boots cut
    anywhere leave a flash from which the copy installs the image, and the command disappears only with the image
    installed. Flash behind the installed image never changes.
  */
  lemma UpdateSurvivesResets(ms: seq<Machine>, base: seq<byte>, start: nat, image: seq<byte>, mode: byte)
    requires ms != [] && Waiting(ms[0].mem, base, start, image, mode) && |ms[0].mem| <= 0x7fff_f000 &&
             |image| <= 0x7fff_f000
    requires Run(ms, start, 0, SectorCount(|image|)) && SectorUp(|image|) <= start && !IsGzip(ms[0].mem, start)
    ensures var m, n := ms[|ms| - 1], SectorCount(|image|);
            && InRange(m.mem, start, 0, n) && Installed(CopySectors(m.mem, start, 0, n), image, mode)
            && (m.rtc != ms[0].rtc ==> Installed(m.mem, image, mode))
            && SameOutside(m.mem, ms[0].mem, 0, SectorUp(|image|))
            && (BootSectorSame(ms[0].mem, start, 0) ==> m.mem[..0x1000] == ms[0].mem[..0x1000])
  {
    hide CopySectors;
    hide Installed;
    hide Run;
    hide Accepts;
    var n := SectorCount(|image|);
    WaitingSectors(ms[0].mem, base, start, image, mode);
    CopyInstalls(ms[0].mem, base, start, image, mode);
    EveryRunIsSafe(ms, start, 0, n);
  }
}
