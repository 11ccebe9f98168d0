/** `EspClass::flashWrite` and the writers below it: any address, pointer and size, on either kind of part. */
module FlashIo {
  import opened Bytes
  import opened Flash


  // ----- how the pieces of a long write lie in flash

  /** The pieces, in order, cover `[from, to)` without gap or overlap. */
  ghost predicate Tile(pieces: seq<(nat, nat)>, from: nat, to: nat) {
    if pieces == [] then from == to else
    var last := pieces[|pieces| - 1];
    last.0 + last.1 == to && from <= last.0 && Tile(pieces[..|pieces| - 1], from, last.0)
  }

  ghost predicate WithinPage(piece: (nat, nat)) {
    piece.0 % 0x100 + piece.1 <= 0x100
  }

  ghost predicate NoneCrossesAPage(pieces: seq<(nat, nat)>) {
    forall i :: 0 <= i < |pieces| ==> WithinPage(pieces[i])
  }

  lemma TileAppend(pieces: seq<(nat, nat)>, from: nat, mid: nat, n: nat)
    requires Tile(pieces, from, mid) && from <= mid
    ensures Tile(pieces + [(mid, n)], from, mid + n)
  {
    assert (pieces + [(mid, n)])[..|pieces|] == pieces;
  }

  /**
    A write of `data` at `offset` began with flash `mem` and log `log`; `done` bytes later, flash and log are these.
  */
  ghost predicate Stored(now: seq<byte>, writes: seq<(nat, nat)>, mem: seq<byte>, log: seq<(nat, nat)>,
                         offset: nat, data: seq<byte>, done: nat)
  {
    && done <= |data| && offset + done <= |mem| && log <= writes
    && now == Program(mem, offset, data[..done])
    && Tile(writes[|log|..], offset, offset + done)
    && NoneCrossesAPage(writes[|log|..])
  }

  lemma NothingStored(mem: seq<byte>, log: seq<(nat, nat)>, offset: nat, data: seq<byte>)
    requires offset <= |mem|
    ensures Stored(mem, log, mem, log, offset, data, 0)
  {
    hide And;
    assert Program(mem, offset, []) == mem;
  }

  lemma PieceStored(now: seq<byte>, writes: seq<(nat, nat)>, mem: seq<byte>, log: seq<(nat, nat)>,
                    offset: nat, data: seq<byte>, done: nat, n: nat)
    requires Stored(now, writes, mem, log, offset, data, done)
    requires done + n <= |data| && offset + done + n <= |mem| && WithinPage((offset + done, n))
    ensures Stored(Program(now, offset + done, data[done..done + n]), writes + [(offset + done, n)],
                   mem, log, offset, data, done + n)
  {
    hide And;
    var piece, pieces := (offset + done, n), writes[|log|..];
    assert (writes + [piece])[|log|..] == pieces + [piece];
    TileAppend(pieces, offset, offset + done, n);
    assert data[..done] + data[done..done + n] == data[..done + n];
    ProgramConcat(mem, offset, data[..done], data[done..done + n]);
  }

  lemma StoredIsLocal(now: seq<byte>, writes: seq<(nat, nat)>, mem: seq<byte>, log: seq<(nat, nat)>,
                      offset: nat, data: seq<byte>, done: nat)
    requires Stored(now, writes, mem, log, offset, data, done)
    ensures SameOutside(now, mem, offset, offset + |data|)
  {
    hide And;
  }

  /** One piece of a paged write: the next `n` bytes, within one page. */
  method WritePiece(chip: Chip, ghost mem: seq<byte>, ghost log: seq<(nat, nat)>, offset: nat, data: seq<byte>,
                    done: nat, n: nat)
    returns (ok: bool)
    requires !chip.overwrites && (offset + done) % 4 == 0 && n % 4 == 0
    requires done + n <= |data| && WithinPage((offset + done, n))
    requires if offset <= |mem| then Stored(chip.mem, chip.writes, mem, log, offset, data, done)
             else chip.mem == mem && chip.writes == log
    modifies chip`mem, chip`writes, chip`failures
    ensures chip.failures >= old(chip.failures)
    ensures ok == (offset + done + n <= |mem| && chip.failures == old(chip.failures))
    ensures ok ==> Stored(chip.mem, chip.writes, mem, log, offset, data, done + n)
    ensures InOrder(chip.mem, chip.writes, mem, log, offset, |data|)
  {
    hide Program;
    hide Tile;
    if offset <= |mem| {
      StoredIsLocal(chip.mem, chip.writes, mem, log, offset, data, done);
    }
    ghost var before, writes := chip.mem, chip.writes;
    ok := chip.SpiWrite(offset + done, data[done..done + n]);
    if ok {
      PieceStored(before, writes, mem, log, offset, data, done, n);
    }
  }

  /** What has been stored so far is in order on every path out of the writer. */
  ghost predicate InOrder(now: seq<byte>, writes: seq<(nat, nat)>, mem: seq<byte>, log: seq<(nat, nat)>, offset: nat,
                          size: nat) {
    && SameOutside(now, mem, offset, offset + size)
    && log <= writes && NoneCrossesAPage(writes[|log|..])
  }

  lemma FromPageStart(address: nat, n: nat)
    requires address % 0x100 == 0 && n <= 0x100
    ensures WithinPage((address, n)) && address % 4 == 0
  {
    assert address == 4 * (0x40 * (address / 0x100));
  }

  /** The loop of `spi_flash_write_page_break` over whole pages, and the rest after it. */
  method WritePages(chip: Chip, ghost mem: seq<byte>, ghost log: seq<(nat, nat)>, offset: nat, data: seq<byte>,
                    first: nat)
    returns (ok: bool)
    requires !chip.overwrites && (|data| - first) % 4 == 0 && (offset + first) % 0x100 == 0 && offset <= |mem|
    requires Stored(chip.mem, chip.writes, mem, log, offset, data, first) && first <= |data|
    requires InOrder(chip.mem, chip.writes, mem, log, offset, |data|)
    modifies chip`mem, chip`writes, chip`failures
    ensures InOrder(chip.mem, chip.writes, mem, log, offset, |data|)
    ensures chip.failures >= old(chip.failures)
    ensures ok == (offset + |data| <= |mem| && chip.failures == old(chip.failures))
    ensures ok ==> Stored(chip.mem, chip.writes, mem, log, offset, data, |data|)
  {
    hide Stored;
    hide InOrder;
    hide WithinPage;
    var pages := (|data| - first) / 0x100;
    var done := first;
    for page := 0 to pages
      invariant done == first + page * 0x100 && (offset + done) % 0x100 == 0
      invariant Stored(chip.mem, chip.writes, mem, log, offset, data, done)
      invariant InOrder(chip.mem, chip.writes, mem, log, offset, |data|)
      invariant chip.failures == old(chip.failures)
    {
      FromPageStart(offset + done, 0x100);
      ok := WritePiece(chip, mem, log, offset, data, done, 0x100);
      if !ok {
        return;
      }
      done := done + 0x100;
    }
    FromPageStart(offset + done, |data| - done);
    ok := WritePiece(chip, mem, log, offset, data, done, |data| - done);
  }

  lemma ToPageEnd(offset: nat)
    requires offset % 4 == 0
    ensures var first := 0x100 - offset % 0x100;
            first % 4 == 0 && (offset + first) % 0x100 == 0 && forall n: nat :: n <= first ==> WithinPage((offset, n))
  {
    var q := offset / 0x100;
    assert offset % 0x100 == 4 * (offset / 4 - 0x40 * q);
    assert offset + (0x100 - offset % 0x100) == 0x100 * (q + 1);
  }

  /**
    `spi_flash_write_page_break`: the first piece ends on a page boundary, then whole pages, then the rest. On
    success the data is ANDed into its range by pieces that tile it; no piece ever crosses a page.
  */
  method WritePageBreak(chip: Chip, offset: nat, data: seq<byte>) returns (ok: bool)
    requires offset % 4 == 0 && |data| % 4 == 0 && !chip.overwrites
    modifies chip`mem, chip`writes, chip`failures
    ensures InOrder(chip.mem, chip.writes, old(chip.mem), old(chip.writes), offset, |data|)
    ensures chip.failures >= old(chip.failures)
    ensures ok == (offset + |data| <= |old(chip.mem)| && chip.failures == old(chip.failures))
    ensures ok ==> Stored(chip.mem, chip.writes, old(chip.mem), old(chip.writes), offset, data, |data|)
  {
    hide Stored;
    hide InOrder;
    hide WithinPage;
    ghost var mem, log := chip.mem, chip.writes;
    if offset <= |mem| {
      NothingStored(mem, log, offset, data);
    }
    var first := 0x100 - offset % 0x100;
    ToPageEnd(offset);
    if |data| < first {
      ok := WritePiece(chip, mem, log, offset, data, 0, |data|);
    } else {
      ok := WritePiece(chip, mem, log, offset, data, 0, first);
      if ok {
        ok := WritePages(chip, mem, log, offset, data, first);
      }
    }
  }

  // ----- parts that replace instead of ANDing

  /** A write of `data` at `offset` that began with flash `mem` has stored `done` bytes; flash is now `now`. */
  ghost predicate Reached(now: seq<byte>, mem: seq<byte>, offset: nat, data: seq<byte>, done: nat) {
    && done <= |data|
    && if done == 0 then now == mem else offset + done <= |mem| && now == Program(mem, offset, data[..done])
  }

  lemma ReachedStep(now: seq<byte>, mem: seq<byte>, offset: nat, data: seq<byte>, done: nat, n: nat)
    requires Reached(now, mem, offset, data, done)
    requires 0 < n && done + n <= |data| && offset + done + n <= |mem| == |now|
    ensures Reached(Program(now, offset + done, data[done..done + n]), mem, offset, data, done + n)
  {
    hide Program;
    assert data[..done] + data[done..done + n] == data[..done + n];
    if done > 0 {
      ProgramConcat(mem, offset, data[..done], data[done..done + n]);
    }
  }

  lemma ReachedStart(mem: seq<byte>, offset: nat, data: seq<byte>)
    ensures Reached(mem, mem, offset, data, 0)
  {
  }

  lemma ReachedEnd(now: seq<byte>, mem: seq<byte>, offset: nat, data: seq<byte>)
    requires Reached(now, mem, offset, data, |data|) && data != []
    ensures offset + |data| <= |mem| && now == Program(mem, offset, data)
  {
    hide Program;
    assert data[..|data|] == data;
  }

  /** The pieces `spi_flash_write_puya` makes: runs of one page length, wherever the first one starts. */
  ghost function PuyaPieces(offset: nat, size: nat): seq<(nat, nat)>
    decreases size
  {
    if size == 0 then [] else
    if size > 0x100 then [(offset, 0x100)] + PuyaPieces(offset + 0x100, size - 0x100) else [(offset, size)]
  }

  lemma PuyaStart(mem: seq<byte>, offset: nat, size: nat)
    ensures SameOutside(mem, mem, offset, offset + size) && PuyaPieces(offset + size, 0) == []
  {
  }

  lemma PuyaPiecesStep(writes: seq<(nat, nat)>, offset: nat, size: nat, n: nat)
    requires size > 0 && n == if size > 0x100 then 0x100 else size
    ensures writes + PuyaPieces(offset, size) == writes + [(offset, n)] + PuyaPieces(offset + n, size - n)
  {
  }

  lemma WholeWords(offset: nat, done: nat, size: nat, n: nat)
    requires offset % 4 == 0 && done % 4 == 0 && size % 4 == 0 && done < size
    requires n == if size - done > 0x100 then 0x100 else size - done
    ensures (offset + done) % 4 == 0 && n % 4 == 0 && (done + n) % 4 == 0
  {
  }

  /** The inner loop of `spi_flash_write_puya`: AND the caller's data into what was read back. */
  method AndInto(read: seq<byte>, data: seq<byte>) returns (buf: seq<byte>)
    requires |read| == |data|
    ensures |buf| == |data| && forall i :: 0 <= i < |buf| ==> buf[i] == And(read[i], data[i])
  {
    hide And;
    buf := read;
    for i := 0 to |data|
      invariant |buf| == |data|
      invariant forall k :: 0 <= k < i ==> buf[k] == And(read[k], data[k])
      invariant forall k :: i <= k < |buf| ==> buf[k] == read[k]
    {
      buf := buf[i := And(buf[i], data[i])];
    }
  }

  /** One turn of `spi_flash_write_puya`: read back, combine, write. */
  method WriteCombined(chip: Chip, offset: nat, data: seq<byte>) returns (ok: bool)
    requires offset % 4 == 0 && |data| % 4 == 0 && chip.overwrites
    modifies chip`mem, chip`writes, chip`failures
    ensures SameOutside(chip.mem, old(chip.mem), offset, offset + |data|) && |chip.mem| == |old(chip.mem)|
    ensures ok ==> offset + |data| <= |chip.mem| && chip.mem == Program(old(chip.mem), offset, data)
    ensures chip.failures >= old(chip.failures)
    ensures ok == (offset + |data| <= |old(chip.mem)| && chip.failures == old(chip.failures))
    ensures ok ==> chip.writes == old(chip.writes) + [(offset, |data|)]
  {
    hide And;
    var read;
    ok, read := chip.SpiRead(offset, |data|);
    if !ok {
      return;
    }
    var buf := AndInto(read, data);
    assert buf == Combined(chip.mem, offset, data);
    OverwriteCombined(chip.mem, offset, data);
    ok := chip.SpiWrite(offset, buf);
  }

  /** `spi_flash_write_puya`: on a replacing part, the effect of a plain write on an ANDing part. */
  method WritePuya(chip: Chip, offset: nat, data: seq<byte>) returns (ok: bool)
    requires offset % 4 == 0 && |data| % 4 == 0 && chip.overwrites
    modifies chip`mem, chip`writes, chip`failures
    ensures SameOutside(chip.mem, old(chip.mem), offset, offset + |data|)
    ensures ok && data != [] ==> offset + |data| <= |chip.mem| && chip.mem == Program(old(chip.mem), offset, data)
    ensures chip.failures >= old(chip.failures)
    ensures data != [] ==> ok == (offset + |data| <= |chip.mem| && chip.failures == old(chip.failures))
    ensures ok ==> chip.writes == old(chip.writes) + PuyaPieces(offset, |data|)
  {
    hide Program;
    hide SameOutside;
    hide PuyaPieces;
    hide Reached;
    ghost var mem := chip.mem;
    PuyaStart(mem, offset, |data|);
    ReachedStart(mem, offset, data);
    ok := chip.Allocate();
    if !ok {
      return;
    }
    var done := 0;
    while done < |data| && ok
      invariant 0 <= done <= |data| && done % 4 == 0
      invariant SameOutside(chip.mem, mem, offset, offset + |data|) && |chip.mem| == |mem|
      invariant ok ==> Reached(chip.mem, mem, offset, data, done)
      invariant chip.failures >= old(chip.failures)
      invariant if ok then chip.failures == old(chip.failures) else
                offset + |data| > |chip.mem| || chip.failures > old(chip.failures)
      invariant ok ==>
                  chip.writes + PuyaPieces(offset + done, |data| - done) ==
                    old(chip.writes) + PuyaPieces(offset, |data|)
      decreases |data| - done
    {
      var now := if |data| - done > 0x100 then 0x100 else |data| - done;
      ghost var before := chip.mem;
      WholeWords(offset, done, |data|, now);
      PuyaPiecesStep(chip.writes, offset + done, |data| - done, now);
      ok := WriteCombined(chip, offset + done, data[done..done + now]);
      SameOutsideTrans(chip.mem, before, mem, offset + done, offset + done + now, offset, offset + |data|);
      if ok {
        ReachedStep(before, mem, offset, data, done, now);
      }
      done := done + now;
    }
    if ok && data != [] {
      ReachedEnd(chip.mem, mem, offset, data);
    }
  }

  /**
    The comment above `spi_flash_write_puya` says that it handles paging. Its pieces stay within pages exactly
    when the write starts on a page boundary or fits into the page it starts in.
  */
  lemma {:induction false} PuyaPagingExactly(offset: nat, size: nat)
    ensures NoneCrossesAPage(PuyaPieces(offset, size)) <==> offset % 0x100 == 0 || offset % 0x100 + size <= 0x100
    decreases size
  {
    var pieces := PuyaPieces(offset, size);
    if size > 0x100 {
      var rest := PuyaPieces(offset + 0x100, size - 0x100);
      PuyaPagingExactly(offset + 0x100, size - 0x100);
      assert (offset + 0x100) % 0x100 == offset % 0x100;
      assert pieces == [(offset, 0x100)] + rest;
      assert pieces[0] == (offset, 0x100) && WithinPage(pieces[0]) == (offset % 0x100 == 0);
      if offset % 0x100 == 0 {
        forall i | 0 <= i < |pieces|
          ensures WithinPage(pieces[i])
        {
          assert i > 0 ==> pieces[i] == rest[i - 1];
        }
      }
    } else if size > 0 {
      assert pieces[0] == (offset, size);
    }
  }

  // ----- any address, any pointer, any size

  /** `flashWrite(uint32_t, const uint32_t*, size_t)`. */
  method WriteWords(chip: Chip, address: nat, data: seq<byte>) returns (ok: bool)
    requires address % 4 == 0 && |data| % 4 == 0
    modifies chip`mem, chip`writes, chip`failures
    ensures SameOutside(chip.mem, old(chip.mem), address, address + |data|)
    ensures ok && data != [] ==> address + |data| <= |chip.mem| && chip.mem == Program(old(chip.mem), address, data)
    ensures chip.failures >= old(chip.failures)
    ensures data != [] ==> ok == (address + |data| <= |chip.mem| && chip.failures == old(chip.failures))
  {
    hide Program;
    if chip.overwrites {
      ok := WritePuya(chip, address, data);
    } else {
      ok := WritePageBreak(chip, address, data);
      assert data[..|data|] == data;
    }
  }

  function AlignDown(x: nat): (r: nat)
    ensures r % 4 == 0 && x - 4 < r <= x
  {
    x - x % 4
  }

  function AlignUp(x: nat): (r: nat)
    ensures r % 4 == 0 && x <= r < x + 4
  {
    (x + 4 - 1) / 4 * 4
  }

  /** The bytes of the aligned cover of a write. */
  ghost predicate OnlyCoverChanged(now: seq<byte>, before: seq<byte>, address: nat, size: nat) {
    SameOutside(now, before, AlignDown(address), AlignUp(address + size))
  }

  lemma CoverIsReflexive(a: seq<byte>, address: nat, size: nat)
    ensures OnlyCoverChanged(a, a, address, size)
  {
  }

  lemma CoverOfPart(c: seq<byte>, b: seq<byte>, a: seq<byte>, address: nat, size: nat, done: nat, n: nat)
    requires OnlyCoverChanged(b, a, address, size)
    requires OnlyCoverChanged(c, b, address + done, n) && done + n <= size
    ensures OnlyCoverChanged(c, a, address, size)
    ensures AlignUp(address + done + n) <= AlignUp(address + size)
  {
    assert AlignDown(address) <= AlignDown(address + done);
    assert AlignUp(address + done + n) <= AlignUp(address + size);
  }

  /** A byte `old` of flash with the `i`th byte of `data`, if there is one, laid over it. */
  function Laid(old': byte, data: seq<byte>, i: int, replacing: bool): byte {
    if !(0 <= i < |data|) then old' else if replacing then And(old', data[i]) else data[i]
  }

  /** Lay `data` over part of a word read back from flash; on a replacing part the old bits are ANDed in. */
  method Overlay(word: seq<byte>, offset: nat, data: seq<byte>, replacing: bool) returns (buf: seq<byte>)
    requires offset + |data| <= |word|
    ensures |buf| == |word|
    ensures forall i :: 0 <= i < |buf| ==> buf[i] == Laid(word[i], data, i - offset, replacing)
  {
    hide And;
    if replacing {
      var combined := AndInto(word[offset..offset + |data|], data);
      buf := word[..offset] + combined + word[offset + |data|..];
    } else {
      buf := word[..offset] + data + word[offset + |data|..];
    }
  }

  lemma OverlayWritten(chip: Chip, mem: seq<byte>, base: nat, buf: seq<byte>, address: nat, data: seq<byte>)
    requires base <= address && address + |data| <= base + |buf| <= |mem|
    requires forall i :: 0 <= i < |buf| ==> buf[i] == Laid(mem[base + i], data, base + i - address, chip.overwrites)
    ensures chip.Written(mem, base, buf) == Program(mem, address, data)
  {
    hide And;
    if chip.overwrites {
      assert forall i :: base <= i < base + |buf| ==> buf[i - base] == Laid(mem[i], data, i - address, true);
      assert Overwrite(mem, base, buf) == Program(mem, address, data);
    } else {
      ProgramPadded(mem, base, buf, address, data);
    }
  }

  lemma HeadCover(address: nat, n: nat)
    requires 0 < address % 4 && 0 < n <= 4 - address % 4
    ensures AlignUp(address + n) == AlignDown(address) + 4 && address + n <= AlignDown(address) + 4
  {
  }

  /** The first part of `flashWriteUnalignedMemory`: the bytes up to the next word boundary, through one word. */
  method WriteHead(chip: Chip, address: nat, data: seq<byte>) returns (ok: bool)
    requires 0 < address % 4 && 0 < |data| <= 4 - address % 4
    modifies chip`mem, chip`writes, chip`failures
    ensures OnlyCoverChanged(chip.mem, old(chip.mem), address, |data|)
    ensures ok ==> address + |data| <= |chip.mem| && chip.mem == Program(old(chip.mem), address, data)
    ensures chip.failures >= old(chip.failures)
    ensures ok == (AlignUp(address + |data|) <= |chip.mem| && chip.failures == old(chip.failures))
  {
    hide And;
    hide Program;
    hide AlignDown;
    hide AlignUp;
    HeadCover(address, |data|);
    var before := AlignDown(address);
    var word;
    ok, word := chip.SpiRead(before, 4);
    if !ok {
      return;
    }
    var buf := Overlay(word, address - before, data, chip.overwrites);
    OverlayWritten(chip, chip.mem, before, buf, address, data);
    ok := chip.SpiWrite(before, buf);
  }

  lemma AlignedCover(address: nat, n: nat)
    requires address % 4 == 0
    ensures AlignUp(address + n) == address + AlignUp(n) && AlignDown(address) == address
    ensures n > 0 ==> AlignUp(n) >= 4 && (address + AlignUp(n) - 4) % 4 == 0
  {
  }

  /** One turn of the loop in `flashWriteUnalignedMemory`: up to a page, its last word completed from flash. */
  method WriteChunk(chip: Chip, address: nat, data: seq<byte>) returns (ok: bool)
    requires address % 4 == 0 && data != []
    modifies chip`mem, chip`writes, chip`failures
    ensures OnlyCoverChanged(chip.mem, old(chip.mem), address, |data|)
    ensures ok ==> address + |data| <= |chip.mem| && chip.mem == Program(old(chip.mem), address, data)
    ensures chip.failures >= old(chip.failures)
    ensures ok == (AlignUp(address + |data|) <= |chip.mem| && chip.failures == old(chip.failures))
  {
    hide And;
    hide Program;
    hide AlignUp;
    var size := AlignUp(|data|);
    AlignedCover(address, |data|);
    var buf := data;
    if size != |data| {
      var partial := size - 4;
      var tail;
      ok, tail := chip.SpiRead(address + partial, 4);
      if !ok {
        return;
      }
      buf := data + tail[|data| - partial..];
    }
    ghost var mem := chip.mem;
    ok := WriteWords(chip, address, buf);
    if ok {
      ProgramPadded(mem, address, buf, address, data);
    }
  }

  /**
    The first `written` bytes are in flash, and only words from there to the end of the data may hold anything else.
  */
  ghost predicate StoredUpTo(now: seq<byte>, mem: seq<byte>, address: nat, data: seq<byte>, written: nat) {
    && written <= |data| && address + written <= |mem|
    && SameOutside(now, Program(mem, address, data[..written]), address + written, AlignUp(address + |data|))
  }

  lemma ReachedIsStored(now: seq<byte>, mem: seq<byte>, address: nat, data: seq<byte>, written: nat)
    requires Reached(now, mem, address, data, written) && 0 < written <= |data|
    ensures StoredUpTo(now, mem, address, data, written)
  {
    hide Program;
  }

  lemma FailedFrom(now: seq<byte>, before: seq<byte>, mem: seq<byte>, address: nat, data: seq<byte>, written: nat,
                   n: nat)
    requires Reached(before, mem, address, data, written) && 0 < written && written + n <= |data|
    requires OnlyCoverChanged(now, before, address + written, n) && (address + written) % 4 == 0
    ensures StoredUpTo(now, mem, address, data, written)
  {
    hide Program;
    assert AlignUp(address + written + n) <= AlignUp(address + |data|);
  }

  /** The loop of `flashWriteUnalignedMemory`, from a word boundary or from the end of the data. */
  method WriteChunks(chip: Chip, ghost mem: seq<byte>, address: nat, data: seq<byte>, head: nat) returns (written: nat)
    requires head < |data| ==> (address + head) % 4 == 0
    requires OnlyCoverChanged(chip.mem, mem, address, |data|)
    requires Reached(chip.mem, mem, address, data, head) && head <= |data|
    modifies chip`mem, chip`writes, chip`failures
    ensures OnlyCoverChanged(chip.mem, mem, address, |data|)
    ensures head <= written <= |data|
    ensures written == |data| ==> Reached(chip.mem, mem, address, data, |data|)
    ensures written > 0 ==> StoredUpTo(chip.mem, mem, address, data, written)
    ensures chip.failures >= old(chip.failures)
    ensures AlignUp(address + |data|) <= |mem| && chip.failures == old(chip.failures) ==> written == |data|
  {
    hide Reached;
    hide OnlyCoverChanged;
    hide StoredUpTo;
    hide AlignUp;
    hide Program;
    SizesAgree(chip.mem, mem, address, |data|);
    written := head;
    while written < |data|
      invariant head <= written <= |data|
      invariant written < |data| ==> (address + written) % 4 == 0
      invariant OnlyCoverChanged(chip.mem, mem, address, |data|) && |chip.mem| == |mem|
      invariant Reached(chip.mem, mem, address, data, written)
      invariant chip.failures == old(chip.failures)
    {
      var n := if |data| - written < 0x100 then |data| - written else 0x100;
      ghost var before := chip.mem;
      var ok := WriteChunk(chip, address + written, data[written..written + n]);
      CoverOfPart(chip.mem, before, mem, address, |data|, written, n);
      SizesAgree(chip.mem, mem, address, |data|);
      if !ok {
        if written > 0 {
          FailedFrom(chip.mem, before, mem, address, data, written, n);
        }
        return;
      }
      ReachedStep(before, mem, address, data, written, n);
      written := written + n;
    }
    if written > 0 {
      ReachedIsStored(chip.mem, mem, address, data, written);
    }
  }

  lemma SizesAgree(now: seq<byte>, mem: seq<byte>, address: nat, size: nat)
    requires OnlyCoverChanged(now, mem, address, size)
    ensures |now| == |mem|
  {
  }

  /** `flashWriteUnalignedMemory`: returns how many bytes were stored before the first failure. */
  method WriteUnaligned(chip: Chip, address: nat, data: seq<byte>) returns (written: nat)
    requires data != []
    modifies chip`mem, chip`writes, chip`failures
    ensures OnlyCoverChanged(chip.mem, old(chip.mem), address, |data|)
    ensures written <= |data|
    ensures written > 0 ==> StoredUpTo(chip.mem, old(chip.mem), address, data, written)
    ensures written == |data| ==> address + |data| <= |chip.mem| && chip.mem == Program(old(chip.mem), address, data)
    ensures chip.failures >= old(chip.failures)
    ensures AlignUp(address + |data|) <= |chip.mem| && chip.failures == old(chip.failures) ==> written == |data|
  {
    hide Program;
    hide StoredUpTo;
    hide OnlyCoverChanged;
    hide AlignUp;
    ghost var mem := chip.mem;
    CoverIsReflexive(mem, address, |data|);
    var n := 0;
    if address % 4 != 0 {
      var room := 4 - address % 4;
      n := if room < |data| then room else |data|;
      var ok := WriteHead(chip, address, data[..n]);
      CoverOfPart(chip.mem, mem, mem, address, |data|, 0, n);
      SizesAgree(chip.mem, mem, address, |data|);
      if !ok {
        return 0;
      }
    }
    written := WriteChunks(chip, mem, address, data, n);
    SizesAgree(chip.mem, mem, address, |data|);
    assert data[..|data|] == data;
  }

  /** `flashWrite(uint32_t, const uint8_t*, size_t)`, for a pointer that is or is not word aligned. */
  method FlashWrite(chip: Chip, address: nat, data: seq<byte>, pointerAligned: bool) returns (ok: bool)
    modifies chip`mem, chip`writes, chip`failures
    ensures data == [] ==> !ok && chip.mem == old(chip.mem)
    ensures OnlyCoverChanged(chip.mem, old(chip.mem), address, |data|)
    ensures ok ==> address + |data| <= |chip.mem| && chip.mem == Program(old(chip.mem), address, data)
    ensures chip.failures >= old(chip.failures)
    ensures data != [] && AlignUp(address + |data|) <= |chip.mem| && chip.failures == old(chip.failures) ==> ok
  {
    hide Program;
    if data == [] {
      return false;
    }
    if address % 4 != 0 || !pointerAligned || |data| % 4 != 0 {
      var written := WriteUnaligned(chip, address, data);
      ok := written == |data|;
    } else {
      ok := WriteWords(chip, address, data);
    }
  }
}
