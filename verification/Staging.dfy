/** What a staged image looks like in flash, and how one more buffer extends it. */
module Staging {
  import opened Bytes
  import opened Flash

  /** `n` sector numbers from `first` on. */
  ghost function Consecutive(first: nat, n: nat): (s: seq<nat>)
    ensures |s| == n
  {
    seq(n, i requires 0 <= i < n => first + i)
  }

  /**
    Since flash was `base`, `bytes` have been staged at `start`: they are in flash, the rest of the last sector is
    erased, and nothing else has changed.
  */
  ghost predicate Staged(mem: seq<byte>, base: seq<byte>, start: nat, bytes: seq<byte>) {
    var at := start + |bytes|;
    && start % 0x1000 == 0
    && (bytes != [] ==> SectorUp(at) <= |base|)
    && SameOutside(mem, base, start, SectorUp(at))
    && (forall i :: 0 <= i < |bytes| ==> start + i < |mem| && mem[start + i] == bytes[i])
    && (forall i :: at <= i < SectorUp(at) ==> i < |mem| && mem[i] == 0xFF)
  }

  /** The sectors erased while staging `size` bytes at `start`, each once and in order. */
  ghost function SectorsErased(start: nat, size: nat): seq<nat> {
    Consecutive(start / 0x1000, SectorUp(size) / 0x1000)
  }

  lemma NothingStaged(base: seq<byte>, start: nat)
    requires start % 0x1000 == 0
    ensures Staged(base, base, start, []) && SectorsErased(start, 0) == []
  {
    assert SectorUp(start) == start;
  }

  /** On a sector boundary the next sector is erased first. */
  ghost function Prepared(mem: seq<byte>, at: nat): (r: seq<byte>)
    requires at % 0x1000 == 0 ==> at + 0x1000 <= |mem|
    ensures |r| == |mem|
  {
    if at % 0x1000 == 0 then EraseSector(mem, at / 0x1000) else mem
  }

  lemma SectorEnd(at: nat, n: nat)
    requires 0 < n && at % 0x1000 + n <= 0x1000
    ensures SectorUp(at + n) == at - at % 0x1000 + 0x1000
    ensures at % 0x1000 != 0 ==> SectorUp(at) == SectorUp(at + n)
    ensures at % 0x1000 == 0 ==> SectorUp(at) == at
  {
    var q := at / 0x1000;
    assert at == q * 0x1000 + at % 0x1000;
  }

  lemma PreparedIsErased(mem: seq<byte>, base: seq<byte>, start: nat, bytes: seq<byte>, n: nat)
    requires Staged(mem, base, start, bytes)
    requires var at := start + |bytes|; 0 < n && at % 0x1000 + n <= 0x1000 && SectorUp(at + n) <= |mem|
    ensures var at := start + |bytes|;
            && (at % 0x1000 == 0 ==> at + 0x1000 <= |mem|)
            && (forall i :: at <= i < SectorUp(at + n) ==> Prepared(mem, at)[i] == 0xFF)
            && (forall i :: 0 <= i < |mem| && !(at <= i < SectorUp(at + n)) ==> Prepared(mem, at)[i] == mem[i])
  {
    var at := start + |bytes|;
    SectorEnd(at, n);
    if at % 0x1000 == 0 {
      assert at / 0x1000 * 0x1000 == at;
    }
  }

  /** Staging the next `data`, which fits into the current sector: it lands on erased bytes only. */
  lemma StageMore(mem: seq<byte>, base: seq<byte>, start: nat, bytes: seq<byte>, data: seq<byte>)
    requires Staged(mem, base, start, bytes)
    requires var at := start + |bytes|; data != [] && at % 0x1000 + |data| <= 0x1000 && SectorUp(at + |data|) <= |mem|
    ensures var at := start + |bytes|;
            && (at % 0x1000 == 0 ==> at + 0x1000 <= |mem|)
            && Program(Prepared(mem, at), at, data) == Overwrite(Prepared(mem, at), at, data)
            && Staged(Program(Prepared(mem, at), at, data), base, start, bytes + data)
  {
    hide Program;
    hide Prepared;
    hide SectorUp;
    hide Staged;
    hide Overwrite;
    var at := start + |bytes|;
    SectorEnd(at, |data|);
    PreparedIsErased(mem, base, start, bytes, |data|);
    ProgramErased(Prepared(mem, at), at, data);
    StagedAnew(Prepared(mem, at), mem, base, start, bytes, data);
  }

  lemma StagedAnew(prepared: seq<byte>, mem: seq<byte>, base: seq<byte>, start: nat, bytes: seq<byte>, data: seq<byte>)
    requires Staged(mem, base, start, bytes) && |prepared| == |mem|
    requires var at := start + |bytes|;
             && data != [] && at % 0x1000 + |data| <= 0x1000 && SectorUp(at + |data|) <= |mem|
             && (forall i :: at <= i < SectorUp(at + |data|) ==> prepared[i] == 0xFF)
             && (forall i :: 0 <= i < |mem| && !(at <= i < SectorUp(at + |data|)) ==> prepared[i] == mem[i])
    ensures var at := start + |bytes|;
            at + |data| <= |mem| && Staged(Overwrite(prepared, at, data), base, start, bytes + data)
  {
    hide SectorUp;
    var at := start + |bytes|;
    SectorEnd(at, |data|);
    var now := Overwrite(prepared, at, data);
    assert forall i :: 0 <= i < |mem| && !(at <= i < at + |data|) ==> now[i] == prepared[i];
  }

  /** The sector list grows exactly when a new sector is entered. */
  lemma EraseMore(start: nat, size: nat, n: nat)
    requires start % 0x1000 == 0 && 0 < n && (start + size) % 0x1000 + n <= 0x1000
    ensures SectorsErased(start, size + n) ==
            SectorsErased(start, size) + if (start + size) % 0x1000 == 0 then [(start + size) / 0x1000] else []
  {
    var s := start / 0x1000;
    assert start == s * 0x1000;
    assert (start + size) % 0x1000 == size % 0x1000 && (start + size) / 0x1000 == s + size / 0x1000;
    SectorEnd(size, n);
    var q := size / 0x1000;
    if size % 0x1000 == 0 {
      assert size == q * 0x1000 && SectorUp(size + n) == (q + 1) * 0x1000;
      assert SectorUp(size) / 0x1000 == q && SectorUp(size + n) / 0x1000 == q + 1;
    }
  }

  /** Whatever a failed erase or write did, it did it to the sector it was aimed at. */
  lemma FailureIsLocal(now: seq<byte>, mem: seq<byte>, base: seq<byte>, start: nat, bytes: seq<byte>, n: nat, size: nat)
    requires Staged(mem, base, start, bytes) && 0 < n && (start + |bytes|) % 0x1000 + n <= 0x1000
    requires |bytes| + n <= size
    requires SameOutside(now, mem, start + |bytes|, SectorUp(start + |bytes| + n))
    ensures SameOutside(now, base, start, SectorUp(start + size))
  {
    SectorsInOrder(start + |bytes|, start + |bytes| + n);
    SectorsInOrder(start + |bytes| + n, start + size);
    hide SectorUp;
  }

  lemma SectorsInOrder(a: nat, b: nat)
    requires a <= b
    ensures a <= SectorUp(a) <= SectorUp(b)
  {
  }

  // ----- the flash mode byte

  /** `magicFlashChipMode`. */
  function MagicMode(b: byte): byte {
    if b > 3 then 0xff else b
  }

  /** A mode that `magicFlashChipMode` can return. */
  predicate LegalMode(mode: byte) {
    mode <= 3 || mode == 0xff
  }

  /** The image is a plain one whose mode byte is not that of the flash part. */
  predicate Repatches(image: seq<byte>, mode: byte) {
    |image| > 2 && image[0] != 0x1f && MagicMode(image[2]) != mode
  }

  /** What is written to flash for `image`. */
  function Patched(image: seq<byte>, mode: byte): (r: seq<byte>)
    ensures |r| == |image|
  {
    if Repatches(image, mode) then image[2 := mode] else image
  }

  /** What the hash is fed for `image`: the mode byte is put back, but through `magicFlashChipMode`. */
  function Fed(image: seq<byte>, mode: byte): (r: seq<byte>)
    ensures |r| == |image|
  {
    if Repatches(image, mode) then image[2 := MagicMode(image[2])] else image
  }

  /** The hash sees the bytes that were sent exactly when the mode byte is legal, 0xff, or was left alone. */
  lemma HashSeesTheImageExactly(image: seq<byte>, mode: byte)
    ensures Fed(image, mode) == image <==> !Repatches(image, mode) || image[2] <= 3 || image[2] == 0xff
  {
    if Repatches(image, mode) {
      assert Fed(image, mode)[2] == MagicMode(image[2]);
    }
  }

  /** A plain image gets the mode of the flash part, where that is known; nothing else is changed in any image. */
  lemma PatchedExactly(image: seq<byte>, mode: byte)
    requires LegalMode(mode)
    ensures forall i :: 0 <= i < |image| && i != 2 ==> Patched(image, mode)[i] == image[i]
    ensures |image| > 2 && image[0] == 0x1f ==> Patched(image, mode)[2] == image[2]
    ensures |image| > 2 && image[0] != 0x1f && mode <= 3 ==> Patched(image, mode)[2] == mode
    ensures |image| > 2 && image[0] != 0x1f && mode == 0xff ==>
              Patched(image, mode)[2] == if image[2] <= 3 then 0xff else image[2]
  {
  }

  lemma PatchedGrows(image: seq<byte>, more: seq<byte>, mode: byte)
    requires image == [] || |image| > 2
    ensures image == [] ==>
              Patched(image + more, mode) == Patched(more, mode) && Fed(image + more, mode) == Fed(more, mode)
    ensures image != [] ==> Patched(image + more, mode) == Patched(image, mode) + more
    ensures image != [] ==> Fed(image + more, mode) == Fed(image, mode) + more
  {
    if image == [] {
      assert image + more == more;
    }
  }
}
