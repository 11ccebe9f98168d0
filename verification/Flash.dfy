/** NOR flash: erasing sets a sector to 0xFF, writing can only clear bits. */
module Flash {
  import opened Bytes

  // The geometry of `spi_flash_geometry.h`: sectors of 0x1000 bytes, pages of 0x100. Literals keep arithmetic linear.

  /** The result of writing `data` at `addr` on a part that ANDs. */
  function Program(mem: seq<byte>, addr: nat, data: seq<byte>): (r: seq<byte>)
    requires addr + |data| <= |mem|
    ensures |r| == |mem|
  {
    seq(|mem|, i requires 0 <= i < |mem| => if addr <= i < addr + |data| then And(mem[i], data[i - addr]) else mem[i])
  }

  /** The result of writing `data` at `addr` on a part that replaces what was there. */
  function Overwrite(mem: seq<byte>, addr: nat, data: seq<byte>): (r: seq<byte>)
    requires addr + |data| <= |mem|
    ensures |r| == |mem|
  {
    seq(|mem|, i requires 0 <= i < |mem| => if addr <= i < addr + |data| then data[i - addr] else mem[i])
  }

  function Erased(n: nat): (r: seq<byte>)
    ensures |r| == n
  {
    seq(n, i => 0xFF)
  }

  function EraseSector(mem: seq<byte>, sector: nat): (r: seq<byte>)
    requires (sector + 1) * 0x1000 <= |mem|
    ensures |r| == |mem|
  {
    Overwrite(mem, sector * 0x1000, Erased(0x1000))
  }

  /** `a` and `b` agree outside `[lo, hi)`. */
  ghost predicate SameOutside(a: seq<byte>, b: seq<byte>, lo: int, hi: int) {
    && |a| == |b|
    && forall i :: 0 <= i < |a| && !(lo <= i < hi) ==> a[i] == b[i]
  }

  lemma SameOutsideTrans(c: seq<byte>, b: seq<byte>, a: seq<byte>, lo': int, hi': int, lo: int, hi: int)
    requires SameOutside(c, b, lo', hi') && SameOutside(b, a, lo, hi) && lo <= lo' && hi' <= hi
    ensures SameOutside(c, a, lo, hi)
  {
  }

  function SectorUp(x: nat): (r: nat)
    ensures r % 0x1000 == 0 && x <= r < x + 0x1000
  {
    (x + 0xfff) / 0x1000 * 0x1000
  }

  lemma ProgramConcat(mem: seq<byte>, addr: nat, x: seq<byte>, y: seq<byte>)
    requires addr + |x| + |y| <= |mem|
    ensures Program(Program(mem, addr, x), addr + |x|, y) == Program(mem, addr, x + y)
  {
    hide And;
  }

  /** Writing onto erased bytes stores exactly the data. */
  lemma ProgramErased(mem: seq<byte>, addr: nat, data: seq<byte>)
    requires addr + |data| <= |mem|
    requires forall i :: addr <= i < addr + |data| ==> mem[i] == 0xFF
    ensures Program(mem, addr, data) == Overwrite(mem, addr, data)
  {
    hide And;
    forall i | addr <= i < addr + |data|
      ensures And(mem[i], data[i - addr]) == data[i - addr]
    {
      AndErased(data[i - addr]);
    }
  }

  /** Writing back bytes that are already there, around new data, is the same as writing the new data alone. */
  lemma ProgramPadded(mem: seq<byte>, base: nat, buf: seq<byte>, addr: nat, data: seq<byte>)
    requires base <= addr && addr + |data| <= base + |buf| <= |mem|
    requires forall i :: 0 <= i < |buf| ==>
               (buf[i] == if addr <= base + i < addr + |data| then data[base + i - addr] else mem[base + i])
    ensures Program(mem, base, buf) == Program(mem, addr, data)
  {
    hide And;
    forall i | base <= i < base + |buf|
      ensures addr <= i < addr + |data| ==> buf[i - base] == data[i - addr]
      ensures !(addr <= i < addr + |data|) ==> And(mem[i], buf[i - base]) == mem[i]
    {
      AndSelf(mem[i]);
    }
  }

  /** Bytes combined in memory and stored on a replacing part: what the same write does on an ANDing part. */
  function Combined(mem: seq<byte>, addr: nat, data: seq<byte>): (r: seq<byte>)
    requires addr + |data| <= |mem|
    ensures |r| == |data|
  {
    seq(|data|, i requires 0 <= i < |data| => And(mem[addr + i], data[i]))
  }

  lemma OverwriteCombined(mem: seq<byte>, addr: nat, data: seq<byte>)
    requires addr + |data| <= |mem|
    ensures Overwrite(mem, addr, Combined(mem, addr, data)) == Program(mem, addr, data)
  {
    hide And;
  }

  /**
    A flash part behind the SDK's `spi_flash_*` calls and the boot ROM's `SPI*` calls. Any call may fail; a failed write
    or erase leaves anything at all in the bytes it was aimed at. `writes` records address and length of each successful
    write, `erases` each successfully erased sector, `failures` counts the calls that failed although the part has the
    bytes asked for.
  */
  class Chip {
    var mem: seq<byte>
    const overwrites: bool
    ghost var writes: seq<(nat, nat)>
    ghost var erases: seq<nat>
    ghost var failures: nat

    constructor (contents: seq<byte>, overwrites: bool)
      ensures mem == contents && this.overwrites == overwrites && writes == [] && erases == [] && failures == 0
    {
      mem := contents;
      this.overwrites := overwrites;
      writes, erases, failures := [], [], 0;
    }

    /** What a successful write leaves in flash. */
    ghost function Written(before: seq<byte>, addr: nat, data: seq<byte>): (r: seq<byte>)
      requires addr + |data| <= |before|
      ensures |r| == |before|
    {
      if overwrites then Overwrite(before, addr, data) else Program(before, addr, data)
    }

    method Spoil(addr: nat, n: nat)
      requires addr + n <= |mem|
      modifies this`mem
      ensures SameOutside(mem, old(mem), addr, addr + n)
    {
      var junk: seq<byte> := Erased(n);
      for i := 0 to n
        invariant |junk| == n
      {
        var b: byte := *;
        junk := junk[i := b];
      }
      mem := Overwrite(mem, addr, junk);
    }

    /** `spi_flash_write`; the SDK demands 4-byte alignment of address and size. */
    method SpiWrite(addr: nat, data: seq<byte>) returns (ok: bool)
      requires addr % 4 == 0 && |data| % 4 == 0
      modifies this`mem, this`writes, this`failures
      ensures SameOutside(mem, old(mem), addr, addr + |data|)
      ensures ok ==> addr + |data| <= |mem| && mem == Written(old(mem), addr, data)
      ensures writes == if ok then old(writes) + [(addr, |data|)] else old(writes)
      ensures failures >= old(failures) && ok == (addr + |data| <= |mem| && failures == old(failures))
    {
      ok := *;
      if addr + |data| > |mem| {
        ok := false;
      } else if ok {
        mem := if overwrites then Overwrite(mem, addr, data) else Program(mem, addr, data);
        writes := writes + [(addr, |data|)];
      } else {
        Spoil(addr, |data|);
        failures := failures + 1;
      }
    }

    /** `SPIRead` of the boot ROM. */
    method RomRead(addr: nat, n: nat) returns (ok: bool, data: seq<byte>)
      modifies this`failures
      ensures ok ==> addr + n <= |mem| && data == mem[addr..addr + n]
      ensures failures >= old(failures) && ok == (addr + n <= |mem| && failures == old(failures))
    {
      ok, data := *, [];
      if addr + n > |mem| {
        ok := false;
      } else if ok {
        data := mem[addr..addr + n];
      } else {
        failures := failures + 1;
      }
    }

    /** `spi_flash_read`; the SDK demands 4-byte alignment of address and size. */
    method SpiRead(addr: nat, n: nat) returns (ok: bool, data: seq<byte>)
      requires addr % 4 == 0 && n % 4 == 0
      modifies this`failures
      ensures ok ==> addr + n <= |mem| && data == mem[addr..addr + n]
      ensures failures >= old(failures) && ok == (addr + n <= |mem| && failures == old(failures))
    {
      ok, data := RomRead(addr, n);
    }

    /** The one allocation the replacing parts' writer makes. */
    method Allocate() returns (ok: bool)
      modifies this`failures
      ensures failures >= old(failures) && ok == (failures == old(failures))
    {
      ok := *;
      if !ok {
        failures := failures + 1;
      }
    }

    /** `spi_flash_erase_sector`. */
    method SpiErase(sector: nat) returns (ok: bool)
      modifies this`mem, this`erases, this`failures
      ensures SameOutside(mem, old(mem), sector * 0x1000, (sector + 1) * 0x1000)
      ensures ok ==> (sector + 1) * 0x1000 <= |mem| && mem == EraseSector(old(mem), sector)
      ensures (sector + 1) * 0x1000 > |mem| ==> mem == old(mem)
      ensures erases == if ok then old(erases) + [sector] else old(erases)
      ensures failures >= old(failures) && ok == ((sector + 1) * 0x1000 <= |mem| && failures == old(failures))
    {
      ok := *;
      if (sector + 1) * 0x1000 > |mem| {
        ok := false;
      } else if ok {
        mem := EraseSector(mem, sector);
        erases := erases + [sector];
      } else {
        Spoil(sector * 0x1000, 0x1000);
        failures := failures + 1;
      }
    }
  }
}
