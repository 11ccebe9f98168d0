/** What the bytes of an image file are, seen by those who read it. */
module ImageFields {
  import opened Bytes
  import opened Crc
  import opened Image

  /** The fields of the header, each at the place where the bootloader and the core look for it. */
  lemma HeaderFields(h: Header, segs: seq<Segment>)
    requires |segs| < 256 && Storable(segs)
    ensures var file := Bin(h, segs);
            && |file| >= 16 && file[0] == 0xe9 && file[1] == |segs| && file[2] == h.mode && file[3] == h.sizeAndSpeed
            && WordAt(file, 4) == h.entry
  {
    hide Sections;
    hide Checksum;
    var file := Bin(h, segs);
    assert file[4..8] == WordBytes(h.entry);
    WordBytesInverse(h.entry);
  }

  /** Where section `i` lies in a file: behind the header and the sections before it, eight bytes and the data each. */
  function Place(segs: seq<Segment>, i: nat): nat
    requires i <= |segs|
  {
    if i == 0 then 8 else Place(segs, i - 1) + 8 + |segs[i - 1].data|
  }

  lemma {:induction false} SectionAtPlace(segs: seq<Segment>, i: nat)
    requires Storable(segs) && i < |segs|
    ensures var at, s := Place(segs, i) - 8, Sections(segs);
            0 <= at && at + 8 + |segs[i].data| <= |s| && s[at..at + 8 + |segs[i].data|] == SectionBytes(segs[i])
    decreases |segs|
  {
    hide SectionBytes;
    var n := |segs| - 1;
    PlaceIs(segs, i);
    PlaceOf(segs, segs[..n], i);
    if i < n {
      SectionAtPlace(segs[..n], i);
    } else {
      assert segs[..n][..n] == segs[..n];
    }
  }

  lemma {:induction false} PlaceIs(segs: seq<Segment>, i: nat)
    requires Storable(segs) && i <= |segs|
    ensures Place(segs, i) == 8 + |Sections(segs[..i])|
  {
    if i > 0 {
      PlaceIs(segs, i - 1);
      assert segs[..i][..i - 1] == segs[..i - 1];
    }
  }

  lemma {:induction false} PlaceOf(segs: seq<Segment>, front: seq<Segment>, i: nat)
    requires i <= |front| && front <= segs
    ensures Place(segs, i) == Place(front, i)
  {
    if i > 0 {
      PlaceOf(segs, front, i - 1);
    }
  }

  /** A section in a file: the address, the length, the data. */
  lemma SectionFields(h: Header, segs: seq<Segment>, i: nat)
    requires |segs| < 256 && Storable(segs) && i < |segs|
    ensures var file, at, seg := Bin(h, segs), Place(segs, i), segs[i];
            && at + 8 + |seg.data| <= |file|
            && WordAt(file, at) == seg.address && WordAt(file, at + 4) == |seg.data|
            && file[at + 8..at + 8 + |seg.data|] == seg.data
  {
    hide Sections;
    hide SectionBytes;
    hide Bin;
    hide Place;
    hide WordAt;
    var at, seg := Place(segs, i), segs[i];
    SectionAtPlace(segs, i);
    SectionsInFile(h, segs, at, at + 8 + |seg.data|);
    FieldsOf(Bin(h, segs), at, seg);
  }

  lemma SectionsInFile(h: Header, segs: seq<Segment>, from: nat, to: nat)
    requires |segs| < 256 && Storable(segs) && 8 <= from <= to <= 8 + |Sections(segs)|
    ensures to <= |Bin(h, segs)| && Bin(h, segs)[from..to] == Sections(segs)[from - 8..to - 8]
  {
    hide Sections;
    hide Checksum;
    hide HeaderBytes;
    var header, s := HeaderBytes(h, |segs|), Sections(segs);
    var file := Bin(h, segs);
    assert file[8..8 + |s|] == s;
    Slice(file, 8, 8 + |s|, from - 8, to - 8);
  }

  lemma FieldsOf(file: seq<byte>, at: nat, seg: Segment)
    requires |seg.data| < 0x1_0000_0000 && at + 8 + |seg.data| <= |file|
    requires file[at..at + 8 + |seg.data|] == SectionBytes(seg)
    ensures WordAt(file, at) == seg.address && WordAt(file, at + 4) == |seg.data|
    ensures file[at + 8..at + 8 + |seg.data|] == seg.data
  {
    hide WordBytes;
    hide BytesWord;
    var s := SectionBytes(seg);
    Slice(file, at, at + |s|, 0, 4);
    Slice(file, at, at + |s|, 4, 8);
    Slice(file, at, at + |s|, 8, |s|);
    assert s[0..4] == WordBytes(seg.address) && s[4..8] == WordBytes(|seg.data|) && s[8..] == seg.data;
    WordBytesInverse(seg.address);
    WordBytesInverse(|seg.data|);
  }

  /** Behind the sections come at most fifteen zeros and the checksum, and the length is a multiple of 16. */
  lemma Padding(h: Header, segs: seq<Segment>)
    requires |segs| < 256 && Storable(segs)
    ensures var file, end := Bin(h, segs), Place(segs, |segs|);
            && |file| % 16 == 0 && end < |file| <= end + 16
            && forall k :: end <= k < |file| - 1 ==> file[k] == 0
  {
    hide Sections;
    hide Checksum;
    hide HeaderBytes;
    hide Place;
    PlaceIs(segs, |segs|);
    assert segs[..|segs|] == segs;
  }

  // ----- the checksum

  /** How many bytes have bit `b` set. */
  ghost function Ones(data: seq<byte>, b: nat): nat
    requires b < 8
  {
    if data == [] then 0 else Ones(data[1..], b) + if ByteBits(data[0])[b] then 1 else 0
  }

  ghost function OnesInAll(segs: seq<Segment>, b: nat): nat
    requires b < 8
  {
    if segs == [] then 0 else Ones(segs[0].data, b) + OnesInAll(segs[1..], b)
  }

  lemma {:induction false} OnesOfSum(data: seq<byte>, more: seq<byte>, b: nat)
    requires b < 8
    ensures Ones(data + more, b) == Ones(data, b) + Ones(more, b)
  {
    if data == [] {
      assert data + more == more;
    } else {
      assert (data + more)[1..] == data[1..] + more;
      OnesOfSum(data[1..], more, b);
    }
  }

  lemma {:induction false} OnesInBoth(segs: seq<Segment>, more: seq<Segment>, b: nat)
    requires b < 8
    ensures OnesInAll(segs + more, b) == OnesInAll(segs, b) + OnesInAll(more, b)
  {
    if segs == [] {
      assert segs + more == more;
    } else {
      assert (segs + more)[1..] == segs[1..] + more;
      OnesInBoth(segs[1..], more, b);
    }
  }

  lemma OnesInOne(seg: Segment, b: nat)
    requires b < 8
    ensures OnesInAll([seg], b) == Ones(seg.data, b)
  {
  }

  lemma ParityOfSum(a: nat, c: nat)
    ensures ((a + c) % 2 == 1) == ((a % 2 == 1) != (c % 2 == 1))
  {
  }

  lemma XorBit(x: byte, y: byte, b: nat)
    requires b < 8
    ensures ByteBits(Xor(x, y))[b] == (ByteBits(x)[b] != ByteBits(y)[b])
  {
    BitsOfValue(XorBits(ByteBits(x), ByteBits(y)));
  }

  lemma {:induction false} XorAllParity(start: byte, data: seq<byte>, b: nat)
    requires b < 8
    ensures ByteBits(XorAll(start, data))[b] == (ByteBits(start)[b] != (Ones(data, b) % 2 == 1))
    decreases |data|
  {
    hide Xor;
    hide ByteBits;
    if data != [] {
      var n := |data| - 1;
      XorAllParity(start, data[..n], b);
      XorBit(XorAll(start, data[..n]), data[n], b);
      OnesOfSum(data[..n], [data[n]], b);
      assert data == data[..n] + [data[n]];
    }
  }

  /** A bit of the checksum is that of 0xef, turned over once for each data byte of the sections that has it set. */
  lemma {:induction false} ChecksumParity(segs: seq<Segment>, b: nat)
    requires b < 8
    ensures ByteBits(Checksum(segs))[b] == (ByteBits(0xef)[b] != (OnesInAll(segs, b) % 2 == 1))
    decreases |segs|
  {
    hide ByteBits;
    hide XorAll;
    hide Ones;
    if segs != [] {
      var n := |segs| - 1;
      ChecksumParity(segs[..n], b);
      XorAllParity(Checksum(segs[..n]), segs[n].data, b);
      OnesInBoth(segs[..n], [segs[n]], b);
      OnesInOne(segs[n], b);
      ParityOfSum(OnesInAll(segs[..n], b), Ones(segs[n].data, b));
      assert segs == segs[..n] + [segs[n]];
    }
  }

  /** The last byte of a file is the checksum, whose bits are those of 0xef with the parity of all section data. */
  lemma LastByteIsChecksum(h: Header, segs: seq<Segment>, b: nat)
    requires |segs| < 256 && Storable(segs) && b < 8
    ensures var file := Bin(h, segs);
            ByteBits(file[|file| - 1])[b] ==
              ([true, true, true, false, true, true, true, true][b] != (OnesInAll(segs, b) % 2 == 1))
  {
    hide Sections;
    hide HeaderBytes;
    hide Checksum;
    ChecksumParity(segs, b);
    InitialBits(b);
  }

  lemma InitialBits(b: nat)
    requires b < 8
    ensures ByteBits(0xef)[b] == [true, true, true, false, true, true, true, true][b]
  {
    hide ByteBits;
    MaskTestsBit(0xef, b);
  }
}
