// The layout of a 1541 track: sectors with their sync marks on a circle of bytes.
module GcrTrack {
  import opened Bytes
  import D64
  import opened Gcr

  // A track to write: its number from 0, the disk id and the contents of its sectors.
  datatype Source = Source(track: nat, id1: Byte, id2: Byte, data: seq<Byte>)

  // track_to_region: the speed zone of a track, the last one for tracks that do not exist.
  function Region(track: nat): (r: nat)
    ensures r < 4
  {
    if track < 17 then 0 else if track < 24 then 1 else if track < 30 then 2 else 3
  }

  function Length(region: nat): nat
    requires region < 4
  {
    [0x1E00, 0x1BE0, 0x1A00, 0x1860][region]
  }

  function Sectors(region: nat): nat
    requires region < 4
  {
    [21, 19, 18, 17][region]
  }

  function GapLength(region: nat): nat
    requires region < 4
  {
    [9, 19, 13, 10][region]
  }

  // Bytes from the start of one sector to the next: sync, header, gap, sync, data.
  const SECTOR_BYTES: int := 354

  function Offset(region: nat, s: nat): nat
    requires region < 4
  {
    if region == 0 then 363 * s else if region == 1 then 373 * s else if region == 2 then 367 * s else 364 * s
  }

  lemma RegionSizes(region: nat, s: nat)
    requires region < 4
    ensures Offset(region, 0) == 0
    ensures Offset(region, s + 1) == Offset(region, s) + SECTOR_BYTES + GapLength(region)
    ensures 17 <= Sectors(region) <= 21 && 9 <= GapLength(region) <= 19 && 6240 <= Length(region) <= 7680
    ensures Length(region) - 60 <= Offset(region, Sectors(region)) <= Length(region)
  {
  }

  // track_start: where the sectors of a track lie in the image.
  function TrackStart(track: nat): nat {
    if track == 0 then 0 else TrackStart(track - 1) + 256 * Sectors(Region(track - 1))
  }

  // The drive writes a track back to where the file system of the image looks for its sectors.
  lemma {:induction false} PlaceInImage(track: nat)
    ensures Sectors(Region(track)) == D64.SectorsOn(0, track)
    ensures TrackStart(track) == D64.SECTOR * D64.Before(0, track)
  {
    if track > 0 {
      PlaceInImage(track - 1);
    }
  }

  // The sizes of a track in each zone, and the image of a disk with the place of its id.
  lemma ZoneExamples()
    ensures Length(Region(16)) == 7680 && Length(Region(17)) == Length(Region(23)) == 7136
    ensures Length(Region(24)) == Length(Region(29)) == 6656 && Length(Region(30)) == Length(Region(34)) == 6240
    ensures TrackStart(35) == 174848 && TrackStart(17) + 0xA2 == 91554
  {
    hide TrackStart, D64.Before;
    PlaceInImage(17);
    PlaceInImage(35);
    D64.BeforeByZones(0, 17);
    D64.BeforeByZones(0, 35);
  }

  function Xor(a: Byte, b: Byte): Byte {
    ((a as bv8) ^ (b as bv8)) as int
  }

  function Checksum(s: seq<Byte>): Byte {
    if s == [] then 0 else Xor(Checksum(s[..|s| - 1]), s[|s| - 1])
  }

  predicate Good(t: Source) {
    |t.data| == 256 * Sectors(Region(t.track))
  }

  function SectorData(t: Source, s: nat): (d: seq<Byte>)
    requires Good(t) && s < Sectors(Region(t.track))
    ensures |d| == 256
  {
    t.data[256 * s..256 * s + 256]
  }

  function Header(t: Source, s: Byte): (h: seq<Byte>)
    ensures |h| == 8
  {
    var number: Byte := (t.track + 1) % 0x100;
    [8, Xor(Xor(Xor(s, number), t.id2), t.id1), s, number, t.id2, t.id1, 0x0F, 0x0F]
  }

  function DataBlock(t: Source, s: nat): (b: seq<Byte>)
    requires Good(t) && s < Sectors(Region(t.track))
    ensures |b| == 260
  {
    [7] + SectorData(t, s) + [Checksum(SectorData(t, s)), 0, 0]
  }

  function Run(n: nat, b: Byte): (s: seq<Byte>)
    ensures |s| == n && forall i | 0 <= i < n :: s[i] == b
  {
    seq(n, _ => b)
  }

  // A sync mark, an encoded block and a gap.
  ghost function Marked(block: seq<Byte>, gap: nat): (g: seq<Byte>)
    requires |block| % 4 == 0
    ensures |g| == 5 + |block| / 4 * 5 + gap
  {
    Run(5, FF) + Block(block) + Run(gap, GAP)
  }

  // A header and its data block.
  ghost function Both(header: seq<Byte>, data: seq<Byte>, gap: nat): (g: seq<Byte>)
    requires |header| == 8 && |data| == 260
    ensures |g| == SECTOR_BYTES + gap
  {
    Marked(header, 9) + Marked(data, gap)
  }

  ghost function SectorImage(t: Source, s: nat): (g: seq<Byte>)
    requires Good(t) && s < Sectors(Region(t.track))
    ensures |g| == SECTOR_BYTES + GapLength(Region(t.track))
  {
    Both(Header(t, s), DataBlock(t, s), GapLength(Region(t.track)))
  }

  ghost function SectorsUpTo(t: Source, n: nat): (g: seq<Byte>)
    requires Good(t) && n <= Sectors(Region(t.track))
    ensures |g| == Offset(Region(t.track), n)
  {
    if n == 0 then []
    else
      RegionSizes(Region(t.track), n - 1);
      SectorsUpTo(t, n - 1) + SectorImage(t, n - 1)
  }

  // What convert_track_bin2gcr writes, without error codes.
  ghost function Track(t: Source): (g: seq<Byte>)
    requires Good(t)
    ensures |g| == Length(Region(t.track))
  {
    var r := Region(t.track);
    RegionSizes(r, 0);
    SectorsUpTo(t, Sectors(r)) + Run(Length(r) - Offset(r, Sectors(r)), GAP)
  }

  // ---- What is written, read back ----

  // The exclusive or of bytes.
  function Parity(s: seq<Byte>): bv8 {
    if s == [] then 0 else (s[0] as bv8) ^ Parity(s[1..])
  }

  // The eight bytes of a header: its mark, a checksum, sector, track, disk id and filler.
  ghost predicate HeaderIs(h: seq<Byte>, t: Source, s: nat) {
    && |h| == 8 && h[0] == 8 && h[2] == s && h[3] == (t.track + 1) % 0x100 && h[4] == t.id2 && h[5] == t.id1
    && h[6] == 0x0F && h[7] == 0x0F && Parity(h[1..6]) == 0
  }

  // The 260 bytes of a data block: its mark, the contents, a checksum and two zeros.
  ghost predicate DataIs(d: seq<Byte>, t: Source, s: nat) {
    && |d| == 260 && d[0] == 7 && 256 * s + 256 <= |t.data| && d[1..257] == t.data[256 * s..256 * s + 256]
    && Parity(d[1..258]) == 0 && d[258] == 0 && d[259] == 0
  }

  // The bytes of a sector: sync mark, header, gap, sync mark, data block, gap.
  ghost predicate Written(g: seq<Byte>, t: Source, s: nat) {
    && |g| >= SECTOR_BYTES
    && (forall i | 0 <= i < 5 || 24 <= i < 29 :: g[i] == 0xFF)
    && (forall i | 15 <= i < 24 || 354 <= i < |g| :: g[i] == 0x55)
    && HeaderIs(Decoded(g[5..15]), t, s) && DataIs(Decoded(g[29..354]), t, s)
  }

  lemma XorBits(a: Byte, b: Byte)
    ensures Xor(a, b) as bv8 == (a as bv8) ^ (b as bv8)
  {
  }

  lemma {:induction false} ParityAppend(s: seq<Byte>, b: Byte)
    ensures Parity(s + [b]) == Parity(s) ^ (b as bv8)
  {
    if s == [] {
      assert ([] + [b])[1..] == [];
    } else {
      assert (s + [b])[1..] == s[1..] + [b];
      ParityAppend(s[1..], b);
    }
  }

  lemma {:induction false} ChecksumIsParity(s: seq<Byte>)
    ensures Checksum(s) as bv8 == Parity(s)
  {
    hide Xor;
    if s != [] {
      var n := |s| - 1;
      ChecksumIsParity(s[..n]);
      XorBits(Checksum(s[..n]), s[n]);
      ParityAppend(s[..n], s[n]);
      assert s[..n] + [s[n]] == s;
    }
  }

  lemma HeaderParity(t: Source, s: Byte)
    ensures HeaderIs(Header(t, s), t, s)
  {
    hide Xor;
    var number: Byte := (t.track + 1) % 0x100;
    var h := Header(t, s);
    XorBits(s, number);
    XorBits(Xor(s, number), t.id2);
    XorBits(Xor(Xor(s, number), t.id2), t.id1);
    assert h[1..6] == [h[1], s, number, t.id2, t.id1];
    FiveParity(h[1], s, number, t.id2, t.id1);
  }

  lemma ParityFirst(b: Byte, s: seq<Byte>)
    ensures Parity([b] + s) == (b as bv8) ^ Parity(s)
  {
    assert ([b] + s)[1..] == s;
  }

  lemma FiveParity(a: Byte, b: Byte, c: Byte, d: Byte, e: Byte)
    ensures Parity([a, b, c, d, e]) ==
              (a as bv8) ^ ((b as bv8) ^ ((c as bv8) ^ ((d as bv8) ^ (e as bv8))))
  {
    ParityFirst(e, []);
    assert Parity([]) == 0;
    hide Parity;
    ParityFirst(d, [e]);
    ParityFirst(c, [d, e]);
    ParityFirst(b, [c, d, e]);
    ParityFirst(a, [b, c, d, e]);
    assert [a] + [b, c, d, e] == [a, b, c, d, e] && [b] + [c, d, e] == [b, c, d, e] && [c] + [d, e] == [c, d, e];
    assert [d] + [e] == [d, e] && [e] + [] == [e];
  }

  lemma DataParity(t: Source, s: nat)
    requires Good(t) && s < Sectors(Region(t.track))
    ensures DataIs(DataBlock(t, s), t, s)
  {
    hide Region, Checksum, Parity;
    var d := SectorData(t, s);
    ChecksumIsParity(d);
    ParityAppend(d, Checksum(d));
    assert DataBlock(t, s)[1..258] == d + [Checksum(d)] && DataBlock(t, s)[1..257] == d;
  }

  // Every sector of a track is written as the drive reads it.
  lemma SectorIsWritten(t: Source, s: nat)
    requires Good(t) && s < Sectors(Region(t.track)) <= 21
    ensures Written(SectorImage(t, s), t, s)
  {
    hide Block, Header, DataBlock, GapLength, Region, SectorImage, HeaderIs, DataIs;
    SectorParts(t, s);
    HeaderParity(t, s);
    DataParity(t, s);
    BlockDecodes(Header(t, s));
    BlockDecodes(DataBlock(t, s));
  }

  // Sector s is written from its place up to that of the next one.
  ghost predicate SectorAt(g: seq<Byte>, t: Source, s: nat) {
    var o, e := Offset(Region(t.track), s), Offset(Region(t.track), s + 1);
    o <= e <= |g| && Written(g[o..e], t, s)
  }

  // The track from its first byte on: all sectors one behind the other, and gap up to its end.
  ghost predicate Formatted(g: seq<Byte>, t: Source) {
    var r := Region(t.track);
    && |g| == Length(r)
    && (forall s | 0 <= s < Sectors(r) :: SectorAt(g, t, s))
    && (forall i | Offset(r, Sectors(r)) <= i < |g| :: g[i] == 0x55)
  }

  lemma TrackIsFormatted(t: Source)
    requires Good(t)
    ensures Formatted(Track(t), t)
  {
    hide Offset, GapLength, Region, SectorImage, Written;
    var r := Region(t.track);
    RegionSizes(r, 0);
    forall s | 0 <= s < Sectors(r)
      ensures SectorAt(Track(t), t, s)
    {
      RegionSizes(r, s);
      SectorInTrack(t, Sectors(r), s);
      SectorIsWritten(t, s);
      var o := Offset(r, s);
      var n := |SectorImage(t, s)|;
      assert Track(t)[o..o + n] == SectorsUpTo(t, Sectors(r))[o..o + n];
    }
  }

  // ---- Where bytes of all ones stand in a sector ----

  predicate InSync(i: int) {
    0 <= i < 5 || 24 <= i < 29
  }

  predicate Alone(i: int) {
    (5 <= i < 15 && i % 5 == 2) || (29 <= i < SECTOR_BYTES && i % 5 == 1)
  }

  lemma BothParts(header: seq<Byte>, data: seq<Byte>, gap: nat)
    requires |header| == 8 && |data| == 260
    ensures Both(header, data, gap)[5..15] == Block(header)
    ensures Both(header, data, gap)[29..SECTOR_BYTES] == Block(data)
    ensures forall i | 0 <= i < SECTOR_BYTES + gap && InSync(i) :: Both(header, data, gap)[i] == FF
    ensures forall i | 15 <= i < 24 || SECTOR_BYTES <= i < SECTOR_BYTES + gap :: Both(header, data, gap)[i] == GAP
  {
    hide Block;
  }

  lemma SectorParts(t: Source, s: nat)
    requires Good(t) && s < Sectors(Region(t.track))
    ensures SectorImage(t, s)[5..15] == Block(Header(t, s))
    ensures SectorImage(t, s)[29..SECTOR_BYTES] == Block(DataBlock(t, s))
    ensures forall i | 0 <= i < |SectorImage(t, s)| && InSync(i) :: SectorImage(t, s)[i] == FF
    ensures forall i | 15 <= i < 24 || SECTOR_BYTES <= i < |SectorImage(t, s)| :: SectorImage(t, s)[i] == GAP
  {
    hide Block, Header, DataBlock, GapLength, Region, Both;
    BothParts(Header(t, s), DataBlock(t, s), GapLength(Region(t.track)));
  }

  lemma SectorFF(t: Source, s: nat, i: nat)
    requires Good(t) && s < Sectors(Region(t.track)) && i < |SectorImage(t, s)|
    ensures SectorImage(t, s)[i] == FF <==> InSync(i) || (Alone(i) && SectorImage(t, s)[i] == FF)
  {
    hide Block, Header, DataBlock, GapLength, Region, SectorImage;
    SectorParts(t, s);
    var g := SectorImage(t, s);
    if 5 <= i < 15 {
      assert g[i] == g[5..15][i - 5];
      if g[i] == FF {
        FFInBlock(Header(t, s), i - 5);
      }
    } else if 29 <= i < SECTOR_BYTES {
      assert g[i] == g[29..SECTOR_BYTES][i - 29];
      if g[i] == FF {
        FFInBlock(DataBlock(t, s), i - 29);
      }
    }
  }

  // ---- The circle ----

  // Sectors counted over two turns: their numbers and where they start.
  function Number(t: Source, n: nat): nat {
    if n < Sectors(Region(t.track)) then n else n - Sectors(Region(t.track))
  }

  function Start(t: Source, n: nat): nat {
    var r := Region(t.track);
    if n < Sectors(r) then Offset(r, n) else Length(r) + Offset(r, n - Sectors(r))
  }

  function Turned(y: nat, len: nat): (z: nat)
    requires len > 0
    ensures z < len
  {
    if y < len then y else Turned(y - len, len)
  }

  // The byte of the turning track at position y.
  ghost function Around(t: Source, y: nat): Byte
    requires Good(t)
  {
    RegionSizes(Region(t.track), 0);
    Track(t)[Turned(y, Length(Region(t.track)))]
  }

  lemma {:induction false} SectorInTrack(t: Source, n: nat, s: nat)
    requires Good(t) && s < n <= Sectors(Region(t.track))
    ensures Offset(Region(t.track), s) + |SectorImage(t, s)| <= |SectorsUpTo(t, n)|
    ensures var o := Offset(Region(t.track), s);
            SectorsUpTo(t, n)[o..o + |SectorImage(t, s)|] == SectorImage(t, s)
    decreases n
  {
    hide SectorImage, Offset, GapLength;
    RegionSizes(Region(t.track), n - 1);
    if s < n - 1 {
      SectorInTrack(t, n - 1, s);
    }
  }

  lemma AroundSector(t: Source, n: nat, i: nat)
    requires Good(t) && n < 2 * Sectors(Region(t.track)) && i < SECTOR_BYTES + GapLength(Region(t.track))
    ensures Number(t, n) < Sectors(Region(t.track))
    ensures Around(t, Start(t, n) + i) == SectorImage(t, Number(t, n))[i]
  {
    hide SectorImage, Offset, GapLength, Region;
    var r, s := Region(t.track), Number(t, n);
    RegionSizes(r, Sectors(r));
    SectorInTrack(t, Sectors(r), s);
    var o := Offset(r, s);
    assert Turned(o + i + Length(r), Length(r)) == o + i;
    assert Track(t)[o + i] == SectorsUpTo(t, Sectors(r))[o..o + |SectorImage(t, s)|][i];
  }

  lemma AroundTail(t: Source, y: nat)
    requires Good(t) && Offset(Region(t.track), Sectors(Region(t.track))) <= y < Length(Region(t.track))
    ensures Around(t, y) == GAP
  {
    hide Offset, GapLength, Region, SectorsUpTo;
    RegionSizes(Region(t.track), 0);
  }

  // Behind a header and behind the mark of a data block no two bytes of all ones are adjacent.
  lemma QuietInSector(t: Source, n: nat, i: nat)
    requires Good(t) && n < 2 * Sectors(Region(t.track)) && i + 1 < SECTOR_BYTES + GapLength(Region(t.track))
    requires 5 <= i < 24 || 29 <= i
    ensures Around(t, Start(t, n) + i) == FF ==> Around(t, Start(t, n) + i + 1) != FF
  {
    hide SectorImage, GapLength, Region, Around, Start, Number;
    AroundSector(t, n, i);
    AroundSector(t, n, i + 1);
    SectorFF(t, Number(t, n), i);
    SectorFF(t, Number(t, n), i + 1);
  }

  lemma QuietBehindData(t: Source, n: nat, y: nat)
    requires Good(t) && n + 1 < 2 * Sectors(Region(t.track)) && Start(t, n) + 29 <= y < Start(t, n + 1)
    ensures Around(t, y) == FF ==> Around(t, y + 1) != FF
  {
    hide SectorImage, GapLength, Region, Around, Offset;
    var r := Region(t.track);
    RegionSizes(r, Sectors(r) - 1);
    if n < Sectors(r) { RegionSizes(r, n); } else { RegionSizes(r, n - Sectors(r)); }
    var i := y - Start(t, n);
    if i + 1 < SECTOR_BYTES + GapLength(r) {
      QuietInSector(t, n, i);
    } else if i < SECTOR_BYTES + GapLength(r) {
      AroundSector(t, n, i);
      SectorParts(t, Number(t, n));
    } else {
      AroundTail(t, y);
    }
  }
}
