// The packed 12/16/28-bit allocation table over the sectors of a volume.
module FatTable {
  import opened Bytes

  datatype FatType = Fat12 | Fat16 | Fat32

  // The part of FATFS that mounting computes and nothing changes afterwards.
  datatype Geometry = Geometry(
    fatType: FatType,
    csize: nat,      // sectors per cluster
    nFats: nat,      // number of FAT copies
    nFatent: nat,    // number of FAT entries, clusters + 2
    fsize: nat,      // sectors per FAT
    volbase: nat,    // first sector of the volume
    fatbase: nat,    // first sector of the FAT
    dirbase: nat,    // first sector (FAT32: cluster) of the root directory
    database: nat,   // first data sector
    nRootdir: nat)   // number of root directory entries (FAT12/16)

  function EntryLimit(t: FatType): nat {
    match t
    case Fat12 => 0x1000
    case Fat16 => 0x1_0000
    case Fat32 => 0x1000_0000
  }

  // A value as an entry of the type stores it.
  function Trunc(t: FatType, v: nat): nat {
    v % EntryLimit(t)
  }

  const END_MARK: int := 0x0FFF_FFFF

  lemma TruncSmall(t: FatType, v: nat)
    requires v < EntryLimit(t)
    ensures Trunc(t, v) == v
  {
  }

  // Bytes that n entries take.
  function TableBytes(t: FatType, n: nat): nat {
    match t
    case Fat12 => n + n / 2 + n % 2
    case Fat16 => 2 * n
    case Fat32 => 4 * n
  }

  // Offset of the first byte of entry c in the table.
  function EntryOffset(t: FatType, c: nat): nat {
    match t
    case Fat12 => c + c / 2
    case Fat16 => 2 * c
    case Fat32 => 4 * c
  }

  lemma FirstOffset(t: FatType)
    ensures EntryOffset(t, 0) == 0
  {
  }

  predicate ClusterSize(n: nat) {
    n in {1, 2, 4, 8, 16, 32, 64, 128}
  }

  // First sector behind the table and its copy.
  function TablesEnd(g: Geometry): nat {
    g.fatbase + g.fsize + (if g.nFats == 2 then g.fsize else 0)
  }

  // The medium holds all clusters.
  predicate DataInside(g: Geometry, size: nat) {
    g.nFatent >= 2 && g.database + (g.nFatent - 2) * g.csize <= size
  }

  // What a mount has to establish: tables, root directory and clusters lie one after the
  // other inside a medium of the given size, and every entry lies inside the first table.
  predicate Sound(g: Geometry, size: nat) {
    && ClusterSize(g.csize)
    && 1 <= g.nFats <= 2
    && 3 <= g.nFatent <= EntryLimit(g.fatType) - 9
    && TableBytes(g.fatType, g.nFatent) <= g.fsize * SS
    && g.volbase < g.fatbase
    && TablesEnd(g) + g.nRootdir / 16 <= g.database <= size <= DWORD_MAX
    && DataInside(g, size)
    && (if g.fatType == Fat32 then g.nRootdir == 0
        else g.nRootdir > 0 && g.nRootdir % 16 == 0 && g.dirbase == TablesEnd(g))
  }

  // The plain bounds that the window and the table code rely on.
  lemma SoundBounds(g: Geometry, size: nat)
    requires Sound(g, size)
    ensures TableBytes(g.fatType, g.nFatent) <= g.fsize * SS
    ensures 1 <= g.nFats <= 2 && 3 <= g.nFatent <= 0xFFF_FFF7 && g.nFatent < EntryLimit(g.fatType)
    ensures g.fatbase + g.fsize <= TablesEnd(g) <= g.database <= size <= DWORD_MAX
    ensures g.nFats == 2 ==> g.fatbase + 2 * g.fsize <= size
  {
  }

  predicate InFat(g: Geometry, s: int) {
    g.fatbase <= s < g.fatbase + g.fsize
  }

  predicate InMirror(g: Geometry, s: int) {
    g.nFats == 2 && g.fatbase + g.fsize <= s < g.fatbase + 2 * g.fsize
  }

  // The medium after a sector went out, into both tables if it is a table sector.
  function Flushed(d: seq<Sector>, g: Geometry, s: nat, data: Sector): (r: seq<Sector>)
    requires s < |d| && TablesEnd(g) <= |d|
    ensures |r| == |d| && r[s] == data
    ensures forall t | 0 <= t < |d| && t != s && !InMirror(g, t) :: r[t] == d[t]
  {
    var d1 := d[s := data];
    if InFat(g, s) && g.nFats == 2 then d1[s + g.fsize := data] else d1
  }

  // What others see of the volume: its sectors, the place of the window, whether the tables agree.
  datatype Glance = Glance(view: seq<Sector>, winsect: int, mirrored: bool)

  // All table sectors but one (except: none) have their copy on the medium d.
  ghost predicate MirroredBut(d: seq<Sector>, g: Geometry, except: int)
    requires TablesEnd(g) <= |d|
  {
    g.nFats == 2 ==> forall s | InFat(g, s) && s != except :: d[s + g.fsize] == d[s]
  }

  lemma FlushedMirrored(d: seq<Sector>, g: Geometry, s: nat, data: Sector)
    requires s < |d| && TablesEnd(g) <= |d| && !InMirror(g, s) && MirroredBut(d, g, s)
    ensures MirroredBut(Flushed(d, g, s, data), g, -1)
  {
  }

  // The first table lies inside the sectors v.
  predicate Covers(v: seq<Sector>, g: Geometry) {
    && TableBytes(g.fatType, g.nFatent) <= g.fsize * SS
    && g.fatbase + g.fsize <= |v|
  }

  function TableByte(v: seq<Sector>, g: Geometry, o: nat): (r: int)
    requires g.fatbase + o / SS < |v|
    ensures 0 <= r < 0x100
  {
    v[g.fatbase + o / SS][o % SS]
  }

  lemma EntryInside(g: Geometry, c: nat)
    requires c < g.nFatent && TableBytes(g.fatType, g.nFatent) <= g.fsize * SS
    ensures g.fatType != Fat32 ==> (EntryOffset(g.fatType, c) + 1) / SS < g.fsize
    ensures g.fatType == Fat32 ==> (EntryOffset(g.fatType, c) + 3) / SS < g.fsize
  {
  }

  // The unmasked number stored at entry c.
  function RawEntry(v: seq<Sector>, g: Geometry, c: nat): nat
    requires Covers(v, g) && c < g.nFatent
  {
    EntryInside(g, c);
    var o := EntryOffset(g.fatType, c);
    match g.fatType
    case Fat12 => TableByte(v, g, o) + 0x100 * TableByte(v, g, o + 1)
    case Fat16 => TableByte(v, g, o) + 0x100 * TableByte(v, g, o + 1)
    case Fat32 =>
      TableByte(v, g, o) + 0x100 * TableByte(v, g, o + 1)
      + 0x1_0000 * TableByte(v, g, o + 2) + 0x100_0000 * TableByte(v, g, o + 3)
  }

  // The value of entry c.
  function Entry(v: seq<Sector>, g: Geometry, c: nat): nat
    requires Covers(v, g) && c < g.nFatent
  {
    match g.fatType
    case Fat12 => if c % 2 == 1 then RawEntry(v, g, c) / 16 else RawEntry(v, g, c) % 0x1000
    case Fat16 => RawEntry(v, g, c)
    case Fat32 => RawEntry(v, g, c) % 0x1000_0000
  }

  // Entries depend on the sectors of the first table only.
  lemma EntryFrame(v: seq<Sector>, w: seq<Sector>, g: Geometry, c: nat)
    requires Covers(v, g) && |w| == |v| && c < g.nFatent
    requires forall s | InFat(g, s) :: w[s] == v[s]
    ensures Entry(w, g, c) == Entry(v, g, c)
  {
    EntryInside(g, c);
    var o := EntryOffset(g.fatType, c);
    assert w[g.fatbase + o / SS] == v[g.fatbase + o / SS];
    assert w[g.fatbase + (o + 1) / SS] == v[g.fatbase + (o + 1) / SS];
    if g.fatType == Fat32 {
      assert w[g.fatbase + (o + 2) / SS] == v[g.fatbase + (o + 2) / SS];
      assert w[g.fatbase + (o + 3) / SS] == v[g.fatbase + (o + 3) / SS];
    }
  }

  lemma EntryBound(v: seq<Sector>, g: Geometry, c: nat)
    requires Covers(v, g) && c < g.nFatent
    ensures Entry(v, g, c) < EntryLimit(g.fatType) <= 0x1000_0000
  {
  }

  // A 16-bit or 32-bit entry lies in one sector.
  // Byte r of sector q.
  lemma PlaceOf(q: nat, r: nat)
    requires r < SS
    ensures (SS * q + r) / SS == q && (SS * q + r) % SS == r
  {
  }

  lemma PairPlace(c: nat)
    ensures 2 * c / SS == (2 * c + 1) / SS == c / 256
    ensures (2 * c + 1) % SS == 2 * c % SS + 1 && 2 * c % SS + 2 <= SS
  {
    var q, r := c / 256, 2 * (c % 256);
    assert 2 * c == SS * q + r;
    PlaceOf(q, r);
    PlaceOf(q, r + 1);
  }

  lemma QuadPlace(c: nat)
    ensures 4 * c / SS == (4 * c + 1) / SS == (4 * c + 2) / SS == (4 * c + 3) / SS == c / 128
    ensures (4 * c + 1) % SS == 4 * c % SS + 1 && (4 * c + 2) % SS == 4 * c % SS + 2
    ensures (4 * c + 3) % SS == 4 * c % SS + 3 && 4 * c % SS + 4 <= SS
  {
    var q, r := c / 128, 4 * (c % 128);
    assert 4 * c == SS * q + r;
    PlaceOf(q, r);
    PlaceOf(q, r + 1);
    PlaceOf(q, r + 2);
    PlaceOf(q, r + 3);
  }

  lemma EntryInSector(v: seq<Sector>, g: Geometry, c: nat)
    requires Covers(v, g) && c < g.nFatent
    ensures g.fatType == Fat16 ==> (
      c / 256 < g.fsize && 2 * c % SS + 2 <= SS && Entry(v, g, c) == LdWord(v[g.fatbase + c / 256], 2 * c % SS))
    ensures g.fatType == Fat32 ==> (
      c / 128 < g.fsize && 4 * c % SS + 4 <= SS
      && Entry(v, g, c) == LdDword(v[g.fatbase + c / 128], 4 * c % SS) % 0x1000_0000)
  {
    EntryInside(g, c);
    if g.fatType == Fat16 {
      PairPlace(c);
    } else if g.fatType == Fat32 {
      QuadPlace(c);
    }
  }

  // Reading the table as a stream: entry c lies at position p of sector sect, both counted from
  // the offset, and the next entry follows it.
  lemma EntryInStream(v: seq<Sector>, g: Geometry, c: nat, sect: int, p: int)
    requires Covers(v, g) && c < g.nFatent && g.fatType != Fat12
    requires 0 <= p < SS && EntryOffset(g.fatType, c) == sect * SS + p
    ensures 0 <= sect < g.fsize &&
            EntryOffset(g.fatType, c + 1) == EntryOffset(g.fatType, c) + (if g.fatType == Fat16 then 2 else 4)
    ensures g.fatType == Fat16 ==> p % 2 == 0 && p + 2 <= SS && Entry(v, g, c) == LdWord(v[g.fatbase + sect], p)
    ensures g.fatType == Fat32 ==>
              p % 4 == 0 && p + 4 <= SS && Entry(v, g, c) == LdDword(v[g.fatbase + sect], p) % 0x1000_0000
  {
    hide Entry, LdWord, LdDword, TableBytes;
    EntryInSector(v, g, c);
    if g.fatType == Fat16 {
      StreamPosition(c, 2, 256, sect, p);
    } else {
      StreamPosition(c, 4, 128, sect, p);
    }
  }

  lemma StreamPosition(c: nat, width: nat, perSector: nat, sect: int, p: int)
    requires (width == 2 && perSector == 256) || (width == 4 && perSector == 128)
    requires 0 <= p < SS && width * c == sect * SS + p
    ensures 0 <= sect == c / perSector && p == width * c % SS && p % width == 0 && p + width <= SS
  {
    var q := c - perSector * sect;
    if width == 2 {
      assert p == 2 * q && 0 <= q < 256;
    } else {
      assert p == 4 * q && 0 <= q < 128;
    }
  }

  // Nothing but sectors of the first table differs.
  ghost predicate SameOutside(v: seq<Sector>, w: seq<Sector>, g: Geometry) {
    |w| == |v| && forall s | 0 <= s < |v| && !InFat(g, s) :: w[s] == v[s]
  }

  function SetByte(v: seq<Sector>, s: nat, o: nat, b: Byte): (r: seq<Sector>)
    requires s < |v| && o < SS
    ensures |r| == |v|
    ensures forall t | 0 <= t < |v| && t != s :: r[t] == v[t]
  {
    v[s := v[s][o := b]]
  }

  function SetTableByte(v: seq<Sector>, g: Geometry, o: nat, b: Byte): (r: seq<Sector>)
    requires g.fatbase + o / SS < |v|
    ensures |r| == |v|
    ensures forall t | 0 <= t < |v| && t != g.fatbase + o / SS :: r[t] == v[t]
  {
    SetByte(v, g.fatbase + o / SS, o % SS, b)
  }

  // The two bytes of a FAT12 entry, of which p and q hold the old ones.
  function First12(c: nat, x: nat, p: Byte): Byte {
    if c % 2 == 1 then p % 16 + x % 16 * 16 else x % 0x100
  }

  function Second12(c: nat, x: nat, q: Byte): Byte {
    if c % 2 == 1 then x / 16 % 0x100 else q / 16 * 16 + x / 0x100 % 16
  }

  // The bytes that storing value x at entry c writes, lowest offset first.
  function Stored(v: seq<Sector>, g: Geometry, c: nat, x: nat): (r: seq<Byte>)
    requires Covers(v, g) && c < g.nFatent
    ensures |r| == if g.fatType == Fat32 then 4 else 2
  {
    EntryInside(g, c);
    var o := EntryOffset(g.fatType, c);
    match g.fatType
    case Fat12 => [First12(c, x, TableByte(v, g, o)), Second12(c, x, TableByte(v, g, o + 1))]
    case Fat16 => [x % 0x100, x / 0x100 % 0x100]
    case Fat32 =>
      [x % 0x100, x / 0x100 % 0x100, x / 0x1_0000 % 0x100,
       x / 0x100_0000 % 16 + 16 * (Or(x / 0x1000_0000 % 16, TableByte(v, g, o + 3) / 16, 4) % 16)]
  }

  lemma Stored12(v: seq<Sector>, g: Geometry, c: nat, x: nat)
    requires Covers(v, g) && c < g.nFatent && g.fatType == Fat12
    ensures var o := EntryOffset(Fat12, c);
            && (o + 1) / SS < g.fsize
            && Stored(v, g, c, x) == [First12(c, x, TableByte(v, g, o)), Second12(c, x, TableByte(v, g, o + 1))]
  {
    hide TableByte;
    EntryInside(g, c);
  }

  // The sectors after storing value x at entry c.
  function PutEntry(v: seq<Sector>, g: Geometry, c: nat, x: nat): (r: seq<Sector>)
    requires Covers(v, g) && c < g.nFatent
    ensures |r| == |v|
    ensures forall s | 0 <= s < |v| && !InFat(g, s) :: r[s] == v[s]
  {
    EntryInside(g, c);
    var o := EntryOffset(g.fatType, c);
    var b := Stored(v, g, c, x);
    var w := SetTableByte(SetTableByte(v, g, o, b[0]), g, o + 1, b[1]);
    if g.fatType == Fat32 then SetTableByte(SetTableByte(w, g, o + 2, b[2]), g, o + 3, b[3]) else w
  }

  lemma SetTableByteGet(v: seq<Sector>, g: Geometry, o: nat, b: Byte, p: nat)
    requires g.fatbase + o / SS < |v| && g.fatbase + p / SS < |v|
    ensures TableByte(SetTableByte(v, g, o, b), g, p) == if o == p then b else TableByte(v, g, p)
  {
    if o / SS == p / SS {
      assert o % SS == p % SS ==> o == p;
    }
  }

  // Reading byte p after an entry was stored.
  lemma PutEntryByte(v: seq<Sector>, g: Geometry, c: nat, x: nat, p: nat)
    requires Covers(v, g) && c < g.nFatent && p < g.fsize * SS
    ensures var o := EntryOffset(g.fatType, c);
            var b := Stored(v, g, c, x);
            TableByte(PutEntry(v, g, c, x), g, p) == if o <= p < o + |b| then b[p - o] else TableByte(v, g, p)
  {
    hide Stored, TableByte, SetTableByte, EntryOffset;
    EntryInside(g, c);
    var o := EntryOffset(g.fatType, c);
    var b := Stored(v, g, c, x);
    var v1 := SetTableByte(v, g, o, b[0]);
    SetTableByteGet(v, g, o, b[0], p);
    SetTableByteGet(v1, g, o + 1, b[1], p);
    if g.fatType == Fat32 {
      var v2 := SetTableByte(v1, g, o + 1, b[1]);
      SetTableByteGet(v2, g, o + 2, b[2], p);
      SetTableByteGet(SetTableByte(v2, g, o + 2, b[2]), g, o + 3, b[3], p);
    }
  }

  // Storing an entry is a map update: the entry becomes the truncated value and every other
  // entry, also a FAT12 neighbour sharing a byte, keeps its value.
  lemma PutEntryIsUpdate(v: seq<Sector>, g: Geometry, c: nat, x: nat, d: nat)
    requires Covers(v, g) && c < g.nFatent && d < g.nFatent
    ensures Entry(PutEntry(v, g, c, x), g, d) == if c == d then Trunc(g.fatType, x) else Entry(v, g, d)
  {
    match g.fatType {
      case Fat12 => PutEntryIsUpdate12(v, g, c, x, d);
      case Fat16 => PutEntryIsUpdate16(v, g, c, x, d);
      case Fat32 => PutEntryIsUpdate32(v, g, c, x, d);
    }
  }

  // A byte outside the stored entry is unchanged.
  lemma PutEntryOtherByte(v: seq<Sector>, g: Geometry, c: nat, x: nat, p: nat)
    requires Covers(v, g) && c < g.nFatent && p < g.fsize * SS
    requires var o := EntryOffset(g.fatType, c);
             p < o || o + (if g.fatType == Fat32 then 4 else 2) <= p
    ensures TableByte(PutEntry(v, g, c, x), g, p) == TableByte(v, g, p)
  {
    hide TableByte, PutEntry, Stored, EntryOffset;
    PutEntryByte(v, g, c, x, p);
  }

  lemma EntriesApart(t: FatType, c: nat, d: nat)
    requires c != d && (t == Fat12 ==> c / 2 != d / 2)
    ensures var n := if t == Fat32 then 4 else 2;
            EntryOffset(t, c) + n <= EntryOffset(t, d) || EntryOffset(t, d) + n <= EntryOffset(t, c)
  {
    if t == Fat12 {
      assert c / 2 < d / 2 || d / 2 < c / 2;
    }
  }

  // An entry that shares no byte with the stored one keeps its bytes.
  lemma PutEntryElsewhere(v: seq<Sector>, g: Geometry, c: nat, x: nat, d: nat)
    requires Covers(v, g) && c < g.nFatent && d < g.nFatent
    requires c != d && (g.fatType == Fat12 ==> c / 2 != d / 2)
    ensures RawEntry(PutEntry(v, g, c, x), g, d) == RawEntry(v, g, d)
  {
    hide TableByte, PutEntry, Stored, EntryOffset;
    EntryInside(g, c);
    EntryInside(g, d);
    EntriesApart(g.fatType, c, d);
    var o := EntryOffset(g.fatType, d);
    PutEntryOtherByte(v, g, c, x, o);
    PutEntryOtherByte(v, g, c, x, o + 1);
    if g.fatType == Fat32 {
      PutEntryOtherByte(v, g, c, x, o + 2);
      PutEntryOtherByte(v, g, c, x, o + 3);
    }
  }

  // Packing arithmetic of a FAT12 pair: storing x into the odd or the even entry.
  lemma Remainder4096(q: nat, m: nat)
    requires m < 0x1000
    ensures (0x1000 * q + m) % 0x1000 == m
  {
  }

  lemma PackOdd(b: nat, x: nat)
    requires b < 0x100
    ensures (b % 16 + 16 * (x % 16) + 0x100 * (x / 16 % 0x100)) / 16 == x % 0x1000
  {
    var k := x / 16 % 0x100;
    assert (b % 16 + 16 * (x % 16) + 0x100 * k) / 16 == x % 16 + 16 * k;
    assert x == 0x1000 * (x / 16 / 0x100) + (16 * k + x % 16);
    Remainder4096(x / 16 / 0x100, 16 * k + x % 16);
  }

  lemma PackEven(b': nat, x: nat)
    requires b' < 0x100
    ensures (x % 0x100 + 0x100 * (b' / 16 * 16 + x / 0x100 % 16)) % 0x1000 == x % 0x1000
  {
    var k := x / 0x100 % 16;
    var m := x % 0x100 + 0x100 * k;
    assert x % 0x100 + 0x100 * (b' / 16 * 16 + k) == 0x1000 * (b' / 16) + m;
    assert x == 0x1000 * (x / 0x100 / 16) + m;
    Remainder4096(b' / 16, m);
    Remainder4096(x / 0x100 / 16, m);
  }

  lemma PackBeforeOdd(b: nat, b': nat, x: nat)
    requires b < 0x100 && b' < 0x100
    ensures (b + 0x100 * (b' % 16 + 16 * (x % 16))) % 0x1000 == (b + 0x100 * b') % 0x1000
  {
    var m := b + 0x100 * (b' % 16);
    assert b + 0x100 * (b' % 16 + 16 * (x % 16)) == 0x1000 * (x % 16) + m;
    assert b + 0x100 * b' == 0x1000 * (b' / 16) + m;
    Remainder4096(x % 16, m);
    Remainder4096(b' / 16, m);
  }

  lemma PackAfterEven(b: nat, b': nat, x: nat)
    requires b < 0x100 && b' < 0x100
    ensures (b / 16 * 16 + x / 0x100 % 16 + 0x100 * b') / 16 == (b + 0x100 * b') / 16
  {
  }

  // Entry d of a FAT12 byte pair (b, b').
  function Unpack12(d: nat, raw: nat): nat {
    if d % 2 == 1 then raw / 16 else raw % 0x1000
  }

  // The byte pair of entry d after x was stored at c, where c is d or shares a byte with it.
  function Packed12(c: nat, d: nat, b: nat, b': nat, x: nat): nat {
    if c == d then
      if c % 2 == 1 then b % 16 + 16 * (x % 16) + 0x100 * (x / 16 % 0x100)
      else x % 0x100 + 0x100 * (b' / 16 * 16 + x / 0x100 % 16)
    else if c % 2 == 1 then b + 0x100 * (b' % 16 + 16 * (x % 16))
    else b / 16 * 16 + x / 0x100 % 16 + 0x100 * b'
  }

  lemma Pack12(c: nat, d: nat, b: nat, b': nat, x: nat)
    requires b < 0x100 && b' < 0x100 && c / 2 == d / 2
    ensures Unpack12(d, Packed12(c, d, b, b', x)) == if c == d then x % 0x1000 else Unpack12(d, b + 0x100 * b')
  {
    PackOdd(b, x);
    PackEven(b', x);
    PackBeforeOdd(b, b', x);
    PackAfterEven(b, b', x);
  }

  lemma PutEntryPair12(v: seq<Sector>, g: Geometry, c: nat, x: nat, d: nat)
    requires Covers(v, g) && c < g.nFatent && d < g.nFatent && g.fatType == Fat12 && c / 2 == d / 2
    ensures var o := EntryOffset(Fat12, d);
            var b, b' := TableByte(v, g, o), TableByte(v, g, o + 1);
            RawEntry(v, g, d) == b + 0x100 * b' && RawEntry(PutEntry(v, g, c, x), g, d) == Packed12(c, d, b, b', x)
  {
    hide TableByte, PutEntry;
    EntryInside(g, c);
    EntryInside(g, d);
    var o := EntryOffset(Fat12, d);
    PutEntryByte(v, g, c, x, o);
    PutEntryByte(v, g, c, x, o + 1);
  }

  lemma PutEntryIsUpdate12(v: seq<Sector>, g: Geometry, c: nat, x: nat, d: nat)
    requires Covers(v, g) && c < g.nFatent && d < g.nFatent && g.fatType == Fat12
    ensures Entry(PutEntry(v, g, c, x), g, d) == if c == d then x % 0x1000 else Entry(v, g, d)
  {
    hide RawEntry, PutEntry, TableByte, Packed12;
    if c / 2 == d / 2 {
      EntryInside(g, d);
      var o := EntryOffset(Fat12, d);
      PutEntryPair12(v, g, c, x, d);
      Pack12(c, d, TableByte(v, g, o), TableByte(v, g, o + 1), x);
    } else {
      PutEntryElsewhere(v, g, c, x, d);
    }
  }

  lemma PutEntryIsUpdate16(v: seq<Sector>, g: Geometry, c: nat, x: nat, d: nat)
    requires Covers(v, g) && c < g.nFatent && d < g.nFatent && g.fatType == Fat16
    ensures Entry(PutEntry(v, g, c, x), g, d) == if c == d then x % 0x1_0000 else Entry(v, g, d)
  {
    hide TableByte, PutEntry;
    EntryInside(g, c);
    EntryInside(g, d);
    var o := EntryOffset(g.fatType, d);
    PutEntryByte(v, g, c, x, o);
    PutEntryByte(v, g, c, x, o + 1);
    LowWord(x);
  }

  // The four bytes of x with the reserved bits t make an entry of value x with those bits.
  lemma FourBytes(x: nat, t: nat)
    requires t < 16
    ensures var raw := x % 0x100 + 0x100 * (x / 0x100 % 0x100) + 0x1_0000 * (x / 0x1_0000 % 0x100)
              + 0x100_0000 * (x / 0x100_0000 % 16 + 16 * t);
            raw % 0x1000_0000 == x % 0x1000_0000 && raw / 0x1000_0000 == t
  {
    LowWord(x);
    LowTwelve(x / 0x1_0000);
    assert x / 0x100_0000 == x / 0x1_0000 / 0x100;
    LowBits(x);
    TopBits(x % 0x1000_0000, t);
  }

  lemma LowWord(x: nat)
    ensures x % 0x100 + 0x100 * (x / 0x100 % 0x100) == x % 0x1_0000
  {
    Mod16(x, x / 0x100 / 0x100, x % 0x100 + 0x100 * (x / 0x100 % 0x100));
  }

  lemma Mod16(x: nat, q: nat, r: nat)
    requires x == 0x1_0000 * q + r && r < 0x1_0000
    ensures x % 0x1_0000 == r
  {
  }

  lemma LowTwelve(z: nat)
    ensures z % 0x100 + 0x100 * (z / 0x100 % 16) == z % 0x1000
  {
    Mod12(z, z / 0x100 / 16, z % 0x100 + 0x100 * (z / 0x100 % 16));
  }

  lemma Mod12(x: nat, q: nat, r: nat)
    requires x == 0x1000 * q + r && r < 0x1000
    ensures x % 0x1000 == r
  {
  }

  lemma LowBits(x: nat)
    ensures x % 0x1_0000 + 0x1_0000 * (x / 0x1_0000 % 0x1000) == x % 0x1000_0000
  {
    Mod28(x, x / 0x1_0000 / 0x1000, x % 0x1_0000 + 0x1_0000 * (x / 0x1_0000 % 0x1000));
  }

  lemma Mod28(x: nat, q: nat, r: nat)
    requires x == 0x1000_0000 * q + r && r < 0x1000_0000
    ensures x % 0x1000_0000 == r
  {
  }

  lemma TopBits(y: nat, t: nat)
    requires y < 0x1000_0000
    ensures (y + 0x1000_0000 * t) % 0x1000_0000 == y && (y + 0x1000_0000 * t) / 0x1000_0000 == t
  {
  }

  lemma PutEntryRaw32(v: seq<Sector>, g: Geometry, c: nat, x: nat)
    requires Covers(v, g) && c < g.nFatent && g.fatType == Fat32
    ensures var raw := RawEntry(PutEntry(v, g, c, x), g, c);
            raw % 0x1000_0000 == x % 0x1000_0000
            && raw / 0x1000_0000 == Or(x / 0x1000_0000 % 16, RawEntry(v, g, c) / 0x1000_0000, 4) % 16
  {
    hide TableByte, PutEntry, Or;
    EntryInside(g, c);
    var o := EntryOffset(g.fatType, c);
    var top := TableByte(v, g, o + 3) / 16;
    var t := Or(x / 0x1000_0000 % 16, top, 4) % 16;
    PutEntryByte(v, g, c, x, o);
    PutEntryByte(v, g, c, x, o + 1);
    PutEntryByte(v, g, c, x, o + 2);
    PutEntryByte(v, g, c, x, o + 3);
    FourBytes(x, t);
    assert RawEntry(v, g, c) / 0x1000_0000 == top;
  }

  lemma PutEntryIsUpdate32(v: seq<Sector>, g: Geometry, c: nat, x: nat, d: nat)
    requires Covers(v, g) && c < g.nFatent && d < g.nFatent && g.fatType == Fat32
    ensures Entry(PutEntry(v, g, c, x), g, d) == if c == d then x % 0x1000_0000 else Entry(v, g, d)
  {
    hide RawEntry, PutEntry, Or;
    if c == d {
      PutEntryRaw32(v, g, c, x);
    } else {
      PutEntryElsewhere(v, g, c, x, d);
    }
  }

  // FAT32 keeps the four reserved bits of the entry exactly if those of the value are among them, as
  // they are when it has none.
  lemma PutEntryKeepsReserved(v: seq<Sector>, g: Geometry, c: nat, x: nat)
    requires Covers(v, g) && c < g.nFatent && g.fatType == Fat32
    ensures var was := RawEntry(v, g, c) / 0x1000_0000;
            RawEntry(PutEntry(v, g, c, x), g, c) / 0x1000_0000 == was <==> Within(x / 0x1000_0000 % 16, was, 4)
    ensures x < 0x1000_0000 ==> Within(x / 0x1000_0000 % 16, RawEntry(v, g, c) / 0x1000_0000, 4)
  {
    hide PutEntry, Or, RawEntry, Within;
    PutEntryRaw32(v, g, c, x);
    RawBound(v, g, c);
    OrNibble(x / 0x1000_0000 % 16, RawEntry(v, g, c) / 0x1000_0000);
  }

  lemma RawBound(v: seq<Sector>, g: Geometry, c: nat)
    requires Covers(v, g) && c < g.nFatent && g.fatType == Fat32
    ensures RawEntry(v, g, c) / 0x1000_0000 < 16
  {
    hide TableByte;
  }

  // ---- The packing of entries, byte by byte ----

  // Two 12-bit entries share three bytes, the lower one first.
  lemma PackedEntries12(v: seq<Sector>, g: Geometry)
    requires Covers(v, g) && g.nFatent >= 4 && g.fatType == Fat12
    requires v[g.fatbase][..6] == [0x12, 0x34, 0x56, 0x78, 0x9A, 0xBC]
    ensures Entry(v, g, 0) == 0x412 && Entry(v, g, 1) == 0x563 && Entry(v, g, 2) == 0xA78 && Entry(v, g, 3) == 0xBC9
  {
    FirstBytes(v, g, [0x12, 0x34, 0x56, 0x78, 0x9A, 0xBC]);
  }

  lemma PackedEntries16(v: seq<Sector>, g: Geometry)
    requires Covers(v, g) && g.nFatent >= 2 && g.fatType == Fat16
    requires v[g.fatbase][..4] == [0x12, 0x34, 0x56, 0x78]
    ensures Entry(v, g, 0) == 0x3412 && Entry(v, g, 1) == 0x7856
  {
    FirstBytes(v, g, [0x12, 0x34, 0x56, 0x78]);
  }

  // Of a 32-bit entry the highest four bits do not count.
  lemma PackedEntries32(v: seq<Sector>, g: Geometry)
    requires Covers(v, g) && g.nFatent >= 2 && g.fatType == Fat32
    requires v[g.fatbase][..8] == [0x12, 0x34, 0x56, 0x78, 0x9A, 0xBC, 0xDE, 0xF0]
    ensures Entry(v, g, 0) == 0x0856_3412 && Entry(v, g, 1) == 0x00DE_BC9A
  {
    FirstBytes(v, g, [0x12, 0x34, 0x56, 0x78, 0x9A, 0xBC, 0xDE, 0xF0]);
  }

  lemma FirstBytes(v: seq<Sector>, g: Geometry, b: seq<Byte>)
    requires Covers(v, g) && g.fsize > 0 && |b| <= SS && v[g.fatbase][..|b|] == b
    ensures forall i | 0 <= i < |b| :: TableByte(v, g, i) == b[i]
  {
    forall i | 0 <= i < |b| ensures TableByte(v, g, i) == b[i] {
      assert v[g.fatbase][..|b|][i] == b[i];
    }
  }

  // The end mark as each type stores it.
  lemma EndMarks()
    ensures Trunc(Fat12, END_MARK) == 0xFFF && Trunc(Fat16, END_MARK) == 0xFFFF && Trunc(Fat32, END_MARK) == 0x0FFF_FFFF
  {
  }
}
