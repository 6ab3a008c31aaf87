// Mounting: from the BIOS parameter block of a boot sector to the geometry of the volume, in
// 32-bit arithmetic.
module Mount {
  import opened Bytes
  import opened FatTable
  import FileView

  const BYTS_PER_SEC := 11
  const SEC_PER_CLUS := 13
  const RSVD_SEC_CNT := 14
  const NUM_FATS := 16
  const ROOT_ENT_CNT := 17
  const TOT_SEC_16 := 19
  const FAT_SZ_16 := 22
  const TOT_SEC_32 := 32
  const FAT_SZ_32 := 36
  const ROOT_CLUS := 44

  const MIN_FAT16 := 4086
  const MIN_FAT32 := 65526

  // The fields of the parameter block as the mount reads them.
  function FatSize(win: Sector): Dword {
    if LdWord(win, FAT_SZ_16) != 0 then LdWord(win, FAT_SZ_16) else LdDword(win, FAT_SZ_32)
  }

  function TotalSectors(win: Sector): Dword {
    if LdWord(win, TOT_SEC_16) != 0 then LdWord(win, TOT_SEC_16) else LdDword(win, TOT_SEC_32)
  }

  function Times(a: nat, b: nat): nat {
    a * b
  }

  // The true number of system sectors: reserved area, tables and root directory.
  function SystemSectors(win: Sector): nat {
    LdWord(win, RSVD_SEC_CNT) + Times(win[NUM_FATS], FatSize(win)) + LdWord(win, ROOT_ENT_CNT) / 16
  }

  function ClusterCount(win: Sector): nat {
    if win[SEC_PER_CLUS] == 0 || TotalSectors(win) < SystemSectors(win) then 0
    else (TotalSectors(win) - SystemSectors(win)) / win[SEC_PER_CLUS]
  }

  // No sum of the mount leaves 32 bits, and the volume has no more clusters than FAT32 can number.
  predicate NoWrap(win: Sector, bsect: Dword) {
    && SystemSectors(win) <= DWORD_MAX
    && bsect + TotalSectors(win) <= DWORD_MAX
    && ClusterCount(win) <= 0x0FFF_FFF5
  }

  // The numbers that the mount computes, each cut to 32 bits where the code cuts it.
  function TableSectors(win: Sector): Dword {
    Wrap32(FatSize(win) * win[NUM_FATS])
  }

  function System(win: Sector): Dword {
    Wrap32(LdWord(win, RSVD_SEC_CNT) + TableSectors(win) + LdWord(win, ROOT_ENT_CNT) / 16)
  }

  function TypeOf(nclst: nat): FatType {
    if nclst >= MIN_FAT32 then Fat32 else if nclst >= MIN_FAT16 then Fat16 else Fat12
  }

  function TableNeed(t: FatType, n: Dword): Dword {
    match t
    case Fat32 => Wrap32(n * 4)
    case Fat16 => Wrap32(n * 2)
    case Fat12 => Wrap32(Wrap32(n * 3) / 2 + n % 2)
  }

  function Clusters(win: Sector): nat
    requires win[SEC_PER_CLUS] != 0 && System(win) <= TotalSectors(win)
  {
    (TotalSectors(win) - System(win)) / win[SEC_PER_CLUS]
  }

  // The checks that a volume passes, over the cut numbers.
  predicate Passes(win: Sector) {
    && (win[NUM_FATS] == 1 || win[NUM_FATS] == 2)
    && ClusterSize(win[SEC_PER_CLUS])
    && LdWord(win, RSVD_SEC_CNT) != 0
    && LdWord(win, ROOT_ENT_CNT) % 16 == 0
    && System(win) <= TotalSectors(win)
    && Clusters(win) != 0
    && (TypeOf(Clusters(win)) == Fat32 <==> LdWord(win, ROOT_ENT_CNT) == 0)
    && FatSize(win) >= Wrap32(TableNeed(TypeOf(Clusters(win)), Wrap32(Clusters(win) + 2)) + (SS - 1)) / SS
  }

  // A volume that passes them, and the numbers that it is mounted with.
  predicate Accepted(win: Sector, bsect: Dword, g: Geometry) {
    && Passes(win)
    && var nclst := Clusters(win);
    && g.fatType == TypeOf(nclst)
    && g.csize == win[SEC_PER_CLUS] && g.nFats == win[NUM_FATS] && g.fsize == FatSize(win)
    && g.nFatent == Wrap32(nclst + 2)
    && g.volbase == bsect
    && g.fatbase == Wrap32(bsect + LdWord(win, RSVD_SEC_CNT))
    && g.database == Wrap32(bsect + System(win))
    && g.nRootdir == LdWord(win, ROOT_ENT_CNT)
    && g.dirbase == if g.fatType == Fat32 then LdDword(win, ROOT_CLUS) else Wrap32(g.fatbase + TableSectors(win))
  }

  lemma TableSectorsTrue(win: Sector)
    requires win[NUM_FATS] == 1 || win[NUM_FATS] == 2
    ensures var t := FatSize(win) * win[NUM_FATS];
            && t == FatSize(win) + (if win[NUM_FATS] == 2 then FatSize(win) else 0)
            && (SystemSectors(win) <= DWORD_MAX ==> t == TableSectors(win) && SystemSectors(win) == System(win))
            && SystemSectors(win) == LdWord(win, RSVD_SEC_CNT) + t + LdWord(win, ROOT_ENT_CNT) / 16
  {
    hide FatSize;
    var f: int := FatSize(win);
    assert win[NUM_FATS] == 2 ==> f * win[NUM_FATS] == f + f;
  }

  // The clusters of the volume end inside it.
  lemma ClustersFit(total: nat, system: nat, csize: nat)
    requires csize > 0 && system <= total
    ensures (total - system) / csize * csize <= total - system
  {
  }

  // The table has room for the entries when nothing was cut.
  lemma TableFits(t: FatType, n: nat, fsize: nat)
    requires n <= 0x0FFF_FFF7 && fsize >= Wrap32(TableNeed(t, n) + (SS - 1)) / SS
    ensures TableBytes(t, n) <= fsize * SS
  {
    hide TableBytes, TableNeed, Wrap32;
    NeedIsBytes(t, n);
    TableBytesBound(t, n);
    NoCut(TableBytes(t, n) + (SS - 1));
    RoundedUp(TableBytes(t, n), fsize);
  }

  lemma NoCut(x: nat)
    requires x <= DWORD_MAX
    ensures Wrap32(x) == x
  {
  }

  lemma RoundedUp(x: nat, fsize: nat)
    requires fsize >= (x + (SS - 1)) / SS
    ensures x <= fsize * SS
  {
  }

  lemma NeedIsBytes(t: FatType, n: nat)
    requires n <= 0x0FFF_FFF7
    ensures TableNeed(t, n) == TableBytes(t, n)
  {
    hide Wrap32;
    NoCut(n * 4);
    NoCut(n * 2);
    NoCut(n * 3);
    NoCut(n * 3 / 2 + n % 2);
  }

  lemma TableBytesBound(t: FatType, n: nat)
    requires n <= 0x0FFF_FFF7
    ensures TableBytes(t, n) <= 0x4000_0000
  {
  }

  // The entries of a type stay below its reserved values.
  lemma TypeLimit(nclst: nat)
    requires 0 < nclst <= 0x0FFF_FFF5
    ensures 3 <= nclst + 2 <= EntryLimit(TypeOf(nclst)) - 9
  {
  }

  // Without a wrap-around the numbers of the mount are the true ones.
  lemma TrueNumbers(win: Sector, bsect: Dword, g: Geometry)
    requires Accepted(win, bsect, g) && NoWrap(win, bsect)
    ensures g.fatbase == bsect + LdWord(win, RSVD_SEC_CNT) && g.database == bsect + SystemSectors(win)
    ensures g.nFatent == ClusterCount(win) + 2 && ClusterCount(win) > 0 && g.fatType == TypeOf(ClusterCount(win))
    ensures SystemSectors(win) == LdWord(win, RSVD_SEC_CNT) + g.fsize * g.nFats + g.nRootdir / 16 <= TotalSectors(win)
    ensures g.fatType != Fat32 ==> g.dirbase == g.fatbase + g.fsize * g.nFats
    ensures g.fsize >= Wrap32(TableNeed(g.fatType, g.nFatent) + (SS - 1)) / SS
  {
    hide FatSize, TotalSectors, SystemSectors, TableSectors, System, TableNeed, TypeOf, LdWord;
    TableSectorsTrue(win);
    assert (TotalSectors(win) - System(win)) / win[SEC_PER_CLUS] == ClusterCount(win);
  }

  // Without a wrap-around an accepted volume is sound.
  lemma AcceptedIsSound(win: Sector, bsect: Dword, g: Geometry)
    requires Accepted(win, bsect, g) && NoWrap(win, bsect)
    ensures Sound(g, bsect + TotalSectors(win))
  {
    hide NoWrap, Accepted, FatSize, TotalSectors, SystemSectors, ClusterCount, TableNeed, TableBytes, TypeOf,
         EntryLimit, LdWord, Wrap32;
    TrueNumbers(win, bsect, g);
    PlainParts(win, bsect, g);
    ClustersInside(win, bsect, g);
    TypeLimit(g.nFatent - 2);
    TableFits(g.fatType, g.nFatent, g.fsize);
    TablesInRow(g);
  }

  lemma TablesInRow(g: Geometry)
    requires 1 <= g.nFats <= 2
    ensures TablesEnd(g) == g.fatbase + g.fsize * g.nFats
  {
  }

  lemma PlainParts(win: Sector, bsect: Dword, g: Geometry)
    requires Accepted(win, bsect, g) && NoWrap(win, bsect)
    ensures ClusterSize(g.csize) && 1 <= g.nFats <= 2 && g.volbase == bsect && g.nRootdir % 16 == 0
    ensures g.fatType == Fat32 <==> g.nRootdir == 0
    ensures LdWord(win, RSVD_SEC_CNT) > 0 && g.nFatent <= 0x0FFF_FFF7 && bsect + TotalSectors(win) <= DWORD_MAX
  {
    hide FatSize, TotalSectors, SystemSectors, TableSectors, System, TableNeed, TypeOf, LdWord;
    TrueNumbers(win, bsect, g);
  }

  // The clusters end inside the volume.
  lemma ClustersInside(win: Sector, bsect: Dword, g: Geometry)
    requires Accepted(win, bsect, g) && NoWrap(win, bsect)
    ensures g.nFatent >= 2 && DataInside(g, bsect + TotalSectors(win))
  {
    hide FatSize, TotalSectors, SystemSectors, TableSectors, System, TableNeed, TypeOf, LdWord;
    TrueNumbers(win, bsect, g);
    ClustersFit(TotalSectors(win), SystemSectors(win), win[SEC_PER_CLUS]);
  }

  // With one the layout is not sound.
  lemma SoundIsNoWrap(win: Sector, bsect: Dword, g: Geometry)
    requires Accepted(win, bsect, g) && Sound(g, bsect + TotalSectors(win))
    ensures NoWrap(win, bsect)
  {
    hide Accepted, FatSize, TotalSectors, SystemSectors, ClusterCount, TableNeed, TableBytes, TypeOf, EntryLimit,
         LdWord, Wrap32;
    SystemFits(win, bsect, g);
    CountFits(win, bsect, g);
  }

  // A mounted volume is soundly laid out exactly when none of its sums left 32 bits.
  lemma SoundIffNoWrap(win: Sector, bsect: Dword, g: Geometry)
    requires Accepted(win, bsect, g)
    ensures Sound(g, bsect + TotalSectors(win)) <==> NoWrap(win, bsect)
  {
    hide Accepted, Sound, NoWrap, TotalSectors;
    if NoWrap(win, bsect) {
      AcceptedIsSound(win, bsect, g);
    }
    if Sound(g, bsect + TotalSectors(win)) {
      SoundIsNoWrap(win, bsect, g);
    }
  }

  lemma SystemFits(win: Sector, bsect: Dword, g: Geometry)
    requires Accepted(win, bsect, g) && Sound(g, bsect + TotalSectors(win))
    ensures SystemSectors(win) <= DWORD_MAX && SystemSectors(win) == System(win) && SystemSectors(win) >= 2
  {
    hide FatSize, TotalSectors, SystemSectors, TableSectors, System, TableNeed, TypeOf, LdWord, ClusterSize;
    TableSectorsTrue(win);
    TablesInRow(g);
    NoWrapBelow(bsect, LdWord(win, RSVD_SEC_CNT));
    SomeTable(g.fatType, g.nFatent, g.fsize);
  }

  // A sum that was cut is below its first number.
  lemma NoWrapBelow(a: Dword, b: Word)
    ensures Wrap32(a + b) > a ==> Wrap32(a + b) == a + b
  {
  }

  lemma SomeTable(t: FatType, n: nat, fsize: nat)
    requires n >= 3 && TableBytes(t, n) <= fsize * SS
    ensures fsize >= 1
  {
  }

  lemma CountFits(win: Sector, bsect: Dword, g: Geometry)
    requires Accepted(win, bsect, g) && Sound(g, bsect + TotalSectors(win))
    ensures ClusterCount(win) <= 0x0FFF_FFF5
  {
    hide FatSize, TotalSectors, SystemSectors, TableSectors, System, TableNeed, TableBytes, TypeOf, LdWord;
    SystemFits(win, bsect, g);
    CountBound(TotalSectors(win) - System(win), win[SEC_PER_CLUS]);
  }

  lemma CountBound(sectors: nat, csize: nat)
    requires ClusterSize(csize)
    ensures sectors / csize <= sectors
  {
    if csize == 1 {
    } else if csize == 2 {
    } else if csize == 4 {
    } else if csize == 8 {
    } else if csize == 16 {
    } else if csize == 32 {
    } else if csize == 64 {
    }
  }

  // Sectors of one table and of all of them.
  method TableLengths(win: Sector) returns (fsize: Dword, fasize: Dword)
    ensures fsize == FatSize(win) && fasize == TableSectors(win)
  {
    hide LdWord, LdDword, Wrap32;
    fsize := LdWord(win, FAT_SZ_16);
    if fsize == 0 { fsize := LdDword(win, FAT_SZ_32); }
    var nFats: nat := win[NUM_FATS];
    fasize := Wrap32((fsize as int) * nFats);
  }

  // Number of clusters; None if the system area does not fit.
  method CountClusters(win: Sector, fasize: Dword) returns (nclst: Option<nat>)
    requires win[SEC_PER_CLUS] != 0 && fasize == TableSectors(win)
    ensures nclst.Some? <==> System(win) <= TotalSectors(win)
    ensures nclst.Some? ==> nclst.value == Clusters(win)
  {
    hide LdWord, LdDword, Wrap32, TableSectors;
    var tsect: Dword := LdWord(win, TOT_SEC_16);
    if tsect == 0 { tsect := LdDword(win, TOT_SEC_32); }
    var sysect := Wrap32(LdWord(win, RSVD_SEC_CNT) + fasize + LdWord(win, ROOT_ENT_CNT) / 16);
    if tsect < sysect { return None; }
    nclst := Some((tsect - sysect) / win[SEC_PER_CLUS] as int);
  }

  // fs_init_volume behind the search for the boot sector, which is in win and lies at bsect.
  // A mounted volume is soundly laid out exactly when none of its sums left 32 bits.
  method InitVolume(win: Sector, bsect: Dword) returns (r: Option<Geometry>)
    ensures r.Some? <==> LdWord(win, BYTS_PER_SEC) == SS && Passes(win)
    ensures r.Some? ==> Accepted(win, bsect, r.value)
    ensures r.Some? ==> (Sound(r.value, bsect + TotalSectors(win)) <==> NoWrap(win, bsect))
  {
    hide Sound, NoWrap, LdWord, LdDword, ClusterSize, Wrap32, And, Accepted, FatSize, TableSectors, TotalSectors,
         System, Clusters;
    r := None;
    if LdWord(win, BYTS_PER_SEC) != SS { return; }
    var fsize, fasize := TableLengths(win);
    var nFats: nat := win[NUM_FATS];
    if nFats != 1 && nFats != 2 { return; }
    var csize: nat := win[SEC_PER_CLUS];
    ClusterSizeTest(csize);
    if csize == 0 || And(csize, csize - 1, 8) != 0 { return; }
    if LdWord(win, ROOT_ENT_CNT) % 16 != 0 { return; }
    if LdWord(win, RSVD_SEC_CNT) == 0 { return; }
    var nclst := CountClusters(win, fasize);
    if nclst == None || nclst.value == 0 { return; }
    r := Layout(win, bsect, fsize, nclst.value);
    if r.Some? {
      SoundIffNoWrap(win, bsect, r.value);
    }
  }

  // The part of the mount that fixes the sub-type and the areas.
  method Layout(win: Sector, bsect: Dword, fsize: nat, nclst: nat) returns (r: Option<Geometry>)
    requires win[NUM_FATS] == 1 || win[NUM_FATS] == 2
    requires ClusterSize(win[SEC_PER_CLUS]) && LdWord(win, RSVD_SEC_CNT) != 0 && LdWord(win, ROOT_ENT_CNT) % 16 == 0
    requires fsize == FatSize(win) && System(win) <= TotalSectors(win)
    requires nclst == Clusters(win) && nclst != 0
    ensures r.Some? <==> Passes(win)
    ensures r.Some? ==> Accepted(win, bsect, r.value)
  {
    hide LdWord, LdDword, Wrap32, ClusterSize, FatSize, TotalSectors, System, TableSectors;
    r := None;
    var nrsv: nat := LdWord(win, RSVD_SEC_CNT);
    var nRootdir: nat := LdWord(win, ROOT_ENT_CNT);
    var fmt := Fat12;
    if nclst >= MIN_FAT16 { fmt := Fat16; }
    if nclst >= MIN_FAT32 { fmt := Fat32; }
    var nFatent: nat := Wrap32(nclst + 2);
    var fatbase: nat := Wrap32(bsect + nrsv);
    var database: nat := Wrap32(bsect + System(win));
    var dirbase: nat, szbfat: nat;
    if fmt == Fat32 {
      if nRootdir != 0 { return; }
      dirbase := LdDword(win, ROOT_CLUS);
      szbfat := Wrap32(nFatent * 4);
    } else {
      if nRootdir == 0 { return; }
      dirbase := Wrap32(fatbase + TableSectors(win));
      szbfat := if fmt == Fat16 then Wrap32(nFatent * 2) else Wrap32(Wrap32(nFatent * 3) / 2 + nFatent % 2);
    }
    if fsize < Wrap32(szbfat + (SS - 1)) / SS { return; }
    r := Some(Geometry(fmt, win[SEC_PER_CLUS], win[NUM_FATS], nFatent, fsize, bsect, fatbase, dirbase, database,
        nRootdir));
  }

  // The power-of-two test of the mount on a byte.
  lemma ClusterSizeTest(c: Byte)
    ensures c > 0 && And(c, c - 1, 8) == 0 <==> ClusterSize(c)
  {
    hide And, PowerOfTwo;
    if c > 0 {
      assert Pow2(8) == 0x100 by { assert Pow2(4) == 16; }
      PowerTest(c, 8);
      PowersBelow256(c);
    }
  }

  lemma PowersBelow4(a: nat)
    requires 0 < a < 4
    ensures PowerOfTwo(a) <==> a in {1, 2}
  {
  }

  lemma PowersBelow16(a: nat)
    requires 0 < a < 16
    ensures PowerOfTwo(a) <==> a in {1, 2, 4, 8}
  {
    if a >= 4 {
      PowersBelow4(a / 4);
      assert PowerOfTwo(a / 2) <==> a / 2 % 2 == 0 && PowerOfTwo(a / 4);
    }
  }

  lemma PowersBelow256(a: nat)
    requires 0 < a < 0x100
    ensures PowerOfTwo(a) <==> a in {1, 2, 4, 8, 16, 32, 64, 128}
  {
    if a >= 16 {
      PowersBelow16(a / 16);
      assert PowerOfTwo(a / 8) <==> a / 8 % 2 == 0 && PowerOfTwo(a / 16);
      assert PowerOfTwo(a / 4) <==> a / 4 % 2 == 0 && PowerOfTwo(a / 8);
      assert PowerOfTwo(a / 2) <==> a / 2 % 2 == 0 && PowerOfTwo(a / 4);
    } else {
      PowersBelow16(a);
    }
  }

  // In a sound layout different sectors of clusters are different sectors of the medium, inside
  // it and outside the tables and the root directory.
  lemma SoundLayout(g: Geometry, size: nat, c: nat, r: nat, d: nat, s: nat)
    requires Sound(g, size) && 2 <= c < g.nFatent && r < g.csize && 2 <= d < g.nFatent && s < g.csize
    ensures FileView.ClusterSector(g, c, r) == FileView.ClusterSector(g, d, s) ==> c == d && r == s
    ensures TablesEnd(g) + g.nRootdir / 16 <= FileView.ClusterSector(g, c, r) < size
    ensures !InFat(g, FileView.ClusterSector(g, c, r)) && !InMirror(g, FileView.ClusterSector(g, c, r))
  {
    hide FileView.ClusterSector, FileView.SectorCluster;
    FileView.ClusterSectorInside(g, c, r, size);
    FileView.ClusterSectorParts(g, c, r);
    FileView.ClusterSectorParts(g, d, s);
  }

  // The end mark is never taken for a cluster number.
  lemma EndMarkEnds(g: Geometry, size: nat)
    requires Sound(g, size)
    ensures Trunc(g.fatType, END_MARK) > g.nFatent
  {
  }

  // A volume of 100 sectors whose two tables of 2^31 sectors each add up to nothing in 32 bits.
  function WrappedBoot(): (win: Sector) {
    seq(SS, i => if i == 12 then 2 else if i == SEC_PER_CLUS || i == RSVD_SEC_CNT then 1
                 else if i == NUM_FATS then 2 else if i == ROOT_ENT_CNT then 16
                 else if i == TOT_SEC_16 then 100 else if i == FAT_SZ_32 + 3 then 0x80 else 0)
  }

  // It is mounted, with the data area on top of the tables.
  lemma WrappedBootIsAccepted()
    ensures LdWord(WrappedBoot(), BYTS_PER_SEC) == SS
    ensures var g := Geometry(Fat12, 1, 2, 100, 0x8000_0000, 0, 1, 1, 2, 16);
            Accepted(WrappedBoot(), 0, g) && !Sound(g, 100) && InFat(g, g.database)
  {
    var win := WrappedBoot();
    assert LdWord(win, FAT_SZ_16) == 0 && LdDword(win, FAT_SZ_32) == 0x8000_0000;
    assert LdWord(win, RSVD_SEC_CNT) == 1 && LdWord(win, ROOT_ENT_CNT) == 16 && LdWord(win, TOT_SEC_16) == 100;
    assert TableSectors(win) == 0;
    assert System(win) == 2;
  }

  // ---- Volumes as they are formatted ----

  // The bytes from place p on, the lowest first.
  predicate Field(win: Sector, p: nat, bytes: seq<Byte>) {
    p + |bytes| <= |win| && win[p..p + |bytes|] == bytes
  }

  // A disk of 1.44 MB: 2880 sectors, two tables of 9 and 224 root entries.
  lemma FloppyIsMounted(win: Sector)
    requires Field(win, 11, [0x00, 0x02, 1, 1, 0, 2, 224, 0, 0x40, 0x0B, 0xF0, 9, 0])
    ensures LdWord(win, BYTS_PER_SEC) == SS && Accepted(win, 0, Geometry(Fat12, 1, 2, 2849, 9, 0, 1, 19, 33, 224))
  {
    FieldAt(win, 11, [0x00, 0x02, 1, 1, 0, 2, 224, 0, 0x40, 0x0B, 0xF0, 9, 0]);
    assert FatSize(win) == 9 && TotalSectors(win) == 2880;
    assert System(win) == 33 && Clusters(win) == 2847;
  }

  // A card of 512 MB with clusters of 4 KB at sector 63: 32 reserved sectors, two tables of 1024, the
  // root directory at cluster 2.
  lemma CardIsMounted(win: Sector)
    requires Field(win, 11, [0x00, 0x02, 8, 32, 0, 2, 0, 0, 0, 0, 0xF8, 0, 0])
    requires Field(win, 32, [0, 0, 0x10, 0, 0, 4, 0, 0, 0, 0, 0, 0, 2, 0, 0, 0])
    ensures LdWord(win, BYTS_PER_SEC) == SS
    ensures Accepted(win, 63, Geometry(Fat32, 8, 2, 130814, 1024, 63, 95, 2, 2143, 0))
  {
    FieldAt(win, 11, [0x00, 0x02, 8, 32, 0, 2, 0, 0, 0, 0, 0xF8, 0, 0]);
    FieldAt(win, 32, [0, 0, 0x10, 0, 0, 4, 0, 0, 0, 0, 0, 0, 2, 0, 0, 0]);
    assert FatSize(win) == 1024 && TotalSectors(win) == 0x10_0000;
    assert System(win) == 2080 && Clusters(win) == 130812;
  }

  lemma FieldAt(win: Sector, p: nat, bytes: seq<Byte>)
    requires Field(win, p, bytes)
    ensures forall i | p <= i < p + |bytes| :: win[i] == bytes[i - p]
  {
    forall i | p <= i < p + |bytes| ensures win[i] == bytes[i - p] {
      assert win[p..p + |bytes|][i - p] == win[i];
    }
  }

  // The numbers of clusters at which the type of the table changes.
  lemma TypeBounds()
    ensures TypeOf(4085) == Fat12 && TypeOf(4086) == Fat16 && TypeOf(65525) == Fat16 && TypeOf(65526) == Fat32
  {
  }
}
