// Directories (DIR): the cursor over a table of 32-byte entries, and room for new entries.
module Directory {
  import opened Bytes
  import opened FatTable
  import opened Chains
  import opened Volume
  import opened FileView
  import FileIo
  import opened LongName

  // ---- The table of entries ----

  // The table as a store of sectors: of a cluster chain, or without one of the fixed root directory.
  ghost function Table(fs: FatFs, chain: seq<nat>): Store
    reads fs`view
  {
    Store(fs.g, fs.view, chain, 0, Zeros())
  }

  // Number of entries there is room for.
  function Slots(g: Geometry, chain: seq<nat>): nat {
    16 * if chain == [] then g.nRootdir / 16 else SectorCount(g, chain)
  }

  function SlotSector(g: Geometry, chain: seq<nat>, i: nat): int
    requires ClusterSize(g.csize) && i < Slots(g, chain)
  {
    if chain == [] then g.dirbase + i / 16 else FileSector(g, chain, i / 16)
  }

  // Where entry idx lies in its cluster: cluster j of the chain, and entry i of the cluster.
  lemma SlotParts(j: nat, i: nat, csize: nat)
    requires i < 16 * csize
    ensures (j * (16 * csize) + i) / 16 == j * csize + i / 16 && (j * (16 * csize) + i) % 16 == i % 16
    ensures (j * csize + i / 16) / csize == j && (j * csize + i / 16) % csize == i / 16
  {
    assert j * (16 * csize) == 16 * (j * csize);
    DivModUnique(j * (16 * csize) + i, 16, j * csize + i / 16, i % 16);
    DivModUnique(j * csize + i / 16, csize, j, i / 16);
  }

  // From one view and chain to another: old entries are kept, added ones are zero, and outside the
  // allocation table and the clusters of the directory nothing differs.
  ghost predicate Extends(g: Geometry, v: seq<Sector>, ch: seq<nat>, w: seq<Sector>, ch': seq<nat>)
    requires ClusterSize(g.csize)
  {
    && ch <= ch' && Slots(g, ch) <= Slots(g, ch') && SameElsewhere(g, ch', v, w)
    && (forall i | 0 <= i < Slots(g, ch) ::
          SlotSector(g, ch', i) == SlotSector(g, ch, i) && 0 <= SlotSector(g, ch, i) < |v| == |w| &&
          w[SlotSector(g, ch, i)] == v[SlotSector(g, ch, i)])
    && (forall i | Slots(g, ch) <= i < Slots(g, ch') ::
          0 <= SlotSector(g, ch', i) < |w| && w[SlotSector(g, ch', i)] == Zeros())
  }

  // Entry i as a reader through the window sees it.
  ghost function Slot(g: Geometry, v: seq<Sector>, ch: seq<nat>, i: nat): (e: seq<Byte>)
    requires ClusterSize(g.csize) && i < Slots(g, ch) && 0 <= SlotSector(g, ch, i) < |v|
    ensures |e| == ENTRY
  {
    v[SlotSector(g, ch, i)][i % 16 * ENTRY..i % 16 * ENTRY + ENTRY]
  }

  const DDEM: int := 0xE5

  // The entry is free: deleted, or never used.
  ghost predicate FreeSlot(g: Geometry, v: seq<Sector>, ch: seq<nat>, i: nat) {
    && ClusterSize(g.csize) && i < Slots(g, ch) && 0 <= SlotSector(g, ch, i) < |v|
    && v[SlotSector(g, ch, i)][i % 16 * ENTRY] in {0, DDEM}
  }

  // nent free entries in a row from entry a on.
  ghost predicate FreeRun(g: Geometry, v: seq<Sector>, ch: seq<nat>, a: nat, nent: nat) {
    forall j | a <= j < a + nent :: FreeSlot(g, v, ch, j)
  }

  // There is no such run among the first lim entries.
  ghost predicate NoRun(g: Geometry, v: seq<Sector>, ch: seq<nat>, nent: nat, lim: nat) {
    forall a: nat | a + nent <= lim :: !FreeRun(g, v, ch, a, nent)
  }

  // No room for nent entries: no run of them, and no entry or no cluster for more.
  ghost predicate NoRoom(g: Geometry, v: seq<Sector>, ch: seq<nat>, f: seq<nat>, nent: nat) {
    if Slots(g, ch) >= 0x1_0000 then NoRun(g, v, ch, nent, 0x1_0000)
    else NoRun(g, v, ch, nent, Slots(g, ch)) && (ch == [] || Full(f))
  }

  // One entry more was looked at; n counts the free ones at the end before it.
  lemma NoRunYet(g: Geometry, v: seq<Sector>, ch: seq<nat>, nent: nat, i: nat, n: nat)
    requires NoRun(g, v, ch, nent, i) && n <= i && (n == i || !FreeSlot(g, v, ch, i - n - 1))
    requires nent > 0 && (n + 1 < nent || !FreeSlot(g, v, ch, i))
    ensures NoRun(g, v, ch, nent, i + 1)
  {
    hide FreeSlot;
    forall a: nat | a + nent <= i + 1 ensures !FreeRun(g, v, ch, a, nent) {
      if a + nent == i + 1 {
        var j := if n + 1 < nent then i - n - 1 else i;
        assert a <= j < a + nent && !FreeSlot(g, v, ch, j);
      }
    }
  }

  lemma NoRunStays(g: Geometry, v: seq<Sector>, ch: seq<nat>, w: seq<Sector>, ch': seq<nat>, nent: nat, lim: nat)
    requires ClusterSize(g.csize) && Extends(g, v, ch, w, ch') && lim <= Slots(g, ch) && NoRun(g, v, ch, nent, lim)
    ensures NoRun(g, w, ch', nent, lim)
  {
    hide Extends, FreeSlot;
    forall a: nat | a + nent <= lim ensures FreeRun(g, w, ch', a, nent) == FreeRun(g, v, ch, a, nent) {
      forall j | a <= j < a + nent ensures FreeSlot(g, w, ch', j) == FreeSlot(g, v, ch, j) {
        FreeWas(g, v, ch, w, ch', j);
      }
    }
  }

  lemma FreeWas(g: Geometry, v: seq<Sector>, ch: seq<nat>, w: seq<Sector>, ch': seq<nat>, j: nat)
    requires ClusterSize(g.csize) && Extends(g, v, ch, w, ch') && j < Slots(g, ch)
    ensures FreeSlot(g, w, ch', j) == FreeSlot(g, v, ch, j)
  {
    hide SlotSector, Slots, ClusterSize;
  }

  // The entries from lo to hi that were there already were free.
  ghost predicate WereFree(g: Geometry, v: seq<Sector>, ch: seq<nat>, lo: int, hi: int) {
    forall j | 0 <= j < Slots(g, ch) && lo <= j <= hi :: FreeSlot(g, v, ch, j)
  }

  lemma FreeBefore(g: Geometry, v: seq<Sector>, ch: seq<nat>, w: seq<Sector>, ch': seq<nat>, lo: int, hi: int)
    requires ClusterSize(g.csize) && Extends(g, v, ch, w, ch') && 0 <= lo
    requires forall j | lo <= j <= hi :: FreeSlot(g, w, ch', j)
    ensures WereFree(g, v, ch, lo, hi)
  {
    hide SlotSector, Slots, ClusterSize;
    forall j | 0 <= j < Slots(g, ch) && lo <= j <= hi ensures FreeSlot(g, v, ch, j) {
      assert FreeSlot(g, w, ch', j);
    }
  }

  lemma ExtendsTwice(g: Geometry, u: seq<Sector>, a: seq<nat>, v: seq<Sector>, b: seq<nat>, w: seq<Sector>, c: seq<nat>)
    requires ClusterSize(g.csize) && Extends(g, u, a, v, b) && Extends(g, v, b, w, c)
    ensures Extends(g, u, a, w, c)
  {
    hide SlotSector, Slots, ClusterSize, InFile;
    SameElsewhereLonger(g, b, c, u, v);
    SameElsewhereTwice(g, c, u, v, w);
  }

  lemma SameElsewhereLonger(g: Geometry, b: seq<nat>, c: seq<nat>, u: seq<Sector>, v: seq<Sector>)
    requires ClusterSize(g.csize) && SameElsewhere(g, b, u, v) && b <= c
    ensures SameElsewhere(g, c, u, v)
  {
    SameElsewhereGrows(g, b, c, u, v);
  }

  lemma FreeStays(g: Geometry, u: seq<Sector>, a: seq<nat>, v: seq<Sector>, b: seq<nat>, i: nat)
    requires ClusterSize(g.csize) && Extends(g, u, a, v, b) && FreeSlot(g, u, a, i)
    ensures FreeSlot(g, v, b, i)
  {
    hide SlotSector, Slots, ClusterSize;
  }

  class Dir {
    const fs: FatFs
    const sclust: Dword
    var index: nat
    var clust: Dword
    var sect: nat
    var off: nat
    var lfnIdx: nat
    ghost var chain: seq<nat>

    constructor (volume: FatFs, start: Dword, ghost ch: seq<nat>)
      ensures fs == volume && sclust == start && chain == ch
    {
      fs, sclust, chain := volume, start, ch;
      index, clust, sect, off, lfnIdx := 0, 0, 0, 0, 0;
    }

    // First cluster of the table; 0 is the fixed root directory.
    function First(): Dword {
      if sclust == 0 && fs.g.fatType == Fat32 && fs.g.dirbase <= DWORD_MAX then fs.g.dirbase else sclust
    }

    ghost predicate Linked()
      reads `chain, fs`fat
    {
      if First() == 0 then chain == [] else chain != [] && chain[0] == First() && IsChain(fs.fat, chain)
    }

    ghost predicate Valid()
      reads `chain, fs`disk, fs`winsect, fs`wflag, fs`view, fs`fat, fs.win
    {
      fs.Valid() && Linked() && (sclust == 0 && fs.g.fatType == Fat32 ==> 2 <= fs.g.dirbase < fs.g.nFatent)
    }

    // Index and cluster of the cursor belong to entry i.
    ghost predicate Near(i: nat)
      reads `index, `clust, `chain
    {
      && ClusterSize(fs.g.csize) && i < Slots(fs.g, chain) && i < 0x1_0000 && index == i
      && (if chain == [] then clust == 0 else i / 16 / fs.g.csize < |chain| && clust == chain[i / 16 / fs.g.csize])
    }

    // The cursor stands at entry i.
    ghost predicate At(i: nat)
      reads `index, `clust, `sect, `off, `chain
    {
      Near(i) && sect == SlotSector(fs.g, chain, i) && off == i % 16 * ENTRY
    }

    // Entry idx is entry rest of cluster j.
    lemma Place(idx: nat, j: nat, rest: nat)
      requires Valid() && chain != [] && j < |chain| && idx == j * (16 * fs.g.csize) + rest && rest < 16 * fs.g.csize
      ensures ClusterSize(fs.g.csize) && idx < Slots(fs.g, chain) && idx / 16 / fs.g.csize == j && idx % 16 == rest % 16
      ensures 2 <= chain[j] < fs.g.nFatent <= DWORD_MAX && Clust2Sect(fs.g, chain[j]) > 0
      ensures InCluster(idx, chain[j], rest)
      ensures SlotSector(fs.g, chain, idx) == Clust2Sect(fs.g, chain[j]) + rest / 16
    {
      hide FatFs.Valid, IsChain, StoreOk, FileSector, Clust2Sect;
      fs.DataBounds();
      FileIo.StoreFromChain(fs, chain, 0, Zeros());
      SlotParts(j, rest, fs.g.csize);
      Scale(j + 1, |chain|, 16 * fs.g.csize);
      assert (j + 1) * (16 * fs.g.csize) == j * (16 * fs.g.csize) + 16 * fs.g.csize;
      SlotsOfChain(|chain|, fs.g.csize);
      FileIo.SectorNumber(Table(fs, chain), idx / 16);
    }

    // Behind the last cluster there is no entry.
    lemma Behind(idx: nat, rest: nat)
      requires chain != [] && idx == (|chain| - 1) * (16 * fs.g.csize) + rest && rest >= 16 * fs.g.csize
      ensures idx >= Slots(fs.g, chain)
    {
      SlotsOfChain(|chain|, fs.g.csize);
      assert |chain| * (16 * fs.g.csize) == (|chain| - 1) * (16 * fs.g.csize) + 16 * fs.g.csize;
    }

    // dir_sdi: the cursor at an entry of the table, or an error behind its end.
    method Sdi(idx: nat) returns (res: FResult)
      requires fs.Valid() && (sclust != 1 && sclust < fs.g.nFatent ==> Valid()) && idx < 0x1_0000
      modifies `index, `clust, `sect, `off, fs`disk, fs`winsect, fs`wflag, fs.win
      ensures fs.Valid() && |fs.disk| == |old(fs.disk)|
      ensures old(fs.Mirrored()) ==> fs.Mirrored()
      ensures sclust == 1 || sclust >= fs.g.nFatent ==> res == IntErr
      ensures sclust != 1 && sclust < fs.g.nFatent ==>
                res == (if idx < Slots(fs.g, chain) then Ok else IntErr) && (res == Ok ==> At(idx))
    {
      hide FatFs.Valid, IsChain, SlotSector, Slots, Clust2Sect;
      fs.DataBounds();
      RootBounds(idx);
      index := idx;
      var clst: int := sclust;
      if clst == 1 || clst >= fs.g.nFatent { return IntErr; }
      if clst == 0 && fs.g.fatType == Fat32 { clst := fs.g.dirbase; }
      if clst == 0 {
        if idx >= fs.g.nRootdir { return IntErr; }
        clust, sect, off := 0, fs.g.dirbase + idx / 16, idx % 16 * ENTRY;
        return Ok;
      }
      var rest: int;
      res, clst, rest := Follow(clst, idx);
      if res == Ok {
        clust, sect, off := clst, Clust2Sect(fs.g, clst) + rest / 16, rest % 16 * ENTRY;
      }
    }

    // Entry idx is entry rest of the cluster clst of the chain.
    ghost predicate InCluster(idx: nat, clst: int, rest: nat)
      reads `chain
    {
      && ClusterSize(fs.g.csize) && idx < Slots(fs.g, chain)
      && 2 <= clst < fs.g.nFatent <= DWORD_MAX && SlotSector(fs.g, chain, idx) == Clust2Sect(fs.g, clst) + rest / 16
      && idx % 16 == rest % 16 && idx / 16 / fs.g.csize < |chain| && clst == chain[idx / 16 / fs.g.csize]
    }

    // The loop that follows the chain to the cluster of an entry.
    method Follow(first: int, idx: nat) returns (res: FResult, clst: int, rest: int)
      requires Valid() && First() != 0 && first == First()
      modifies fs`disk, fs`winsect, fs`wflag, fs.win
      ensures fs.Valid() && |fs.disk| == |old(fs.disk)|
      ensures old(fs.Mirrored()) ==> fs.Mirrored()
      ensures res == if idx < Slots(fs.g, chain) then Ok else IntErr
      ensures res == Ok ==> 0 <= rest && InCluster(idx, clst, rest)
    {
      hide FatFs.Valid, IsChain, Slots, Clust2Sect, InCluster, ClusterSize;
      fs.DataBounds();
      fs.TableBounds();
      clst, rest := first, idx;
      ghost var j: nat := 0;
      var ic: nat := SS / ENTRY * fs.g.csize;
      while rest >= ic
        invariant fs.Valid() && |fs.disk| == |old(fs.disk)| && Valid()
        invariant old(fs.Mirrored()) ==> fs.Mirrored()
        invariant 0 <= rest && j < |chain| && clst == chain[j] && idx == j * ic + rest
        decreases rest
      {
        ChainLink(fs.fat, chain, j + 1);
        NextGroup(idx, j, rest, ic);
        if j + 1 == |chain| { Behind(idx, rest); }
        clst := fs.GetFat(clst);
        if clst == DWORD_MAX { return DiskErr, clst, rest; }
        if clst < 2 || clst >= fs.g.nFatent { return IntErr, clst, rest; }
        rest := rest - ic;
        j := j + 1;
      }
      Place(idx, j, rest);
      res := Ok;
    }

    // Where the entry behind the cursor lies: in the same sector, the next sector, or the next cluster.
    lemma Successor()
      requires Valid() && At(index)
      ensures (index + 1) % 16 != 0 ==>
                && index + 1 < Slots(fs.g, chain) && SlotSector(fs.g, chain, index + 1) == sect
                && (index + 1) / 16 == index / 16
      ensures (index + 1) % 16 == 0 && chain == [] ==> index + 1 <= fs.g.nRootdir == Slots(fs.g, chain)
      ensures (index + 1) % 16 == 0 && chain == [] && index + 1 < fs.g.nRootdir ==>
                SlotSector(fs.g, chain, index + 1) == sect + 1
    {
      hide FatFs.Valid, IsChain, FileSector, ClusterSize;
      fs.DataBounds();
      RootBounds(index);
      if (index + 1) % 16 != 0 {
        SameSixteen(index);
      }
    }

    lemma NextInChain()
      requires Valid() && Near(index) && (index + 1) % 16 == 0 && chain != []
      ensures (index + 1) / 16 % fs.g.csize != 0 ==>
                index + 1 < Slots(fs.g, chain) &&
                SlotSector(fs.g, chain, index + 1) == SlotSector(fs.g, chain, index) + 1 &&
                (index + 1) / 16 / fs.g.csize == index / 16 / fs.g.csize
      ensures (index + 1) / 16 % fs.g.csize == 0 ==> (index + 1) / 16 / fs.g.csize == index / 16 / fs.g.csize + 1
    {
      hide FatFs.Valid, IsChain, ClusterSize, SlotSector, Slots;
      fs.DataBounds();
      NextSlot(fs.g, chain, index);
    }

    // A sector of the table: on the medium and not of the allocation tables.
    lemma SlotInside(i: nat)
      requires Valid() && i < Slots(fs.g, chain)
      ensures ClusterSize(fs.g.csize) && |fs.view| == |fs.disk| <= DWORD_MAX
      ensures 0 < SlotSector(fs.g, chain, i) < |fs.view|
      ensures !InFat(fs.g, SlotSector(fs.g, chain, i)) && !InMirror(fs.g, SlotSector(fs.g, chain, i))
      ensures chain != [] ==> SlotSector(fs.g, chain, i) >= fs.g.database
    {
      hide IsChain, FileSector, StoreOk;
      fs.DataBounds();
      AreasApart();
      if chain != [] {
        FileIo.StoreFromChain(fs, chain, 0, Zeros());
        FileSectorInside(Table(fs, chain), i / 16);
      }
    }

    // The tables, the fixed root directory and the clusters lie one behind the other.
    lemma AreasApart()
      requires fs.Valid()
      ensures TablesEnd(fs.g) <= fs.g.database <= |fs.disk|
      ensures fs.g.nRootdir > 0 ==>
                fs.g.dirbase == TablesEnd(fs.g) && fs.g.dirbase + fs.g.nRootdir / 16 <= fs.g.database
      ensures First() == 0 && fs.g.nRootdir == 0 ==> Slots(fs.g, []) == 0
      ensures fs.g.nFats == 2 ==> fs.g.fatbase + 2 * fs.g.fsize == TablesEnd(fs.g)
      ensures fs.g.fatbase > 0 && fs.g.fatbase + fs.g.fsize <= TablesEnd(fs.g)
    {
    }

    // What became of a table that had to be stretched: one cluster more, or no free cluster.
    ghost predicate Outcome(f: seq<nat>, ch: seq<nat>, res: FResult)
      reads `chain, fs`fat
    {
      match res
      case Ok => |chain| == |ch| + 1
      case Denied => chain == ch && fs.fat == f && Full(f)
      case IntErr => chain == ch && fs.fat == f && HasReserved(f)
      case _ => false
    }

    lemma ClusterSlots(idx: nat, j: nat)
      requires Valid() && chain != [] && idx == j * (16 * fs.g.csize) && ClusterSize(fs.g.csize)
      ensures idx < Slots(fs.g, chain) <==> j < |chain|
      ensures j < |chain| ==> InCluster(idx, chain[j], 0)
    {
      hide FatFs.Valid, IsChain, FileSector, Clust2Sect, InCluster;
      SlotsOfChain(|chain|, fs.g.csize);
      if j < |chain| {
        Place(idx, j, 0);
      } else {
        Scale(|chain|, j, 16 * fs.g.csize);
      }
    }

    // A change of the allocation table alone changes no entry.
    lemma ExtendsTable(v: seq<Sector>)
      requires Valid() && SameOutside(v, fs.view, fs.g)
      ensures ClusterSize(fs.g.csize) && Extends(fs.g, v, chain, fs.view, chain)
    {
      hide FatFs.Valid, IsChain, SlotSector, Slots;
      fs.DataBounds();
      SameOutsideElsewhere(fs.g, chain, v, fs.view);
      forall i | 0 <= i < Slots(fs.g, chain)
        ensures 0 <= SlotSector(fs.g, chain, i) < |fs.view|
        ensures fs.view[SlotSector(fs.g, chain, i)] == v[SlotSector(fs.g, chain, i)]
      {
        SlotInside(i);
      }
    }

    // The place of a cluster of the table in the data area.
    lemma NewCluster(c: nat)
      requires fs.Valid() && 2 <= c < fs.g.nFatent
      ensures fs.g.nFatent <= DWORD_MAX && ClusterSize(fs.g.csize)
      ensures Clust2Sect(fs.g, c) == ClusterSector(fs.g, c, 0)
      ensures fs.g.database <= Clust2Sect(fs.g, c) && Clust2Sect(fs.g, c) + fs.g.csize <= |fs.disk|
    {
      hide FatFs.Valid;
      fs.DataBounds();
      ClusterSectorInside(fs.g, c, 0, |fs.view|);
      ClusterSectorInside(fs.g, c, fs.g.csize - 1, |fs.view|);
    }

    // The table after cluster c was linked behind chain ch (from view v to u) and cleared.
    lemma Added(f: seq<nat>, v: seq<Sector>, u: seq<Sector>, ch: seq<nat>, c: Dword)
      requires Valid() && chain == ch + [c] && ch != [] && IsChain(f, ch) && InTable(f, c) && f[c] == 0
      requires |f| == fs.g.nFatent <= DWORD_MAX && ClusterSize(fs.g.csize)
      requires |v| == |u| == |fs.view| && SameOutside(v, u, fs.g)
      requires forall s | 0 <= s < |u| :: fs.view[s] ==
                 if Clust2Sect(fs.g, c) <= s < Clust2Sect(fs.g, c) + fs.g.csize then Zeros() else u[s]
      ensures Extends(fs.g, v, ch, fs.view, chain)
    {
      hide FatFs.Valid, FileSector, IsChain, Clust2Sect;
      fs.DataBounds();
      NewCluster(c);
      SlotsGrow(fs.g, ch, c);
      forall i | 0 <= i < Slots(fs.g, ch)
        ensures SlotSector(fs.g, chain, i) == SlotSector(fs.g, ch, i) && 0 <= SlotSector(fs.g, ch, i) < |v|
        ensures fs.view[SlotSector(fs.g, ch, i)] == v[SlotSector(fs.g, ch, i)]
      {
        OldSlot(f, ch, c, i);
      }
      forall i | Slots(fs.g, ch) <= i < Slots(fs.g, chain)
        ensures 0 <= SlotSector(fs.g, chain, i) < |fs.view| && fs.view[SlotSector(fs.g, chain, i)] == Zeros()
      {
        AddedSlot(fs.g, ch, c, i);
      }
      forall s | 0 <= s < |v| && !InFat(fs.g, s) && !InFile(fs.g, chain, s) ensures fs.view[s] == v[s] {
        if Clust2Sect(fs.g, c) <= s < Clust2Sect(fs.g, c) + fs.g.csize {
          RangeOf(fs.g, c, s);
        }
      }
    }

    lemma OldSlot(f: seq<nat>, ch: seq<nat>, c: Dword, i: nat)
      requires Valid() && chain == ch + [c] && ch != [] && IsChain(f, ch) && InTable(f, c) && f[c] == 0
      requires ClusterSize(fs.g.csize) && |f| == fs.g.nFatent <= DWORD_MAX && i < Slots(fs.g, ch)
      ensures SlotSector(fs.g, chain, i) == SlotSector(fs.g, ch, i) &&
              fs.g.database <= SlotSector(fs.g, ch, i) < |fs.view|
      ensures !InFat(fs.g, SlotSector(fs.g, ch, i))
      ensures !(ClusterSector(fs.g, c, 0) <= SlotSector(fs.g, ch, i) < ClusterSector(fs.g, c, 0) + fs.g.csize)
    {
      hide FatFs.Valid, IsChain;
      fs.DataBounds();
      SlotsGrow(fs.g, ch, c);
      var k := i / 16;
      DivBound(k, fs.g.csize, |ch|);
      ChainLink(f, ch, k / fs.g.csize + 1);
      var b := ch[k / fs.g.csize];
      assert b in ch;
      ChainMember(f, ch, b);
      ClusterSectorInside(fs.g, b, k % fs.g.csize, |fs.view|);
      ClusterSectorParts(fs.g, b, k % fs.g.csize);
      var s := SlotSector(fs.g, ch, i);
      if ClusterSector(fs.g, c, 0) <= s < ClusterSector(fs.g, c, 0) + fs.g.csize {
        RangeOf(fs.g, c, s);
      }
    }

    // One more cluster behind the last one, filled with zeros.
    method Stretch() returns (res: FResult, clst: int)
      requires Valid() && chain != [] && clust == chain[|chain| - 1]
      modifies `chain
      modifies fs`disk, fs`winsect, fs`wflag, fs`view, fs`fat, fs`lastClust, fs`freeClust, fs.win
      ensures Valid() && |fs.disk| == |old(fs.disk)|
      ensures old(fs.Mirrored()) ==> fs.Mirrored()
      ensures CountKept(old(fs.fat), old(fs.freeClust), fs.fat, fs.freeClust)
      ensures ClusterSize(fs.g.csize) && Extends(fs.g, old(fs.view), old(chain), fs.view, chain)
      ensures Outcome(old(fs.fat), old(chain), res)
      ensures res == Ok ==> clst == chain[|chain| - 1]
    {
      hide FatFs.Valid, IsChain, Extends, FileSector, Clust2Sect, Full, HasReserved, Grown;
      fs.DataBounds();
      fs.TableBounds();
      ghost var f, ch, v := fs.fat, chain, fs.view;
      ChainLink(f, ch, |ch|);
      clst := fs.CreateChain(clust);
      ScanMeans(f, old(fs.ScanStart(clust)), clst, ch, Trunc(fs.g.fatType, END_MARK));
      res := if clst == 0 then Denied else if clst == 1 then IntErr else if clst == DWORD_MAX then DiskErr else Ok;
      if res != Ok {
        ExtendsTable(v);
        return;
      }
      chain := chain + [clst];
      ghost var u := fs.view;
      NewCluster(clst);
      fs.ClearCluster(clst);
      Added(f, v, u, ch, clst);
    }

    // The next cluster of the table, or one more for it with stretch.
    method NextCluster(stretch: bool) returns (res: FResult, clst: int)
      requires Valid() && Near(index) && chain != [] && (index + 1) % 16 == 0 && (index + 1) / 16 % fs.g.csize == 0
      modifies `chain
      modifies fs`disk, fs`winsect, fs`wflag, fs`view, fs`fat, fs`lastClust, fs`freeClust, fs.win
      ensures Valid() && |fs.disk| == |old(fs.disk)|
      ensures old(fs.Mirrored()) ==> fs.Mirrored()
      ensures CountKept(old(fs.fat), old(fs.freeClust), fs.fat, fs.freeClust)
      ensures ClusterSize(fs.g.csize) && Extends(fs.g, old(fs.view), old(chain), fs.view, chain)
      ensures res == Ok ==> InCluster(index + 1, clst, 0)
      ensures index + 1 < Slots(fs.g, old(chain)) ==> res == Ok
      ensures index + 1 < Slots(fs.g, old(chain)) || !stretch ==>
                chain == old(chain) && fs.view == old(fs.view) && fs.fat == old(fs.fat)
      ensures index + 1 >= Slots(fs.g, old(chain)) && !stretch ==> res == NoFile
      ensures index + 1 >= Slots(fs.g, old(chain)) && stretch ==> Outcome(old(fs.fat), old(chain), res)
    {
      hide FatFs.Valid, IsChain, Extends, FileSector, Clust2Sect, Slots, InCluster;
      fs.DataBounds();
      fs.TableBounds();
      NextInChain();
      ghost var j := index / 16 / fs.g.csize + 1;
      BoundaryGroup(index + 1, fs.g.csize);
      ChainLink(fs.fat, chain, j);
      ClusterSlots(index + 1, j);
      ExtendsTable(fs.view);
      clst := fs.GetFat(clust);
      if clst <= 1 { return IntErr, clst; }
      if clst == DWORD_MAX { return DiskErr, clst; }
      if clst >= fs.g.nFatent {
        if !stretch { return NoFile, clst; }
        res, clst := Stretch();
        if res == Ok { ClusterSlots(index + 1, j); }
      } else {
        res := Ok;
      }
    }

    // dir_next: the cursor at the next entry; behind the last one the end of the table, or with
    // stretch a table that is longer by a cluster of zeros.
    method Next(stretch: bool) returns (res: FResult)
      requires Valid() && At(index)
      modifies `index, `clust, `sect, `off, `chain
      modifies fs`disk, fs`winsect, fs`wflag, fs`view, fs`fat, fs`lastClust, fs`freeClust, fs.win
      ensures Valid() && |fs.disk| == |old(fs.disk)|
      ensures old(fs.Mirrored()) ==> fs.Mirrored()
      ensures CountKept(old(fs.fat), old(fs.freeClust), fs.fat, fs.freeClust)
      ensures ClusterSize(fs.g.csize) && Extends(fs.g, old(fs.view), old(chain), fs.view, chain)
      ensures res == Ok ==> At(old(index) + 1)
      ensures NextResult(old(index) + 1, old(chain), stretch) == Denied ==> Outcome(old(fs.fat), old(chain), res)
      ensures NextResult(old(index) + 1, old(chain), stretch) in {Ok, NoFile} ==>
                res == NextResult(old(index) + 1, old(chain), stretch) &&
                chain == old(chain) && fs.view == old(fs.view) && fs.fat == old(fs.fat)
    {
      hide FatFs.Valid, IsChain, Extends, FileSector, Clust2Sect, Outcome, Slots, FatFs.Mirrored, CountKept;
      fs.DataBounds();
      CountKeptSelf(fs.fat, fs.freeClust);
      var i := index + 1;
      SlotInside(index);
      Successor();
      ExtendsTable(fs.view);
      if i % 0x1_0000 == 0 || sect == 0 { return NoFile; }
      res := Ok;
      if i % (SS / ENTRY) == 0 {
        res := ChangeSector(stretch);
        if res != Ok { return; }
      }
      index, off := i, i % (SS / ENTRY) * ENTRY;
    }

    lemma DynamicIfCluster()
      requires Valid() && At(index)
      ensures clust == 0 <==> chain == []
    {
      hide FatFs.Valid;
      if chain != [] {
        assert InTable(fs.fat, chain[index / 16 / fs.g.csize]);
      }
    }

    // Sector and cluster of the cursor belong to entry i.
    ghost predicate Arrived(i: nat)
      reads `clust, `sect, `chain
    {
      && ClusterSize(fs.g.csize) && i < Slots(fs.g, chain) && sect == SlotSector(fs.g, chain, i)
      && (if chain == [] then clust == 0 else i / 16 / fs.g.csize < |chain| && clust == chain[i / 16 / fs.g.csize])
    }

    // The part of dir_next where the sector changes.
    method ChangeSector(stretch: bool) returns (res: FResult)
      requires Valid() && At(index) && (index + 1) % 16 == 0 && index + 1 < 0x1_0000
      modifies `clust, `sect, `chain
      modifies fs`disk, fs`winsect, fs`wflag, fs`view, fs`fat, fs`lastClust, fs`freeClust, fs.win
      ensures Valid() && |fs.disk| == |old(fs.disk)|
      ensures old(fs.Mirrored()) ==> fs.Mirrored()
      ensures CountKept(old(fs.fat), old(fs.freeClust), fs.fat, fs.freeClust)
      ensures ClusterSize(fs.g.csize) && Extends(fs.g, old(fs.view), old(chain), fs.view, chain)
      ensures res == Ok ==> Arrived(index + 1)
      ensures NextResult(index + 1, old(chain), stretch) == Denied ==> Outcome(old(fs.fat), old(chain), res)
      ensures NextResult(index + 1, old(chain), stretch) in {Ok, NoFile} ==>
                res == NextResult(index + 1, old(chain), stretch) &&
                chain == old(chain) && fs.view == old(fs.view) && fs.fat == old(fs.fat)
    {
      hide FatFs.Valid, IsChain, Extends, FileSector, Clust2Sect, Outcome, Slots, FatFs.Mirrored, CountKept;
      fs.DataBounds();
      CountKeptSelf(fs.fat, fs.freeClust);
      var i := index + 1;
      SlotInside(index);
      Successor();
      ExtendsTable(fs.view);
      DynamicIfCluster();
      sect := sect + 1;
      res := Ok;
      if clust == 0 {
        if i >= fs.g.nRootdir { return NoFile; }
      } else {
        NextInChain();
        if i / (SS / ENTRY) % fs.g.csize == 0 {
          var clst: int;
          res, clst := NextCluster(stretch);
          if res != Ok { return; }
          clust, sect := clst, Clust2Sect(fs.g, clst);
        }
      }
    }

    // The window over the sector of the cursor.
    method Look() returns (res: FResult)
      requires Valid() && At(index)
      modifies fs`disk, fs`winsect, fs`wflag, fs.win
      ensures Valid() && |fs.disk| == |old(fs.disk)|
      ensures old(fs.Mirrored()) ==> fs.Mirrored()
      ensures res == Ok && fs.winsect == sect < |fs.view| && fs.win[..] == fs.view[sect]
      ensures off + ENTRY <= fs.win.Length == SS
    {
      hide FatFs.WindowValid, IsChain, SlotSector, Slots, Entry;
      SlotInside(index);
      fs.WindowBounds();
      res := fs.MoveWindow(sect);
      fs.WindowBounds();
    }

    // dir_alloc: the cursor at the last of nent free entries in a row, which the table is stretched
    // for if need be.
    method Alloc(nent: nat) returns (res: FResult)
      requires fs.Valid() && (sclust != 1 && sclust < fs.g.nFatent ==> Valid()) && nent > 0
      modifies `index, `clust, `sect, `off, `chain
      modifies fs`disk, fs`winsect, fs`wflag, fs`view, fs`fat, fs`lastClust, fs`freeClust, fs.win
      ensures fs.Valid() && |fs.disk| == |old(fs.disk)|
      ensures old(fs.Mirrored()) ==> fs.Mirrored()
      ensures CountKept(old(fs.fat), old(fs.freeClust), fs.fat, fs.freeClust)
      ensures sclust == 1 || sclust >= fs.g.nFatent ==> res == IntErr && fs.view == old(fs.view)
      ensures sclust != 1 && sclust < fs.g.nFatent ==>
                Valid() && ClusterSize(fs.g.csize) && Extends(fs.g, old(fs.view), old(chain), fs.view, chain)
      ensures res == Ok ==> At(index) && nent <= index + 1
      ensures res == Ok ==> forall j | index + 1 - nent <= j <= index :: FreeSlot(fs.g, fs.view, chain, j)
      ensures res == Ok ==> WereFree(fs.g, old(fs.view), old(chain), index + 1 - nent, index)
      ensures res == Ok ==> NoRun(fs.g, fs.view, chain, nent, index)
      ensures res in {Ok, Denied, IntErr}
      ensures res == Denied ==> NoRoom(fs.g, fs.view, chain, fs.fat, nent)
      ensures res == IntErr ==> sclust == 1 || sclust >= fs.g.nFatent || HasReserved(fs.fat)
    {
      hide FatFs.Valid, IsChain, Extends, SlotSector, Outcome, Slots, Linked, FreeSlot, WereFree, NoRun, NoRoom,
           HasReserved;
      res := Sdi(0);
      if sclust != 1 && sclust < fs.g.nFatent {
        ExtendsTable(fs.view);
        FirstSlot();
      }
      if res == Ok {
        res := FindFree(nent);
        if res == Ok {
          FreeBefore(fs.g, old(fs.view), old(chain), fs.view, chain, index + 1 - nent, index);
        }
      }
      if res == NoFile { res := Denied; }
    }

    method FindFree(nent: nat) returns (res: FResult)
      requires Valid() && At(0) && nent > 0
      modifies `index, `clust, `sect, `off, `chain
      modifies fs`disk, fs`winsect, fs`wflag, fs`view, fs`fat, fs`lastClust, fs`freeClust, fs.win
      ensures Valid() && |fs.disk| == |old(fs.disk)|
      ensures old(fs.Mirrored()) ==> fs.Mirrored()
      ensures CountKept(old(fs.fat), old(fs.freeClust), fs.fat, fs.freeClust)
      ensures ClusterSize(fs.g.csize) && Extends(fs.g, old(fs.view), old(chain), fs.view, chain)
      ensures res == Ok ==> At(index) && nent <= index + 1
      ensures res == Ok ==> forall j | index + 1 - nent <= j <= index :: FreeSlot(fs.g, fs.view, chain, j)
      ensures res == Ok ==> NoRun(fs.g, fs.view, chain, nent, index)
      ensures res in {Ok, Denied, IntErr, NoFile}
      ensures res in {Denied, NoFile} ==> NoRoom(fs.g, fs.view, chain, fs.fat, nent)
      ensures res == IntErr ==> HasReserved(fs.fat)
    {
      hide FatFs.Valid, IsChain, Extends, SlotSector, Slots, Linked, FreeSlot, ClusterSize, NoRun, NoRoom, Full,
           HasReserved;
      fs.DataBounds();
      NothingBefore(nent);
      ExtendsTable(fs.view);
      var n: nat := 0;
      res := Ok;
      while true
        invariant Valid() && |fs.disk| == |old(fs.disk)| && At(index)
        invariant old(fs.Mirrored()) ==> fs.Mirrored()
        invariant CountKept(old(fs.fat), old(fs.freeClust), fs.fat, fs.freeClust)
        invariant Extends(fs.g, old(fs.view), old(chain), fs.view, chain)
        invariant n < nent && n <= index && forall j | index - n <= j < index :: FreeSlot(fs.g, fs.view, chain, j)
        invariant n == index || !FreeSlot(fs.g, fs.view, chain, index - n - 1)
        invariant NoRun(fs.g, fs.view, chain, nent, index)
        decreases 0x1_0000 - index
      {
        res := Look();
        if res != Ok { break; }
        FreeHere();
        ghost var n0 := n;
        if fs.win[off] == DDEM || fs.win[off] == 0 {
          n := n + 1;
          if n == nent { break; }
        } else {
          n := 0;
        }
        ghost var v, ch, f, i := fs.view, chain, fs.fat, index;
        NoRunYet(fs.g, v, ch, nent, i, n0);
        res := Next(true);
        ExtendsTwice(fs.g, old(fs.view), old(chain), v, ch, fs.view, chain);
        KeepsFree(v, ch);
        NoRunStays(fs.g, v, ch, fs.view, chain, nent, i + 1);
        FreeWas(fs.g, v, ch, fs.view, chain, if n > i then 0 else i - n);
        if res != Ok { EndOfRoom(f, ch, nent, i, res); }
        if res != Ok { break; }
      }
    }

    lemma FreeHere()
      requires Valid() && At(index) && |fs.view| > sect && fs.win[..] == fs.view[sect] && off < fs.win.Length
      ensures fs.win[off] in {0, DDEM} <==> FreeSlot(fs.g, fs.view, chain, index)
    {
      hide FatFs.Valid, SlotSector;
      SlotInside(index);
      assert fs.win[off] == fs.win[..][off];
    }

    // A table has a first entry.
    lemma FirstSlot()
      requires Valid()
      ensures Slots(fs.g, chain) > 0
    {
      fs.DataBounds();
      if chain != [] {
        SlotsOfChain(|chain|, fs.g.csize);
        Scale(1, |chain|, 16 * fs.g.csize);
      }
    }

    lemma NothingBefore(nent: nat)
      requires nent > 0
      ensures NoRun(fs.g, fs.view, chain, nent, 0)
    {
    }

    // The search ended behind entry i: the table ends there and was not stretched.
    lemma EndOfRoom(f: seq<nat>, ch: seq<nat>, nent: nat, i: nat, res: FResult)
      requires i < Slots(fs.g, ch) && i < 0x1_0000 && NoRun(fs.g, fs.view, chain, nent, i + 1) && res != Ok
      requires if NextResult(i + 1, ch, true) == Denied then Outcome(f, ch, res)
               else res == NextResult(i + 1, ch, true) && chain == ch
      ensures res in {NoFile, Denied, IntErr}
      ensures res in {NoFile, Denied} ==> NoRoom(fs.g, fs.view, chain, fs.fat, nent)
      ensures res == IntErr ==> HasReserved(fs.fat)
    {
    }

    lemma KeepsFree(v: seq<Sector>, ch: seq<nat>)
      requires ClusterSize(fs.g.csize) && Extends(fs.g, v, ch, fs.view, chain)
      ensures forall j | FreeSlot(fs.g, v, ch, j) :: FreeSlot(fs.g, fs.view, chain, j)
    {
      hide Extends, FreeSlot;
      forall j | FreeSlot(fs.g, v, ch, j) ensures FreeSlot(fs.g, fs.view, chain, j) {
        FreeStays(fs.g, v, ch, fs.view, chain, j);
      }
    }

    // Stepping from the first entry leads where dir_sdi leads, and fails where that fails.
    method SdiBySteps(n: nat) returns (res: FResult)
      requires Valid() && sclust != 1 && sclust < fs.g.nFatent && n < 0x1_0000
      modifies `index, `clust, `sect, `off, `chain
      modifies fs`disk, fs`winsect, fs`wflag, fs`view, fs`fat, fs`lastClust, fs`freeClust, fs.win
      ensures Valid() && chain == old(chain) && fs.view == old(fs.view) && fs.fat == old(fs.fat)
      ensures res == Ok <==> n < Slots(fs.g, chain)
      ensures res == Ok ==> At(n)
    {
      hide FatFs.Valid, IsChain, Extends, SlotSector, Outcome, Slots, Linked;
      res := Sdi(0);
      var i := 0;
      while i < n && res == Ok
        invariant Valid() && chain == old(chain) && fs.view == old(fs.view) && fs.fat == old(fs.fat)
        invariant i <= n && (res == Ok ==> At(i))
        invariant res != Ok ==> n >= Slots(fs.g, chain)
        decreases n - i, if res == Ok then 1 else 0
      {
        res := Next(false);
        i := i + 1;
      }
    }

    // Whether entry i is there, or the table ends before it (Denied: it can be stretched).
    ghost function NextResult(i: nat, ch: seq<nat>, stretch: bool): FResult {
      if i >= 0x1_0000 then NoFile
      else if i < Slots(fs.g, ch) then Ok
      else if stretch && ch != [] then Denied else NoFile
    }

    // The entries of the fixed root directory.
    lemma RootBounds(idx: nat)
      requires fs.Valid()
      ensures ClusterSize(fs.g.csize)
      ensures chain == [] && idx < fs.g.nRootdir ==>
                idx < Slots(fs.g, chain) && SlotSector(fs.g, chain, idx) == fs.g.dirbase + idx / 16
      ensures chain == [] ==> Slots(fs.g, chain) == fs.g.nRootdir
    {
      fs.DataBounds();
    }
  }

  lemma SlotsGrow(g: Geometry, ch: seq<nat>, c: nat)
    requires ch != []
    ensures Slots(g, ch + [c]) == Slots(g, ch) + 16 * g.csize
  {
    assert (|ch| + 1) * g.csize == |ch| * g.csize + g.csize;
  }

  // The entries of an added cluster.
  lemma AddedSlot(g: Geometry, ch: seq<nat>, c: nat, i: nat)
    requires ClusterSize(g.csize) && ch != [] && Slots(g, ch) <= i < Slots(g, ch + [c])
    ensures ClusterSector(g, c, 0) <= SlotSector(g, ch + [c], i) < ClusterSector(g, c, 0) + g.csize
  {
    SlotsGrow(g, ch, c);
    var k := i / 16;
    DivModUnique(k, g.csize, |ch|, k - |ch| * g.csize);
  }

  lemma RangeOf(g: Geometry, c: nat, s: int)
    requires ClusterSize(g.csize) && c >= 2 && ClusterSector(g, c, 0) <= s < ClusterSector(g, c, 0) + g.csize
    ensures SectorCluster(g, s) == c && s >= g.database
  {
    ClusterSectorParts(g, c, s - ClusterSector(g, c, 0));
  }

  lemma BoundaryGroup(x: nat, n: nat)
    requires n > 0 && x % 16 == 0 && x / 16 % n == 0
    ensures x == x / 16 / n * (16 * n)
  {
    assert x / 16 == x / 16 / n * n;
    assert x == 16 * (x / 16 / n * n);
    assert 16 * (x / 16 / n * n) == x / 16 / n * (16 * n);
  }

  lemma SameSixteen(i: nat)
    requires (i + 1) % 16 != 0
    ensures (i + 1) / 16 == i / 16
  {
  }

  lemma NextGroup(idx: nat, j: nat, rest: int, ic: nat)
    requires idx == j * ic + rest
    ensures idx == (j + 1) * ic + (rest - ic)
  {
  }

  // The sector behind sector k of m clusters of n sectors.
  lemma NextSector(k: nat, n: nat, m: nat)
    requires n > 0 && k < m * n
    ensures (k + 1) % n != 0 ==> (k + 1) / n == k / n && (k + 1) % n == k % n + 1 && k + 1 < m * n
    ensures (k + 1) % n == 0 ==> (k + 1) / n == k / n + 1
  {
    DivBound(k, n, m);
    if (k + 1) % n == 0 {
      GroupBefore(k + 1, n);
    } else {
      if k % n == n - 1 {
        assert (k / n + 1) * n == k / n * n + n;
        DivModUnique(k + 1, n, k / n + 1, 0);
      }
      SameGroup(k, k + 1, n);
      Scale(k / n + 1, m, n);
      assert (k / n + 1) * n == k / n * n + n;
    }
  }

  lemma NextSlot(g: Geometry, ch: seq<nat>, i: nat)
    requires ClusterSize(g.csize) && ch != [] && i < Slots(g, ch) && (i + 1) % 16 == 0
    ensures (i + 1) / 16 % g.csize != 0 ==>
              i + 1 < Slots(g, ch) && SlotSector(g, ch, i + 1) == SlotSector(g, ch, i) + 1 &&
              (i + 1) / 16 / g.csize == i / 16 / g.csize
    ensures (i + 1) / 16 % g.csize == 0 ==> (i + 1) / 16 / g.csize == i / 16 / g.csize + 1
  {
    DivBound(i / 16, g.csize, |ch|);
    NextSector(i / 16, g.csize, |ch|);
    assert (i + 1) / 16 == i / 16 + 1;
  }

  lemma SlotsOfChain(n: nat, csize: nat)
    ensures 16 * (n * csize) == n * (16 * csize)
  {
  }
}
