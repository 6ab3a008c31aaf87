// Objects with long names in a directory: dir_register writes their entries, dir_read finds them.
module DirName {
  import opened Bytes
  import opened FatTable
  import Chains
  import opened Volume
  import FileView
  import FileIo
  import opened LongName
  import opened Directory

  // ---- Writing one entry ----

  // Slots lie apart: a sector that changes in slot i only leaves every other slot alone.
  lemma OtherSlots(dp: Dir, v: seq<Sector>, i: nat, data: Sector)
    requires dp.Valid() && ClusterSize(dp.fs.g.csize) && |v| == |dp.fs.view| && i < Slots(dp.fs.g, dp.chain)
    requires 0 <= SlotSector(dp.fs.g, dp.chain, i) < |v| && dp.fs.view == v[SlotSector(dp.fs.g, dp.chain, i) := data]
    requires forall b | 0 <= b < SS && !(i % 16 * ENTRY <= b < i % 16 * ENTRY + ENTRY) ::
               data[b] == v[SlotSector(dp.fs.g, dp.chain, i)][b]
    ensures forall j | 0 <= j < Slots(dp.fs.g, dp.chain) && j != i ::
              0 <= SlotSector(dp.fs.g, dp.chain, j) < |v| &&
              Slot(dp.fs.g, dp.fs.view, dp.chain, j) == Slot(dp.fs.g, v, dp.chain, j)
  {
    hide FatFs.Valid, SlotSector, Slots, Dir.Linked;
    forall j | 0 <= j < Slots(dp.fs.g, dp.chain) && j != i
      ensures 0 <= SlotSector(dp.fs.g, dp.chain, j) < |v|
      ensures Slot(dp.fs.g, dp.fs.view, dp.chain, j) == Slot(dp.fs.g, v, dp.chain, j)
    {
      dp.SlotInside(j);
      SectorsApart(dp, i, j);
    }
  }

  lemma SectorsApart(dp: Dir, i: nat, j: nat)
    requires dp.Valid() && ClusterSize(dp.fs.g.csize) && i < Slots(dp.fs.g, dp.chain) && j < Slots(dp.fs.g, dp.chain)
    ensures i / 16 != j / 16 ==> SlotSector(dp.fs.g, dp.chain, i) != SlotSector(dp.fs.g, dp.chain, j)
    ensures i / 16 == j / 16 && i != j ==> i % 16 != j % 16
  {
    hide FatFs.Valid, FileView.FileSector, Chains.IsChain, FileView.StoreOk;
    if dp.chain != [] && i / 16 != j / 16 {
      FileIo.StoreFromChain(dp.fs, dp.chain, 0, Zeros());
      FileView.FileSectorInjective(Table(dp.fs, dp.chain), i / 16, j / 16);
    }
  }

  // Only slot i of the directory differs between two views.
  ghost predicate OnlySlot(g: Geometry, ch: seq<nat>, v: seq<Sector>, w: seq<Sector>, i: nat) {
    && ClusterSize(g.csize) && |v| == |w| && i < Slots(g, ch) && 0 <= SlotSector(g, ch, i) < |v|
    && (forall s | 0 <= s < |v| && s != SlotSector(g, ch, i) :: w[s] == v[s])
    && (forall j | 0 <= j < Slots(g, ch) && j != i ::
          0 <= SlotSector(g, ch, j) < |v| && Slot(g, w, ch, j) == Slot(g, v, ch, j))
  }

  // The window holds the sector of the cursor with new bytes in the slot of the cursor.
  method Commit(dp: Dir, ghost was: seq<Byte>)
    requires dp.At(dp.index) && dp.Linked() && dp.fs.Over() && dp.fs.winsect == dp.sect && !InFat(dp.fs.g, dp.sect)
    requires dp.sclust == 0 && dp.fs.g.fatType == Fat32 ==> 2 <= dp.fs.g.dirbase < dp.fs.g.nFatent
    requires |dp.fs.fat| == dp.fs.g.nFatent &&
             forall c | 0 <= c < |dp.fs.fat| :: dp.fs.fat[c] == Entry(dp.fs.view, dp.fs.g, c)
    requires |was| == SS && dp.sect < |dp.fs.view| && dp.fs.view[dp.sect] == was
    requires forall b | 0 <= b < SS && !(dp.off <= b < dp.off + ENTRY) :: dp.fs.win[b] == was[b]
    modifies dp.fs`wflag, dp.fs`view
    ensures dp.Valid() && dp.At(dp.index) && |dp.fs.disk| == |old(dp.fs.disk)|
    ensures old(dp.fs.Mirrored()) ==> dp.fs.Mirrored()
    ensures OnlySlot(dp.fs.g, dp.chain, old(dp.fs.view), dp.fs.view, dp.index)
    ensures Slot(dp.fs.g, dp.fs.view, dp.chain, dp.index) == dp.fs.win[dp.off..dp.off + ENTRY]
  {
    hide Entry, SlotSector, Slots, Dir.Linked, FatFs.Over;
    OverBounds(dp.fs);
    dp.fs.Touch();
    OtherSlots(dp, old(dp.fs.view), dp.index, dp.fs.win[..]);
  }

  lemma OverBounds(fs: FatFs)
    requires fs.Over()
    ensures fs.win.Length == SS && |fs.view| == |fs.disk| && fs.winsect < |fs.view| && Covers(fs.view, fs.g)
  {
  }

  // Part ord of a long name goes to the entry of the cursor.
  method PutPart(dp: Dir, lfn: array<Word>, ord: Byte, sum: Byte, ghost name: seq<Word>) returns (res: FResult)
    requires dp.Valid() && dp.At(dp.index)
    requires IsName(name) && Holds(lfn[..], name) && 1 <= ord <= Parts(name)
    modifies dp.fs`disk, dp.fs`winsect, dp.fs`wflag, dp.fs`view, dp.fs.win
    ensures dp.Valid() && dp.At(dp.index) && |dp.fs.disk| == |old(dp.fs.disk)|
    ensures old(dp.fs.Mirrored()) ==> dp.fs.Mirrored()
    ensures res == Ok && OnlySlot(dp.fs.g, dp.chain, old(dp.fs.view), dp.fs.view, dp.index)
    ensures IsPart(Slot(dp.fs.g, dp.fs.view, dp.chain, dp.index), name, ord, sum)
  {
    hide FatFs.WindowValid, FatFs.Over, Entry, SlotSector, Slots, Dir.Linked, OnlySlot, IsPart;
    dp.SlotInside(dp.index);
    res := dp.Look();
    dp.fs.WindowIsOver();
    ghost var was := dp.fs.win[..];
    FitLfn(lfn, dp.fs.win, dp.off, ord, sum, name);
    Commit(dp, was);
  }

  // The entry of the short name fn: 11 characters, and the case flags of its status byte.
  ghost predicate IsShort(e: seq<Byte>, fn: seq<Byte>) {
    && |e| == ENTRY && |fn| == 12 && e[..11] == fn[..11] && e[11] == 0 && e[12] == fn[11] / 8 % 4 * 8
    && forall i | 13 <= i < ENTRY :: e[i] == 0
  }

  // The case flags are the two bits of the status byte.
  lemma CaseFlags(e: seq<Byte>, fn: seq<Byte>)
    requires IsShort(e, fn)
    ensures e[12] == And(fn[11], 0x18, 8)
  {
    TwoBits(fn[11]);
  }

  lemma TwoBits(f: nat)
    ensures And(f, 0x18, 8) == f / 8 % 4 * 8
  {
    hide And;
    AndStep(f, 24, 8);
    AndStep(f / 2, 12, 7);
    AndStep(f / 4, 6, 6);
    AndStep(f / 8, 3, 5);
    AndStep(f / 16, 1, 4);
    AndNothing(f / 32, 3);
  }

  lemma AndStep(a: nat, b: nat, n: nat)
    requires n > 0
    ensures And(a, b, n) == (if a % 2 == 1 && b % 2 == 1 then 1 else 0) + 2 * And(a / 2, b / 2, n - 1)
  {
  }

  lemma {:induction false} AndNothing(a: nat, n: nat)
    ensures And(a, 0, n) == 0
  {
    if n > 0 {
      AndNothing(a / 2, n - 1);
    }
  }

  method PutShort(dp: Dir, fn: seq<Byte>) returns (res: FResult)
    requires dp.Valid() && dp.At(dp.index) && |fn| == 12
    modifies dp.fs`disk, dp.fs`winsect, dp.fs`wflag, dp.fs`view, dp.fs.win
    ensures dp.Valid() && dp.At(dp.index) && |dp.fs.disk| == |old(dp.fs.disk)|
    ensures old(dp.fs.Mirrored()) ==> dp.fs.Mirrored()
    ensures res == Ok && OnlySlot(dp.fs.g, dp.chain, old(dp.fs.view), dp.fs.view, dp.index)
    ensures IsShort(Slot(dp.fs.g, dp.fs.view, dp.chain, dp.index), fn)
  {
    hide FatFs.WindowValid, FatFs.Over, Entry, SlotSector, Slots, Dir.Linked, OnlySlot, IsShort;
    dp.SlotInside(dp.index);
    res := dp.Look();
    dp.fs.WindowIsOver();
    ghost var was := dp.fs.win[..];
    FillShort(dp.fs.win, dp.off, fn);
    Commit(dp, was);
  }

  method FillShort(dir: array<Byte>, d: nat, fn: seq<Byte>)
    requires d + ENTRY <= dir.Length && |fn| == 12
    modifies dir
    ensures IsShort(dir[d..d + ENTRY], fn)
    ensures forall i | 0 <= i < dir.Length && !(d <= i < d + ENTRY) :: dir[i] == old(dir[i])
  {
    for i := 0 to ENTRY
      invariant forall k | d <= k < d + i :: dir[k] == 0
      invariant forall k | 0 <= k < dir.Length && !(d <= k < d + ENTRY) :: dir[k] == old(dir[k])
    {
      dir[d + i] := 0;
    }
    for i := 0 to 11
      invariant forall k | d <= k < d + i :: dir[k] == fn[k - d]
      invariant forall k | d + 11 <= k < d + ENTRY :: dir[k] == 0
      invariant forall k | 0 <= k < dir.Length && !(d <= k < d + ENTRY) :: dir[k] == old(dir[k])
    {
      dir[d + i] := fn[i];
    }
    dir[d + 12] := fn[11] / 8 % 4 * 8;
    ShortBytes(dir[d..d + ENTRY], fn);
  }

  lemma ShortBytes(e: seq<Byte>, fn: seq<Byte>)
    requires |e| == ENTRY && |fn| == 12 && forall i | 0 <= i < 11 :: e[i] == fn[i]
    requires e[11] == 0 && e[12] == fn[11] / 8 % 4 * 8 && forall i | 13 <= i < ENTRY :: e[i] == 0
    ensures IsShort(e, fn)
  {
    assert e[..11] == fn[..11];
  }

  // ---- Writing an object ----

  // Parts lo + 1 to hi of the name stand in front of entry top, the first part last.
  ghost predicate PartsAt(g: Geometry, v: seq<Sector>, ch: seq<nat>, name: seq<Word>, top: nat, lo: nat, hi: nat,
                          sum: Byte)
  {
    && ClusterSize(g.csize) && hi <= top < Slots(g, ch)
    && forall j | top - hi <= j < top - lo ::
         0 <= SlotSector(g, ch, j) < |v| && IsPart(Slot(g, v, ch, j), name, top - j, sum)
  }

  // Entry top is the short entry of fn with the k parts of the name in front of it.
  ghost predicate IsObject(g: Geometry, v: seq<Sector>, ch: seq<nat>, name: seq<Word>, k: nat, fn: seq<Byte>,
                           top: nat)
  {
    && |fn| == 12 && PartsAt(g, v, ch, name, top, 0, k, SumSfn(fn, 11))
    && 0 <= SlotSector(g, ch, top) < |v| && IsShort(Slot(g, v, ch, top), fn)
  }

  // Every part of the name carries the sum of its short entry in byte 13, so 0x91 for AB and 0x51 for BA.
  lemma PartsCarrySum(g: Geometry, v: seq<Sector>, ch: seq<nat>, name: seq<Word>, k: nat, fn: seq<Byte>, top: nat,
                      p: nat)
    requires IsObject(g, v, ch, name, k, fn, top) && 1 <= p <= k
    ensures k <= top < Slots(g, ch) && 0 <= SlotSector(g, ch, top - p) < |v|
    ensures Slot(g, v, ch, top - p)[13] == SumSfn(fn[..11], 11)
    ensures (forall i | 2 <= i < 11 :: fn[i] == 0x20) ==>
              && (fn[0] == 0x41 && fn[1] == 0x42 ==> Slot(g, v, ch, top - p)[13] == 0x91)
              && (fn[0] == 0x42 && fn[1] == 0x41 ==> Slot(g, v, ch, top - p)[13] == 0x51)
  {
    hide SlotSector, Slots, Slot, SumSfn, IsShort;
    SameSum(fn, fn[..11], 11);
    if (forall i | 2 <= i < 11 :: fn[i] == 0x20) && fn[0] == 0x41 && fn[1] == 0x42 {
      SumOfAB(fn[..11]);
    } else if (forall i | 2 <= i < 11 :: fn[i] == 0x20) && fn[0] == 0x42 && fn[1] == 0x41 {
      SumOfBA(fn[..11]);
    }
  }

  // From view v and chain ch on, all entries but those from lo to hi are kept.
  ghost predicate KeptBut(g: Geometry, v: seq<Sector>, ch: seq<nat>, w: seq<Sector>, ch': seq<nat>, lo: int, hi: int) {
    && ClusterSize(g.csize) && Slots(g, ch) <= Slots(g, ch')
    && forall j | 0 <= j < Slots(g, ch) ::
         0 <= SlotSector(g, ch, j) < |v| && 0 <= SlotSector(g, ch', j) < |w| &&
         (lo <= j <= hi || Slot(g, w, ch', j) == Slot(g, v, ch, j))
  }

  lemma ExtendsKeeps(g: Geometry, v: seq<Sector>, ch: seq<nat>, w: seq<Sector>, ch': seq<nat>, lo: int, hi: int)
    requires ClusterSize(g.csize) && Extends(g, v, ch, w, ch')
    ensures KeptBut(g, v, ch, w, ch', lo, hi)
  {
    hide SlotSector, Slots;
  }

  lemma OnlySlotKeeps(g: Geometry, u: seq<Sector>, i: nat, v: seq<Sector>, ch: seq<nat>, w: seq<Sector>,
                      ch': seq<nat>, lo: int, hi: int)
    requires KeptBut(g, v, ch, u, ch', lo, hi) && OnlySlot(g, ch', u, w, i) && lo <= i <= hi
    ensures KeptBut(g, v, ch, w, ch', lo, hi)
  {
    hide SlotSector, Slots, Slot;
  }

  lemma OnlySlotParts(g: Geometry, u: seq<Sector>, w: seq<Sector>, ch: seq<nat>, i: nat, name: seq<Word>, top: nat,
                      lo: nat, hi: nat, sum: Byte)
    requires PartsAt(g, u, ch, name, top, lo, hi, sum) && OnlySlot(g, ch, u, w, i) && !(top - hi <= i < top - lo)
    ensures PartsAt(g, w, ch, name, top, lo, hi, sum)
  {
    hide SlotSector, Slots, Slot, IsPart;
  }

  // One part more.
  lemma PartAdded(g: Geometry, v: seq<Sector>, ch: seq<nat>, name: seq<Word>, top: nat, lo: nat, hi: nat, sum: Byte)
    requires 0 < lo <= hi && PartsAt(g, v, ch, name, top, lo, hi, sum)
    requires 0 <= SlotSector(g, ch, top - lo) < |v| && IsPart(Slot(g, v, ch, top - lo), name, lo, sum)
    ensures PartsAt(g, v, ch, name, top, lo - 1, hi, sum)
  {
    hide SlotSector, Slots, Slot, IsPart;
  }

  method NameLength(lfn: array<Word>, ghost name: seq<Word>) returns (n: nat)
    requires IsName(name) && Holds(lfn[..], name)
    ensures n == |name|
  {
    n := 0;
    while lfn[n] != 0
      invariant n <= |name|
      decreases |name| - n
    {
      n := n + 1;
    }
  }

  // The loop of dir_register over the parts, the last one first.
  method PutParts(dp: Dir, lfn: array<Word>, k: nat, sum: Byte, ghost name: seq<Word>, ghost top: nat,
                  ghost v: seq<Sector>, ghost ch: seq<nat>)
    returns (res: FResult)
    requires dp.Valid() && dp.At(dp.index) && dp.index + k == top < Slots(dp.fs.g, dp.chain) && top < 0x1_0000
    requires IsName(name) && Holds(lfn[..], name) && k == Parts(name) > 0
    requires KeptBut(dp.fs.g, v, ch, dp.fs.view, dp.chain, top - k, top)
    modifies dp`index, dp`clust, dp`sect, dp`off, dp`chain
    modifies dp.fs`disk, dp.fs`winsect, dp.fs`wflag, dp.fs`view, dp.fs`fat, dp.fs`lastClust, dp.fs`freeClust, dp.fs.win
    ensures dp.Valid() && |dp.fs.disk| == |old(dp.fs.disk)|
    ensures old(dp.fs.Mirrored()) ==> dp.fs.Mirrored()
    ensures res == Ok && dp.At(top) && dp.chain == old(dp.chain) && dp.fs.fat == old(dp.fs.fat)
    ensures PartsAt(dp.fs.g, dp.fs.view, dp.chain, name, top, 0, k, sum)
    ensures KeptBut(dp.fs.g, v, ch, dp.fs.view, dp.chain, top - k, top)
  {
    hide FatFs.Valid, SlotSector, Slots, Slot, Dir.Linked, OnlySlot, IsPart, PartsAt, KeptBut, Extends, Dir.Outcome;
    var nent := k;
    NoParts(dp, name, top, k, sum);
    while true
      invariant dp.Valid() && |dp.fs.disk| == |old(dp.fs.disk)|
      invariant old(dp.fs.Mirrored()) ==> dp.fs.Mirrored()
      invariant 0 < nent <= k && dp.At(top - nent) && dp.chain == old(dp.chain) && dp.fs.fat == old(dp.fs.fat)
      invariant PartsAt(dp.fs.g, dp.fs.view, dp.chain, name, top, nent, k, sum)
      invariant KeptBut(dp.fs.g, v, ch, dp.fs.view, dp.chain, top - k, top)
      decreases nent
    {
      ghost var u := dp.fs.view;
      res := PutPart(dp, lfn, nent, sum, name);
      if res != Ok { break; }
      OnlySlotKeeps(dp.fs.g, u, top - nent, v, ch, dp.fs.view, dp.chain, top - k, top);
      OnlySlotParts(dp.fs.g, u, dp.fs.view, dp.chain, top - nent, name, top, nent, k, sum);
      dp.SlotInside(dp.index);
      PartAdded(dp.fs.g, dp.fs.view, dp.chain, name, top, nent, k, sum);
      res := dp.Next(false);
      nent := nent - 1;
      if !(res == Ok && nent != 0) { break; }
    }
  }

  lemma NoParts(dp: Dir, name: seq<Word>, top: nat, k: nat, sum: Byte)
    requires dp.Valid() && ClusterSize(dp.fs.g.csize) && k <= top < Slots(dp.fs.g, dp.chain)
    ensures PartsAt(dp.fs.g, dp.fs.view, dp.chain, name, top, k, k, sum)
  {
    hide FatFs.Valid, SlotSector, Slots;
  }

  // The entries of an object, of which the cursor is at the last one.
  method PutObject(dp: Dir, lfn: array<Word>, fn: seq<Byte>, k: nat, ghost name: seq<Word>,
                   ghost v: seq<Sector>, ghost ch: seq<nat>)
    returns (res: FResult)
    requires dp.Valid() && dp.sclust != 1 && dp.sclust < dp.fs.g.nFatent
    requires dp.At(dp.index) && k <= dp.index < 0x1_0000 && |fn| == 12
    requires k > 0 ==> IsName(name) && Holds(lfn[..], name) && k == Parts(name)
    requires KeptBut(dp.fs.g, v, ch, dp.fs.view, dp.chain, dp.index - k, dp.index)
    modifies dp`index, dp`clust, dp`sect, dp`off, dp`chain
    modifies dp.fs`disk, dp.fs`winsect, dp.fs`wflag, dp.fs`view, dp.fs`fat, dp.fs`lastClust, dp.fs`freeClust, dp.fs.win
    ensures dp.Valid() && |dp.fs.disk| == |old(dp.fs.disk)|
    ensures old(dp.fs.Mirrored()) ==> dp.fs.Mirrored()
    ensures res == Ok && dp.index == old(dp.index) && dp.At(dp.index) && dp.chain == old(dp.chain) &&
            dp.fs.fat == old(dp.fs.fat)
    ensures IsObject(dp.fs.g, dp.fs.view, dp.chain, name, k, fn, dp.index)
    ensures KeptBut(dp.fs.g, v, ch, dp.fs.view, dp.chain, dp.index - k, dp.index)
  {
    hide FatFs.Valid, SlotSector, Slots, Slot, Dir.Linked, OnlySlot, PartsAt, KeptBut, IsShort, FatFs.Mirrored;
    ghost var top := dp.index;
    dp.SlotInside(top);
    NoParts(dp, name, top, 0, SumSfn(fn, 11));
    res := Ok;
    if k != 0 {
      res := dp.Sdi(dp.index - k);
      if res == Ok {
        var sum := SumOf(fn);
        res := PutParts(dp, lfn, k, sum, name, top, v, ch);
      }
    }
    if res == Ok {
      ghost var u := dp.fs.view;
      res := PutShort(dp, fn);
      OnlySlotKeeps(dp.fs.g, u, top, v, ch, dp.fs.view, dp.chain, top - k, top);
      OnlySlotParts(dp.fs.g, u, dp.fs.view, dp.chain, top, name, top, 0, k, SumSfn(fn, 11));
      dp.SlotInside(top);
    }
  }

  // dir_register once the short name is settled: free entries take the parts of the long name, if
  // there is to be one, and the short entry behind them.
  method Register(dp: Dir, lfn: array<Word>, fn: seq<Byte>, nsLfn: bool, ghost name: seq<Word>) returns (res: FResult)
    requires dp.fs.Valid() && (dp.sclust != 1 && dp.sclust < dp.fs.g.nFatent ==> dp.Valid()) && |fn| == 12
    requires nsLfn ==> IsName(name) && Holds(lfn[..], name)
    modifies dp`index, dp`clust, dp`sect, dp`off, dp`chain
    modifies dp.fs`disk, dp.fs`winsect, dp.fs`wflag, dp.fs`view, dp.fs`fat, dp.fs`lastClust, dp.fs`freeClust, dp.fs.win
    ensures dp.fs.Valid() && |dp.fs.disk| == |old(dp.fs.disk)|
    ensures old(dp.fs.Mirrored()) ==> dp.fs.Mirrored()
    ensures res in {Ok, Denied, IntErr}
    ensures res == Denied ==> NoRoom(dp.fs.g, dp.fs.view, dp.chain, dp.fs.fat, if nsLfn then Parts(name) + 1 else 1)
    ensures res == IntErr ==> dp.sclust == 1 || dp.sclust >= dp.fs.g.nFatent || Chains.HasReserved(dp.fs.fat)
    ensures res == Ok ==> dp.Valid() && dp.At(dp.index)
    ensures res == Ok ==> var k := if nsLfn then Parts(name) else 0;
              && k <= dp.index && IsObject(dp.fs.g, dp.fs.view, dp.chain, name, k, fn, dp.index)
              && KeptBut(dp.fs.g, old(dp.fs.view), old(dp.chain), dp.fs.view, dp.chain, dp.index - k, dp.index)
              && WereFree(dp.fs.g, old(dp.fs.view), old(dp.chain), dp.index - k, dp.index)
  {
    hide WereFree, NoRoom, NoRun, Chains.HasReserved, FatFs.Valid, SlotSector, Slots, Slot, Dir.Linked, OnlySlot,
         PartsAt, KeptBut, Extends, IsShort, FreeSlot;
    var nent := 1;
    if nsLfn {
      var n := NameLength(lfn, name);
      nent := (n + 25) / 13;
    }
    ghost var v, ch, k := dp.fs.view, dp.chain, nent - 1;
    res := dp.Alloc(nent);
    if res == Ok {
      ExtendsKeeps(dp.fs.g, v, ch, dp.fs.view, dp.chain, dp.index - k, dp.index);
      res := PutObject(dp, lfn, fn, nent - 1, name, v, ch);
    }
  }

  // ---- Reading an object ----

  const DOT: int := 0x2E

  // A used entry that dir_read passes over: deleted, a dot entry, a label, or a part of a long name.
  predicate PassedOver(e: seq<Byte>) {
    && |e| == ENTRY && e[0] != 0
    && (e[0] == DDEM || e[0] == DOT || e[11] % 0x40 % 0x20 == 8 || e[11] % 0x40 == AM_LFN)
  }

  // A part of a long name that is not deleted.
  predicate IsLong(e: seq<Byte>) {
    |e| == ENTRY && e[0] !in {DDEM, DOT} && e[11] % 0x40 == AM_LFN
  }

  // ---- Parts of any names in front of a short entry ----

  // What the reader has met directly in front of an entry: nothing that counts, or a number of parts
  // that fall in order from the flagged one on and have the same sum.
  datatype Trail = Broken | Running(parts: nat, first: nat, sum: Byte)

  function More(tr: Trail, e: seq<Byte>): Trail
    requires |e| == ENTRY
  {
    if !IsLong(e) || !Fitting(e) then Broken
    else if Flagged(e) then Running(1, e[0] - LLEF, e[13])
    else if tr.Running? && e[0] + tr.parts == tr.first && e[13] == tr.sum then tr.(parts := tr.parts + 1)
    else Broken
  }

  predicate AllEntries(es: seq<seq<Byte>>) {
    forall e | e in es :: |e| == ENTRY
  }

  function Track(es: seq<seq<Byte>>): Trail
    requires AllEntries(es)
  {
    if es == [] then Broken else More(Track(es[..|es| - 1]), es[|es| - 1])
  }

  // The last m entries are parts with this sum and have room; the first of them is flagged and has
  // order q, and the order of the others falls by one.
  ghost predicate Falling(es: seq<seq<Byte>>, m: nat, q: nat, sum: Byte)
    requires AllEntries(es)
  {
    && 1 <= m <= |es| && Flagged(es[|es| - m]) && es[|es| - m][0] == q + LLEF
    && (forall i | |es| - m <= i < |es| :: IsLong(es[i]) && Fitting(es[i]) && es[i][13] == sum)
    && (forall i | |es| - m < i < |es| :: !Flagged(es[i]) && es[i][0] + (i - (|es| - m)) == q)
  }

  lemma {:induction false} TrackIsFalling(es: seq<seq<Byte>>, m: nat, q: nat, sum: Byte)
    requires AllEntries(es)
    ensures Track(es) == Running(m, q, sum) <==> Falling(es, m, q, sum)
  {
    hide IsLong, Fitting, Flagged;
    if es != [] {
      var n := |es| - 1;
      var init := es[..n];
      assert es[n] in es;
      if Flagged(es[n]) {
        FlagStarts(es, m, q, sum);
      } else if m > 1 {
        TrackIsFalling(init, m - 1, q, sum);
        FallingMore(es, m, q, sum);
      }
    }
  }

  lemma FlagStarts(es: seq<seq<Byte>>, m: nat, q: nat, sum: Byte)
    requires AllEntries(es) && es != [] && Flagged(es[|es| - 1])
    ensures var e := es[|es| - 1];
            Falling(es, m, q, sum) <==> m == 1 && IsLong(e) && Fitting(e) && e[0] == q + LLEF && e[13] == sum
  {
    hide IsLong, Fitting, Flagged;
  }

  lemma FallingMore(es: seq<seq<Byte>>, m: nat, q: nat, sum: Byte)
    requires AllEntries(es) && es != [] && m > 1 && !Flagged(es[|es| - 1]) && AllEntries(es[..|es| - 1])
    ensures var e := es[|es| - 1];
            Falling(es, m, q, sum) <==>
              && Falling(es[..|es| - 1], m - 1, q, sum)
              && IsLong(e) && Fitting(e) && e[13] == sum && e[0] + (m - 1) == q
  {
    hide IsLong, Fitting, Flagged;
    var n := |es| - 1;
    var init := es[..n];
    assert |init| - (m - 1) == |es| - m;
    assert forall i | 0 <= i < n :: init[i] == es[i];
  }

  // The last p entries are all parts of one name that has this sum.
  ghost predicate Tied(es: seq<seq<Byte>>, p: nat, sum: Byte)
    requires AllEntries(es)
  {
    Falling(es, p, p, sum)
  }

  // The order, sum and start that dir_read keeps in front of entry i.
  ghost predicate Agrees(tr: Trail, ord: Byte, sum: Byte, lfnIdx: nat, i: nat) {
    match tr
    case Broken => ord == 0xFF
    case Running(m, q, s) => 0 < m <= i && m <= q < 0xC0 && ord == q - m && sum == s && lfnIdx == i - m
  }

  // The start of the long name that is tied to the short entry top.
  function Start(tr: Trail, sum: Byte, top: nat): int {
    if tr.Running? && tr.first == tr.parts && tr.sum == sum then top - tr.parts else 0xFFFF
  }

  // The state of the reader in front of part p of k: nothing yet, or all parts behind p picked, or
  // given up as the name has no room in the buffer.
  ghost predicate Picking(name: seq<Word>, k: nat, p: nat, idx: nat, sum: Byte, buf: seq<Word>, ord: Byte, seen: Byte,
                          lfnIdx: nat)
  {
    p <= k && Named(name, k) &&
    if p == k then true
    else if Readable(name) then ord == p && seen == sum && lfnIdx == idx && PickedFrom(buf, name, p + 1)
    else ord == 0xFF
  }

  // The part of dir_read for an entry of a long name.
  method ReadPart(dp: Dir, lfn: array<Word>, ord: Byte, sum: Byte, ghost name: seq<Word>, ghost k: nat, ghost p: nat,
                  ghost idx: nat, ghost s: Byte, ghost tr: Trail)
    returns (ord': Byte, sum': Byte)
    requires lfn.Length == MAX_LFN + 1 && dp.off + ENTRY <= dp.fs.win.Length && p > 0
    requires IsLong(dp.fs.win[dp.off..dp.off + ENTRY]) && dp.fs.win[dp.off] != 0
    requires Agrees(tr, ord, sum, dp.lfnIdx, dp.index)
    modifies dp`lfnIdx, lfn
    ensures IsPart(dp.fs.win[dp.off..dp.off + ENTRY], name, p, s) &&
            Picking(name, k, p, idx, s, old(lfn[..]), ord, sum, old(dp.lfnIdx)) &&
            (p == k ==> idx == dp.index) ==>
              Picking(name, k, p - 1, idx, s, lfn[..], ord', sum', dp.lfnIdx)
    ensures Agrees(More(tr, dp.fs.win[dp.off..dp.off + ENTRY]), ord', sum', dp.lfnIdx, dp.index + 1)
  {
    hide PickedFrom, Fitting, Agrees, More;
    FirstPart(lfn[..], name, k);
    ghost var e := dp.fs.win[dp.off..dp.off + ENTRY];
    assert e[0] == dp.fs.win[dp.off] && e[13] == dp.fs.win[dp.off + 13];
    var c: Byte := dp.fs.win[dp.off];
    ord', sum' := ord, sum;
    if c / LLEF % 2 == 1 {
      sum' := dp.fs.win[dp.off + 13];
      c := c - LLEF;
      ord' := c;
      dp.lfnIdx := dp.index;
    }
    var ok := c == ord' && sum' == dp.fs.win[dp.off + 13];
    if ok {
      ok := PickLfn(lfn, dp.fs.win, dp.off, name, p, s);
    }
    ord' := if ok then (ord' as int + 0xFF) % 0x100 else 0xFF;
    AgreesNext(tr, e, ord, sum, old(dp.lfnIdx), dp.index, ord', sum', dp.lfnIdx);
  }

  // One entry more keeps what is known of the parts.
  lemma AgreesNext(tr: Trail, e: seq<Byte>, ord0: Byte, sum0: Byte, lfnIdx0: nat, i: nat, ord: Byte, sum: Byte,
                   lfnIdx: nat)
    requires IsLong(e) && e[0] != 0 && Agrees(tr, ord0, sum0, lfnIdx0, i)
    requires if Flagged(e) then sum == e[13] && lfnIdx == i else sum == sum0 && lfnIdx == lfnIdx0
    requires var c: int, o: int := if Flagged(e) then e[0] - LLEF else e[0], if Flagged(e) then e[0] - LLEF else ord0;
             ord == if c == o && sum == e[13] && Fitting(e) then (o + 0xFF) % 0x100 else 0xFF
    ensures Agrees(More(tr, e), ord, sum, lfnIdx, i + 1)
  {
    if Fitting(e) { FitsPlace(e); }
    hide Fitting, IsLong;
  }

  lemma FitsPlace(e: seq<Byte>)
    requires |e| == ENTRY && Fitting(e)
    ensures e[0] % 0x40 > 0
  {
  }

  // Nothing is asked of the buffer before the last part.
  lemma FirstPart(buf: seq<Word>, name: seq<Word>, k: nat)
    requires |buf| == MAX_LFN + 1
    ensures IsName(name) && k == Parts(name) ==> PickedFrom(buf, name, k + 1)
  {
  }

  // k parts stand for the whole long name, or for none.
  ghost predicate Named(name: seq<Word>, k: nat) {
    k == 0 || (IsName(name) && k == Parts(name))
  }

  // dir_read for files: from an entry on with nothing but entries to pass over in front of an
  // object, the cursor comes to its short entry. A long name is tied to it exactly if the parts
  // directly in front of it are whole, in order and of its sum, as those of its own name are if the
  // buffer has room for it. Without an own name these are parts that were left over.
  method Read(dp: Dir, lfn: array<Word>, ghost name: seq<Word>, ghost k: nat, ghost fn: seq<Byte>, ghost top: nat)
    returns (res: FResult, ghost es: seq<seq<Byte>>)
    requires dp.Valid() && dp.At(dp.index) && lfn.Length == MAX_LFN + 1 && Named(name, k) && |fn| == 12
    requires IsObject(dp.fs.g, dp.fs.view, dp.chain, name, k, fn, top) && dp.index + k <= top < 0x1_0000
    requires fn[0] !in {0, DDEM, DOT}
    requires forall j | dp.index <= j < top - k ::
               0 <= SlotSector(dp.fs.g, dp.chain, j) < |dp.fs.view| &&
                   PassedOver(Slot(dp.fs.g, dp.fs.view, dp.chain, j))
    modifies dp`index, dp`clust, dp`sect, dp`off, dp`chain, dp`lfnIdx, lfn
    modifies dp.fs`disk, dp.fs`winsect, dp.fs`wflag, dp.fs`view, dp.fs`fat, dp.fs`lastClust, dp.fs`freeClust, dp.fs.win
    ensures dp.Valid() && dp.fs.view == old(dp.fs.view) && dp.chain == old(dp.chain) && dp.fs.fat == old(dp.fs.fat)
    ensures res == Ok && dp.At(top)
    ensures |es| == top - old(dp.index) && AllEntries(es)
    ensures EntriesFrom(dp.fs.g, dp.fs.view, dp.chain, old(dp.index), es)
    ensures forall p: nat | Tied(es, p, SumSfn(fn, 11)) :: dp.lfnIdx == top - p
    ensures (forall p: nat :: !Tied(es, p, SumSfn(fn, 11))) ==> dp.lfnIdx == 0xFFFF
    ensures k > 0 ==> dp.lfnIdx == if Readable(name) then top - k else 0xFFFF
    ensures k > 0 && Readable(name) ==> Holds(lfn[..], name)
  {
    hide FatFs.Valid, SlotSector, Slots, Slot, Dir.Linked, IsEntry, IsPart, IsShort, IsObject, PassedOver, Picking,
         Readable;
    hide Extends, Named, IsLong, Agrees, Track, Tied, Start, EntriesFrom, AllEntries;
    ghost var s := SumSfn(fn, 11);
    ghost var v, ch, j0 := dp.fs.view, dp.chain, dp.index;
    var ord: Byte, sum: Byte := 0xFF, 0xFF;
    NotYet(name, k, top - k, s, lfn[..], ord, sum, dp.lfnIdx);
    TopInside(dp.fs.g, v, ch, name, k, fn, top);
    res, es := NoFile, [];
    NothingTracked(dp.fs.g, v, ch, ord, sum, dp.lfnIdx, dp.index);
    while true
      invariant dp.Valid() && dp.fs.view == v && dp.chain == ch && dp.fs.fat == old(dp.fs.fat)
      invariant j0 <= dp.index <= top && dp.At(dp.index)
      invariant Picking(name, k, PartsLeft(top, k, dp.index), top - k, s, lfn[..], ord, sum, dp.lfnIdx)
      invariant Met(dp, j0, es, ord, sum, dp.index)
      decreases top - dp.index
    {
      var done: bool;
      res, done, ord, sum, es := ReadHere(dp, lfn, ord, sum, name, k, fn, top, j0, es);
      if done { break; }
      res := dp.Next(false);
      if res != Ok { break; }
    }
    TiedStarts(es, s, top);
  }

  // One round of dir_read: the entry of the cursor comes into the window and is looked at.
  method ReadHere(dp: Dir, lfn: array<Word>, ord0: Byte, sum0: Byte, ghost name: seq<Word>, ghost k: nat,
                  ghost fn: seq<Byte>, ghost top: nat, ghost j0: nat, ghost es: seq<seq<Byte>>)
    returns (res: FResult, done: bool, ord: Byte, sum: Byte, ghost es': seq<seq<Byte>>)
    requires dp.Valid() && dp.At(dp.index) && lfn.Length == MAX_LFN + 1 && Named(name, k) && |fn| == 12
    requires IsObject(dp.fs.g, dp.fs.view, dp.chain, name, k, fn, top) && j0 <= dp.index <= top && k <= top
    requires fn[0] !in {0, DDEM, DOT}
    requires forall j | j0 <= j < top - k ::
               0 <= SlotSector(dp.fs.g, dp.chain, j) < |dp.fs.view| &&
                   PassedOver(Slot(dp.fs.g, dp.fs.view, dp.chain, j))
    requires Picking(name, k, PartsLeft(top, k, dp.index), top - k, SumSfn(fn, 11), lfn[..], ord0, sum0, dp.lfnIdx)
    requires Met(dp, j0, es, ord0, sum0, dp.index)
    modifies dp`lfnIdx, lfn
    modifies dp.fs`disk, dp.fs`winsect, dp.fs`wflag, dp.fs`view, dp.fs`fat, dp.fs`lastClust, dp.fs`freeClust, dp.fs.win
    ensures dp.Valid() && dp.fs.view == old(dp.fs.view) && dp.chain == old(dp.chain) && dp.fs.fat == old(dp.fs.fat)
    ensures dp.At(dp.index) && res == Ok && (done <==> dp.index == top)
    ensures !done ==>
              && Met(dp, j0, es', ord, sum, dp.index + 1)
              && Picking(name, k, PartsLeft(top, k, dp.index + 1), top - k, SumSfn(fn, 11), lfn[..], ord, sum,
                         dp.lfnIdx)
    ensures done ==> es' == es && dp.lfnIdx == Start(Track(es), SumSfn(fn, 11), top)
    ensures done && k > 0 ==> dp.lfnIdx == if Readable(name) then top - k else 0xFFFF
    ensures done && k > 0 && Readable(name) ==> Holds(lfn[..], name)
  {
    hide FatFs.Valid, SlotSector, Slots, Slot, Dir.Linked, IsEntry, IsPart, IsShort, IsObject, PassedOver, Picking,
         Readable;
    hide Extends, Named, IsLong, Agrees, Track, More, Start, EntriesFrom, AllEntries;
    dp.SlotInside(dp.index);
    EntryOf(dp.fs.g, dp.fs.view, dp.chain, name, k, fn, top, j0, dp.index);
    es' := es;
    res := dp.Look();
    SlotHere(dp);
    ghost var e := dp.fs.win[dp.off..dp.off + ENTRY];
    res, done, ord, sum := ReadEntry(dp, lfn, ord0, sum0, name, k, fn, top, Track(es));
    if !done {
      TrackMore(es, e);
      EntriesMore(dp.fs.g, dp.fs.view, dp.chain, j0, es, e);
      es' := es + [e];
    }
  }

  // The entries from j0 on to entry i, and what the reader keeps of them.
  ghost predicate Met(dp: Dir, j0: nat, es: seq<seq<Byte>>, ord: Byte, sum: Byte, i: nat)
    reads dp, dp.fs`view
  {
    && j0 + |es| == i && AllEntries(es) && Agrees(Track(es), ord, sum, dp.lfnIdx, i)
    && EntriesFrom(dp.fs.g, dp.fs.view, dp.chain, j0, es)
  }

  lemma NothingTracked(g: Geometry, v: seq<Sector>, ch: seq<nat>, ord: Byte, sum: Byte, lfnIdx: nat, i: nat)
    requires ClusterSize(g.csize) && i < Slots(g, ch) && ord == 0xFF
    ensures AllEntries([]) && Agrees(Track([]), ord, sum, lfnIdx, i) && EntriesFrom(g, v, ch, i, [])
  {
    hide Slots;
  }

  // The entries of the directory from slot j on.
  ghost predicate EntriesFrom(g: Geometry, v: seq<Sector>, ch: seq<nat>, j: nat, es: seq<seq<Byte>>) {
    && ClusterSize(g.csize) && j + |es| <= Slots(g, ch)
    && forall i | j <= i < j + |es| :: 0 <= SlotSector(g, ch, i) < |v| && es[i - j] == Slot(g, v, ch, i)
  }

  lemma EntriesMore(g: Geometry, v: seq<Sector>, ch: seq<nat>, j: nat, es: seq<seq<Byte>>, e: seq<Byte>)
    requires EntriesFrom(g, v, ch, j, es) && j + |es| < Slots(g, ch)
    requires 0 <= SlotSector(g, ch, j + |es|) < |v| && e == Slot(g, v, ch, j + |es|)
    ensures EntriesFrom(g, v, ch, j, es + [e])
  {
    hide SlotSector, Slots, Slot;
    var es' := es + [e];
    forall i | j <= i < j + |es'| ensures 0 <= SlotSector(g, ch, i) < |v| && es'[i - j] == Slot(g, v, ch, i) {
      if i < j + |es| {
        assert es'[i - j] == es[i - j];
      }
    }
  }

  lemma TrackMore(es: seq<seq<Byte>>, e: seq<Byte>)
    requires AllEntries(es) && |e| == ENTRY
    ensures AllEntries(es + [e]) && Track(es + [e]) == More(Track(es), e)
  {
    hide More;
    assert (es + [e])[..|es|] == es;
  }

  lemma TiedStarts(es: seq<seq<Byte>>, sum: Byte, top: nat)
    requires AllEntries(es)
    ensures forall p: nat | Tied(es, p, sum) :: Start(Track(es), sum, top) == top - p
    ensures (forall p: nat :: !Tied(es, p, sum)) ==> Start(Track(es), sum, top) == 0xFFFF
  {
    hide Track, Falling;
    forall p: nat | Tied(es, p, sum) ensures Start(Track(es), sum, top) == top - p {
      TrackIsFalling(es, p, p, sum);
    }
    var tr := Track(es);
    if tr.Running? {
      TrackIsFalling(es, tr.parts, tr.first, tr.sum);
      assert tr.first == tr.parts && tr.sum == sum ==> Tied(es, tr.parts, sum);
    }
  }

  // One round of dir_read over the entry in the window.
  method ReadEntry(dp: Dir, lfn: array<Word>, ord0: Byte, sum0: Byte, ghost name: seq<Word>, ghost k: nat,
                   ghost fn: seq<Byte>, ghost top: nat, ghost tr: Trail)
    returns (res: FResult, done: bool, ord: Byte, sum: Byte)
    requires dp.off + ENTRY <= dp.fs.win.Length && lfn.Length == MAX_LFN + 1 && |fn| == 12
    requires dp.index <= top && k <= top && Agrees(tr, ord0, sum0, dp.lfnIdx, dp.index)
    requires IsEntry(dp.fs.win[dp.off..dp.off + ENTRY], name, k, fn, top, dp.index)
    requires Picking(name, k, PartsLeft(top, k, dp.index), top - k, SumSfn(fn, 11), lfn[..], ord0, sum0, dp.lfnIdx)
    modifies dp`lfnIdx, lfn
    ensures res == Ok && (done <==> dp.index == top)
    ensures !done ==>
            Picking(name, k, PartsLeft(top, k, dp.index + 1), top - k, SumSfn(fn, 11), lfn[..], ord, sum, dp.lfnIdx)
    ensures !done ==> Agrees(More(tr, dp.fs.win[dp.off..dp.off + ENTRY]), ord, sum, dp.lfnIdx, dp.index + 1)
    ensures done ==> dp.lfnIdx == Start(tr, SumSfn(fn, 11), top)
    ensures done && k > 0 ==> dp.lfnIdx == if Readable(name) then top - k else 0xFFFF
    ensures done && k > 0 && Readable(name) ==> Holds(lfn[..], name)
  {
    hide IsPart, Readable, IsShort, Picking, Holds, PickedFrom, Fitting, Flagged, Agrees, More, Start;
    res, done, ord, sum := Ok, false, ord0, sum0;
    if dp.index == top && k > 0 {
      AllPicked(name, k, top - k, SumSfn(fn, 11), lfn[..], ord0, sum0, dp.lfnIdx);
    }
    ghost var e := dp.fs.win[dp.off..dp.off + ENTRY];
    var c, a := dp.fs.win[dp.off], dp.fs.win[dp.off + 11] % 0x40;
    assert c == e[0] && dp.fs.win[dp.off + 11] == e[11];
    if c == 0 {
      res, done := NoFile, true;
      return;
    }
    if c == DDEM || c == DOT || a % 0x20 == 8 {
      ord := 0xFF;
      NoPart(tr, e, sum, dp.lfnIdx, dp.index + 1);
    } else if a == AM_LFN {
      ghost var p := if k > 0 && dp.index < top then PartsLeft(top, k, dp.index) else 1;
      ord, sum := ReadPart(dp, lfn, ord, sum, name, k, p, top - k, SumSfn(fn, 11), tr);
    } else {
      var sfnSum := SumOf(dp.fs.win[dp.off..dp.off + ENTRY]);
      AtShort(tr, ord, sum, dp.lfnIdx, top, sfnSum);
      if ord != 0 || sum != sfnSum { dp.lfnIdx := 0xFFFF; }
      done := true;
    }
    if dp.index + k < top {
      NotYet(name, k, top - k, SumSfn(fn, 11), lfn[..], ord, sum, dp.lfnIdx);
    }
  }

  lemma NoPart(tr: Trail, e: seq<Byte>, sum: Byte, lfnIdx: nat, i: nat)
    requires |e| == ENTRY && !IsLong(e)
    ensures Agrees(More(tr, e), 0xFF, sum, lfnIdx, i)
  {
  }

  lemma AtShort(tr: Trail, ord: Byte, sum: Byte, lfnIdx: nat, top: nat, s: Byte)
    requires Agrees(tr, ord, sum, lfnIdx, top)
    ensures Start(tr, s, top) == if ord != 0 || sum != s then 0xFFFF else lfnIdx
  {
  }

  // What the reader knows in front of the short entry.
  lemma AllPicked(name: seq<Word>, k: nat, idx: nat, sum: Byte, buf: seq<Word>, ord: Byte, seen: Byte, lfnIdx: nat)
    requires k > 0 && Picking(name, k, 0, idx, sum, buf, ord, seen, lfnIdx)
    ensures Readable(name) ==> ord == 0 && seen == sum && lfnIdx == idx && Holds(buf, name)
    ensures !Readable(name) ==> ord == 0xFF
  {
  }

  // The entry i on the way to the short entry top: passed over, a part of the name, or the short entry.
  ghost predicate IsEntry(e: seq<Byte>, name: seq<Word>, k: nat, fn: seq<Byte>, top: nat, i: nat)
    requires |fn| == 12
  {
    && |e| == ENTRY && Named(name, k) && i <= top && e[0] != 0
    && (i + k < top ==> PassedOver(e))
    && (top - k <= i < top ==> IsPart(e, name, top - i, SumSfn(fn, 11)) && e[0] !in {DDEM, DOT} && e[11] == AM_LFN)
    && (i == top ==> e[0] !in {DDEM, DOT} && e[11] == 0 && SumSfn(e, 11) == SumSfn(fn, 11))
  }

  lemma TopInside(g: Geometry, v: seq<Sector>, ch: seq<nat>, name: seq<Word>, k: nat, fn: seq<Byte>, top: nat)
    requires IsObject(g, v, ch, name, k, fn, top)
    ensures k <= top < Slots(g, ch) && |fn| == 12
  {
  }

  ghost function PartsLeft(top: nat, k: nat, i: nat): nat
    requires i <= top
  {
    if i + k <= top then k else top - i
  }

  lemma NotYet(name: seq<Word>, k: nat, idx: nat, sum: Byte, buf: seq<Word>, ord: Byte, seen: Byte, lfnIdx: nat)
    requires Named(name, k)
    ensures Picking(name, k, k, idx, sum, buf, ord, seen, lfnIdx)
  {
  }

  lemma SlotHere(dp: Dir)
    requires dp.Valid() && dp.At(dp.index) && dp.sect < |dp.fs.view| && dp.fs.win[..] == dp.fs.view[dp.sect]
    requires dp.off + ENTRY <= dp.fs.win.Length
    ensures 0 <= SlotSector(dp.fs.g, dp.chain, dp.index) < |dp.fs.view|
    ensures dp.fs.win[dp.off..dp.off + ENTRY] == Slot(dp.fs.g, dp.fs.view, dp.chain, dp.index)
    ensures Slot(dp.fs.g, dp.fs.view, dp.chain, dp.index)[0] == dp.fs.win[dp.off]
    ensures Slot(dp.fs.g, dp.fs.view, dp.chain, dp.index)[11] == dp.fs.win[dp.off + 11]
  {
    hide FatFs.Valid, SlotSector, Dir.Linked;
    assert dp.fs.win[dp.off..dp.off + ENTRY] == dp.fs.win[..][dp.off..dp.off + ENTRY];
  }

  // The kinds of entries on the way to the short entry.
  lemma EntryOf(g: Geometry, v: seq<Sector>, ch: seq<nat>, name: seq<Word>, k: nat, fn: seq<Byte>, top: nat, j0: nat,
                i: nat)
    requires ClusterSize(g.csize) && Named(name, k) && IsObject(g, v, ch, name, k, fn, top)
    requires j0 <= i <= top && i < Slots(g, ch) && 0 <= SlotSector(g, ch, i) < |v|
    requires fn[0] !in {0, DDEM, DOT}
    requires forall j | j0 <= j < top - k :: 0 <= SlotSector(g, ch, j) < |v| && PassedOver(Slot(g, v, ch, j))
    ensures IsEntry(Slot(g, v, ch, i), name, k, fn, top, i)
  {
    hide SlotSector, Slots, Slot;
    if i == top {
      SameSum(Slot(g, v, ch, i), fn, 11);
      assert Slot(g, v, ch, i)[0] == Slot(g, v, ch, i)[..11][0] && fn[0] == fn[..11][0];
    }
  }

  lemma NoEntries(es: seq<seq<Byte>>, sum: Byte)
    requires AllEntries(es)
    ensures es == [] ==> forall p: nat :: !Tied(es, p, sum)
  {
  }

  // A name that was registered is read back from its first entry on: tied to its short entry, with
  // the same characters, if and only if it is a long one that leaves room in the buffer.
  method RoundTrip(dp: Dir, lfn: array<Word>, fn: seq<Byte>, nsLfn: bool, ghost name: seq<Word>)
    returns (res: FResult, buf: array<Word>)
    requires dp.fs.Valid() && (dp.sclust != 1 && dp.sclust < dp.fs.g.nFatent ==> dp.Valid()) && |fn| == 12
    requires (nsLfn ==> IsName(name) && Holds(lfn[..], name)) && fn[0] !in {0, DDEM, DOT}
    modifies dp`index, dp`clust, dp`sect, dp`off, dp`chain, dp`lfnIdx
    modifies dp.fs`disk, dp.fs`winsect, dp.fs`wflag, dp.fs`view, dp.fs`fat, dp.fs`lastClust, dp.fs`freeClust, dp.fs.win
    ensures fresh(buf) && buf.Length == MAX_LFN + 1 && dp.fs.Valid()
    ensures res in {Ok, Denied, IntErr}
    ensures res == Denied ==> NoRoom(dp.fs.g, dp.fs.view, dp.chain, dp.fs.fat, if nsLfn then Parts(name) + 1 else 1)
    ensures res == IntErr ==> dp.sclust == 1 || dp.sclust >= dp.fs.g.nFatent || Chains.HasReserved(dp.fs.fat)
    ensures res == Ok ==> dp.Valid() && dp.At(dp.index)
    ensures res == Ok ==> var k := if nsLfn then Parts(name) else 0;
              && IsObject(dp.fs.g, dp.fs.view, dp.chain, name, k, fn, dp.index)
              && (dp.lfnIdx != 0xFFFF <==> nsLfn && Readable(name))
              && (nsLfn && Readable(name) ==> dp.lfnIdx + k == dp.index && Holds(buf[..], name))
  {
    hide FatFs.Valid, SlotSector, Slots, Slot, Dir.Linked, IsObject, Readable, KeptBut, WereFree, NoRoom,
         Chains.HasReserved;
    buf := new Word[MAX_LFN + 1](_ => 0);
    res := Register(dp, lfn, fn, nsLfn, name);
    if res == Ok {
      ghost var top := dp.index;
      var k := 0;
      if nsLfn {
        var n := NameLength(lfn, name);
        k := (n + 12) / 13;
      }
      TopInside(dp.fs.g, dp.fs.view, dp.chain, name, k, fn, top);
      res := dp.Sdi(dp.index - k);
      if res == Ok {
        ghost var es;
        res, es := Read(dp, buf, name, k, fn, top);
        NoEntries(es, SumSfn(fn, 11));
      }
    }
  }
}
