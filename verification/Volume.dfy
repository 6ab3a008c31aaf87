// The volume object (FATFS): one-sector write-back window, FAT access and cluster allocation.
module Volume {
  import opened Bytes
  import opened FatTable
  import opened Chains

  datatype FResult = Ok | DiskErr | IntErr | NoFile | Denied | NotEnoughCore

  // Sector number of a cluster, 0 for an invalid cluster number.
  function Clust2Sect(g: Geometry, clst: Dword): (s: nat)
    requires 2 <= g.nFatent <= DWORD_MAX
    ensures s == if 2 <= clst < g.nFatent then Wrap32((clst - 2) * g.csize + g.database) else 0
  {
    var c := Sub32(clst, 2);
    if c >= g.nFatent - 2 then 0 else Wrap32(c * g.csize + g.database)
  }

  // The stored number of free clusters while the table changes: unknown stays unknown, right stays right.
  ghost predicate CountKept(f0: seq<nat>, n0: Dword, f1: seq<nat>, n1: Dword) {
    && (n0 == DWORD_MAX ==> n1 == DWORD_MAX)
    && (n0 == FreeCount(f0) ==> n1 == FreeCount(f1))
  }

  lemma CountKeptSelf(f: seq<nat>, n: Dword)
    ensures CountKept(f, n, f, n)
  {
  }

  function Zeros(): Sector {
    seq(SS, _ => 0)
  }

  class FatFs {
    const g: Geometry
    var disk: seq<Sector>    // the medium; a transfer inside it succeeds, one outside it fails
    const win: array<Byte>
    var winsect: Dword
    var wflag: bool
    var lastClust: Dword
    var freeClust: Dword

    // The sectors as a reader through the window sees them, and the table they hold.
    ghost var view: seq<Sector>
    ghost var fat: seq<nat>

    ghost predicate WindowValid()
      reads `disk, `winsect, `wflag, `view, win
    {
      && win.Length == SS
      && Sound(g, |disk|)
      && |view| == |disk|
      && Covers(view, g)
      && (winsect == DWORD_MAX || winsect < |disk|)
      && (wflag ==> winsect < |disk| && !InMirror(g, winsect))
      && (!wflag && winsect < |disk| ==> win[..] == disk[winsect])
      && (forall s | 0 <= s < |disk| && !InMirror(g, s) && s != winsect :: view[s] == disk[s])
      && (winsect < |disk| && !InMirror(g, winsect) ==> view[winsect] == win[..])
    }

    ghost predicate Valid()
      reads `disk, `winsect, `wflag, `view, `fat, win
    {
      && WindowValid()
      && |fat| == g.nFatent
      && forall c | 0 <= c < |fat| :: fat[c] == Entry(view, g, c)
    }

    // Every table sector that is not waiting in the window has its copy on the medium.
    ghost predicate Mirrored()
      reads `disk, `winsect, `wflag
    {
      TablesEnd(g) <= |disk| && MirroredBut(disk, g, if wflag then winsect else -1)
    }

    ghost function Now(): Glance
      reads `disk, `winsect, `wflag, `view
    {
      Glance(view, winsect, Mirrored())
    }

    constructor (g: Geometry, disk: seq<Sector>)
      requires Sound(g, |disk|)
      ensures Valid() && fresh(win)
      ensures this.g == g && this.disk == disk && view == disk && winsect == DWORD_MAX && !wflag
      ensures lastClust == freeClust == DWORD_MAX
    {
      SoundBounds(g, |disk|);
      this.g := g;
      this.disk := disk;
      win := new Byte[SS](_ => 0);
      winsect := DWORD_MAX;
      wflag := false;
      lastClust := DWORD_MAX;
      freeClust := DWORD_MAX;
      view := disk;
      fat := seq(g.nFatent, c requires 0 <= c < g.nFatent => Entry(disk, g, c));
    }

    // disk_write of one sector.
    method DiskWriteSector(data: Sector, sector: nat) returns (ok: bool)
      modifies this`disk
      ensures ok == (sector < |old(disk)|)
      ensures disk == if ok then old(disk)[sector := data] else old(disk)
    {
      ok := sector < |disk|;
      if ok {
        disk := disk[sector := data];
      }
    }

    // The medium once the window is written back.
    ghost function Synced(): (d: seq<Sector>)
      requires WindowValid()
      reads `disk, `winsect, `wflag, `view, win
    {
      SoundBounds(g, |disk|);
      if wflag then Flushed(disk, g, winsect, win[..]) else disk
    }

    // The writes of a changed window: its sector, and for a table sector the copies behind it.
    method WriteWindow() returns (res: FResult)
      requires win.Length == SS && wflag && winsect < |disk| && 1 <= g.nFats <= 2
      requires g.fatbase + g.fsize <= |disk| <= DWORD_MAX && (g.nFats == 2 ==> g.fatbase + 2 * g.fsize <= |disk|)
      modifies this`disk, this`wflag
      ensures res == Ok && !wflag && disk == Flushed(old(disk), g, winsect, win[..])
    {
      var wsect: Dword := winsect;
      var ok := DiskWriteSector(win[..], wsect);
      res := if ok then Ok else DiskErr;
      if ok {
        wflag := false;
        if Sub32(wsect, g.fatbase) < g.fsize {
          assert InFat(g, wsect);
          var nf := g.nFats;
          while nf >= 2
            invariant 1 <= nf <= g.nFats && !wflag
            invariant nf == g.nFats ==> wsect == winsect && disk == old(disk)[winsect := win[..]]
            invariant nf < g.nFats ==> disk == old(disk)[winsect := win[..]][winsect + g.fsize := win[..]]
          {
            wsect := wsect + g.fsize;
            var _ := DiskWriteSector(win[..], wsect);
            nf := nf - 1;
          }
        }
      }
    }

    // sync_window: after it the medium holds what the view shows, in both copies of the table.
    method SyncWindow() returns (res: FResult)
      requires WindowValid()
      modifies this`disk, this`wflag
      ensures res == Ok && WindowValid() && !wflag
      ensures disk == old(Synced())
      ensures old(Mirrored()) ==> Mirrored()
      ensures forall s | 0 <= s < |disk| && !InMirror(g, s) :: disk[s] == view[s]
    {
      hide Sound;
      SoundBounds(g, |disk|);
      res := Ok;
      ghost var synced := Synced();
      if wflag {
        if Mirrored() {
          FlushedMirrored(disk, g, winsect, win[..]);
          assert MirroredBut(synced, g, -1);
        }
        res := WriteWindow();
      }
      assert disk == synced;
    }

    // disk_read of one sector into the window.
    method DiskReadWindow(sector: nat) returns (ok: bool)
      requires win.Length == SS
      modifies win
      ensures ok == (sector < |disk|)
      ensures win[..] == if ok then disk[sector] else old(win[..])
    {
      ok := sector < |disk|;
      if ok {
        ghost var data := disk[sector];
        for i := 0 to SS
          invariant win[..i] == data[..i]
        {
          win[i] := disk[sector][i];
        }
        assert win[..] == win[..SS] && data == data[..SS];
      }
    }

    // move_window: the view does not change, whatever sector was in the window before.
    method MoveWindow(sector: Dword) returns (res: FResult)
      requires WindowValid()
      modifies this`disk, this`winsect, this`wflag, win
      ensures WindowValid() && |disk| == |old(disk)|
      ensures old(Mirrored()) ==> Mirrored()
      ensures res == if sector == old(winsect) || sector < |disk| then Ok else DiskErr
      ensures sector == old(winsect) ==>
                winsect == sector && win[..] == old(win[..]) && wflag == old(wflag) && disk == old(disk)
      ensures sector != old(winsect) ==>
                winsect == (if res == Ok then sector else DWORD_MAX) && !wflag && disk == old(Synced())
      ensures sector < |disk| && !InMirror(g, sector) ==> win[..] == view[sector]
    {
      hide Sound;
      SoundBounds(g, |disk|);
      res := Ok;
      if sector != winsect {
        res := SyncWindow();
        if res == Ok {
          var next := sector;
          var ok := DiskReadWindow(sector);
          if !ok {
            next := DWORD_MAX;
            res := DiskErr;
          }
          winsect := next;
        }
      }
    }

    // What the window invariant says about sizes.
    lemma WindowBounds()
      requires WindowValid()
      ensures win.Length == SS && |view| == |disk| && Covers(view, g)
      ensures TableBytes(g.fatType, g.nFatent) <= g.fsize * SS && 3 <= g.nFatent <= 0xFFF_FFF7
      ensures g.fatbase + g.fsize <= |disk| <= DWORD_MAX
      ensures forall s | InFat(g, s) :: 0 <= s < |disk| && !InMirror(g, s)
    {
      SoundBounds(g, |disk|);
    }

    // The byte of the table at offset o, read through the window.
    method TableByteAt(o: nat) returns (res: FResult, b: int)
      requires WindowValid() && o / SS < g.fsize
      modifies this`disk, this`winsect, this`wflag, win
      ensures WindowValid() && |disk| == |old(disk)| && InFat(g, winsect) && winsect == g.fatbase + o / SS
      ensures old(Mirrored()) ==> Mirrored()
      ensures res == Ok && b == TableByte(view, g, o) == win[o % SS]
    {
      hide Sound;
      SoundBounds(g, |disk|);
      res := MoveWindow(g.fatbase + o / SS);
      b := win[o % SS];
    }

    // get_fat
    method GetFat(clst: Dword) returns (val: int)
      requires Valid()
      modifies this`disk, this`winsect, this`wflag, win
      ensures Valid() && |disk| == |old(disk)|
      ensures old(Mirrored()) ==> Mirrored()
      ensures val == if 2 <= clst < g.nFatent then fat[clst] else 1
      ensures 2 <= clst < g.nFatent ==> InFat(g, winsect)
      ensures !(2 <= clst < g.nFatent) ==> winsect == old(winsect)
    {
      hide WindowValid, TableByte, LdWord, LdDword, InMirror;
      WindowBounds();
      if clst < 2 || clst >= g.nFatent {
        val := 1;
      } else {
        EntryInside(g, clst);
        EntryInSector(view, g, clst);
        val := DWORD_MAX;
        var res: FResult;
        match g.fatType {
          case Fat12 =>
            val := GetFat12(clst);
          case Fat16 =>
            hide Entry;
            res := MoveWindow(g.fatbase + clst / (SS / 2));
            if res != Ok { return; }
            val := LdWord(win[..], clst * 2 % SS);
          case Fat32 =>
            hide Entry;
            res := MoveWindow(g.fatbase + clst / (SS / 4));
            if res != Ok { return; }
            val := LdDword(win[..], clst * 4 % SS) % 0x1000_0000;
        }
      }
    }

    // The FAT12 case of get_fat: the two bytes may lie in two sectors.
    method GetFat12(clst: Dword) returns (val: int)
      requires Valid() && 2 <= clst < g.nFatent && g.fatType == Fat12
      modifies this`disk, this`winsect, this`wflag, win
      ensures Valid() && |disk| == |old(disk)|
      ensures old(Mirrored()) ==> Mirrored()
      ensures val == fat[clst]
      ensures InFat(g, winsect)
    {
      hide Sound, TableByte;
      EntryInside(g, clst);
      var wc: int;
      var res: FResult;
      var b: int;
      val := DWORD_MAX;
      var bc: int := clst;
      bc := bc + bc / 2;
      res, wc := TableByteAt(bc);
      if res != Ok { return; }
      bc := bc + 1;
      res, b := TableByteAt(bc);
      if res != Ok { return; }
      wc := wc + 0x100 * b;
      val := if clst % 2 == 1 then wc / 16 else wc % 0x1000;
    }

    // Store a byte of the table in the window.
    method SetTableByteAt(o: nat, b: Byte)
      requires WindowValid() && o / SS < g.fsize && winsect == g.fatbase + o / SS
      modifies this`wflag, this`view, win
      ensures WindowValid() && wflag
      ensures view == SetTableByte(old(view), g, o, b)
      ensures old(Mirrored()) ==> Mirrored()
    {
      hide Sound;
      SoundBounds(g, |disk|);
      win[o % SS] := b;
      wflag := true;
      view := SetTableByte(view, g, o, b);
      assert win[..] == old(win[..])[o % SS := b];
    }

    // put_fat: the table changes like a map, whatever the window held before.
    method PutFat(clst: Dword, val: Dword) returns (res: FResult)
      requires Valid()
      modifies this`disk, this`winsect, this`wflag, this`view, this`fat, win
      ensures Valid() && |disk| == |old(disk)|
      ensures old(Mirrored()) ==> Mirrored()
      ensures res == if 2 <= clst < g.nFatent then Ok else IntErr
      ensures res == Ok ==> fat == old(fat)[clst := Trunc(g.fatType, val)] && InFat(g, winsect)
      ensures res == Ok ==> Covers(old(view), g) && view == PutEntry(old(view), g, clst, val)
      ensures SameOutside(old(view), view, g)
      ensures res != Ok ==> view == old(view) && fat == old(fat) && winsect == old(winsect)
    {
      hide WindowValid, PutEntry, Entry;
      WindowBounds();
      if clst < 2 || clst >= g.nFatent {
        res := IntErr;
      } else {
        match g.fatType {
          case Fat12 => res := PutFat12(clst, val);
          case Fat16 => res := PutFat16(clst, val);
          case Fat32 => res := PutFat32(clst, val);
        }
        forall d | 0 <= d < |fat| ensures Entry(view, g, d) == fat[clst := Trunc(g.fatType, val)][d] {
          PutEntryIsUpdate(old(view), g, clst, val, d);
        }
        fat := fat[clst := Trunc(g.fatType, val)];
      }
    }

    // The byte stores of put_fat for FAT12; the two bytes may lie in two sectors.
    method PutFat12(clst: Dword, val: Dword) returns (res: FResult)
      requires WindowValid() && 2 <= clst < g.nFatent && g.fatType == Fat12
      modifies this`disk, this`winsect, this`wflag, this`view, win
      ensures WindowValid() && |disk| == |old(disk)|
      ensures old(Mirrored()) ==> Mirrored()
      ensures res == Ok && view == PutEntry(old(view), g, clst, val) && InFat(g, winsect)
    {
      hide WindowValid, TableByte, SetTableByte, InMirror, Mirrored, First12, Second12;
      WindowBounds();
      EntryInside(g, clst);
      var bc: int := clst;
      bc := bc + bc / 2;
      var p: int;
      res, p := TableByteAt(bc);
      if res != Ok { return; }
      ghost var b := First12(clst, val, p);
      SetTableByteAt(bc, First12(clst, val, p));
      bc := bc + 1;
      SetTableByteGet(old(view), g, bc - 1, b, bc);
      res, p := TableByteAt(bc);
      if res != Ok { return; }
      SetTableByteAt(bc, Second12(clst, val, p));
      Stored12(old(view), g, clst, val);
    }

    method PutFat16(clst: Dword, val: Dword) returns (res: FResult)
      requires WindowValid() && 2 <= clst < g.nFatent && g.fatType == Fat16
      modifies this`disk, this`winsect, this`wflag, this`view, win
      ensures WindowValid() && |disk| == |old(disk)|
      ensures old(Mirrored()) ==> Mirrored()
      ensures res == Ok && view == PutEntry(old(view), g, clst, val) && InFat(g, winsect)
    {
      hide WindowValid, TableByte, SetTableByte, InMirror;
      WindowBounds();
      EntryInside(g, clst);
      var o := clst * 2;
      PairPlace(clst);
      res := MoveWindow(g.fatbase + clst / (SS / 2));
      if res != Ok { return; }
      SetTableByteAt(o, val % 0x100);
      SetTableByteAt(o + 1, val / 0x100 % 0x100);
    }

    method PutFat32(clst: Dword, val: Dword) returns (res: FResult)
      requires WindowValid() && 2 <= clst < g.nFatent && g.fatType == Fat32
      modifies this`disk, this`winsect, this`wflag, this`view, win
      ensures WindowValid() && |disk| == |old(disk)|
      ensures old(Mirrored()) ==> Mirrored()
      ensures res == Ok && view == PutEntry(old(view), g, clst, val) && InFat(g, winsect)
    {
      hide WindowValid, TableByte, SetTableByte, InMirror, Or;
      WindowBounds();
      EntryInside(g, clst);
      var o := clst * 4;
      QuadPlace(clst);
      var p: int;
      res, p := TableByteAt(o + 3);
      if res != Ok { return; }
      // The reserved top bits of the old entry are or-ed into the value.
      var top := Or(val / 0x1000_0000 % 16, p / 16, 4) % 16;
      StoreFour(o, val % 0x100, val / 0x100 % 0x100, val / 0x1_0000 % 0x100, val / 0x100_0000 % 16 + 16 * top);
    }

    // Four bytes of the table in one sector.
    method StoreFour(o: nat, b0: Byte, b1: Byte, b2: Byte, b3: Byte)
      requires WindowValid() && o / SS < g.fsize && winsect == g.fatbase + o / SS
      requires (o + 1) / SS == (o + 2) / SS == (o + 3) / SS == o / SS
      modifies this`wflag, this`view, win
      ensures WindowValid() && wflag && |disk| == |view| == |old(view)| && InFat(g, winsect)
      ensures g.fatbase + (o + 3) / SS < |view|
      ensures view == SetTableByte(SetTableByte(SetTableByte(SetTableByte(old(view), g, o, b0),
                                                             g, o + 1, b1), g, o + 2, b2), g, o + 3, b3)
      ensures old(Mirrored()) ==> Mirrored()
    {
      hide WindowValid, TableByte, SetTableByte, InMirror, Mirrored;
      WindowBounds();
      SetTableByteAt(o, b0);
      SetTableByteAt(o + 1, b1);
      SetTableByteAt(o + 2, b2);
      SetTableByteAt(o + 3, b3);
      WindowBounds();
    }


    lemma TableBounds()
      requires Valid()
      ensures |fat| == g.nFatent && 3 <= |fat| <= 0xFFF_FFF7
      ensures Trunc(g.fatType, END_MARK) >= |fat| && Trunc(g.fatType, 0) == 0
      ensures forall c | 0 <= c < |fat| :: Trunc(g.fatType, c) == c && fat[c] < 0x1000_0000
    {
      hide Entry;
      SoundBounds(g, |disk|);
      assert Trunc(g.fatType, END_MARK) >= |fat| && Trunc(g.fatType, 0) == 0;
      hide Trunc, EntryLimit, WindowValid;
      forall c | 0 <= c < |fat| ensures Trunc(g.fatType, c) == c && fat[c] < 0x1000_0000 {
        TruncSmall(g.fatType, c);
        EntryBound(view, g, c);
      }
    }

    // remove_chain on any table, also one whose links run in a circle.
    method RemoveChain(clst0: Dword) returns (res: FResult)
      requires Valid()
      modifies this`disk, this`winsect, this`wflag, this`view, this`fat, this`freeClust, win
      ensures Valid() && |disk| == |old(disk)|
      ensures old(Mirrored()) ==> Mirrored()
      ensures !(2 <= clst0 < g.nFatent) ==> res == IntErr && fat == old(fat) && freeClust == old(freeClust)
      ensures 2 <= clst0 < g.nFatent ==>
        fat == Removed(old(fat), clst0) && res == (if RemovedOk(old(fat), clst0) then Ok else IntErr)
      ensures CountKept(old(fat), old(freeClust), fat, freeClust)
      ensures SameOutside(old(view), view, g)
      ensures winsect == old(winsect) || InFat(g, winsect)
    {
      hide Valid, WindowValid, Removed, RemovedOk, FreeCount, Trunc;
      TableBounds();
      if clst0 < 2 || clst0 >= g.nFatent {
        res := IntErr;
      } else {
        res := Ok;
        var clst: int := clst0;
        while clst < g.nFatent
          invariant Valid() && |disk| == |old(disk)| && |fat| == g.nFatent
          invariant old(Mirrored()) ==> Mirrored()
          invariant 2 <= clst && res == Ok
          invariant Removed(fat, clst) == Removed(old(fat), clst0)
          invariant RemovedOk(fat, clst) == RemovedOk(old(fat), clst0)
          invariant CountKept(old(fat), old(freeClust), fat, freeClust)
          invariant SameOutside(old(view), view, g)
          invariant winsect == old(winsect) || InFat(g, winsect)
          decreases |fat| - FreeCount(fat)
        {
          TableBounds();
          RemovedStep(fat, clst);
          var nxt := GetFat(clst);
          if nxt == 0 { break; }
          if nxt == 1 { res := IntErr; break; }
          if nxt == DWORD_MAX { res := DiskErr; break; }
          res := PutFat(clst, 0);
          if res != Ok { break; }
          if freeClust != DWORD_MAX {
            freeClust := Wrap32(freeClust + 1);
          }
          clst := nxt;
        }
        RemovedStep(fat, clst);
      }
    }

    // Where create_chain starts to look for a free cluster.
    function ScanStart(clst: nat): (scl: nat)
      reads `lastClust
      ensures 2 <= clst < g.nFatent ==> 1 <= scl < g.nFatent
    {
      if clst != 0 then clst
      else if lastClust == 0 || lastClust >= g.nFatent then 1
      else lastClust
    }

    // create_chain on any table. An allocation takes the next free cluster behind the start and
    // links it; without one nothing changes, and 0 means that no cluster is free.
    method CreateChain(clst: Dword) returns (r: int)
      requires Valid()
      modifies this`disk, this`winsect, this`wflag, this`view, this`fat, this`lastClust, this`freeClust, win
      ensures Valid() && |disk| == |old(disk)|
      ensures old(Mirrored()) ==> Mirrored()
      ensures clst != 0 && (!InTable(old(fat), clst) || old(fat)[clst] < 2) ==> r == 1 && fat == old(fat)
      ensures InTable(old(fat), clst) && InTable(old(fat), old(fat)[clst]) ==> r == old(fat)[clst] && fat == old(fat)
      ensures lastClust == (if fat == old(fat) then old(lastClust) else r)
      ensures fat == old(fat) ==> freeClust == old(freeClust)
      ensures clst == 0 || (InTable(old(fat), clst) && old(fat)[clst] >= |old(fat)|) ==>
        && r >= 0 && ScanResult(old(fat), old(ScanStart(clst)), r)
        && fat == if r < 2 then old(fat) else Stretched(old(fat), clst, r, Trunc(g.fatType, END_MARK))
      ensures CountKept(old(fat), old(freeClust), fat, freeClust)
      ensures SameOutside(old(view), view, g)
      ensures winsect == old(winsect) || InFat(g, winsect)
      ensures fat != old(fat) ==> InFat(g, winsect)
    {
      hide Valid, WindowValid;
      TableBounds();
      ghost var f := fat;
      var scl: nat;
      if clst == 0 {
        scl := lastClust;
        if scl == 0 || scl >= g.nFatent { scl := 1; }
      } else {
        var cs := GetFat(clst);
        if cs < 2 { return 1; }
        if cs == DWORD_MAX { return cs; }
        if cs < g.nFatent { return cs; }
        scl := clst;
      }
      r := FindFree(scl);
      if r >= 2 {
        r := TakeCluster(clst, r);
      }
    }

    // The scan of create_chain.
    method FindFree(scl: nat) returns (r: int)
      requires Valid() && 1 <= scl < g.nFatent
      modifies this`disk, this`winsect, this`wflag, win
      ensures Valid() && |disk| == |old(disk)|
      ensures old(Mirrored()) ==> Mirrored()
      ensures r >= 0 && ScanResult(fat, scl, r)
      ensures winsect == old(winsect) || InFat(g, winsect)
    {
      hide Valid, WindowValid, InUse, Full;
      TableBounds();
      ghost var wrapped := false;
      var ncl: int := scl;
      assert InUse(fat, scl, ncl, wrapped) by { InUseStart(fat, scl); }
      while true
        invariant Valid() && |disk| == |old(disk)|
        invariant old(Mirrored()) ==> Mirrored()
        invariant if wrapped then 2 <= ncl < scl else scl <= ncl < g.nFatent
        invariant InUse(fat, scl, ncl, wrapped)
        invariant winsect == old(winsect) || InFat(g, winsect)
        decreases !wrapped, g.nFatent - ncl
      {
        InUseStep(fat, scl, ncl, wrapped);
        ncl := ncl + 1;
        if ncl >= g.nFatent {
          ncl := 2;
          if ncl > scl { return 0; }
          wrapped := true;
        }
        var cs := GetFat(ncl);
        if cs == 0 { return ncl; }
        if cs == DWORD_MAX || cs == 1 { return cs; }
        if ncl == scl { return 0; }
      }
    }

    // The end of create_chain: mark the cluster, link it, update the allocation information.
    method TakeCluster(clst: Dword, ncl: Dword) returns (r: int)
      requires Valid() && InTable(fat, ncl) && fat[ncl] == 0 && (clst == 0 || (InTable(fat, clst) && fat[clst] != 0))
      modifies this`disk, this`winsect, this`wflag, this`view, this`fat, this`lastClust, this`freeClust, win
      ensures Valid() && |disk| == |old(disk)|
      ensures old(Mirrored()) ==> Mirrored()
      ensures r == ncl && lastClust == ncl
      ensures fat == Stretched(old(fat), clst, ncl, Trunc(g.fatType, END_MARK))
      ensures CountKept(old(fat), old(freeClust), fat, freeClust)
      ensures SameOutside(old(view), view, g)
      ensures InFat(g, winsect)
    {
      hide Valid, WindowValid, Mirrored, FreeCount, Trunc, Covers, PutEntry;
      TableBounds();
      StretchedFree(fat, clst, ncl, Trunc(g.fatType, END_MARK));
      r := ncl;
      var res := PutFat(ncl, END_MARK);
      if res == Ok && clst != 0 {
        res := PutFat(clst, ncl);
      }
      if res == Ok {
        lastClust := ncl;
        if freeClust != DWORD_MAX {
          freeClust := Sub32(freeClust, 1);
        }
      } else {
        r := if res == DiskErr then DWORD_MAX else 1;
      }
    }

    // fs_getfree: the stored count, or a count by cluster (FAT12) or straight over the sectors of
    // the table (FAT16/32), where the two reserved entries are counted as well. The count is stored
    // even if a reserved value cut it short. The result variable is None where it is left unassigned.
    method GetFree() returns (res: Option<FResult>, nclst: int)
      requires Valid()
      modifies this`disk, this`winsect, this`wflag, this`freeClust, win
      ensures Valid() && |disk| == |old(disk)| && |fat| >= 2
      ensures old(Mirrored()) ==> Mirrored()
      ensures old(freeClust) <= g.nFatent - 2 ==> nclst == old(freeClust) && res == None
      ensures old(freeClust) > g.nFatent - 2 && g.fatType == Fat12 ==>
        nclst == CountedFrom(fat, 2) && res == if HasReserved(fat) then Some(IntErr) else None
      ensures old(freeClust) > g.nFatent - 2 && g.fatType != Fat12 ==> nclst == FreeFrom(fat, 0) && res == Some(Ok)
      ensures freeClust == nclst
    {
      hide Valid, WindowValid, HasReserved;
      TableBounds();
      res := None;
      if freeClust <= g.nFatent - 2 {
        nclst := freeClust;
      } else {
        if g.fatType == Fat12 {
          res, nclst := CountByCluster();
        } else {
          res, nclst := CountBySector();
        }
        freeClust := nclst;
      }
    }

    method CountByCluster() returns (res: Option<FResult>, n: int)
      requires Valid()
      modifies this`disk, this`winsect, this`wflag, win
      ensures Valid() && |disk| == |old(disk)|
      ensures old(Mirrored()) ==> Mirrored()
      ensures |fat| >= 2 && 0 <= n == CountedFrom(fat, 2) <= |fat|
      ensures res == if HasReserved(fat) then Some(IntErr) else None
    {
      hide Valid, WindowValid;
      TableBounds();
      res, n := None, 0;
      var clst: int := 2;
      while true
        invariant Valid() && |disk| == |old(disk)| && res == None
        invariant old(Mirrored()) ==> Mirrored()
        invariant 2 <= clst < g.nFatent && n + CountedFrom(fat, clst) == CountedFrom(fat, 2)
        invariant forall c | 2 <= c < clst :: fat[c] != 1
        decreases g.nFatent - clst
      {
        var stat := GetFat(clst);
        if stat == DWORD_MAX { res := Some(DiskErr); break; }
        if stat == 1 { res := Some(IntErr); break; }
        if stat == 0 { n := n + 1; }
        clst := clst + 1;
        if clst >= g.nFatent { break; }
      }
    }

    method CountBySector() returns (res: Option<FResult>, n: int)
      requires Valid() && g.fatType != Fat12
      modifies this`disk, this`winsect, this`wflag, win
      ensures Valid() && |disk| == |old(disk)|
      ensures old(Mirrored()) ==> Mirrored()
      ensures res == Some(Ok) && n == FreeFrom(fat, 0)
    {
      hide WindowValid, Entry, LdWord, LdDword, EntryOffset, FreeFrom;
      TableBounds();
      WindowBounds();
      res, n := None, 0;
      var clst: int := g.nFatent;
      var sect: int := g.fatbase;
      var i, p: int := 0, 0;
      assert EntryOffset(g.fatType, 0) == 0 by { FirstOffset(g.fatType); }
      while clst > 0
        invariant Valid() && |disk| == |old(disk)|
        invariant old(Mirrored()) ==> Mirrored()
        invariant 0 <= clst <= g.nFatent && (clst < g.nFatent ==> res == Some(Ok))
        invariant n + FreeFrom(fat, g.nFatent - clst) == FreeFrom(fat, 0)
        invariant 0 <= i < SS && (i == 0 || p == SS - i) && (clst == g.nFatent ==> i == 0)
        invariant (sect - g.fatbase) * SS == EntryOffset(g.fatType, g.nFatent - clst) + i
        invariant i > 0 ==> InFat(g, sect - 1) && win[..] == view[sect - 1]
      {
        ghost var c := g.nFatent - clst;
        if i == 0 {
          EntryInStream(view, g, c, sect - g.fatbase, 0);
          var r := MoveWindow(sect);
          res := Some(r);
          sect := sect + 1;
          if r != Ok { break; }
          p := 0;
          i := SS;
        }
        EntryInStream(view, g, c, sect - 1 - g.fatbase, p);
        FreeFromStep(fat, c);
        if g.fatType == Fat16 {
          if LdWord(win[..], p) == 0 { n := n + 1; }
          p := p + 2;
          i := i - 2;
        } else {
          if LdDword(win[..], p) % 0x1000_0000 == 0 { n := n + 1; }
          p := p + 4;
          i := i - 4;
        }
        clst := clst - 1;
      }
      FreeFromEnd(fat);
    }

    // disk_write of data sectors, past the window.
    method DiskWrite(sect: nat, cc: nat, data: seq<Byte>) returns (ok: bool)
      requires Valid() && |data| == cc * SS
      requires g.database <= sect && !(sect <= winsect < sect + cc)
      modifies this`disk, this`view
      ensures Valid() && |disk| == |old(disk)| == |view| == |old(view)|
      ensures old(Mirrored()) ==> Mirrored()
      ensures ok == (sect + cc <= |disk|)
      ensures ok ==> view == PutFlat(old(view), sect, cc, data)
      ensures !ok ==> view == old(view)
    {
      hide Sound, Entry;
      SoundBounds(g, |disk|);
      ok := sect + cc <= |disk|;
      if ok {
        disk := PutFlat(disk, sect, cc, data);
        view := PutFlat(view, sect, cc, data);
        forall c | 0 <= c < |fat| ensures fat[c] == Entry(view, g, c) {
          EntryFrame(old(view), view, g, c);
        }
      }
    }

    // disk_read of data sectors, past the window.
    method DiskRead(sect: nat, cc: nat) returns (ok: bool, data: seq<Byte>)
      requires Valid()
      ensures ok == (sect + cc <= |disk|) && |view| == |disk|
      ensures ok && g.database <= sect && !(sect <= winsect < sect + cc) ==> data == Flat(view, sect, cc)
    {
      hide Sound;
      SoundBounds(g, |disk|);
      ok := sect + cc <= |disk|;
      data := [];
      if ok {
        data := Flat(disk, sect, cc);
      }
    }

    // The window is over a sector of the medium, whatever the window holds of it.
    ghost predicate Over()
      reads `disk, `winsect, `view
    {
      && win.Length == SS && Sound(g, |disk|) && |view| == |disk| && Covers(view, g)
      && winsect < |disk| && !InMirror(g, winsect)
      && forall s | 0 <= s < |disk| && !InMirror(g, s) && s != winsect :: view[s] == disk[s]
    }

    lemma WindowIsOver()
      requires WindowValid() && winsect < |disk| && !InMirror(g, winsect)
      ensures Over()
    {
      hide Sound;
    }

    // Marking the window as changed after bytes of a sector outside the table were put into it.
    method Touch()
      requires Over() && !InFat(g, winsect) && |fat| == g.nFatent
      requires forall c | 0 <= c < |fat| :: fat[c] == Entry(view, g, c)
      modifies this`wflag, this`view
      ensures Valid() && view == old(view)[winsect := win[..]]
      ensures old(Mirrored()) ==> Mirrored()
    {
      hide Sound, Entry;
      SoundBounds(g, |disk|);
      wflag := true;
      view := view[winsect := win[..]];
      forall c | 0 <= c < |fat| ensures fat[c] == Entry(view, g, c) {
        EntryFrame(old(view), view, g, c);
      }
    }

    // The view is what the medium holds, and the window's sector is about to be replaced.
    ghost predicate Settled()
      reads `disk, `wflag, `view
    {
      && win.Length == SS && !wflag
      && Sound(g, |disk|) && |view| == |disk| && Covers(view, g)
      && (forall s | 0 <= s < |disk| && !InMirror(g, s) :: view[s] == disk[s])
    }

    // mem_set of the window to zero.
    method ClearWindow()
      requires win.Length == SS
      modifies win
      ensures win[..] == Zeros()
    {
      for i := 0 to SS
        invariant forall k | 0 <= k < i :: win[k] == 0
      {
        win[i] := 0;
      }
    }

    // One round of the loop that fills a new cluster: the cleared window goes out to the next sector.
    method ClearSector()
      requires Settled() && win[..] == Zeros() && g.database <= winsect < |disk|
      modifies this`disk, this`wflag, this`view
      ensures Settled() && WindowValid() && view == old(view)[winsect := Zeros()]
      ensures old(Mirrored()) ==> Mirrored()
    {
      hide Sound;
      SoundBounds(g, |disk|);
      wflag := true;
      view := view[winsect := win[..]];
      var res := SyncWindow();
    }

    // The clean-up of a stretched directory: a cluster of zeros.
    method ClearCluster(clst: Dword)
      requires Valid() && 2 <= clst < g.nFatent && g.csize > 0
      requires g.database <= Clust2Sect(g, clst) && Clust2Sect(g, clst) + g.csize <= |disk|
      modifies this`disk, this`winsect, this`wflag, this`view, win
      ensures Valid() && |disk| == |old(disk)| && |view| == |disk|
      ensures old(Mirrored()) ==> Mirrored()
      ensures forall s | 0 <= s < |view| :: |view| == |old(view)| && view[s] ==
                if Clust2Sect(g, clst) <= s < Clust2Sect(g, clst) + g.csize then Zeros() else old(view)[s]
    {
      hide Sound, Entry, Clust2Sect, WindowValid, Settled;
      SettledBounds();
      var res := SyncWindow();
      Settle();
      ClearWindow();
      var sect := Clust2Sect(g, clst);
      winsect := sect;
      var c := 0;
      while c < g.csize
        invariant 0 <= c <= g.csize && winsect == sect + c
        invariant |disk| == |view| == |old(view)|
        invariant Settled() && win[..] == Zeros()
        invariant old(Mirrored()) ==> Mirrored()
        invariant forall s | 0 <= s < |view| :: view[s] ==
                    if sect <= s < sect + c then Zeros() else old(view)[s]
      {
        SizesSettled();
        ClearSector();
        SizesSettled();
        winsect := winsect + 1;
        c := c + 1;
      }
      winsect := winsect - c;
      Rewind();
      forall d | 0 <= d < |fat| ensures fat[d] == Entry(view, g, d) {
        EntryFrame(old(view), view, g, d);
      }
    }

    // A flushed window is settled.
    lemma Settle()
      requires WindowValid() && !wflag
      ensures Settled()
    {
      hide Sound;
    }

    // And the window is valid again over a sector that holds what it holds.
    lemma Rewind()
      requires Settled() && g.database <= winsect < |view| && view[winsect] == win[..]
      ensures WindowValid()
    {
      hide Sound;
      SoundBounds(g, |disk|);
    }

    lemma SizesSettled()
      requires Settled()
      ensures |view| == |disk| <= DWORD_MAX
    {
      SoundBounds(g, |disk|);
    }

    lemma SettledBounds()
      requires Valid()
      ensures WindowValid() && Covers(view, g) && |fat| == g.nFatent && |view| == |disk| <= DWORD_MAX
      ensures g.fatbase + g.fsize <= g.database && 2 <= g.nFatent <= 0xFFF_FFF7
    {
      SoundBounds(g, |disk|);
    }

    // What the volume invariant says about the data area.
    lemma DataBounds()
      requires Valid()
      ensures ClusterSize(g.csize) && DataInside(g, |view|) && |view| == |disk| <= DWORD_MAX
      ensures 0 < g.database && g.fatbase + g.fsize <= g.database && 3 <= g.nFatent <= 0xFFF_FFF7
    {
      SoundBounds(g, |disk|);
    }
  }
}
