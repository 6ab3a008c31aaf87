// Open files (FIL): reading, writing and seeking over a cluster chain with a private sector cache.
module FileIo {
  import opened Bytes
  import opened FatTable
  import opened Chains
  import opened Volume
  import opened FileView
  import opened LinkMap

  class Fil {
    const fs: FatFs
    const buf: array<Byte>
    const readable: bool
    const writable: bool
    var dirty: bool
    var written: bool
    var err: FResult
    var fptr: Dword
    var fsize: Dword
    var sclust: Dword
    var clust: Dword
    var dsect: Dword
    var cltbl: array?<Dword>

    // The clusters of the file.
    ghost var chain: seq<nat>

    // Size and start cluster in the directory entry of the file.
    ghost var savedSize: Dword
    ghost var savedStart: Dword

    ghost function St(): Store
      requires buf.Length == SS
      reads `dsect, `chain, buf, fs`view
    {
      Store(fs.g, fs.view, chain, dsect, buf[..])
    }

    // Chain and start cluster agree with the allocation table.
    ghost predicate ChainValid()
      reads `chain, `sclust, fs`fat
    {
      && (chain == [] <==> sclust == 0)
      && (chain != [] ==> chain[0] == sclust && IsChain(fs.fat, chain))
    }

    ghost predicate StoreValid()
      reads `dsect, `chain, buf, fs`view
    {
      buf.Length == SS && StoreOk(St())
    }

    // The cache belongs to the file, and the volume's window does not.
    ghost predicate CacheHeld()
      reads `chain, `dsect, buf, fs`view, fs`winsect
    {
      && StoreValid()
      && !InFile(fs.g, chain, fs.winsect)
      && (dsect != 0 ==> InFile(fs.g, chain, dsect) && dsect < |fs.view|)
    }

    // Besides, an unchanged cache is what the medium holds.
    ghost predicate CacheValid()
      reads `chain, `dsect, `dirty, buf, fs`view, fs`winsect
    {
      && CacheHeld()
      && (dirty ==> dsect != 0)
      && (!dirty ==> Clean(St()))
    }

    // clust is the cluster of byte fptr - 1, and inside a sector the cache holds that sector.
    ghost predicate Positioned()
      requires ClusterSize(fs.g.csize)
      reads `chain, `fptr, `clust, `dsect
    {
      && fptr <= Capacity(fs.g, chain)
      && (fptr > 0 ==> (fptr - 1) / SS / fs.g.csize < |chain| && clust == chain[(fptr - 1) / SS / fs.g.csize])
      && (fptr % SS != 0 ==> fptr / SS < SectorCount(fs.g, chain) && dsect == FileSector(fs.g, chain, fptr / SS))
    }

    ghost predicate MapValid()
      reads `chain, `cltbl, cltbl
    {
      cltbl != null ==> chain != [] && Maps(cltbl[..], chain)
    }

    ghost predicate Frame()
      reads `chain, `sclust, `cltbl, cltbl, fs, fs.win
    {
      && buf != fs.win && (cltbl != null ==> cltbl as object != buf && cltbl as object != fs.win)
      && fs.Valid()
      && ChainValid() && MapValid()
    }

    ghost predicate Base()
      reads `chain, `sclust, `dsect, `dirty, `cltbl, cltbl, buf, fs, fs.win
    {
      Frame() && CacheValid()
    }

    ghost predicate Invariant()
      reads `chain, `sclust, `dsect, `dirty, `fptr, `clust, `cltbl, cltbl, buf, fs, fs.win
    {
      Base() && Positioned()
    }

    // The directory entry holds the size and the start cluster of the file.
    ghost predicate Saved()
      reads `fsize, `sclust, `savedSize, `savedStart
    {
      savedSize == fsize && savedStart == sclust
    }

    // A file that is not marked as written has nothing that f_sync would have to save.
    ghost predicate Marked()
      reads `written, `dirty, `fsize, `sclust, `savedSize, `savedStart
    {
      !written ==> !dirty && Saved()
    }

    // The invariant between the calls of the interface; after a failure the position is void, and
    // what was changed before it need not be marked.
    ghost predicate Valid()
      reads this, cltbl, buf, fs, fs.win
    {
      Base() && fsize <= Capacity(fs.g, chain) && (err == Ok ==> Positioned() && fptr <= fsize && Marked())
    }

    // All bytes the clusters of the file have room for, as the next reader sees them.
    ghost function Image(): (c: seq<Byte>)
      requires StoreValid()
      reads `chain, `dsect, buf, fs`view
      ensures |c| == Capacity(fs.g, chain)
    {
      Content(St(), Capacity(fs.g, chain))
    }

    // The bytes of the file.
    ghost function Contents(): (c: seq<Byte>)
      requires Valid()
      reads this, cltbl, buf, fs, fs.win
      ensures |c| == fsize
    {
      Image()[..fsize]
    }

    // The end of f_open: a file whose directory entry gives start cluster and size.
    constructor (fs: FatFs, read: bool, write: bool, sclust: Dword, fsize: Dword, ghost ch: seq<nat>)
      requires fs.Valid() && ClusterSize(fs.g.csize) && !InFile(fs.g, ch, fs.winsect)
      requires if sclust == 0 then ch == [] else ch != [] && ch[0] == sclust && IsChain(fs.fat, ch)
      requires fsize <= Capacity(fs.g, ch)
      ensures Valid() && fresh(buf) && this.fs == fs && cltbl == null && fptr == 0
      ensures readable == read && writable == write && err == Ok && chain == ch && this.fsize == fsize
      ensures !written && Saved()
    {
      this.fs := fs;
      buf := new Byte[SS](_ => 0);
      readable := read;
      writable := write;
      dirty := false;
      written := false;
      err := Ok;
      this.sclust := sclust;
      this.fsize := fsize;
      fptr := 0;
      clust := 0;
      dsect := 0;
      cltbl := null;
      chain := ch;
      savedSize, savedStart := fsize, sclust;
      new;
      StoreFromChain(fs, ch, 0, buf[..]);
    }

    // disk_write of the cached sector.
    method FlushCache()
      requires Base() && dirty
      modifies `dirty, fs`disk, fs`view
      ensures Base() && !dirty
      ensures Kept(fs.g, chain, old(fs.Now()), fs.Now())
      ensures Image() == old(Image())
    {
      hide FatFs.Valid, IsChain, Maps, Content;
      fs.DataBounds();
      ghost var st := St();
      SingleSector(fs.view, dsect, buf[..]);
      var ok := fs.DiskWrite(dsect, 1, buf[..]);
      dirty := false;
      assert fs.view == st.view[st.dsect := st.cache];
      WriteBackKeeps(st, Capacity(fs.g, chain));
    }

    // Make sect, the sector k of the file, the cached one.
    method FillCache(sect: Dword, ghost k: nat) returns (res: FResult)
      requires Base() && k < SectorCount(fs.g, chain) && sect == FileSector(fs.g, chain, k)
      modifies `dirty, `dsect, buf, fs`disk, fs`view
      ensures Base() && res == Ok && dsect == sect && (dirty ==> old(dirty))
      ensures Kept(fs.g, chain, old(fs.Now()), fs.Now())
      ensures Image() == old(Image())
    {
      hide FatFs.Valid, IsChain, Maps, Content, FileSector;
      res := Ok;
      FileSectorInside(St(), k);
      if dsect != sect {
        if dirty {
          FlushCache();
        }
        res := LoadCache(sect);
      }
    }

    // disk_read into the cache.
    method LoadCache(sect: Dword) returns (res: FResult)
      requires Base() && !dirty && sect < |fs.view| && InFile(fs.g, chain, sect)
      modifies `dsect, buf
      ensures Base() && res == Ok && dsect == sect
      ensures Image() == old(Image())
    {
      hide FatFs.Valid, ChainValid, MapValid, Content, StoreOk, InFile, Capacity, SectorCount;
      fs.DataBounds();
      InFileAbove(fs.g, chain, sect);
      ghost var st := St();
      SingleSector(fs.view, sect, fs.view[sect]);
      var ok, data := fs.DiskRead(sect, 1);
      if !ok { return DiskErr; }
      RefillCache(data, 0);
      assert data[0..SS] == data;
      dsect := sect;
      res := Ok;
      assert data == st.view[sect] && buf[..] == data;
      assert St() == st.(dsect := sect, cache := st.view[sect]);
      LoadKeeps(st, sect, Capacity(fs.g, chain));
    }

    // clmt_clust: the table gives the cluster that following the chain gives.
    method ClmtClust(ofs: Dword) returns (r: nat)
      requires cltbl != null && chain != [] && Maps(cltbl[..], chain) && ClusterSize(fs.g.csize)
      ensures var cl := ofs / SS / fs.g.csize;
              r == if cl < |chain| then chain[cl] else 0
    {
      hide MapsAt, Run;
      ghost var t: seq<nat> := cltbl[..];
      var cl: int := ofs / SS / fs.g.csize;
      ghost var done := 0;
      assert chain[0..] == chain;
      var i := 1;
      while true
        invariant 0 <= done <= |chain| && cl + done == ofs / SS / fs.g.csize && cl >= 0
        invariant i >= 1 && t == cltbl[..] && MapsAt(t, i, chain[done..])
        decreases |chain| - done
      {
        MapsTail(t, i, chain[done..]);
        var ncl: int := cltbl[i];
        i := i + 1;
        if ncl == 0 { return 0; }
        if cl < ncl { return cl + cltbl[i]; }
        assert chain[done..][ncl..] == chain[done + ncl..];
        cl := cl - ncl;
        i := i + 1;
        done := done + ncl;
      }
    }

    // The cache holds the sector that byte fptr is in.
    ghost predicate Ready()
      requires ClusterSize(fs.g.csize)
      reads `chain, `fptr, `dsect
    {
      fptr / SS < SectorCount(fs.g, chain) && dsect == FileSector(fs.g, chain, fptr / SS)
    }

    // c is the cluster of the sector that byte fptr is in.
    ghost predicate At(c: int)
      requires ClusterSize(fs.g.csize)
      reads `chain, `fptr
    {
      fptr / SS / fs.g.csize < |chain| && c == chain[fptr / SS / fs.g.csize]
    }

    ghost predicate AtSector()
      requires ClusterSize(fs.g.csize)
      reads `chain, `fptr, `clust
    {
      At(clust)
    }

    // Position behind the cluster that byte fptr is in.
    function ClusterEnd(): nat
      requires ClusterSize(fs.g.csize)
      reads `fptr
    {
      (fptr / SS - fptr / SS % fs.g.csize + fs.g.csize) * SS
    }

    // The cluster of the position at a cluster boundary, for reading.
    method ReadCluster() returns (clst: int)
      requires Invariant() && fptr % SS == 0 && fptr / SS % fs.g.csize == 0 && fptr < Capacity(fs.g, chain)
      modifies fs`disk, fs`winsect, fs`wflag, fs.win
      ensures Invariant() && At(clst)
      ensures Kept(fs.g, chain, old(fs.Now()), fs.Now())
    {
      hide FatFs.Mirrored, FatFs.Valid, Maps, StoreValid, Clean, InFile, Capacity, IsChain;
      fs.DataBounds();
      BoundaryIndex(fs.g, chain, fptr);
      ghost var j := fptr / SS / fs.g.csize;
      if fptr == 0 {
        clst := sclust;
      } else {
        PositionCluster(fptr, fs.g.csize);
        if cltbl != null {
          clst := ClmtClust(fptr);
        } else {
          ChainLink(fs.fat, chain, j);
          fs.TableBounds();
          clst := fs.GetFat(clust);
          NotInFileBelow(fs.g, chain, fs.winsect);
        }
      }
    }

    // ABORT: a failure also becomes the file's lasting error.
    function Abort(res: FResult): FResult
      reads `err
    {
      if res == Ok then err else res
    }

    // The part of the read loop at a cluster boundary.
    method EnterCluster() returns (res: FResult)
      requires Invariant() && fptr % SS == 0 && fptr / SS % fs.g.csize == 0 && fptr < Capacity(fs.g, chain)
      modifies `clust, `err, fs`disk, fs`winsect, fs`wflag, fs.win
      ensures res == Ok && Base() && err == old(err) && AtSector()
      ensures Kept(fs.g, chain, old(fs.Now()), fs.Now())
    {
      hide Kept, FatFs.Mirrored, FatFs.Valid, ChainValid, MapValid, Content, Clean, InFile, Clust2Sect;
      fs.DataBounds();
      SectorNumber(St(), fptr / SS);
      var clst := ReadCluster();
      res := if clst < 2 then IntErr else if clst == DWORD_MAX then DiskErr else Ok;
      err := Abort(res);
      if res == Ok {
        clust := clst;
      }
    }

    // The sector of the position at a sector boundary, for reading.
    method LocateRead() returns (res: FResult, sect: int)
      requires Invariant() && fptr % SS == 0 && fptr < Capacity(fs.g, chain)
      modifies `clust, `err, fs`disk, fs`winsect, fs`wflag, fs.win
      ensures res == Ok && Base() && err == old(err) && AtSector()
      ensures fptr / SS < SectorCount(fs.g, chain) && sect == FileSector(fs.g, chain, fptr / SS) &&
              0 < sect <= DWORD_MAX
      ensures Kept(fs.g, chain, old(fs.Now()), fs.Now())
    {
      hide FatFs.Valid, ChainValid, MapValid, StoreValid, FileSector, Clean, InFile, Clust2Sect, Capacity,
           SectorCount, Kept, FatFs.Mirrored;
      fs.DataBounds();
      KeptSelf(fs.g, chain, fs.Now());
      CapacityAt(fs.g, chain, fptr);
      var csect := fptr / SS % fs.g.csize;
      res := Ok;
      if csect == 0 {
        res := EnterCluster();
        if res != Ok { return res, 0; }
      } else {
        PositionCluster(fptr, fs.g.csize);
      }
      SectorOfPosition();
      sect := Clust2Sect(fs.g, clust);
      if sect == 0 { return IntErr, 0; }
      sect := sect + csect;
    }

    // clust2sect finds the sector of the position.
    lemma SectorOfPosition()
      requires fs.Valid() && StoreValid() && AtSector() && fptr / SS < SectorCount(fs.g, chain)
      ensures var k := fptr / SS;
              && Clust2Sect(fs.g, clust) > 0
              && Clust2Sect(fs.g, clust) + k % fs.g.csize == FileSector(fs.g, chain, k)
      ensures 0 < FileSector(fs.g, chain, fptr / SS) < |fs.view| <= DWORD_MAX
    {
      hide FatFs.Valid;
      fs.DataBounds();
      SectorNumber(St(), fptr / SS);
    }

    // One round of the read loop.
    method ReadStep(btr: Dword) returns (res: FResult, part: seq<Byte>)
      requires Invariant() && btr > 0 && fptr + btr <= Capacity(fs.g, chain) && fptr + btr <= DWORD_MAX
      modifies `clust, `dirty, `dsect, `err, `fptr, buf, fs`disk, fs`winsect, fs`wflag, fs`view, fs.win
      ensures res == Ok && Invariant() && err == old(err) && 0 < |part| <= btr && (dirty ==> old(dirty))
      ensures fptr == old(fptr) + |part| && part == Image()[old(fptr)..fptr]
      ensures Kept(fs.g, chain, old(fs.Now()), fs.Now())
      ensures Image() == old(Image())
    {
      hide Base, Image, Capacity, Kept, FatFs.Mirrored, At, Ready;
      BaseCluster();
      KeptSelf(fs.g, chain, fs.Now());
      if fptr % SS == 0 {
        res, part := ReadAtBoundary(btr);
      } else {
        MidSector();
        res := Ok;
        part := CopyOut(btr);
      }
    }

    // The part of the read loop at a sector boundary: whole sectors go directly to the caller.
    method ReadAtBoundary(btr: Dword) returns (res: FResult, part: seq<Byte>)
      requires Invariant() && btr > 0 && fptr + btr <= Capacity(fs.g, chain) && fptr + btr <= DWORD_MAX
      requires fptr % SS == 0
      modifies `clust, `dirty, `dsect, `err, `fptr, buf, fs`disk, fs`winsect, fs`wflag, fs`view, fs.win
      ensures res == Ok && Invariant() && err == old(err) && 0 < |part| <= btr && (dirty ==> old(dirty))
      ensures fptr == old(fptr) + |part| && part == Image()[old(fptr)..fptr]
      ensures Kept(fs.g, chain, old(fs.Now()), fs.Now())
      ensures Image() == old(Image())
    {
      hide FatFs.Valid, ChainValid, MapValid, StoreValid, Clean, Image, FileSector, Kept, FatFs.Mirrored, InFile, At,
           Positioned;
      fs.DataBounds();
      var sect;
      res, sect := LocateRead();
      if res != Ok { return res, []; }
      if btr >= SS {
        res, part := ReadDirect(btr, sect);
      } else {
        ghost var before := fs.Now();
        res := FillCache(sect, fptr / SS);
        KeptTwice(fs.g, chain, old(fs.Now()), before, fs.Now());
        err := Abort(res);
        part := CopyOut(btr);
      }
    }

    // Number of whole sectors among n bytes, up to the end of the cluster.
    method SectorsHere(n: Dword) returns (cc: nat)
      requires ClusterSize(fs.g.csize) && n >= SS
      ensures 0 < cc && fptr / SS % fs.g.csize + cc <= fs.g.csize && 0 < cc * SS <= n
    {
      var csect := fptr / SS % fs.g.csize;
      cc := n / SS;
      if csect + cc > fs.g.csize {
        cc := fs.g.csize - csect;
      }
    }

    // Move the position on by whole sectors inside the cluster.
    method AdvanceSectors(cc: nat)
      requires ClusterSize(fs.g.csize) && AtSector() && fptr % SS == 0
      requires 0 < cc && fptr / SS % fs.g.csize + cc <= fs.g.csize && fptr + cc * SS <= DWORD_MAX
      modifies `fptr
      ensures fptr == old(fptr) + cc * SS <= Capacity(fs.g, chain) && Positioned()
    {
      hide Capacity, Positioned;
      assert (fptr + cc * SS) % SS == 0 && fptr + cc * SS <= ClusterEnd();
      Advance(cc * SS);
      PositionInside();
    }

    lemma PositionInside()
      requires ClusterSize(fs.g.csize) && Positioned()
      ensures fptr <= Capacity(fs.g, chain)
    {
    }

    // Whole sectors up to the end of the cluster.
    method ReadDirect(btr: Dword, sect: Dword) returns (res: FResult, part: seq<Byte>)
      requires Base() && AtSector() && fptr % SS == 0 && btr >= SS && fptr + btr <= DWORD_MAX
      requires fptr / SS < SectorCount(fs.g, chain) && sect == FileSector(fs.g, chain, fptr / SS)
      modifies `err, `fptr
      ensures res == Ok && Positioned() && err == old(err) && 0 < |part| <= btr
      ensures fptr == old(fptr) + |part| <= Capacity(fs.g, chain) && part == Image()[old(fptr)..fptr]
    {
      hide Base, Image, FileSector, Capacity, SectorCount, At, Positioned;
      BaseCluster();
      var cc := SectorsHere(btr);
      res, part := ReadSectors(sect, cc, fptr / SS);
      err := Abort(res);
      AdvanceSectors(cc);
    }

    // The part of the cached sector from the position on.
    method CopyOut(btr: Dword) returns (part: seq<Byte>)
      requires Base() && AtSector() && Ready() && btr > 0 && fptr + btr <= DWORD_MAX
      modifies `fptr
      ensures Positioned() && 0 < |part| <= btr && fptr == old(fptr) + |part| <= Capacity(fs.g, chain)
      ensures part == Image()[old(fptr)..fptr]
    {
      hide FatFs.Valid, ChainValid, MapValid, Clean, Image, FileSector, InFile;
      fs.DataBounds();
      var rcnt := SS - fptr % SS;
      if rcnt > btr { rcnt := btr; }
      CacheIsImage(rcnt);
      part := buf[fptr % SS..fptr % SS + rcnt];
      Advance(rcnt);
    }

    // Move the position on inside the cluster of byte fptr.
    method Advance(cnt: Dword)
      requires ClusterSize(fs.g.csize) && AtSector() && 0 < cnt && fptr + cnt <= ClusterEnd() && fptr + cnt <= DWORD_MAX
      requires (fptr + cnt) % SS != 0 ==> Ready() && (fptr + cnt) / SS == fptr / SS
      modifies `fptr
      ensures fptr == old(fptr) + cnt && Positioned()
    {
      hide FileSector;
      PositionAfter(fptr, cnt, fs.g.csize);
      ClusterEndInside(fs.g, chain, fptr);
      fptr := fptr + cnt;
    }

    // The cached sector from the position on is the image there.
    lemma CacheIsImage(n: nat)
      requires StoreValid() && Ready() && fptr % SS + n <= SS
      ensures fptr + n <= |Image()| && buf[fptr % SS..fptr % SS + n] == Image()[fptr..fptr + n]
    {
      hide FileSector, SectorCount, Capacity, StoreOk, Content;
      var k := fptr / SS;
      CachedSector(St(), k);
      var c := Image()[k * SS..(k + 1) * SS];
      assert c[fptr % SS..fptr % SS + n] == Image()[fptr..fptr + n];
    }

    // The direct transfer of the read loop, a dirty cached sector patched in.
    method ReadSectors(sect: Dword, cc: nat, ghost k: nat) returns (res: FResult, part: seq<Byte>)
      requires Base() && k < SectorCount(fs.g, chain) && sect == FileSector(fs.g, chain, k)
      requires 0 < cc && k % fs.g.csize + cc <= fs.g.csize
      ensures res == Ok && |part| == cc * SS && (k + cc) * SS <= Capacity(fs.g, chain)
      ensures part == Image()[k * SS..(k + cc) * SS]
    {
      hide FatFs.Valid, IsChain, Maps, Content, StoreOk, FileSector;
      fs.DataBounds();
      ghost var st := St();
      StretchInside(st, k, cc);
      DirectReadIsContent(st, k, cc, dirty);
      ContentPrefix(st, (k + cc) * SS, Capacity(fs.g, chain));
      var ok;
      ok, part := fs.DiskRead(sect, cc);
      if !ok { return DiskErr, []; }
      if dirty && Sub32(dsect, sect) < cc {
        part := Overwrite(part, Sub32(dsect, sect) * SS, buf[..]);
      }
      res := Ok;
    }

    // f_read: the next bytes of the file, as many as asked for and left.
    method Read(count: Dword) returns (res: FResult, data: seq<Byte>)
      requires Valid()
      modifies `clust, `dirty, `dsect, `err, `fptr, buf, fs`disk, fs`winsect, fs`wflag, fs`view, fs.win
      ensures Valid() && Contents() == old(Contents()) && err == old(err)
      ensures res == if err != Ok then err else if !readable then Denied else Ok
      ensures fptr == old(fptr) + |data| && (res == Ok ==> fptr <= fsize && data == Contents()[old(fptr)..fptr])
      ensures |data| == if res != Ok then 0 else if count > fsize - old(fptr) then fsize - old(fptr) else count
      ensures Kept(fs.g, chain, old(fs.Now()), fs.Now())
    {
      hide FatFs.Valid, ChainValid, MapValid, StoreValid, Clean, InFile, Positioned, Image, Kept, FatFs.Mirrored;
      fs.DataBounds();
      KeptSelf(fs.g, chain, fs.Now());
      data := [];
      res := Ok;
      if err != Ok { return err, []; }
      if !readable { return Denied, []; }
      var remain := fsize - fptr;
      res, data := ReadBytes(if count > remain then remain else count);
    }

    // The loop of f_read over the sectors.
    method ReadBytes(count: nat) returns (res: FResult, data: seq<Byte>)
      requires Valid() && err == Ok && fptr + count <= fsize
      modifies `clust, `dirty, `dsect, `err, `fptr, buf, fs`disk, fs`winsect, fs`wflag, fs`view, fs.win
      ensures Valid() && Contents() == old(Contents())
      ensures res == Ok && err == Ok && fptr == old(fptr) + count && data == Contents()[old(fptr)..fptr]
      ensures Kept(fs.g, chain, old(fs.Now()), fs.Now())
    {
      hide FatFs.Valid, ChainValid, MapValid, StoreValid, Clean, InFile, Positioned, Image, Kept, FatFs.Mirrored;
      fs.DataBounds();
      KeptSelf(fs.g, chain, fs.Now());
      data := [];
      res := Ok;
      var btr: int := count;
      while btr > 0
        invariant Invariant() && err == Ok && res == Ok && (dirty ==> old(dirty))
        invariant btr >= 0 && |data| + btr == count
        invariant fptr == old(fptr) + |data| && fptr + btr <= fsize <= Capacity(fs.g, chain)
        invariant StoreValid() && Image() == old(Image()) && data == Image()[old(fptr)..fptr]
        invariant Kept(fs.g, chain, old(fs.Now()), fs.Now())
      {
        fs.DataBounds();
        var part;
        ghost var before := fs.Now();
        res, part := ReadStep(btr);
        if res != Ok { return; }
        KeptTwice(fs.g, chain, old(fs.Now()), before, fs.Now());
        SliceGrows(Image(), old(fptr), fptr - |part|, fptr);
        data := data + part;
        btr := btr - |part|;
      }
      SliceOfPrefix(Image(), old(fptr), fptr, fsize);
    }

    // create_chain for this file: the cluster of index j, the first or the one behind cluster c.
    method Grow(c: Dword, ghost j: nat) returns (r: int)
      requires Base() && cltbl == null
      requires if c == 0 then chain == [] && j == 0 else 0 < j <= |chain| && c == chain[j - 1]
      modifies `sclust, `chain, fs`disk, fs`winsect, fs`wflag, fs`view, fs`fat, fs`lastClust, fs`freeClust, fs.win
      ensures Base() && r >= 0
      ensures r == 0 ==> j == |chain| && Full(fs.fat)
      ensures r == 1 ==> HasReserved(fs.fat)
      ensures r < 2 ==> chain == old(chain) && fs.fat == old(fs.fat)
      ensures r < fs.g.nFatent <= 0xFFF_FFF7
      ensures r >= 2 ==> j < |chain| && r == chain[j] && |chain| == (if j == |old(chain)| then j + 1 else |old(chain)|)
      ensures chain == old(chain) || |chain| == j + 1
      ensures Grown(old(fs.fat), old(chain), fs.fat, chain)
      ensures Kept(fs.g, chain, old(fs.Now()), fs.Now())
      ensures old(Image()) <= Image()
      ensures CountKept(old(fs.fat), old(fs.freeClust), fs.fat, fs.freeClust)
    {
      hide Base, CacheValid, ChainValid, Full, HasReserved, Grown, Kept, SameElsewhere;
      hide FatFs.Mirrored, Content, SameOutside, IsChain, StoreOk, Clean, InFile;
      OpenBase();
      ghost var st := St();
      r := Extend(c, j);
      GrownLength(old(fs.fat), old(chain), fs.fat, chain);
      AfterTableChange(st);
      KeptBy(fs.g, chain, old(fs.Now()), fs.Now());
      CloseBase();
      ChainBounds();
    }

    // The allocation, and the chain and its start afterwards.
    method Extend(c: Dword, ghost j: nat) returns (r: int)
      requires fs.Valid() && ChainValid() && (chain == [] <==> sclust == 0)
      requires if c == 0 then chain == [] && j == 0 else 0 < j <= |chain| && c == chain[j - 1]
      modifies `sclust, `chain, fs`disk, fs`winsect, fs`wflag, fs`view, fs`fat, fs`lastClust, fs`freeClust, fs.win
      ensures fs.Valid() && ChainValid() && r >= 0 && r < fs.g.nFatent
      ensures r == 0 ==> j == |chain| && Full(fs.fat)
      ensures r == 1 ==> HasReserved(fs.fat)
      ensures r < 2 ==> chain == old(chain) && fs.fat == old(fs.fat)
      ensures r >= 2 ==> j < |chain| && r == chain[j] && |chain| == (if j == |old(chain)| then j + 1 else |old(chain)|)
      ensures Grown(old(fs.fat), old(chain), fs.fat, chain) && old(chain) <= chain
      ensures SameOutside(old(fs.view), fs.view, fs.g)
      ensures InFat(fs.g, fs.winsect) || (chain == old(chain) && fs.winsect == old(fs.winsect))
      ensures old(fs.Mirrored()) ==> fs.Mirrored()
      ensures CountKept(old(fs.fat), old(fs.freeClust), fs.fat, fs.freeClust)
    {
      hide FatFs.Valid, Full, HasReserved, ScanResult, Stretched, Grown, SameOutside, IsChain, FatFs.Mirrored;
      fs.TableBounds();
      ghost var ch, f := chain, fs.fat;
      GrownSelf(f, ch);
      if c != 0 {
        ChainLink(f, ch, j);
      }
      ghost var scl := fs.ScanStart(c);
      r := fs.CreateChain(c);
      if c == 0 || j == |ch| {
        ScanMeans(f, scl, r, ch, Trunc(fs.g.fatType, END_MARK));
        if r >= 2 {
          chain := ch + [r];
        }
      }
      if c == 0 && r >= 2 { sclust := r; }
    }

    // What Base() says, for a file without a link map.
    lemma OpenBase()
      requires Base() && cltbl == null
      ensures buf.Length == SS && buf != fs.win && fs.Valid() && ChainValid()
      ensures (chain == [] <==> sclust == 0) && (chain != [] ==> chain[0] == sclust)
      ensures StoreOk(St()) && ClusterSize(fs.g.csize) && !InFile(fs.g, chain, fs.winsect)
      ensures dsect != 0 ==> InFile(fs.g, chain, dsect) && dsect < |fs.view|
      ensures (dirty ==> dsect != 0) && (!dirty ==> Clean(St()))
      ensures Trunc(fs.g.fatType, END_MARK) >= |fs.fat|
    {
      hide FatFs.Valid, StoreOk, Clean, InFile, IsChain;
      fs.DataBounds();
      fs.TableBounds();
    }

    lemma CloseBase()
      requires buf != fs.win && cltbl == null && fs.Valid() && ChainValid() && CacheValid()
      ensures Base()
    {
    }

    lemma ChainBounds()
      requires Frame()
      ensures forall i | 0 <= i < |chain| :: 2 <= chain[i] < fs.g.nFatent
      ensures chain != [] ==> 2 <= sclust < fs.g.nFatent
      ensures 3 <= fs.g.nFatent <= 0xFFF_FFF7
    {
      fs.TableBounds();
      forall i | 0 <= i < |chain| ensures 2 <= chain[i] < fs.g.nFatent {
        assert InTable(fs.fat, chain[i]);
      }
    }

    // The file after its table or its chain's end changed: same cache, same bytes.
    lemma AfterTableChange(st: Store)
      requires buf.Length == SS && St() == st.(view := fs.view, chain := chain)
      requires StoreOk(st) && SameOutside(st.view, fs.view, fs.g) && st.chain <= chain
      requires fs.Valid() && ChainValid()
      requires st.dsect != 0 ==> InFile(st.g, st.chain, st.dsect) && st.dsect < |st.view|
      requires dirty ==> dsect != 0
      requires !dirty ==> Clean(st)
      requires InFat(fs.g, fs.winsect) || (chain == st.chain && !InFile(fs.g, chain, fs.winsect))
      ensures CacheValid()
      ensures Content(st, Capacity(st.g, st.chain)) <= Image()
      ensures SameElsewhere(fs.g, chain, st.view, fs.view)
    {
      hide FatFs.Valid, StoreOk, Clean, IsChain, SameOutside;
      fs.DataBounds();
      StoreFromChain(fs, chain, dsect, buf[..]);
      PrefixMembers(st.chain, chain);
      TableChangeCache(st, fs.view, chain);
      TableChangeKeeps(st, fs.view, chain, Capacity(st.g, st.chain));
      ContentPrefix(St(), Capacity(st.g, st.chain), Capacity(fs.g, chain));
      SameOutsideElsewhere(fs.g, chain, st.view, fs.view);
    }

    // What a growing write promises about everything that is not its data: only free clusters
    // were added, none under a link map, and outside them and the table the volume is as before.
    twostate predicate GrowsOnly()
      requires ClusterSize(fs.g.csize)
      reads `chain, `cltbl, fs
    {
      && (cltbl != null ==> chain == old(chain))
      && Grown(old(fs.fat), old(chain), fs.fat, chain)
      && Kept(fs.g, chain, old(fs.Now()), fs.Now())
      && CountKept(old(fs.fat), old(fs.freeClust), fs.fat, fs.freeClust)
    }

    // The chain has no cluster to spare behind the position, or is still ch.
    ghost predicate JustEnough(ch: seq<nat>)
      requires ClusterSize(fs.g.csize)
      reads `chain, `fptr
    {
      chain == ch || (|chain| > 0 && Capacity(fs.g, chain[..|chain| - 1]) < fptr <= Capacity(fs.g, chain))
    }

    // The chain is still ch, or its last cluster starts at the position.
    ghost predicate Edge(ch: seq<nat>)
      requires ClusterSize(fs.g.csize)
      reads `chain, `fptr
    {
      chain == ch || (|chain| > 0 && Capacity(fs.g, chain[..|chain| - 1]) == fptr)
    }

    lemma ChainAndMap()
      requires Base()
      ensures (chain == [] <==> sclust == 0) && (chain != [] ==> chain[0] == sclust) && MapValid()
    {
      hide FatFs.Valid, CacheValid, Maps;
    }

    // The cluster of the position at a cluster boundary, for writing: 0 when none is left.
    method NextForWrite() returns (clst: int)
      requires Invariant() && AtBoundary()
      modifies `sclust, `chain
      modifies fs`disk, fs`winsect, fs`wflag, fs`view, fs`fat, fs`lastClust, fs`freeClust, fs.win
      ensures Base() && GrowsOnly() && 0 <= clst <= 0xFFF_FFF7
      ensures clst < 2 ==> chain == old(chain)
      ensures chain == old(chain) || |chain| == Index() + 1
      ensures clst == 0 ==> Index() == |chain| && (cltbl == null ==> Full(fs.fat))
      ensures clst == 1 ==> HasReserved(fs.fat)
      ensures clst >= 2 ==> At(clst)
      ensures old(Image()) <= Image()
    {
      hide Base, Full, HasReserved, Grown, Kept, FatFs.Mirrored, Image, Capacity;
      BaseCluster();
      ghost var j := fptr / SS / fs.g.csize;
      BoundaryIndex(fs.g, chain, fptr);
      if fptr == 0 {
        clst := FirstForWrite();
      } else {
        PositionCluster(fptr, fs.g.csize);
        clst := NextBehind(j);
      }
    }

    // The first cluster of the file, a new one if it has none.
    method FirstForWrite() returns (clst: int)
      requires Base()
      modifies `sclust, `chain
      modifies fs`disk, fs`winsect, fs`wflag, fs`view, fs`fat, fs`lastClust, fs`freeClust, fs.win
      ensures Base() && GrowsOnly() && 0 <= clst <= 0xFFF_FFF7
      ensures clst < 2 ==> chain == old(chain)
      ensures chain == old(chain) || |chain| == 1
      ensures clst == 0 ==> |chain| == 0 && Full(fs.fat)
      ensures clst == 1 ==> HasReserved(fs.fat)
      ensures clst >= 2 ==> 0 < |chain| && clst == chain[0]
      ensures old(Image()) <= Image()
    {
      hide Base, Full, HasReserved, Grown, Kept, FatFs.Mirrored, Image, Maps, Capacity;
      BaseCluster();
      TableOfFile();
      ChainAndMap();
      KeptSelf(fs.g, chain, fs.Now());
      GrownSelf(fs.fat, chain);
      clst := sclust;
      if clst == 0 {
        clst := Grow(0, 0);
      }
    }

    // The cluster of index j, behind the current one.
    method NextBehind(ghost j: nat) returns (clst: int)
      requires Base() && ClusterSize(fs.g.csize)
      requires 0 < j <= |chain| && clust == chain[j - 1] && fptr / SS / fs.g.csize == j
      modifies `sclust, `chain
      modifies fs`disk, fs`winsect, fs`wflag, fs`view, fs`fat, fs`lastClust, fs`freeClust, fs.win
      ensures Base() && GrowsOnly() && 0 <= clst <= 0xFFF_FFF7
      ensures clst < 2 ==> chain == old(chain)
      ensures chain == old(chain) || |chain| == j + 1
      ensures clst == 0 ==> j == |chain| && (cltbl == null ==> Full(fs.fat))
      ensures clst == 1 ==> HasReserved(fs.fat)
      ensures clst >= 2 ==> j < |chain| && clst == chain[j]
      ensures old(Image()) <= Image()
    {
      hide Base, Full, HasReserved, Grown, Kept, FatFs.Mirrored, Image, Maps, Capacity;
      BaseCluster();
      TableOfFile();
      ChainAndMap();
      KeptSelf(fs.g, chain, fs.Now());
      GrownSelf(fs.fat, chain);
      if cltbl != null {
        clst := ClmtClust(fptr);
      } else {
        clst := Grow(clust, j);
      }
    }

    // What a position at a cluster boundary says about the end of a chain that grew there from ch, if at all.
    lemma BoundaryFacts(ch: seq<nat>)
      requires ClusterSize(fs.g.csize) && AtBoundary() && (chain == ch || |chain| == Index() + 1)
      ensures Edge(ch)
      ensures forall c | At(c) :: fptr < Capacity(fs.g, chain)
      ensures Index() == |chain| ==> fptr == Capacity(fs.g, chain)
    {
      hide Capacity;
      if Index() < |chain| {
        LandCapacity(fs.g, chain, fptr, 1);
      } else if Index() == |chain| {
        CapacityOf(fs.g, chain, fptr);
      }
    }

    // The part of the write loop at a cluster boundary; full tells that no cluster is left.
    method EnterClusterWrite() returns (res: FResult, full: bool)
      requires Invariant() && AtBoundary()
      modifies `clust, `sclust, `chain, `err
      modifies fs`disk, fs`winsect, fs`wflag, fs`view, fs`fat, fs`lastClust, fs`freeClust, fs.win
      ensures Base() && GrowsOnly() && (res == Ok ==> err == old(err))
      ensures res != Ok ==> err == res
      ensures res == Ok && !full ==> AtSector() && fptr < Capacity(fs.g, chain)
      ensures res == Ok && full ==> fptr == Capacity(fs.g, chain) && Positioned() && (cltbl == null ==> Full(fs.fat))
      ensures res != Ok ==> res == IntErr && HasReserved(fs.fat) && Positioned()
      ensures Edge(old(chain)) && (res != Ok || full ==> chain == old(chain))
      ensures old(Image()) <= Image()
    {
      hide Base, Full, HasReserved, Grown, Kept, FatFs.Mirrored, Image, Capacity, AtBoundary,
           Index, At, Positioned, Edge;
      BaseCluster();
      var clst := NextForWrite();
      BoundaryFacts(old(chain));
      full := clst == 0;
      res := if clst == 1 then IntErr else if clst == DWORD_MAX then DiskErr else Ok;
      err := Abort(res);
      if res == Ok && !full {
        clust := clst;
      }
    }

    lemma EdgeSelf()
      requires ClusterSize(fs.g.csize)
      ensures Edge(chain) && JustEnough(chain)
    {
    }

    // The part of the write loop at a sector boundary up to the sector number.
    method LocateWrite() returns (res: FResult, full: bool, sect: int)
      requires Invariant() && fptr % SS == 0
      modifies `clust, `sclust, `chain, `err, `dirty
      modifies fs`disk, fs`winsect, fs`wflag, fs`view, fs`fat, fs`lastClust, fs`freeClust, fs.win
      ensures Base() && GrowsOnly() && (res == Ok ==> err == old(err))
      ensures res != Ok ==> err == res == IntErr && HasReserved(fs.fat) && Positioned()
      ensures res == Ok && full ==> fptr == Capacity(fs.g, chain) && Positioned() && (cltbl == null ==> Full(fs.fat))
      ensures res == Ok && !full ==> AtSector() && !dirty && IsSector(sect)
      ensures Edge(old(chain)) && (res != Ok || full ==> chain == old(chain))
      ensures old(Image()) <= Image()
    {
      hide FatFs.Valid, ChainValid, MapValid, StoreValid, Full, HasReserved, Grown, Kept, FatFs.Mirrored, Image,
           Clean, InFile, FileSector, Capacity, SectorCount, Positioned, IsSector, At, Edge;
      fs.DataBounds();
      KeptSelf(fs.g, chain, fs.Now());
      GrownSelf(fs.fat, chain);
      res, full, sect := Ok, false, 0;
      EdgeSelf();
      if fptr / SS % fs.g.csize == 0 {
        res, full := EnterClusterWrite();
        if res != Ok || full { return; }
      } else {
        StayInCluster();
      }
      ghost var before := fs.Now();
      sect := SectorForWrite();
      KeptTwice(fs.g, chain, old(fs.Now()), before, fs.Now());
    }

    lemma StayInCluster()
      requires Invariant() && fptr % SS == 0 && fptr / SS % fs.g.csize != 0
      ensures AtSector() && fptr < Capacity(fs.g, chain)
    {
      hide Base, Capacity;
      BaseCluster();
      PositionCluster(fptr, fs.g.csize);
      InsideCluster(fs.g, chain, fptr);
    }

    lemma BaseCluster()
      requires Base()
      ensures ClusterSize(fs.g.csize) && StoreValid()
    {
      fs.DataBounds();
    }

    // sect is the sector of the position.
    ghost predicate IsSector(sect: int)
      requires ClusterSize(fs.g.csize)
      reads `chain, `fptr
    {
      fptr / SS < SectorCount(fs.g, chain) && 0 < sect <= DWORD_MAX && sect == FileSector(fs.g, chain, fptr / SS)
    }

    // Write back the cache and compute the sector of the position.
    method SectorForWrite() returns (sect: int)
      requires Base() && AtSector() && fptr < Capacity(fs.g, chain)
      modifies `dirty, fs`disk, fs`view
      ensures Base() && !dirty && IsSector(sect)
      ensures Kept(fs.g, chain, old(fs.Now()), fs.Now())
      ensures Image() == old(Image())
    {
      hide FatFs.Valid, ChainValid, MapValid, StoreValid, Kept, FatFs.Mirrored, Image, Clean, InFile, FileSector,
           Capacity, SectorCount;
      fs.DataBounds();
      KeptSelf(fs.g, chain, fs.Now());
      CapacityAt(fs.g, chain, fptr);
      if dirty {
        FlushCache();
      }
      SectorOfPosition();
      sect := Clust2Sect(fs.g, clust) + fptr / SS % fs.g.csize;
    }

    // The direct transfer of the write loop; a cached sector among the written ones is refilled.
    method WriteSectors(sect: Dword, cc: nat, data: seq<Byte>, ghost k: nat) returns (res: FResult)
      requires Base() && !dirty && k < SectorCount(fs.g, chain) && sect == FileSector(fs.g, chain, k)
      requires 0 < cc && k % fs.g.csize + cc <= fs.g.csize && |data| == cc * SS
      modifies `dirty, buf, fs`disk, fs`view
      ensures res == Ok && Base() && !dirty
      ensures (k + cc) * SS <= Capacity(fs.g, chain) && Image() == Overwrite(old(Image()), k * SS, data)
      ensures Kept(fs.g, chain, old(fs.Now()), fs.Now())
    {
      hide FatFs.Valid, ChainValid, MapValid, Content, StoreOk, FileSector, InFile, Overwrite;
      fs.DataBounds();
      ghost var st := St();
      StretchInside(st, k, cc);
      DirectWriteIsOverwrite(st, k, cc, data, Capacity(fs.g, chain));
      ghost var st' := DirectWrite(st, sect, cc, data);
      StretchElsewhere(st, k, cc, data);
      var ok := fs.DiskWrite(sect, cc, data);
      res := if ok then Ok else DiskErr;
      if ok && Sub32(dsect, sect) < cc {
        RefillCache(data, Sub32(dsect, sect) * SS);
        dirty := false;
      }
      assert St() == st';
      assert Frame();
    }

    method RefillCache(data: seq<Byte>, at: nat)
      requires buf.Length == SS && at + SS <= |data|
      modifies buf
      ensures buf[..] == data[at..at + SS]
    {
      forall i | 0 <= i < SS { buf[i] := data[at + i]; }
    }

    // The end of the file while a write is under way.
    function Size(): Dword
      reads `fptr, `fsize
    {
      if fptr > fsize then fptr else fsize
    }

    // Make sect the cached sector; at the growing edge it is not read.
    method FillForWrite(sect: Dword) returns (res: FResult)
      requires Base() && !dirty && fptr % SS == 0 && IsSector(sect) && Size() <= Capacity(fs.g, chain)
      modifies `dsect, buf
      ensures res == Ok && CacheHeld() && Ready() && !dirty
      ensures Image()[..Size()] == old(Image())[..Size()]
    {
      hide FatFs.Valid, ChainValid, MapValid, Content, StoreOk, FileSector, InFile, Clean;
      ghost var k := fptr / SS;
      FileSectorInside(St(), k);
      res := Ok;
      if dsect != sect {
        if fptr < fsize {
          res := LoadCache(sect);
        } else {
          ghost var st := St();
          AdoptKeeps(st, k, fptr);
          ContentPrefix(st, fptr, Capacity(fs.g, chain));
          ContentPrefix(st.(dsect := sect), fptr, Capacity(fs.g, chain));
        }
      }
      dsect := sect;
    }

    // Put data into the cached sector at the position, as much as fits.
    method CopyIn(data: seq<Byte>) returns (wcnt: nat)
      requires Frame() && CacheHeld() && AtSector() && Ready() && data != [] && fptr + |data| <= DWORD_MAX
      modifies `fptr, `dirty, buf
      ensures Base() && Positioned() && 0 < wcnt <= |data| && fptr == old(fptr) + wcnt <= Capacity(fs.g, chain)
      ensures Image() == Overwrite(old(Image()), old(fptr), data[..wcnt])
    {
      hide FatFs.Valid, ChainValid, MapValid, StoreValid, Image, FileSector, InFile, Clean, Overwrite, At;
      fs.DataBounds();
      wcnt := SS - fptr % SS;
      if wcnt > |data| { wcnt := |data|; }
      CopyToCache(data[..wcnt]);
      Advance(wcnt);
    }

    method CopyToCache(part: seq<Byte>)
      requires Frame() && CacheHeld() && Ready() && fptr % SS + |part| <= SS
      modifies `dirty, buf
      ensures Base() && Ready() && fptr + |part| <= Capacity(fs.g, chain)
      ensures Image() == Overwrite(old(Image()), fptr, part)
    {
      hide FatFs.Valid, ChainValid, MapValid, Content, StoreOk, FileSector, InFile, Clean, Overwrite, Capacity,
           SectorCount;
      ghost var st, k := St(), fptr / SS;
      var o := fptr % SS;
      FileSectorInside(st, k);
      CachedSector(st, k);
      CacheWrite(st, k, o, part, Capacity(fs.g, chain));
      forall i | 0 <= i < |part| { buf[o + i] := part[i]; }
      assert buf[..] == Overwrite(st.cache, o, part);
      dirty := true;
    }

    // Whole sectors up to the end of the cluster.
    method WriteWhole(data: seq<Byte>, sect: Dword) returns (res: FResult, wcnt: nat)
      requires Base() && !dirty && AtSector() && fptr % SS == 0 && IsSector(sect) && |data| >= SS &&
               fptr + |data| <= DWORD_MAX
      modifies `dirty, `fptr, buf, fs`disk, fs`view
      ensures res == Ok && Base() && Positioned() && 0 < wcnt <= |data| &&
              fptr == old(fptr) + wcnt <= Capacity(fs.g, chain)
      ensures Image() == Overwrite(old(Image()), old(fptr), data[..wcnt])
      ensures Kept(fs.g, chain, old(fs.Now()), fs.Now())
    {
      hide Base, Image, FileSector, Capacity, SectorCount, At, Positioned, Overwrite, Kept, FatFs.Mirrored;
      BaseCluster();
      var cc := SectorsHere(|data|);
      wcnt := cc * SS;
      res := WriteSectors(sect, cc, data[..wcnt], fptr / SS);
      AdvanceSectors(cc);
    }

    // The bytes up to the end of the file under way.
    ghost function Written(): (c: seq<Byte>)
      requires StoreValid() && Size() <= Capacity(fs.g, chain)
      reads `chain, `dsect, `fptr, `fsize, buf, fs`view
    {
      Image()[..Size()]
    }

    // The transfer of the write loop at a sector boundary.
    method WriteAtBoundary(data: seq<Byte>, sect: Dword) returns (res: FResult, wcnt: nat)
      requires Base() && !dirty && AtSector() && fptr % SS == 0 && IsSector(sect)
      requires data != [] && fptr + |data| <= DWORD_MAX && Size() <= Capacity(fs.g, chain)
      modifies `dirty, `dsect, `fptr, buf, fs`disk, fs`view
      ensures res == Ok && Base() && Positioned() && 0 < wcnt <= |data| && fptr == old(fptr) + wcnt
      ensures Size() <= Capacity(fs.g, chain) && Written() == Overwrite(old(Written()), old(fptr), data[..wcnt])
      ensures Kept(fs.g, chain, old(fs.Now()), fs.Now())
    {
      hide FatFs.Valid, ChainValid, MapValid, StoreValid, Image, FileSector, InFile, Clean, Kept, FatFs.Mirrored,
           Overwrite, IsSector, At, Positioned, Ready;
      fs.DataBounds();
      KeptSelf(fs.g, chain, fs.Now());
      ghost var n := Size();
      if |data| >= SS {
        ghost var image := Image();
        res, wcnt := WriteWhole(data, sect);
        OverwritePrefix(image, n, old(fptr), data[..wcnt]);
      } else {
        res := FillForWrite(sect);
        ghost var image := Image();
        wcnt := CopyIn(data);
        OverwritePrefix(image, n, old(fptr), data[..wcnt]);
      }
    }

    lemma MidSector()
      requires Invariant() && fptr % SS != 0
      ensures AtSector() && Ready()
    {
      hide Base, FileSector, SectorCount, Capacity;
      BaseCluster();
      PositionCluster(fptr, fs.g.csize);
    }

    // The rest of a sector that the position is inside of.
    method WriteInSector(data: seq<Byte>) returns (wcnt: nat)
      requires Invariant() && data != [] && fptr + |data| <= DWORD_MAX && Size() <= Capacity(fs.g, chain)
      requires fptr % SS != 0
      modifies `dirty, `fptr, buf
      ensures Invariant() && 0 < wcnt <= |data| && fptr == old(fptr) + wcnt && Size() <= Capacity(fs.g, chain)
      ensures Written() == Overwrite(old(Written()), old(fptr), data[..wcnt])
    {
      hide FatFs.Valid, ChainValid, MapValid, StoreValid, Image, FileSector, InFile, Clean, At, Ready, Overwrite;
      fs.DataBounds();
      MidSector();
      ghost var image, n := Image(), Size();
      wcnt := CopyIn(data);
      OverwritePrefix(image, n, old(fptr), data[..wcnt]);
    }

    // From a sector boundary on.
    method WriteFromBoundary(data: seq<Byte>) returns (res: FResult, full: bool, wcnt: nat)
      requires Invariant() && fptr % SS == 0 && data != []
      requires fptr + |data| <= DWORD_MAX && Size() <= Capacity(fs.g, chain)
      modifies `clust, `sclust, `chain, `err, `dirty, `dsect, `fptr, buf
      modifies fs`disk, fs`winsect, fs`wflag, fs`view, fs`fat, fs`lastClust, fs`freeClust, fs.win
      ensures Invariant() && GrowsOnly() && (res == Ok ==> err == old(err))
      ensures res != Ok ==> err == res == IntErr && HasReserved(fs.fat) && wcnt == 0
      ensures res == Ok && full ==> wcnt == 0 && fptr == Capacity(fs.g, chain) && (cltbl == null ==> Full(fs.fat))
      ensures res == Ok && !full ==> 0 < wcnt <= |data|
      ensures fptr == old(fptr) + wcnt && Size() <= Capacity(fs.g, chain)
      ensures JustEnough(old(chain))
      ensures Written() == Overwrite(old(Written()), old(fptr), data[..wcnt])
    {
      hide Base, Image, Kept, FatFs.Mirrored, Grown, Full, HasReserved, At, Positioned, Overwrite, Capacity, FileSector;
      BaseCluster();
      ghost var w := Written();
      OverwriteNothing(w, fptr);
      assert data[..0] == [];
      var sect;
      res, full, sect := LocateWrite();
      wcnt := 0;
      BaseCluster();
      assert Written() == w;
      if res == Ok && !full {
        ghost var before := fs.Now();
        res, wcnt := WriteAtBoundary(data, sect);
        KeptTwice(fs.g, chain, old(fs.Now()), before, fs.Now());
      }
    }

    // One round of the write loop.
    method WriteStep(data: seq<Byte>) returns (res: FResult, full: bool, wcnt: nat)
      requires Invariant() && data != [] && fptr + |data| <= DWORD_MAX && Size() <= Capacity(fs.g, chain)
      modifies `clust, `sclust, `chain, `err, `dirty, `dsect, `fptr, buf
      modifies fs`disk, fs`winsect, fs`wflag, fs`view, fs`fat, fs`lastClust, fs`freeClust, fs.win
      ensures Invariant() && GrowsOnly() && (res == Ok ==> err == old(err))
      ensures res != Ok ==> err == res == IntErr && HasReserved(fs.fat) && wcnt == 0
      ensures res == Ok && full ==> wcnt == 0 && fptr == Capacity(fs.g, chain) && (cltbl == null ==> Full(fs.fat))
      ensures res == Ok && !full ==> 0 < wcnt <= |data|
      ensures fptr == old(fptr) + wcnt && Size() <= Capacity(fs.g, chain)
      ensures JustEnough(old(chain))
      ensures Written() == Overwrite(old(Written()), old(fptr), data[..wcnt])
    {
      hide Base, Image, Kept, FatFs.Mirrored, Grown, Full, HasReserved, At, Positioned, Overwrite, Capacity, Written;
      BaseCluster();
      if fptr % SS == 0 {
        res, full, wcnt := WriteFromBoundary(data);
      } else {
        KeptSelf(fs.g, chain, fs.Now());
        GrownSelf(fs.fat, chain);
        res, full := Ok, false;
        wcnt := WriteInSector(data);
      }
    }

    // f_write: the file's bytes from the position on are replaced by a prefix of data, all of it
    // unless no cluster is left; a reserved table entry met on the way is a lasting error.
    method Write(data: seq<Byte>) returns (res: FResult, bw: nat)
      requires Valid() && |data| <= DWORD_MAX
      modifies `clust, `sclust, `chain, `err, `dirty, `dsect, `fptr, `fsize, `written, buf
      modifies fs`disk, fs`winsect, fs`wflag, fs`view, fs`fat, fs`lastClust, fs`freeClust, fs.win
      ensures Valid() && GrowsOnly() && JustEnough(old(chain)) && bw <= |data| && fptr == old(fptr) + bw
      ensures old(err) != Ok || !writable ==> bw == 0 && Contents() == old(Contents()) && err == old(err)
      ensures old(err) != Ok || !writable ==> res == if err != Ok then err else Denied
      ensures old(err) != Ok || !writable ==> chain == old(chain) && fs.fat == old(fs.fat) && written == old(written)
      ensures old(err) == Ok && writable ==> res == err && (res == Ok || (res == IntErr && HasReserved(fs.fat)))
      ensures res == Ok ==> Contents() == Overwrite(old(Contents()), old(fptr), data[..bw]) && written
      ensures res == Ok && bw < |data| ==>
        if old(fptr) + |data| > DWORD_MAX then bw == 0
        else fptr == Capacity(fs.g, chain) && (cltbl == null ==> Full(fs.fat))
    {
      hide FatFs.Valid, Frame, CacheValid, Positioned, Image, Kept, FatFs.Mirrored, Grown, Full, HasReserved, Overwrite;
      SizesValid();
      KeptSelf(fs.g, chain, fs.Now());
      GrownSelf(fs.fat, chain);
      res, bw := Ok, 0;
      if err != Ok { return err, 0; }
      if !writable { return Denied, 0; }
      ghost var w := Written();
      OverwriteNothing(w, fptr);
      assert data[..0] == [];
      if fptr + |data| <= DWORD_MAX {
        var full: bool;
        res, full, bw := WriteLoop(data);
        if res != Ok { return; }
      }
      if fptr > fsize {
        fsize := fptr;
      }
      written := true;
    }

    lemma ChainIsChain()
      requires ChainValid()
      ensures chain != [] ==> IsChain(fs.fat, chain)
    {
    }

    lemma WrittenLength()
      requires StoreValid() && Size() <= Capacity(fs.g, chain)
      ensures |Written()| == Size() >= fptr
    {
    }

    // Two writes that each left the chain no longer than needed; the position only moves on.
    lemma JustEnoughTwice(c0: seq<nat>, c1: seq<nat>, p1: nat)
      requires ClusterSize(fs.g.csize) && JustEnough(c1) && p1 <= fptr && Size() <= Capacity(fs.g, chain)
      requires c1 == c0 || (|c1| > 0 && Capacity(fs.g, c1[..|c1| - 1]) < p1)
      ensures JustEnough(c0)
    {
    }

    // The write loop.
    method WriteLoop(data: seq<Byte>) returns (res: FResult, full: bool, bw: nat)
      requires Invariant() && fptr + |data| <= DWORD_MAX && Size() <= Capacity(fs.g, chain)
      modifies `clust, `sclust, `chain, `err, `dirty, `dsect, `fptr, buf
      modifies fs`disk, fs`winsect, fs`wflag, fs`view, fs`fat, fs`lastClust, fs`freeClust, fs.win
      ensures Invariant() && GrowsOnly() && (res == Ok ==> err == old(err))
      ensures res != Ok ==> err == res == IntErr && HasReserved(fs.fat)
      ensures bw <= |data| && fptr == old(fptr) + bw && Size() <= Capacity(fs.g, chain)
      ensures res == Ok && bw < |data| ==> fptr == Capacity(fs.g, chain) && (cltbl == null ==> Full(fs.fat))
      ensures JustEnough(old(chain))
      ensures Written() == Overwrite(old(Written()), old(fptr), data[..bw])
    {
      hide FatFs.Valid, MapValid, ChainValid, StoreValid, Clean, InFile, Positioned, Written, Size, Capacity, Kept,
           FatFs.Mirrored, Grown, Full, HasReserved, Overwrite, IsChain;
      fs.DataBounds();
      KeptSelf(fs.g, chain, fs.Now());
      GrownSelf(fs.fat, chain);
      res, full, bw := Ok, false, 0;
      ghost var w := Written();
      WrittenLength();
      OverwriteNothing(w, fptr);
      assert data[..0] == [];
      while bw < |data|
        invariant Invariant() && GrowsOnly() && res == Ok && err == old(err)
        invariant JustEnough(old(chain))
        invariant bw <= |data| && fptr == old(fptr) + bw && Size() <= Capacity(fs.g, chain)
        invariant Written() == Overwrite(w, old(fptr), data[..bw])
      {
        ghost var before, f, ch, p := fs.Now(), fs.fat, chain, fptr;
        ChainIsChain();
        var cnt;
        res, full, cnt := WriteStep(data[bw..]);
        GrowsTwice(fs.g, old(fs.Now()), old(fs.fat), old(chain), before, f, ch, fs.Now(), fs.fat, chain);
        OverwriteTwice(w, old(fptr), data[..bw], data[bw..][..cnt]);
        assert data[..bw] + data[bw..][..cnt] == data[..bw + cnt];
        JustEnoughTwice(old(chain), ch, p);
        bw := bw + cnt;
        if res != Ok || full { return; }
      }
    }

    lemma SizesValid()
      requires Valid()
      ensures ClusterSize(fs.g.csize) && StoreValid() && (err == Ok ==> Size() <= Capacity(fs.g, chain))
    {
      fs.DataBounds();
    }

    // ---- Seeking ----

    ghost predicate AtBoundary()
      requires ClusterSize(fs.g.csize)
      reads `fptr
    {
      fptr % SS == 0 && fptr / SS % fs.g.csize == 0
    }

    // The index of the cluster that byte fptr is in.
    ghost function Index(): nat
      requires ClusterSize(fs.g.csize)
      reads `fptr
    {
      fptr / SS / fs.g.csize
    }

    // The cluster behind the current one; in write mode the chain is stretched if need be.
    method StepCluster(clst: Dword) returns (next: int)
      requires Base() && cltbl == null && AtBoundary() && At(clst)
      requires !writable ==> Index() + 1 < |chain|
      modifies `sclust, `chain
      modifies fs`disk, fs`winsect, fs`wflag, fs`view, fs`fat, fs`lastClust, fs`freeClust, fs.win
      ensures Base() && GrowsOnly() && 0 <= next < fs.g.nFatent <= 0xFFF_FFF7
      ensures next < 2 ==> chain == old(chain)
      ensures next == 0 ==> Index() + 1 == |chain| && Full(fs.fat)
      ensures next == 1 ==> HasReserved(fs.fat)
      ensures next >= 2 ==> Index() + 1 < |chain| && next == chain[Index() + 1]
      ensures chain == old(chain) || |chain| == Index() + 2
      ensures old(Image()) <= Image()
    {
      hide FatFs.Valid, IsChain, StoreValid, Full, HasReserved, Grown, Kept, FatFs.Mirrored, Image, Maps, Clean, InFile;
      fs.DataBounds();
      ghost var j := Index() + 1;
      ChainBounds();
      if writable {
        next := Grow(clst, j);
      } else {
        KeptSelf(fs.g, chain, fs.Now());
        GrownSelf(fs.fat, chain);
        ChainLink(fs.fat, chain, j);
        fs.TableBounds();
        next := Link(clst);
        NotInFileBelow(fs.g, chain, fs.winsect);
      }
    }

    // Go on to the next cluster.
    method MoveOn(clst: Dword)
      requires ClusterSize(fs.g.csize) && AtBoundary() && fptr + fs.g.csize * SS <= DWORD_MAX
      requires Index() + 1 < |chain| && clst == chain[Index() + 1]
      modifies `clust, `fptr
      ensures AtBoundary() && AtSector() && Index() == old(Index()) + 1 < |chain| && fptr == old(fptr) + fs.g.csize * SS
    {
      NextBoundary(fptr, fs.g.csize);
      clust := clst;
      fptr := fptr + fs.g.csize * SS;
    }

    // The following loop: from the cluster boundary at fptr to the cluster that byte ofs - 1 behind
    // it lies in; rest is what remains, a whole cluster when the disk got full on the way.
    method SeekLoop(ofs: nat) returns (res: FResult, rest: nat)
      requires Base() && cltbl == null && AtBoundary() && AtSector() && 0 < ofs && fptr + ofs <= DWORD_MAX
      requires !writable ==> fptr + ofs <= Capacity(fs.g, chain)
      modifies `clust, `fptr, `sclust, `chain
      modifies fs`disk, fs`winsect, fs`wflag, fs`view, fs`fat, fs`lastClust, fs`freeClust, fs.win
      ensures Base() && GrowsOnly()
      ensures res == Ok ==> AtBoundary() && AtSector() && 0 < rest <= fs.g.csize * SS
      ensures res == Ok ==> fptr + rest <= old(fptr) + ofs && old(Index()) <= Index() < |chain|
      ensures res == Ok && fptr + rest < old(fptr) + ofs ==>
        rest == fs.g.csize * SS && Index() + 1 == |chain| && Full(fs.fat)
      ensures res == Ok ==> chain == old(chain) || |chain| == Index() + 1
      ensures res != Ok ==> res == IntErr && HasReserved(fs.fat)
      ensures old(Image()) <= Image()
    {
      hide FatFs.Valid, IsChain, MapValid, StoreValid, Full, HasReserved, Grown, Kept, FatFs.Mirrored, Image, Clean,
           InFile, AtBoundary, At, Index, Capacity;
      fs.DataBounds();
      KeptSelf(fs.g, chain, fs.Now());
      GrownSelf(fs.fat, chain);
      IndexInside();
      var bcs := fs.g.csize * SS;
      res, rest := Ok, ofs;
      while rest > bcs
        invariant Base() && cltbl == null && GrowsOnly() && AtBoundary() && AtSector() && 0 < rest && res == Ok
        invariant fptr + rest == old(fptr) + ofs && old(Index()) <= Index() < |chain|
        invariant chain == old(chain) || |chain| == Index() + 1
        invariant !writable ==> fptr + rest <= Capacity(fs.g, chain)
        invariant old(Image()) <= Image()
        decreases rest
      {
        ghost var before, f, ch := fs.Now(), fs.fat, chain;
        if !writable {
          NextInRange(rest);
        }
        var clst := StepCluster(clust);
        GrowsTwice(fs.g, old(fs.Now()), old(fs.fat), old(chain), before, f, ch, fs.Now(), fs.fat, chain);
        if clst == 0 {
          rest := bcs;
          break;
        }
        res := if clst == DWORD_MAX then DiskErr else if clst <= 1 || clst >= fs.g.nFatent then IntErr else Ok;
        if res != Ok { return; }
        MoveOn(clst);
        rest := rest - bcs;
      }
    }

    lemma IndexInside()
      requires ClusterSize(fs.g.csize) && AtSector()
      ensures Index() < |chain|
    {
    }

    lemma NextInRange(rest: nat)
      requires ClusterSize(fs.g.csize) && AtBoundary() && rest > fs.g.csize * SS && fptr + rest <= Capacity(fs.g, chain)
      ensures Index() + 1 < |chain|
    {
      RoomBehind(fs.g, chain, fptr);
    }

    // Where a seek to byte ofs - 1 starts: in the current cluster when the target is not before
    // it, else at the start of the file; 0 when the file has no cluster and none is free.
    method SeekStart(ofs: Dword) returns (res: FResult, clst: nat)
      requires Base() && Positioned() && cltbl == null && ofs > 0 && (!writable ==> ofs <= Capacity(fs.g, chain))
      modifies `clust, `fptr, `sclust, `chain
      modifies fs`disk, fs`winsect, fs`wflag, fs`view, fs`fat, fs`lastClust, fs`freeClust, fs.win
      ensures Base() && GrowsOnly()
      ensures res == Ok && clst != 0 ==> AtBoundary() && AtSector() && fptr < ofs
      ensures res == Ok && clst != 0 ==> chain == old(chain) || |chain| == Index() + 1
      ensures res == Ok && clst == 0 ==> chain == old(chain) == [] && fptr == 0 && Full(fs.fat)
      ensures res != Ok ==> res == IntErr && HasReserved(fs.fat)
      ensures old(Image()) <= Image()
    {
      hide Base, Full, HasReserved, Grown, Kept, FatFs.Mirrored, Image, Capacity, ClusterNumber, Positioned,
           AtBoundary, At, Index;
      BaseCluster();
      KeptSelf(fs.g, chain, fs.Now());
      GrownSelf(fs.fat, chain);
      EmptyCapacity(fs.g);
      var ifptr := fptr;
      res := Ok;
      if ifptr > 0 && ClusterNumber(ofs - 1, fs.g.csize) >= ClusterNumber(ifptr - 1, fs.g.csize) {
        clst := SeekFromHere(ofs);
      } else {
        res, clst := SeekFromStart();
      }
    }

    // The start of the current cluster.
    method SeekFromHere(ofs: Dword) returns (clst: nat)
      requires Base() && Positioned() && fptr > 0 && ofs > 0
      requires ClusterNumber(ofs - 1, fs.g.csize) >= ClusterNumber(fptr - 1, fs.g.csize)
      modifies `fptr
      ensures clst != 0 && AtBoundary() && AtSector() && fptr < ofs
    {
      hide Base, Capacity, ClusterNumber, ClusterFloor, FileSector, SectorCount;
      BaseCluster();
      TableOfFile();
      BoundaryNotBehind(fptr, ofs, fs.g.csize);
      fptr := ClusterFloor(fptr - 1, fs.g.csize);
      clst := clust;
    }

    // The start of the file, with its first cluster if it has none yet.
    method SeekFromStart() returns (res: FResult, clst: nat)
      requires Base() && cltbl == null
      modifies `clust, `fptr, `sclust, `chain
      modifies fs`disk, fs`winsect, fs`wflag, fs`view, fs`fat, fs`lastClust, fs`freeClust, fs.win
      ensures Base() && GrowsOnly()
      ensures res == Ok ==> fptr == 0
      ensures res == Ok && clst != 0 ==> AtBoundary() && AtSector() && (chain == old(chain) || |chain| == Index() + 1)
      ensures res == Ok && clst == 0 ==> chain == old(chain) == [] && Full(fs.fat)
      ensures res != Ok ==> res == IntErr && HasReserved(fs.fat)
      ensures old(Image()) <= Image()
    {
      hide FatFs.Valid, IsChain, MapValid, StoreValid, Full, HasReserved, Grown, Kept, FatFs.Mirrored, Image, Clean,
           InFile, Capacity;
      fs.DataBounds();
      ChainBounds();
      KeptSelf(fs.g, chain, fs.Now());
      GrownSelf(fs.fat, chain);
      res := Ok;
      fptr := 0;
      clst := sclust;
      if clst == 0 {
        clst := Grow(0, 0);
        res := if clst == 1 then IntErr else if clst == DWORD_MAX then DiskErr else Ok;
        if res != Ok { return; }
      }
      clust := clst;
    }

    // The end of the following: the position inside the cluster and its sector, 0 at a sector boundary.
    method SeekLand(rest: nat) returns (nsect: int)
      requires fs.Valid() && StoreValid() && ClusterSize(fs.g.csize) && AtBoundary() && AtSector()
      requires 0 < rest <= fs.g.csize * SS && fptr + rest <= DWORD_MAX
      modifies `fptr
      ensures fptr == old(fptr) + rest && LandedAt(nsect) && 0 <= nsect <= DWORD_MAX
      ensures |chain| == old(Index()) + 1 ==> JustEnough([])
      ensures |chain| == old(Index()) + 1 && rest == fs.g.csize * SS ==> fptr == Capacity(fs.g, chain)
    {
      hide FatFs.Valid, StoreValid, FileSector, Clust2Sect, Capacity, SectorCount, ClusterSize;
      fs.DataBounds();
      BoundaryPlus(fptr, rest, fs.g.csize);
      LandCapacity(fs.g, chain, fptr, rest);
      fptr := fptr + rest;
      nsect := LandSector(rest);
    }

    // The sector of a position inside a sector, rest bytes behind the start of its cluster.
    method LandSector(rest: nat) returns (nsect: int)
      requires fs.Valid() && StoreValid() && ClusterSize(fs.g.csize)
      requires rest % SS != 0 ==>
                 fptr / SS < SectorCount(fs.g, chain) && fptr / SS / fs.g.csize < |chain| &&
                 clust == chain[fptr / SS / fs.g.csize] && fptr / SS % fs.g.csize == rest / SS
      ensures 0 <= nsect <= DWORD_MAX
      ensures rest % SS != 0 ==> fptr / SS < SectorCount(fs.g, chain) && nsect == FileSector(fs.g, chain, fptr / SS)
    {
      hide FatFs.Valid, StoreOk, FileSector, Clust2Sect, SectorCount;
      fs.DataBounds();
      nsect := 0;
      if rest % SS != 0 {
        SectorNumber(St(), fptr / SS);
        nsect := Clust2Sect(fs.g, clust);
        nsect := nsect + rest / SS;
      }
    }

    // clust is the cluster of byte fptr - 1, and nsect the sector of a position inside a sector.
    ghost predicate LandedAt(nsect: int)
      requires ClusterSize(fs.g.csize)
      reads `chain, `fptr, `clust
    {
      && 0 < fptr <= Capacity(fs.g, chain)
      && (fptr - 1) / SS / fs.g.csize < |chain| && clust == chain[(fptr - 1) / SS / fs.g.csize]
      && (fptr % SS != 0 ==> fptr / SS < SectorCount(fs.g, chain) && nsect == FileSector(fs.g, chain, fptr / SS))
    }

    // f_lseek without a link map. The position becomes the target, clipped to the file's size
    // when only reading and to the chain's end when the disk is full; the chain grows just enough.
    method NormalSeek(ofs0: Dword) returns (res: FResult)
      requires Base() && Positioned() && fsize <= Capacity(fs.g, chain) && err == Ok && cltbl == null
      modifies `clust, `fptr, `fsize, `sclust, `chain, `dirty, `dsect, `written, buf
      modifies fs`disk, fs`winsect, fs`wflag, fs`view, fs`fat, fs`lastClust, fs`freeClust, fs.win
      ensures Base() && GrowsOnly() && old(Image()) <= Image()
      ensures res == Ok ==> Positioned() && fptr <= fsize <= Capacity(fs.g, chain)
      ensures res == Ok ==> fsize == if fptr > old(fsize) then fptr else old(fsize)
      ensures res == Ok ==> written == (old(written) || fsize != old(fsize)) && (dirty ==> old(dirty))
      ensures res == Ok ==>
        var target := if ofs0 > old(fsize) && !writable then old(fsize) else ofs0;
        fptr <= target && (fptr < target ==> fptr == Capacity(fs.g, chain) && Full(fs.fat))
      ensures res == Ok ==> JustEnough(old(chain))
      ensures res != Ok ==> res == IntErr && HasReserved(fs.fat) && fsize == old(fsize)
    {
      hide Base, Full, HasReserved, Grown, Kept, FatFs.Mirrored, Image, Capacity, Positioned, FileSector, JustEnough,
           LandedAt;
      BaseCluster();
      var ofs := ofs0;
      if ofs > fsize && !writable { ofs := fsize; }
      var nsect;
      res, nsect := SeekTo(ofs);
      if res == Ok {
        ghost var before := fs.Now();
        res := FinishSeek(nsect);
        KeptTwice(fs.g, chain, old(fs.Now()), before, fs.Now());
      }
    }

    // The sector of the position, and the mark of a file that became longer.
    method FinishSeek(nsect: Dword) returns (res: FResult)
      requires Base() && (fptr == 0 || LandedAt(nsect)) && (fptr <= fsize ==> fsize <= Capacity(fs.g, chain))
      modifies `fsize, `written, `dirty, `dsect, buf, fs`disk, fs`view
      ensures res == Ok && Base() && Positioned() && fptr <= fsize <= Capacity(fs.g, chain)
      ensures fsize == if fptr > old(fsize) then fptr else old(fsize)
      ensures written == (old(written) || fsize != old(fsize)) && (dirty ==> old(dirty))
      ensures Kept(fs.g, chain, old(fs.Now()), fs.Now())
      ensures Image() == old(Image())
    {
      hide Base, Image, Capacity, Positioned, LandedAt, Kept, FatFs.Mirrored;
      BaseCluster();
      res := SeekFill(nsect);
      PositionInside();
      if fptr > fsize {
        fsize := fptr;
        written := true;
      }
    }

    // A file that is not longer than before still starts where it did.
    lemma SameStart(fat: seq<nat>, ch: seq<nat>, start: Dword)
      requires Base() && Grown(fat, ch, fs.fat, chain) && JustEnough(ch) && fptr <= fsize
      requires fsize <= Capacity(fs.g, ch) && (ch == [] <==> start == 0) && (ch != [] ==> ch[0] == start)
      ensures sclust == start
    {
      hide FatFs.Valid, CacheValid, IsChain, Maps;
      fs.DataBounds();
      GrownLength(fat, ch, fs.fat, chain);
      EmptyCapacity(fs.g);
    }

    // The start of the file, or the way along the chain.
    method SeekTo(ofs: Dword) returns (res: FResult, nsect: int)
      requires Base() && Positioned() && cltbl == null && (!writable ==> ofs <= Capacity(fs.g, chain))
      modifies `clust, `fptr, `sclust, `chain
      modifies fs`disk, fs`winsect, fs`wflag, fs`view, fs`fat, fs`lastClust, fs`freeClust, fs.win
      ensures Base() && GrowsOnly() && old(Image()) <= Image()
      ensures res == Ok ==> 0 <= nsect <= DWORD_MAX && (fptr == 0 || LandedAt(nsect)) && JustEnough(old(chain))
      ensures res == Ok ==> fptr <= ofs && (fptr < ofs ==> fptr == Capacity(fs.g, chain) && Full(fs.fat))
      ensures res != Ok ==> res == IntErr && HasReserved(fs.fat)
    {
      hide Base, Full, HasReserved, Grown, Kept, FatFs.Mirrored, Image, Capacity, Positioned, LandedAt;
      BaseCluster();
      KeptSelf(fs.g, chain, fs.Now());
      GrownSelf(fs.fat, chain);
      res, nsect := Ok, 0;
      if ofs == 0 {
        fptr := 0;
      } else {
        res, nsect := SeekChain(ofs);
      }
    }

    // The part of the seek that follows the chain.
    method SeekChain(ofs: Dword) returns (res: FResult, nsect: int)
      requires Base() && Positioned() && cltbl == null && ofs > 0 && (!writable ==> ofs <= Capacity(fs.g, chain))
      modifies `clust, `fptr, `sclust, `chain
      modifies fs`disk, fs`winsect, fs`wflag, fs`view, fs`fat, fs`lastClust, fs`freeClust, fs.win
      ensures Base() && GrowsOnly() && old(Image()) <= Image()
      ensures res == Ok ==> 0 <= nsect <= DWORD_MAX && (fptr == 0 || LandedAt(nsect)) && JustEnough(old(chain))
      ensures res == Ok ==> fptr <= ofs && (fptr < ofs ==> fptr == Capacity(fs.g, chain) && Full(fs.fat))
      ensures res != Ok ==> res == IntErr && HasReserved(fs.fat)
    {
      hide FatFs.Valid, MapValid, StoreValid, Full, HasReserved, Grown, Kept, FatFs.Mirrored, Image, Clean, InFile,
           AtBoundary, At, Index, Capacity, Positioned, LandedAt, IsChain;
      fs.DataBounds();
      EmptyCapacity(fs.g);
      nsect := 0;
      var clst: nat;
      var rest: nat;
      res, clst := SeekStart(ofs);
      if res != Ok { return; }
      if clst != 0 {
        ghost var before, f, ch := fs.Now(), fs.fat, chain;
        IndexInside();
        res, rest := SeekLoop(ofs - fptr);
        GrowsTwice(fs.g, old(fs.Now()), old(fs.fat), old(chain), before, f, ch, fs.Now(), fs.fat, chain);
        if res != Ok { return; }
        nsect := SeekLand(rest);
      }
    }

    // Cache the sector of a position inside a sector.
    method SeekFill(nsect: Dword) returns (res: FResult)
      requires Base() && (fptr == 0 || LandedAt(nsect))
      modifies `dirty, `dsect, buf, fs`disk, fs`view
      ensures res == Ok && Base() && Positioned() && (dirty ==> old(dirty))
      ensures Kept(fs.g, chain, old(fs.Now()), fs.Now())
      ensures Image() == old(Image())
    {
      hide FatFs.Valid, ChainValid, MapValid, StoreValid, Kept, FatFs.Mirrored, Image, Clean, InFile, FileSector;
      fs.DataBounds();
      KeptSelf(fs.g, chain, fs.Now());
      res := Ok;
      if fptr % SS != 0 {
        res := FillCache(nsect, fptr / SS);
      }
    }

    // f_lseek with a link map: no table access, the same final state.
    method FastSeek(ofs0: Dword) returns (res: FResult)
      requires Base() && Positioned() && fsize <= Capacity(fs.g, chain) && cltbl != null
      modifies `clust, `fptr, `dirty, `dsect, buf, fs`disk, fs`view
      ensures Base() && Positioned() && res == Ok && (dirty ==> old(dirty))
      ensures fptr == if ofs0 > fsize then fsize else ofs0
      ensures Kept(fs.g, chain, old(fs.Now()), fs.Now())
      ensures Image() == old(Image())
    {
      hide FatFs.Valid, ChainValid, MapValid, StoreValid, Kept, FatFs.Mirrored, Image, Clean, InFile, Capacity,
           LandedAt;
      fs.DataBounds();
      var ofs := ofs0;
      if ofs > fsize { ofs := fsize; }
      fptr := ofs;
      var dsc := 0;
      if ofs > 0 {
        dsc := FastLand();
      }
      res := SeekFill(dsc);
    }

    // Cluster and sector of the position by the link map.
    method FastLand() returns (dsc: int)
      requires Base() && cltbl != null && 0 < fptr <= Capacity(fs.g, chain)
      modifies `clust
      ensures LandedAt(dsc) && 0 <= dsc <= DWORD_MAX
    {
      hide FatFs.Valid, ChainValid, StoreValid, Clean, InFile, FileSector, Maps, Capacity, SectorCount, Clust2Sect;
      fs.DataBounds();
      ChainBounds();
      var ofs := fptr;
      CapacityAt(fs.g, chain, ofs - 1);
      var clst := ClmtClust(ofs - 1);
      SectorAt(ofs - 1, clst);
      clust := clst;
      dsc := Clust2Sect(fs.g, clust);
      dsc := dsc + (ofs - 1) / SS % fs.g.csize;
      PositionCluster(ofs, fs.g.csize);
    }

    lemma SectorAt(p: nat, c: Dword)
      requires fs.Valid() && StoreValid() && p / SS < SectorCount(fs.g, chain)
      requires var j := p / SS / fs.g.csize; c == if j < |chain| then chain[j] else 0
      ensures p / SS / fs.g.csize < |chain| &&
              Clust2Sect(fs.g, c) + p / SS % fs.g.csize == FileSector(fs.g, chain, p / SS)
      ensures 0 <= FileSector(fs.g, chain, p / SS) <= DWORD_MAX
    {
      hide FatFs.Valid;
      fs.DataBounds();
      SectorNumber(St(), p / SS);
    }

    // f_lseek. Whichever way the chain is followed - from the current cluster, from the start, by
    // the link map - the final position is the clipped target, and Valid() fixes the cluster and,
    // inside a sector, the cached sector that belong to it.
    method Seek(ofs: Dword) returns (res: FResult)
      requires Valid() && (cltbl != null ==> ofs != DWORD_MAX)
      modifies `clust, `fptr, `fsize, `sclust, `chain, `dirty, `dsect, `written, `err, buf
      modifies fs`disk, fs`winsect, fs`wflag, fs`view, fs`fat, fs`lastClust, fs`freeClust, fs.win
      ensures Valid() && GrowsOnly()
      ensures old(err) != Ok ==> res == err == old(err) && fptr == old(fptr) && Contents() == old(Contents())
      ensures old(err) == Ok ==> res == err && (res == Ok || (res == IntErr && HasReserved(fs.fat)))
      ensures res == Ok ==>
        var target := if ofs > old(fsize) && (!writable || cltbl != null) then old(fsize) else ofs;
        fptr <= target && (fptr < target ==> fptr == Capacity(fs.g, chain) && Full(fs.fat))
      ensures res == Ok ==> fsize == (if fptr > old(fsize) then fptr else old(fsize)) && JustEnough(old(chain))
      ensures res == Ok ==> written == (old(written) || fsize != old(fsize))
      ensures old(fsize) <= fsize && Contents()[..old(fsize)] == old(Contents())
    {
      hide FatFs.Valid, ChainValid, MapValid, StoreValid, Full, HasReserved, Grown, Kept, FatFs.Mirrored, Image,
           Clean, InFile, Capacity, Positioned;
      SizesValid();
      KeptSelf(fs.g, chain, fs.Now());
      GrownSelf(fs.fat, chain);
      if err != Ok { return err; }
      ChainAndMap();
      ghost var fat, ch, start, size := fs.fat, chain, sclust, fsize;
      if cltbl != null {
        res := FastSeek(ofs);
      } else {
        res := NormalSeek(ofs);
        if res == Ok && fsize == size {
          SameStart(fat, ch, start);
        }
      }
      err := Abort(res);
    }

    // f_lseek with CREATE_LINKMAP: the runs of the chain go into tbl, whose first item gives its
    // size and becomes the number of items needed. Nothing behind that size is written. The walk
    // takes a last entry of exactly the next cluster's number for a link, and only then fails.
    method CreateLinkMap(tbl: array<Dword>) returns (res: FResult)
      requires Base() && err == Ok && tbl as object != fs.win && tbl as object != buf && cltbl == null
      requires 1 <= tbl.Length && tbl[0] <= tbl.Length
      modifies tbl, `err, fs`disk, fs`winsect, fs`wflag, fs.win
      ensures Base() && (res == IntErr ==> err == IntErr) && (res != IntErr ==> err == Ok)
      ensures res == if LinksPastEnd(fs.fat, chain) then IntErr else if TableSize(chain) <= old(tbl[0]) then Ok
              else NotEnoughCore
      ensures res == Ok ==> Maps(tbl[..], chain)
      ensures res != IntErr ==> tbl[0] == TableSize(chain)
      ensures forall i | 0 < i < tbl.Length && old(tbl[0]) <= i :: tbl[i] == old(tbl[i])
    {
      hide Base, Run, IsChain, LinksPastEnd, Fragments, RunsLeft, Filled, Maps;
      TableOfFile();
      StartOfChain();
      var tlen := tbl[0];
      var ulen: int := 2;
      var p := 1;
      var cl: int := sclust;
      ghost var done := 0;
      ghost var fr := Fragments(chain);
      RunsLeftStart(chain);
      FilledNone(tbl[..], fr);
      res := Ok;
      while cl != 0 && cl < fs.g.nFatent
        invariant Base() && err == Ok && res == Ok && tbl[0] == tlen
        invariant done < |chain| ==> cl == chain[done]
        invariant done == |chain| ==> (cl == 0 || cl >= fs.g.nFatent) && !LinksPastEnd(fs.fat, chain)
        invariant 2 <= ulen && 0 <= done <= |chain| && RunsLeft(chain, done, fr, ulen - 2)
        invariant ulen <= tlen ==> p == ulen - 1 && Filled(tbl[..], fr, ulen - 2)
        invariant forall i | 0 < i < tbl.Length && tlen <= i :: tbl[i] == old(tbl[i])
        decreases |chain| - done
      {
        var tcl := cl;
        var ncl: int;
        ulen := ulen + 2;
        ghost var was := tbl[..];
        res, ncl, cl := TakeRun(cl, done);
        err := Abort(res);
        assert tbl[..] == was;
        if res != Ok { return; }
        p := StoreIfRoom(tbl, tlen, ulen, p, ncl, tcl, fr, done);
        done := done + ncl;
      }
      RunsLeftEnd(chain, fr, ulen - 2);
      FinishMap(tbl, tlen, ulen, p);
      res := if ulen <= tlen then Ok else NotEnoughCore;
    }

    // The caller hands over a table that holds the link map of the file.
    method AttachLinkMap(tbl: array<Dword>)
      requires Valid() && chain != [] && Maps(tbl[..], chain) && tbl as object != fs.win && tbl as object != buf
      modifies `cltbl
      ensures Valid() && cltbl == tbl && Contents() == old(Contents())
    {
      hide FatFs.Valid, StoreOk, IsChain, Maps, Content;
      cltbl := tbl;
    }

    // Every byte of the file's clusters is on the medium.
    ghost predicate OnMedium()
      requires StoreValid()
      reads `chain, `dsect, buf, fs`view, fs`disk
    {
      forall k | 0 <= k < SectorCount(fs.g, chain) ::
        0 <= FileSector(fs.g, chain, k) < |fs.disk| && fs.disk[FileSector(fs.g, chain, k)] == SectorData(St(), k)
    }

    // What f_sync does: of a file marked as written the cache and the window go out, and size and start
    // cluster to the directory entry. Without the mark nothing is done, and nothing has to be.
    method SyncData()
      requires Valid()
      modifies `dirty, `written, `savedSize, `savedStart, fs`disk, fs`view, fs`wflag
      ensures Valid() && Contents() == old(Contents()) && !written
      ensures old(written) || err == Ok ==> !dirty && Saved() && OnMedium()
      ensures old(written) ==> !fs.wflag
      ensures !old(written) ==> fs.disk == old(fs.disk) && fs.view == old(fs.view) && dirty == old(dirty)
      ensures Kept(fs.g, chain, old(fs.Now()), fs.Now())
    {
      hide Base, Image, Positioned, OnMedium, Kept, FatFs.Mirrored;
      BaseCluster();
      KeptSelf(fs.g, chain, fs.Now());
      if written {
        FlushAll();
        savedSize, savedStart := fsize, sclust;
        written := false;
      } else if !dirty {
        CleanIsOut();
      }
    }

    // The cache and the window go out.
    method FlushAll()
      requires Base()
      modifies `dirty, fs`disk, fs`view, fs`wflag
      ensures Base() && !dirty && !fs.wflag && OnMedium() && Image() == old(Image())
      ensures Kept(fs.g, chain, old(fs.Now()), fs.Now())
    {
      hide FatFs.Valid, ChainValid, MapValid, StoreValid, Clean, InFile, Image, Kept, FatFs.Mirrored, OnMedium;
      fs.DataBounds();
      KeptSelf(fs.g, chain, fs.Now());
      if dirty {
        FlushCache();
      }
      ghost var before := fs.Now();
      FlushWindow();
      KeptTwice(fs.g, chain, old(fs.Now()), before, fs.Now());
    }

    // With a clean cache the medium holds the file, as the window is not one of its sectors.
    lemma CleanIsOut()
      requires Base() && !dirty
      ensures OnMedium()
    {
      hide IsChain, Maps, FileSector, StoreOk, Entry;
      SoundBounds(fs.g, |fs.disk|);
      forall k | 0 <= k < SectorCount(fs.g, chain)
        ensures 0 <= FileSector(fs.g, chain, k) < |fs.disk| &&
                fs.disk[FileSector(fs.g, chain, k)] == SectorData(St(), k)
      {
        FileSectorInside(St(), k);
      }
    }

    // sync_window under an open file.
    method FlushWindow()
      requires Base() && !dirty
      modifies fs`disk, fs`wflag
      ensures Base() && !fs.wflag && OnMedium() && Image() == old(Image())
      ensures fs.view == old(fs.view) && Kept(fs.g, chain, old(fs.Now()), fs.Now())
    {
      hide IsChain, Maps, Content, StoreOk, FatFs.WindowValid, Entry;
      fs.DataBounds();
      var res := fs.SyncWindow();
      CleanIsOut();
    }

    lemma StartOfChain()
      requires Base()
      ensures chain == [] ==> sclust == 0 && !LinksPastEnd(fs.fat, chain)
      ensures chain != [] ==> chain[0] == sclust
      ensures TableSize(chain) < 0x1000_0000 * 2 && |chain| <= DWORD_MAX
    {
      hide FatFs.Valid, CacheValid, IsChain, Fragments;
      MapSizes();
    }

    // Store length and first cluster of a run.
    method StoreRun(tbl: array<Dword>, p: nat, ncl: nat, tcl: Dword, ghost fr: seq<nat>)
      requires tbl as object != fs.win && tbl as object != buf && 1 <= p && p + 1 < tbl.Length
      requires Filled(tbl[..], fr, p - 1) && p + 1 <= |fr| && fr[p - 1] == ncl && fr[p] == tcl && ncl <= DWORD_MAX
      modifies tbl
      ensures Filled(tbl[..], fr, p + 1)
      ensures forall i | 0 <= i < tbl.Length && i != p && i != p + 1 :: tbl[i] == old(tbl[i])
    {
      tbl[p] := ncl;
      tbl[p + 1] := tcl;
    }

    // The same if the table has room for it.
    method StoreIfRoom(tbl: array<Dword>, tlen: nat, ulen: nat, p: nat, ncl: nat, tcl: Dword, ghost fr: seq<nat>,
                       ghost done: nat)
      returns (p': nat)
      requires tbl as object != fs.win && tbl as object != buf && 1 <= tbl.Length && tlen <= tbl.Length && ulen >= 4
      requires done < |chain| && RunsLeft(chain, done, fr, ulen - 4)
      requires ncl == Run(chain[done..]) <= DWORD_MAX && tcl == chain[done]
      requires ulen - 2 <= tlen ==> p == ulen - 3 && Filled(tbl[..], fr, ulen - 4)
      modifies tbl
      ensures ulen <= tlen ==> p' == ulen - 1 && Filled(tbl[..], fr, ulen - 2)
      ensures RunsLeft(chain, done + ncl, fr, ulen - 2)
      ensures tbl[0] == old(tbl[0])
      ensures forall i | 0 < i < tbl.Length && tlen <= i :: tbl[i] == old(tbl[i])
    {
      hide RunsLeft, Run;
      RunsLeftStep(chain, done, fr, ulen - 4);
      p' := p;
      if ulen <= tlen {
        StoreRun(tbl, p, ncl, tcl, fr);
        p' := p + 2;
      }
    }

    // The number of items used, and the terminator if there is room for it.
    method FinishMap(tbl: array<Dword>, tlen: nat, ulen: Dword, p: nat)
      requires tbl as object != fs.win && tbl as object != buf && 1 <= tbl.Length && tlen <= tbl.Length
      requires ulen == TableSize(chain)
      requires ulen <= tlen ==> p == ulen - 1 && Filled(tbl[..], Fragments(chain), ulen - 2)
      modifies tbl
      ensures tbl[0] == ulen && (ulen <= tlen ==> Maps(tbl[..], chain))
      ensures forall i | 0 < i < tbl.Length && tlen <= i :: tbl[i] == old(tbl[i])
    {
      tbl[0] := ulen;
      if ulen <= tlen {
        tbl[p] := 0;
        FilledMaps(tbl[..], chain);
      }
    }

    lemma MapSizes()
      requires Frame()
      ensures TableSize(chain) < 0x1000_0000 * 2 && |chain| <= DWORD_MAX
    {
      fs.TableBounds();
      if chain != [] {
        ChainLength(fs.fat, chain);
      }
    }

    // get_fat under an open file.
    method Link(c: Dword) returns (next: int)
      requires Base()
      modifies fs`disk, fs`winsect, fs`wflag, fs.win
      ensures Base() && next == if 2 <= c < |fs.fat| then fs.fat[c] else 1
      ensures Kept(fs.g, chain, old(fs.Now()), fs.Now())
    {
      hide FatFs.Mirrored, FatFs.Valid, ChainValid, StoreValid, Clean, InFile;
      fs.TableBounds();
      fs.DataBounds();
      next := fs.GetFat(c);
      NotInFileBelow(fs.g, chain, fs.winsect);
    }

    lemma TableOfFile()
      requires Base()
      ensures 3 <= fs.g.nFatent == |fs.fat| <= 0xFFF_FFF7
      ensures forall c | 0 <= c < |fs.fat| :: fs.fat[c] < 0x1000_0000
      ensures forall i | 0 <= i < |chain| :: 2 <= chain[i] < |fs.fat|
      ensures chain != [] ==> IsChain(fs.fat, chain)
    {
      hide FatFs.Valid, CacheValid, IsChain;
      fs.TableBounds();
      ChainBounds();
    }

    // One run of the chain from its cluster j on, and the entry of the run's last cluster.
    method TakeRun(cl0: Dword, ghost j: nat) returns (res: FResult, ncl: nat, cl: int)
      requires Base() && j < |chain| && cl0 == chain[j]
      modifies fs`disk, fs`winsect, fs`wflag, fs.win
      ensures Base() && (res == Ok || res == IntErr)
      ensures res == Ok ==> ncl == Run(chain[j..]) && j + ncl <= |chain|
      ensures res == Ok && j + ncl < |chain| ==> cl == chain[j + ncl]
      ensures res == Ok && j + ncl == |chain| ==> cl >= fs.g.nFatent && !LinksPastEnd(fs.fat, chain)
      ensures res == IntErr ==> LinksPastEnd(fs.fat, chain)
    {
      hide Base, Run, IsChain;
      TableOfFile();
      cl, ncl, res := cl0, 0, Ok;
      while true
        invariant Base() && res == Ok && j + ncl <= |chain|
        invariant j + ncl < |chain| ==> cl == chain[j + ncl] && RunAt(chain, j, ncl + 1)
        invariant j + ncl == |chain| ==> cl == fs.g.nFatent && LinksPastEnd(fs.fat, chain)
        decreases |chain| - ncl
      {
        var pcl := cl;
        ghost var past := j + ncl == |chain|;
        ncl := ncl + 1;
        if !past {
          ChainLink(fs.fat, chain, j + ncl);
        }
        cl := Link(cl);
        res := if cl <= 1 then IntErr else if cl == DWORD_MAX then DiskErr else Ok;
        if res != Ok { return; }
        if cl != pcl + 1 { break; }
      }
      RunAtIsRun(chain, j, ncl);
    }
  }

  lemma SliceGrows(s: seq<Byte>, a: nat, b: nat, c: nat)
    requires a <= b <= c <= |s|
    ensures s[a..c] == s[a..b] + s[b..c]
  {
  }

  lemma SliceOfPrefix(s: seq<Byte>, a: nat, b: nat, n: nat)
    requires a <= b <= n <= |s|
    ensures s[..n][a..b] == s[a..b]
  {
  }

  // A chain of the table makes a well-formed store.
  lemma StoreFromChain(fs: FatFs, ch: seq<nat>, dsect: nat, cache: Sector)
    requires fs.Valid() && (ch == [] || IsChain(fs.fat, ch))
    ensures StoreOk(Store(fs.g, fs.view, ch, dsect, cache))
  {
    fs.TableBounds();
    forall i, j | 0 <= i < j < |ch| ensures ch[i] != ch[j] {
      ChainIsAcyclic(fs.fat, ch, i, j);
    }
    forall i | 0 <= i < |ch| ensures 2 <= ch[i] < fs.g.nFatent {
      assert InTable(fs.fat, ch[i]);
    }
  }

  // The sector number that clust2sect computes is that of the file's sector.
  lemma SectorNumber(st: Store, k: nat)
    requires StoreOk(st) && k < SectorCount(st.g, st.chain) && |st.view| <= DWORD_MAX && st.g.nFatent <= 0xFFF_FFF7
    ensures k / st.g.csize < |st.chain|
    ensures var c := st.chain[k / st.g.csize];
            && 2 <= c < st.g.nFatent && Clust2Sect(st.g, c) > 0
            && Clust2Sect(st.g, c) + k % st.g.csize == FileSector(st.g, st.chain, k)
    ensures 0 < FileSector(st.g, st.chain, k) < |st.view|
  {
    DivBound(k, st.g.csize, |st.chain|);
    var c := st.chain[k / st.g.csize];
    ClusterSectorInside(st.g, c, 0, |st.view|);
    ClusterSectorInside(st.g, c, k % st.g.csize, |st.view|);
  }
}
