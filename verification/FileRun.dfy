// Any sequence of calls on open files that share a volume, against arrays of bytes with a position.
module FileRun {
  import opened Bytes
  import FatTable
  import opened Chains
  import opened Volume
  import opened FileView
  import opened FileIo

  // How a file was opened, and whether a link map is attached.
  datatype Mode = Mode(readable: bool, writable: bool, mapped: bool)

  // A file as an array of bytes and a position, the bytes its clusters have room for, the number of
  // free clusters of the volume, and the size in its directory entry.
  datatype Snap = Snap(bytes: seq<Byte>, pos: nat, room: nat, free: nat, stored: nat)

  datatype Call = Get(count: Dword) | Put(data: seq<Byte>) | Go(ofs: Dword) | Sync

  // What a caller sees of a call: the bytes read, the number of bytes written, the new position.
  datatype Reply = Got(data: seq<Byte>) | Took(bw: nat) | Went(pos: nat) | Synced | Refused

  function Least(a: int, b: int): int {
    if a < b then a else b
  }

  // How far the file can come: with a link map to the end of its clusters, else through all free ones.
  function Reach(m: Mode, unit: nat, a: Snap): nat {
    a.room + if m.mapped then 0 else a.free * unit
  }

  // Clusters are taken from the free ones, and no more of them than the position needs.
  predicate Pays(unit: nat, a: Snap, b: Snap) {
    && b.room + b.free * unit == a.room + a.free * unit
    && a.room <= b.room && b.pos <= b.room && (b.room == a.room || b.room < b.pos + unit)
  }

  // What a call does to an array of bytes with a position, for clusters of unit bytes. A write is cut
  // short and a seek falls short exactly by what the volume has no room for; a write that would carry
  // the position past 32 bits writes nothing.
  predicate Step(m: Mode, unit: nat, a: Snap, c: Call, r: Reply, b: Snap) {
    && a.pos <= |a.bytes| <= a.room
    && match c
       case Get(count) =>
         if !m.readable then r == Refused && b == a
         else
           var n := Least(count, |a.bytes| - a.pos);
           r == Got(a.bytes[a.pos..a.pos + n]) && b == a.(pos := a.pos + n)
       case Put(data) =>
         if !m.writable then r == Refused && b == a
         else
           var n := if a.pos + |data| > DWORD_MAX then 0 else Least(|data|, Reach(m, unit, a) - a.pos);
           && r == Took(n) && b.bytes == Overwrite(a.bytes, a.pos, data[..n]) && b.pos == a.pos + n
           && Pays(unit, a, b) && b.stored == a.stored
       case Go(ofs) =>
         var target := if m.writable && !m.mapped then Least(ofs, Reach(m, unit, a)) else Least(ofs, |a.bytes|);
         && r == Went(target) && b.pos == target && Pays(unit, a, b) && b.stored == a.stored
         && a.bytes <= b.bytes && |b.bytes| == if target > |a.bytes| then target else |a.bytes|
       case Sync => r == Synced && b == a.(stored := |a.bytes|)
  }

  // That leaves no choice but for the bytes a seek adds behind the end.
  lemma StepIsDetermined(m: Mode, unit: nat, a: Snap, c: Call, r: Reply, b: Snap, r': Reply, b': Snap)
    requires Step(m, unit, a, c, r, b) && Step(m, unit, a, c, r', b')
    requires unit > 0 && b.room % unit == b'.room % unit == 0
    ensures r == r' && b' == b.(bytes := b'.bytes) && |b'.bytes| == |b.bytes|
    ensures !c.Go? ==> b' == b
  {
    hide Overwrite, Reach;
    if Pays(unit, a, b) && Pays(unit, a, b') {
      RoomIsDetermined(unit, b.room, b'.room, b.free, b'.free, a.room, b.pos);
    }
  }

  // Two multiples of a number that are both just behind a position, or the room there was, are the same.
  lemma RoomIsDetermined(unit: nat, x: nat, y: nat, p: nat, q: nat, room: nat, pos: nat)
    requires unit > 0 && x % unit == y % unit == 0 && x + p * unit == y + q * unit
    requires room <= x && pos <= x && (x == room || x < pos + unit)
    requires room <= y && pos <= y && (y == room || y < pos + unit)
    ensures x == y && p == q
  {
    var k, l := x / unit, y / unit;
    assert x == k * unit && y == l * unit;
    if k < l {
      Gap(k, l, unit);
    } else if l < k {
      Gap(l, k, unit);
    }
    if p < q {
      Gap(p, q, unit);
    } else if q < p {
      Gap(q, p, unit);
    }
  }

  // What was written is read again after a seek back, and everything else is as before.
  lemma WrittenIsRead(m: Mode, unit: nat, s: seq<Snap>, data: seq<Byte>, bw: nat, r: Reply, count: Dword)
    requires |s| == 4 && m.readable && m.writable && s[0].pos <= DWORD_MAX
    requires Step(m, unit, s[0], Put(data), Took(bw), s[1])
    requires Step(m, unit, s[1], Go(s[0].pos), Went(s[0].pos), s[2])
    requires Step(m, unit, s[2], Get(count), r, s[3]) && bw <= count
    ensures r.Got? && bw <= |r.data| && r.data[..bw] == data[..bw]
    ensures |s[0].bytes| <= |s[3].bytes|
    ensures forall i | 0 <= i < |s[0].bytes| && !(s[0].pos <= i < s[0].pos + bw) :: s[3].bytes[i] == s[0].bytes[i]
  {
    hide Reach, Pays;
    assert s[3].bytes == s[2].bytes == s[1].bytes;
  }

  ghost function Seen(f: Fil): (s: Snap)
    requires f.Valid()
    reads f, f.cltbl, f.buf, f.fs, f.fs.win
  {
    Snap(f.Contents(), f.fptr, Capacity(f.fs.g, f.chain), FreeCount(f.fs.fat), f.savedSize)
  }

  // Bytes of a cluster.
  function Unit(g: FatTable.Geometry): nat {
    g.csize * SS
  }

  function ModeOf(f: Fil): Mode
    reads f`cltbl
  {
    Mode(f.readable, f.writable, f.cltbl != null)
  }

  // A call the interface accepts: lengths are 32 bits, and with a link map one offset asks for another.
  predicate Proper(m: Mode, c: Call) {
    match c
    case Get(_) => true
    case Put(data) => |data| <= DWORD_MAX
    case Go(ofs) => m.mapped ==> ofs != DWORD_MAX
    case Sync => true
  }

  // Clusters of a chain and free clusters of the volume in bytes: their sum stays.
  lemma Accounts(g: FatTable.Geometry, f0: seq<nat>, c0: seq<nat>, f1: seq<nat>, c1: seq<nat>)
    requires Grown(f0, c0, f1, c1) && |f0| >= 2
    requires (c0 != [] ==> IsChain(f0, c0)) && (c1 != [] ==> IsChain(f1, c1))
    ensures Capacity(g, c1) + FreeCount(f1) * Unit(g) == Capacity(g, c0) + FreeCount(f0) * Unit(g)
    ensures Capacity(g, c0) <= Capacity(g, c1)
  {
    hide FreeCount, IsChain;
    GrownFree(f0, c0, f1, c1);
    GrownPrefix(f0, c0, f1, c1);
    Scale(|c0|, |c1|, g.csize);
    ghost var n := |c1| - |c0|;
    assert FreeCount(f0) * Unit(g) == FreeCount(f1) * Unit(g) + n * Unit(g);
    assert |c1| * Unit(g) == |c0| * Unit(g) + n * Unit(g);
  }

  lemma LastCluster(g: FatTable.Geometry, ch: seq<nat>)
    requires ch != []
    ensures Capacity(g, ch[..|ch| - 1]) + Unit(g) == Capacity(g, ch)
  {
  }

  // A call that only grows a file, and no more than needed, pays for it.
  lemma Paid(f: Fil, fat: seq<nat>, ch: seq<nat>, a: Snap)
    requires f.Valid() && f.err == Ok && FatTable.ClusterSize(f.fs.g.csize) && |fat| >= 2
    requires Grown(fat, ch, f.fs.fat, f.chain) && (ch != [] ==> IsChain(fat, ch)) && f.JustEnough(ch)
    requires a.room == Capacity(f.fs.g, ch) && a.free == FreeCount(fat)
    ensures Pays(Unit(f.fs.g), a, Seen(f))
    ensures f.fptr <= f.fsize <= Capacity(f.fs.g, f.chain) && |f.Contents()| == f.fsize
    ensures Full(f.fs.fat) ==> Seen(f).free == 0
  {
    hide FatFs.Valid, Fil.Base, Fil.Positioned, Fil.Image, Full, Grown, Capacity, FreeCount, Unit, IsChain;
    Inside(f);
    Accounts(f.fs.g, fat, ch, f.fs.fat, f.chain);
    if f.chain != [] {
      LastCluster(f.fs.g, f.chain);
    }
    if Full(f.fs.fat) {
      FullIsNotFree(f.fs.fat);
    }
  }

  lemma FullIsNotFree(fat: seq<nat>)
    requires Full(fat)
    ensures FreeCount(fat) == 0
  {
    if |fat| >= 2 {
      NoneFree(fat, 2);
    }
  }

  lemma PutStep(m: Mode, unit: nat, a: Snap, data: seq<Byte>, bw: nat, b: Snap)
    requires m.writable && a.pos <= |a.bytes| <= a.room && bw <= |data| && b.pos <= DWORD_MAX
    requires Pays(unit, a, b) && (m.mapped ==> b.room == a.room)
    requires b.bytes == Overwrite(a.bytes, a.pos, data[..bw]) && b.pos == a.pos + bw && b.stored == a.stored
    requires bw < |data| ==>
               if a.pos + |data| > DWORD_MAX then bw == 0 else b.pos == b.room && (m.mapped || b.free == 0)
    ensures Step(m, unit, a, Put(data), Took(bw), b)
  {
    hide Overwrite;
    Product(a.free, b.free, unit);
  }

  lemma GoStep(m: Mode, unit: nat, a: Snap, ofs: Dword, b: Snap)
    requires a.pos <= |a.bytes| <= a.room && Pays(unit, a, b) && (m.mapped ==> b.room == a.room)
    requires var target := if ofs > |a.bytes| && (!m.writable || m.mapped) then |a.bytes| else ofs as int;
             b.pos <= target && (b.pos < target ==> b.pos == b.room && b.free == 0)
    requires b.stored == a.stored && a.bytes <= b.bytes && |b.bytes| == if b.pos > |a.bytes| then b.pos else |a.bytes|
    ensures Step(m, unit, a, Go(ofs), Went(b.pos), b)
  {
    Product(a.free, b.free, unit);
  }

  lemma Product(x: nat, y: nat, n: nat)
    ensures x * n >= 0 && y * n >= 0 && (y == 0 ==> y * n == 0)
  {
  }

  // One call on a file. It fails only for a reserved table entry met on the way.
  method Do(f: Fil, call: Call) returns (res: FResult, reply: Reply)
    requires f.Valid() && f.err == Ok && Proper(ModeOf(f), call)
    modifies f`clust, f`sclust, f`chain, f`err, f`dirty, f`dsect, f`fptr, f`fsize, f`written, f.buf
    modifies f`savedSize, f`savedStart
    modifies f.fs`disk, f.fs`winsect, f.fs`wflag, f.fs`view, f.fs`fat, f.fs`lastClust, f.fs`freeClust, f.fs.win
    ensures f.Valid() && FatTable.ClusterSize(f.fs.g.csize) && f.GrowsOnly()
    ensures f.err == (if res == Denied then Ok else res) && res in {Ok, Denied, IntErr}
    ensures res == IntErr ==> HasReserved(f.fs.fat)
    ensures res != IntErr ==> Step(ModeOf(f), Unit(f.fs.g), old(Seen(f)), call, reply, Seen(f))
    ensures call.Sync? ==> res == Ok && !f.dirty && f.Saved()
  {
    hide FatFs.Valid, Fil.Base, Fil.Positioned, Fil.Image, Overwrite, Full, HasReserved, Grown, Kept, FatFs.Mirrored;
    hide Capacity, FreeCount, Pays, Unit, Fil.JustEnough, CountKept, Fil.Valid, FatTable.ClusterSize;
    Inside(f);
    CountKeptSelf(f.fs.fat, f.fs.freeClust);
    ghost var fat, ch, a := f.fs.fat, f.chain, Seen(f);
    match call
    case Get(count) =>
      var data;
      res, data := f.Read(count);
      reply := if res == Ok then Got(data) else Refused;
      Inside(f);
      GrownSelf(f.fs.fat, f.chain);
    case Put(data) =>
      var bw;
      res, bw := f.Write(data);
      reply := if res == Denied then Refused else Took(bw);
      if res == Ok {
        Paid(f, fat, ch, a);
        PutStep(ModeOf(f), Unit(f.fs.g), a, data, bw, Seen(f));
      }
    case Go(ofs) =>
      res := f.Seek(ofs);
      if res == Ok {
        Paid(f, fat, ch, a);
        GoStep(ModeOf(f), Unit(f.fs.g), a, ofs, Seen(f));
      }
      reply := Went(f.fptr);
    case Sync =>
      f.SyncData();
      res, reply := Ok, Synced;
      Inside(f);
      GrownSelf(f.fs.fat, f.chain);
  }

  lemma Inside(f: Fil)
    requires f.Valid()
    ensures |f.Contents()| == f.fsize <= Capacity(f.fs.g, f.chain) && (f.err == Ok ==> f.fptr <= f.fsize)
    ensures FatTable.ClusterSize(f.fs.g.csize) && 3 <= |f.fs.fat|
    ensures f.chain != [] ==> IsChain(f.fs.fat, f.chain)
  {
    hide Fil.Positioned, Fil.Base;
    f.BaseCluster();
    f.TableOfFile();
  }

  // ---- Files that share a volume ----

  // Two open files share no memory and no cluster.
  ghost predicate Apart(f: Fil, h: Fil)
    reads f`chain, f`cltbl, h`chain, h`cltbl
  {
    && f != h && f.buf != h.buf && Disjoint(f.chain, h.chain)
    && (h.cltbl != null ==> h.cltbl as object != f.buf)
    && (f.cltbl != null ==> f.cltbl as object != h.buf)
  }

  // What Valid() says of a file when the volume holds table fat and shows now.
  ghost predicate ValidOver(h: Fil, fat: seq<nat>, now: FatTable.Glance)
    reads h, h.buf, h.cltbl
  {
    && h.buf.Length == SS && h.buf != h.fs.win
    && (h.cltbl != null ==> h.cltbl as object != h.buf && h.cltbl as object != h.fs.win)
    && (h.chain == [] <==> h.sclust == 0)
    && (h.chain != [] ==> h.chain[0] == h.sclust && IsChain(fat, h.chain))
    && h.MapValid()
    && StoreOver(h, now.view)
    && !InFile(h.fs.g, h.chain, now.winsect)
    && (h.dsect != 0 ==> InFile(h.fs.g, h.chain, h.dsect) && h.dsect < |now.view|)
    && (h.dirty ==> h.dsect != 0)
    && (!h.dirty ==> Clean(Store(h.fs.g, now.view, h.chain, h.dsect, h.buf[..])))
    && h.fsize <= Capacity(h.fs.g, h.chain) && (h.err == Ok ==> h.Positioned() && h.fptr <= h.fsize && h.Marked())
  }

  ghost predicate StoreOver(h: Fil, view: seq<Sector>)
    reads h, h.buf
  {
    h.buf.Length == SS && StoreOk(Store(h.fs.g, view, h.chain, h.dsect, h.buf[..]))
  }

  ghost function ContentsOver(h: Fil, view: seq<Sector>): seq<Byte>
    requires StoreOver(h, view) && h.fsize <= Capacity(h.fs.g, h.chain)
    reads h, h.buf
  {
    Content(Store(h.fs.g, view, h.chain, h.dsect, h.buf[..]), h.fsize)
  }

  lemma ValidIsOver(h: Fil)
    requires h.Valid()
    ensures ValidOver(h, h.fs.fat, h.fs.Now()) && StoreOver(h, h.fs.view) && h.fsize <= Capacity(h.fs.g, h.chain)
    ensures h.Contents() == ContentsOver(h, h.fs.view)
    ensures h.buf != h.fs.win && (h.cltbl != null ==> h.cltbl as object != h.fs.win)
  {
    hide FatFs.Valid, IsChain, StoreOk, Content, Clean, Fil.Positioned, Fil.MapValid, FatFs.Mirrored;
    ContentPrefix(h.St(), h.fsize, Capacity(h.fs.g, h.chain));
  }

  lemma OverIsValid(h: Fil)
    requires h.fs.Valid() && ValidOver(h, h.fs.fat, h.fs.Now())
    ensures h.Valid() && h.Contents() == ContentsOver(h, h.fs.view)
  {
    hide FatFs.Valid, IsChain, StoreOk, Content, Clean, Fil.Positioned, Fil.MapValid, FatFs.Mirrored;
    h.fs.DataBounds();
    ContentPrefix(h.St(), h.fsize, Capacity(h.fs.g, h.chain));
  }

  // A call on file f, which held the clusters ch, leaves a file valid that shares none of them, with the
  // same content.
  lemma Bystander(f: Fil, h: Fil, fat: seq<nat>, ch: seq<nat>, now: FatTable.Glance)
    requires ValidOver(h, fat, now) && f.fs.Valid() && h.fs == f.fs && FatTable.ClusterSize(f.fs.g.csize)
    requires Grown(fat, ch, f.fs.fat, f.chain) && Kept(f.fs.g, f.chain, now, f.fs.Now()) && Disjoint(ch, h.chain)
    ensures h.Valid() && Disjoint(f.chain, h.chain) && Disjoint(h.chain, f.chain)
    ensures StoreOver(h, now.view) && h.fsize <= Capacity(h.fs.g, h.chain) && h.Contents() == ContentsOver(h, now.view)
  {
    hide FatFs.Valid, Grown, SameElsewhere, IsChain, Clean, StoreOk, Content, Disjoint, Fil.Positioned, FatFs.Mirrored;
    f.fs.DataBounds();
    GrownOther(fat, ch, f.fs.fat, f.chain, h.chain);
    OtherFileKeeps(Store(h.fs.g, now.view, h.chain, h.dsect, h.buf[..]), f.chain, f.fs.view, h.fsize);
    NotInFileBelow(f.fs.g, h.chain, f.fs.winsect);
    OverIsValid(h);
    Symmetric(f.chain, h.chain);
  }

  lemma Symmetric(a: seq<nat>, b: seq<nat>)
    requires Disjoint(a, b)
    ensures Disjoint(b, a)
  {
  }

  datatype Request = Request(file: nat, call: Call)

  // The files of a volume that are open together.
  ghost predicate Sharing(fs: FatFs, files: seq<Fil>)
    reads fs, fs.win, files, set f | f in files :: f.buf, set f | f in files && f.cltbl != null :: f.cltbl
  {
    && (forall i | 0 <= i < |files| :: files[i].fs == fs && files[i].Valid())
    && (forall i, j | 0 <= i < |files| && 0 <= j < |files| && i != j :: Apart(files[i], files[j]))
  }

  // A directory entry to open: its start cluster with the chain of it, its size, and how it is opened.
  datatype Entry = Entry(sclust: Dword, fsize: Dword, chain: seq<nat>, readable: bool, writable: bool)

  // The chain of the entry is in the table, holds its size and is not in the window of the volume.
  ghost predicate Openable(fs: FatFs, e: Entry)
    reads fs`fat, fs`winsect
  {
    && FatTable.ClusterSize(fs.g.csize) && !InFile(fs.g, e.chain, fs.winsect)
    && e.fsize <= Capacity(fs.g, e.chain)
    && (if e.sclust == 0 then e.chain == [] else e.chain != [] && e.chain[0] == e.sclust && IsChain(fs.fat, e.chain))
  }

  // Opening files with disjoint chains, one after the other, makes files that share the volume, each
  // at its start.
  method OpenAll(fs: FatFs, entries: seq<Entry>) returns (files: seq<Fil>)
    requires fs.Valid() && forall e | e in entries :: Openable(fs, e)
    requires forall i, j | 0 <= i < j < |entries| :: Disjoint(entries[i].chain, entries[j].chain)
    ensures fresh(files) && |files| == |entries| && Sharing(fs, files)
    ensures forall i | 0 <= i < |files| ::
              && files[i].err == Ok && files[i].fptr == 0 && files[i].fsize == entries[i].fsize
              && files[i].chain == entries[i].chain
              && ModeOf(files[i]) == Mode(entries[i].readable, entries[i].writable, false)
  {
    hide Fil.Valid, FatFs.Valid, Disjoint, Openable;
    files := [];
    while |files| < |entries|
      invariant fresh(files) && |files| <= |entries|
      invariant forall i | 0 <= i < |files| :: files[i].fs == fs && files[i].Valid() && fresh(files[i].buf)
      invariant forall i | 0 <= i < |files| ::
                  && files[i].err == Ok && files[i].fptr == 0 && files[i].fsize == entries[i].fsize
                  && files[i].chain == entries[i].chain && files[i].cltbl == null
                  && ModeOf(files[i]) == Mode(entries[i].readable, entries[i].writable, false)
      invariant forall i, j | 0 <= i < j < |files| :: files[i] != files[j] && files[i].buf != files[j].buf
    {
      var f := OpenOne(fs, entries[|files|]);
      files := files + [f];
    }
    forall i, j | 0 <= i < |files| && 0 <= j < |files| && i != j ensures Apart(files[i], files[j]) {
      if i < j {
        assert Disjoint(entries[i].chain, entries[j].chain);
      } else {
        Symmetric(entries[j].chain, entries[i].chain);
      }
    }
  }

  method OpenOne(fs: FatFs, e: Entry) returns (f: Fil)
    requires fs.Valid() && Openable(fs, e)
    ensures fresh(f) && fresh(f.buf) && f.Valid() && f.fs == fs && f.cltbl == null
    ensures f.err == Ok && f.fptr == 0 && f.fsize == e.fsize && f.chain == e.chain
    ensures ModeOf(f) == Mode(e.readable, e.writable, false)
  {
    hide Fil.Valid, FatFs.Valid, IsChain, InFile, Capacity;
    f := new Fil(fs, e.readable, e.writable, e.sclust, e.fsize, e.chain);
  }

  ghost predicate HaveModes(files: seq<Fil>, modes: seq<Mode>)
    reads files
  {
    |modes| == |files| && forall i | 0 <= i < |files| :: modes[i] == ModeOf(files[i])
  }

  ghost predicate Look(fs: FatFs, files: seq<Fil>, s: seq<Snap>)
    requires Sharing(fs, files)
    reads fs, fs.win, files, set f | f in files :: f.buf, set f | f in files && f.cltbl != null :: f.cltbl
  {
    |s| == |files| && forall i | 0 <= i < |files| :: s[i] == Seen(files[i])
  }

  // A request is a step of its file, and no step of the others.
  predicate Turn(modes: seq<Mode>, unit: nat, a: seq<Snap>, q: Request, r: Reply, b: seq<Snap>) {
    && |a| == |b| == |modes| && q.file < |a| && Step(modes[q.file], unit, a[q.file], q.call, r, b[q.file])
    && forall j | 0 <= j < |a| && j != q.file :: b[j] == a[j].(free := b[q.file].free)
  }

  // A call on file k: the others are still valid over the table and the view there were before.
  method DoOne(fs: FatFs, files: seq<Fil>, k: nat, f: Fil, call: Call) returns (res: FResult, reply: Reply)
    requires Sharing(fs, files) && k < |files| && f == files[k] && f.err == Ok && Proper(ModeOf(f), call)
    modifies f`clust, f`sclust, f`chain, f`err, f`dirty, f`dsect
    modifies f`fptr, f`fsize, f`written, f`savedSize, f`savedStart, f.buf
    modifies fs`disk, fs`winsect, fs`wflag, fs`view, fs`fat, fs`lastClust, fs`freeClust, fs.win
    ensures f.Valid() && FatTable.ClusterSize(fs.g.csize) && f.fs == fs && f.GrowsOnly()
    ensures f.err == (if res == Denied then Ok else res) && res in {Ok, Denied, IntErr}
    ensures res == IntErr ==> HasReserved(fs.fat)
    ensures res != IntErr ==> Step(ModeOf(f), Unit(f.fs.g), old(Seen(f)), call, reply, Seen(f))
    ensures call.Sync? ==> res == Ok && !f.dirty && f.Saved()
    ensures forall j | 0 <= j < |files| && j != k :: ValidOver(files[j], old(fs.fat), old(fs.Now()))
    ensures forall j | 0 <= j < |files| && j != k ::
              StoreOver(files[j], old(fs.view)) && files[j].fsize <= Capacity(fs.g, files[j].chain) &&
              ContentsOver(files[j], old(fs.view)) == old(files[j].Contents())
  {
    hide Fil.Valid, Fil.Contents, Step, ValidOver, ContentsOver, StoreOver, HasReserved, Disjoint, Fil.GrowsOnly;
    forall j | 0 <= j < |files| && j != k
      ensures ValidOver(files[j], fs.fat, fs.Now()) && StoreOver(files[j], fs.view)
      ensures files[j].fsize <= Capacity(fs.g, files[j].chain) && files[j].Contents() == ContentsOver(files[j], fs.view)
      ensures files[j].buf != fs.win && (files[j].cltbl != null ==> files[j].cltbl as object != fs.win)
    {
      ValidIsOver(files[j]);
    }
    res, reply := Do(f, call);
  }

  // A call on one of the files.
  method CallFile(fs: FatFs, files: seq<Fil>, q: Request) returns (res: FResult, reply: Reply)
    requires Sharing(fs, files) && q.file < |files| && files[q.file].err == Ok && Proper(ModeOf(files[q.file]), q.call)
    modifies files, set f | f in files :: f.buf
    modifies fs`disk, fs`winsect, fs`wflag, fs`view, fs`fat, fs`lastClust, fs`freeClust, fs.win
    ensures Sharing(fs, files)
    ensures res in {Ok, Denied, IntErr} && (res == IntErr ==> HasReserved(fs.fat))
    ensures HasReserved(fs.fat) ==> old(HasReserved(fs.fat))
    ensures forall i | 0 <= i < |files| ::
              files[i].err == if i == q.file && res == IntErr then IntErr else old(files[i].err)
    ensures var f := files[q.file];
            f.cltbl == old(f.cltbl) &&
                (res != IntErr ==> Step(ModeOf(f), Unit(f.fs.g), old(Seen(f)), q.call, reply, Seen(f)))
    ensures forall j | 0 <= j < |files| && j != q.file ::
              files[j].Contents() == old(files[j].Contents()) && files[j].cltbl == old(files[j].cltbl) &&
              files[j].fptr == old(files[j].fptr) && files[j].chain == old(files[j].chain) &&
              files[j].fsize == old(files[j].fsize) && files[j].sclust == old(files[j].sclust) &&
              files[j].dirty == old(files[j].dirty) && files[j].savedSize == old(files[j].savedSize) &&
              files[j].savedStart == old(files[j].savedStart)
    ensures q.call.Sync? ==> res == Ok && !files[q.file].dirty && files[q.file].Saved()
    ensures old(fs.Mirrored()) ==> fs.Mirrored()
    ensures CountKept(old(fs.fat), old(fs.freeClust), fs.fat, fs.freeClust)
  {
    hide Fil.Valid, Fil.Contents, Step, ValidOver, ContentsOver, StoreOver, HasReserved, Disjoint, Grown, SameElsewhere;
    hide FatFs.Mirrored, Full, Seen;
    ghost var fat, now := fs.fat, fs.Now();
    var f := files[q.file];
    ghost var ch := f.chain;
    res, reply := DoOne(fs, files, q.file, f, q.call);
    ValidVolume(f);
    if HasReserved(fs.fat) {
      GrownNotReserved(fat, ch, fs.fat, f.chain);
    }
    forall j | 0 <= j < |files| && j != q.file
      ensures files[j].Valid() && files[j].Contents() == old(files[j].Contents())
      ensures Disjoint(f.chain, files[j].chain) && Disjoint(files[j].chain, f.chain)
    {
      Bystander(f, files[j], fat, ch, now);
    }
  }

  // One request.
  method Serve(fs: FatFs, files: seq<Fil>, q: Request, ghost modes: seq<Mode>, ghost a: seq<Snap>)
    returns (res: FResult, reply: Reply, ghost b: seq<Snap>)
    requires Sharing(fs, files) && HaveModes(files, modes) && Look(fs, files, a)
    requires q.file < |files| && files[q.file].err == Ok && Proper(modes[q.file], q.call)
    modifies files, set f | f in files :: f.buf
    modifies fs`disk, fs`winsect, fs`wflag, fs`view, fs`fat, fs`lastClust, fs`freeClust, fs.win
    ensures Sharing(fs, files) && HaveModes(files, modes) && Look(fs, files, b)
    ensures res in {Ok, Denied, IntErr} && (res == IntErr ==> HasReserved(fs.fat))
    ensures HasReserved(fs.fat) ==> old(HasReserved(fs.fat))
    ensures forall i | 0 <= i < |files| ::
              files[i].err == if i == q.file && res == IntErr then IntErr else old(files[i].err)
    ensures res != IntErr ==> Turn(modes, Unit(fs.g), a, q, reply, b)
    ensures old(fs.Mirrored()) ==> fs.Mirrored()
    ensures CountKept(old(fs.fat), old(fs.freeClust), fs.fat, fs.freeClust)
  {
    hide Fil.Valid, Fil.Contents, Step, HasReserved, FatFs.Mirrored, Full, Apart;
    res, reply := CallFile(fs, files, q);
    b := Snaps(fs, files);
  }

  lemma ValidVolume(f: Fil)
    requires f.Valid()
    ensures f.fs.Valid() && (f.chain != [] ==> IsChain(f.fs.fat, f.chain))
  {
  }

  ghost method Snaps(fs: FatFs, files: seq<Fil>) returns (s: seq<Snap>)
    requires Sharing(fs, files)
    ensures Look(fs, files, s)
  {
    hide Fil.Valid, Apart;
    s := [];
    while |s| < |files|
      invariant |s| <= |files| && forall i | 0 <= i < |s| :: s[i] == Seen(files[i])
    {
      s := s + [Seen(files[|s|])];
    }
  }

  // Any requests to files that share a volume, one after the other: each does to its file what it does
  // to an array of bytes with a position, and nothing to the other files. The run is cut short only if
  // the table held a reserved value at its start.
  method Run(fs: FatFs, files: seq<Fil>, qs: seq<Request>, ghost modes: seq<Mode>)
    returns (replies: seq<Reply>, ghost trace: seq<seq<Snap>>)
    requires Sharing(fs, files) && HaveModes(files, modes) && forall f | f in files :: f.err == Ok
    requires forall q | q in qs :: q.file < |files| && Proper(modes[q.file], q.call)
    modifies files, set f | f in files :: f.buf
    modifies fs`disk, fs`winsect, fs`wflag, fs`view, fs`fat, fs`lastClust, fs`freeClust, fs.win
    ensures Sharing(fs, files) && HaveModes(files, modes)
    ensures |replies| <= |qs| && (|replies| < |qs| ==> old(HasReserved(fs.fat)))
    ensures |replies| < |qs| ==> HasReserved(fs.fat) && files[qs[|replies|].file].err == IntErr
    ensures |trace| == |replies| + 1 && old(Look(fs, files, trace[0]))
    ensures forall n | 0 <= n < |replies| :: Turn(modes, Unit(fs.g), trace[n], qs[n], replies[n], trace[n + 1])
    ensures |replies| == |qs| ==> Look(fs, files, trace[|replies|]) && forall f | f in files :: f.err == Ok
    ensures old(fs.Mirrored()) ==> fs.Mirrored()
    ensures CountKept(old(fs.fat), old(fs.freeClust), fs.fat, fs.freeClust)
  {
    hide Sharing, HaveModes, Look, Turn, Proper, HasReserved, FatFs.Mirrored;
    ghost var now := Snaps(fs, files);
    replies, trace := [], [now];
    while |replies| < |qs|
      invariant Sharing(fs, files) && HaveModes(files, modes) && (forall i | 0 <= i < |files| :: files[i].err == Ok)
      invariant |replies| <= |qs| && (HasReserved(fs.fat) ==> old(HasReserved(fs.fat)))
      invariant |trace| == |replies| + 1 && old(Look(fs, files, trace[0])) && Look(fs, files, trace[|replies|])
      invariant forall n | 0 <= n < |replies| :: Turn(modes, Unit(fs.g), trace[n], qs[n], replies[n], trace[n + 1])
      invariant old(fs.Mirrored()) ==> fs.Mirrored()
      invariant CountKept(old(fs.fat), old(fs.freeClust), fs.fat, fs.freeClust)
    {
      var res, reply;
      res, reply, now := Serve(fs, files, qs[|replies|], modes, trace[|replies|]);
      if res == IntErr { return; }
      replies, trace := replies + [reply], trace + [now];
    }
  }

  // f_sync for every file: nothing is left that is not on the medium and in the directory entries.
  method SyncAll(fs: FatFs, files: seq<Fil>)
    requires Sharing(fs, files) && forall f | f in files :: f.err == Ok
    modifies files, set f | f in files :: f.buf
    modifies fs`disk, fs`winsect, fs`wflag, fs`view, fs`fat, fs`lastClust, fs`freeClust, fs.win
    ensures Sharing(fs, files)
    ensures forall i | 0 <= i < |files| ::
              && files[i].Saved() && files[i].OnMedium()
              && files[i].Contents() == old(files[i].Contents()) && files[i].fptr == old(files[i].fptr)
    ensures old(fs.Mirrored()) ==> fs.Mirrored()
    ensures CountKept(old(fs.fat), old(fs.freeClust), fs.fat, fs.freeClust)
  {
    hide Apart, Fil.Valid, Fil.Contents, HasReserved, FatFs.Mirrored;
    var n := 0;
    while n < |files|
      invariant 0 <= n <= |files| && Sharing(fs, files)
      invariant forall i | 0 <= i < |files| :: files[i].err == Ok
      invariant forall i | 0 <= i < |files| ::
                  files[i].Contents() == old(files[i].Contents()) && files[i].fptr == old(files[i].fptr)
      invariant forall i | 0 <= i < n :: !files[i].dirty && files[i].Saved()
      invariant old(fs.Mirrored()) ==> fs.Mirrored()
      invariant CountKept(old(fs.fat), old(fs.freeClust), fs.fat, fs.freeClust)
    {
      var res, reply := CallFile(fs, files, Request(n, Sync));
      n := n + 1;
    }
    forall i | 0 <= i < |files| ensures files[i].StoreValid() && files[i].OnMedium() {
      CleanFileIsOut(files[i]);
    }
  }

  lemma CleanFileIsOut(f: Fil)
    requires f.Valid() && !f.dirty
    ensures f.StoreValid() && f.OnMedium()
  {
    hide Fil.Base, Fil.OnMedium;
    f.BaseCluster();
    f.CleanIsOut();
  }
}
