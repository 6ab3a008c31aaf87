// Reading files of a D64, D71 or D81 image through the one sector window of the file system.
module D64 {
  import opened Bytes

  const SECTOR: int := 256

  datatype Res = Ok | IntErr | DiskErr

  // ---- Zoned tracks ----

  // Sectors on a track of one side, numbered from 0.
  function Zone(t: nat): nat {
    if t < 17 then 21 else if t < 24 then 19 else if t < 30 then 18 else 17
  }

  // Image mode 0 is a D64, 1 a D71 whose second side follows the first, 2 a D81.
  function SectorsOn(mode: nat, t: nat): nat {
    if mode > 1 then 40 else if mode == 1 && t >= 35 then Zone(t - 35) else Zone(t)
  }

  // Sectors of all tracks before t.
  function Before(mode: nat, t: nat): nat {
    if t == 0 then 0 else Before(mode, t - 1) + SectorsOn(mode, t - 1)
  }

  // The sectors of all zones in front, and those of the own zone.
  function Side(t: nat): nat {
    if t < 17 then 21 * t
    else if t < 24 then 357 + 19 * (t - 17)
    else if t < 30 then 490 + 18 * (t - 24)
    else 598 + 17 * (t - 30)
  }

  lemma {:induction false} BeforeByZones(mode: nat, t: nat)
    ensures Before(mode, t) == if mode > 1 then 40 * t else if mode == 1 && t >= 35 then 683 + Side(t - 35) else Side(t)
  {
    if t > 0 {
      BeforeByZones(mode, t - 1);
    }
  }

  lemma {:induction false} BeforeGrows(mode: nat, t: nat, u: nat)
    requires t < u
    ensures Before(mode, t) + SectorsOn(mode, t) <= Before(mode, u)
  {
    if t < u - 1 {
      BeforeGrows(mode, t, u - 1);
    }
  }

  // The absolute number of sector s on track t, numbered from 1, or -1. Only behind the last zone
  // and on a D81 it is compared with the size of the image.
  function AbsSector(mode: nat, num: nat, t: int, s: nat): (a: int)
    ensures a >= -1
  {
    if t <= 0 || s >= SectorsOn(mode, t - 1) then -1
    else if (mode > 1 || SectorsOn(mode, t - 1) == 17) && Before(mode, t - 1) + s >= num then -1
    else Before(mode, t - 1) + s
  }

  // No two places have the same number.
  lemma AbsIsInjective(mode: nat, num: nat, t: int, s: nat, t': int, s': nat)
    requires AbsSector(mode, num, t, s) == AbsSector(mode, num, t', s') >= 0
    ensures t == t' && s == s'
  {
    hide SectorsOn;
    if t < t' {
      BeforeGrows(mode, t - 1, t' - 1);
    } else if t' < t {
      BeforeGrows(mode, t' - 1, t - 1);
    }
  }

  method GetAbsSector(mode: nat, num: nat, t: int, s: nat) returns (result: int)
    ensures result == AbsSector(mode, num, t, s)
  {
    hide Before, Side;
    result := 0;
    var track := t;
    if track <= 0 { return -1; }
    track := track - 1;
    BeforeByZones(mode, track);
    if mode > 1 {
      if s >= 40 { result := -1; } else { result := track * 40 + s; }
      if result >= num { result := -1; }
      return;
    }
    if mode == 1 {
      if track >= 35 {
        result := 683;
        track := track - 35;
      }
    }
    SideOf(mode, t - 1);
    result, track := OneSide(num, result, track, s);
  }

  lemma SideOf(mode: nat, t: nat)
    requires mode <= 1
    ensures SectorsOn(mode, t) == Zone(if mode == 1 && t >= 35 then t - 35 else t)
  {
  }

  // The zones of one side, of which the first sector has number start.
  method OneSide(num: nat, start: nat, t: nat, s: nat) returns (result: int, track: nat)
    ensures result == if s >= Zone(t) || (Zone(t) == 17 && start + Side(t) + s >= num) then -1 else start + Side(t) + s
  {
    result, track := start, t;
    if track >= 17 {
      result, track := result + 17 * 21, track - 17;
    } else {
      if s >= 21 { return -1, track; }
      return result + track * 21 + s, track;
    }
    if track >= 7 {
      result, track := result + 7 * 19, track - 7;
    } else {
      if s >= 19 { return -1, track; }
      return result + track * 19 + s, track;
    }
    if track >= 6 {
      result, track := result + 6 * 18, track - 6;
    } else {
      if s >= 18 { return -1, track; }
      return result + track * 18 + s, track;
    }
    if s >= 17 { return -1, track; }
    result := result + track * 17 + s;
    if result >= num { return -1, track; }
  }

  // get_track_sector inverts get_abs_sector, but for a D64 the track is added to the one passed in.
  method GetTrackSector(mode: nat, num: nat, abs: int, track0: nat) returns (ok: bool, track: nat, sector: nat)
    ensures ok <==> 0 <= abs < num
    ensures ok && (mode > 0 || track0 == 0) ==> AbsSector(mode, num, track, sector) == abs
    ensures ok && mode == 0 && track0 > 0 ==>
              track > track0 && AbsSector(mode, num, track - track0, sector) == abs &&
              AbsSector(mode, num, track, sector) != abs
  {
    hide Before, Side, AbsSector;
    track, sector := track0, 0;
    if abs < 0 || abs >= num { return false, track, sector; }
    ok := true;
    if mode > 1 {
      track := abs / 40;
      sector := abs - track * 40;
      track := track + 1;
      PlaceD81(mode, num, abs);
      return;
    }
    var rest: nat := abs;
    if mode == 1 {
      if rest >= 683 { track, rest := 35, rest - 683; } else { track := 0; }
    }
    var t;
    t, sector := SideTrack(rest);
    PlaceOnSide(mode, num, rest, t, sector, mode == 1 && abs >= 683);
    track := track + t;
    if mode == 0 && track0 > 0 && AbsSector(mode, num, track, sector) == abs {
      AbsIsInjective(mode, num, track, sector, t, sector);
    }
  }

  method SideTrack(rest: nat) returns (t: nat, sector: nat)
    ensures t > 0 && sector < Zone(t - 1) && Side(t - 1) + sector == rest
  {
    if rest < 17 * 21 {
      t := rest / 21;
      sector := rest - t * 21;
      t := t + 1;
    } else if rest - 17 * 21 < 7 * 19 {
      t := (rest - 17 * 21) / 19;
      sector := rest - 17 * 21 - t * 19;
      t := 17 + t + 1;
    } else if rest - 17 * 21 - 7 * 19 < 6 * 18 {
      t := (rest - 17 * 21 - 7 * 19) / 18;
      sector := rest - 17 * 21 - 7 * 19 - t * 18;
      t := 17 + 7 + t + 1;
    } else {
      t := (rest - 17 * 21 - 7 * 19 - 6 * 18) / 17;
      sector := rest - 17 * 21 - 7 * 19 - 6 * 18 - t * 17;
      t := 17 + 7 + 6 + t + 1;
    }
  }

  lemma PlaceD81(mode: nat, num: nat, abs: nat)
    requires abs < num && mode > 1
    ensures AbsSector(mode, num, abs / 40 + 1, abs - abs / 40 * 40) == abs
  {
    BeforeByZones(mode, abs / 40);
  }

  lemma PlaceOnSide(mode: nat, num: nat, rest: nat, t: nat, sector: nat, second: bool)
    requires mode <= 1 && t > 0 && sector < Zone(t - 1) && Side(t - 1) + sector == rest
    requires rest + (if second then 683 else 0) < num && (second ==> mode == 1) && (mode == 1 && !second ==> rest < 683)
    ensures AbsSector(mode, num, t + (if second then 35 else 0), sector) == rest + if second then 683 else 0
  {
    BeforeByZones(mode, t - 1 + if second then 35 else 0);
  }

  // Places as they are known: the directory track of a D64, the second side of a D71, a track of a D81.
  lemma KnownPlaces()
    ensures AbsSector(0, 683, 1, 0) == 0 && AbsSector(0, 683, 18, 0) == 357 && AbsSector(0, 683, 35, 16) == 682
    ensures AbsSector(0, 683, 25, 17) == 507 && AbsSector(0, 683, 25, 18) == -1 && AbsSector(0, 683, 36, 0) == -1
    ensures AbsSector(1, 1366, 36, 0) == 683 && AbsSector(1, 1366, 53, 0) == 1040
    ensures AbsSector(2, 3200, 40, 3) == 1563 && AbsSector(2, 3200, 40, 40) == -1
  {
    BeforeByZones(0, 0);
    BeforeByZones(0, 17);
    BeforeByZones(0, 24);
    BeforeByZones(0, 34);
    BeforeByZones(0, 35);
    BeforeByZones(1, 35);
    BeforeByZones(1, 52);
    BeforeByZones(2, 39);
  }

  // The mode of an image of this many sectors.
  function ModeOf(num: nat): nat {
    if num >= 3200 then 2 else if num >= 1366 then 1 else 0
  }

  // The numbers of all places lie within the image, as the visit marks need it, exactly if it has the
  // sectors of the first three zones.
  lemma MarksCover(num: nat)
    ensures (forall t: int, s: nat :: AbsSector(ModeOf(num), num, t, s) < num) <==> num >= 598
  {
    hide AbsSector, Before;
    if num >= 598 {
      forall t: int, s: nat ensures AbsSector(ModeOf(num), num, t, s) < num {
        AbsBelow(num, t, s);
      }
    } else {
      LastFree(num);
    }
  }

  lemma AbsBelow(num: nat, t: int, s: nat)
    requires num >= 598
    ensures AbsSector(ModeOf(num), num, t, s) < num
  {
    if t > 0 {
      BeforeByZones(ModeOf(num), t - 1);
    }
  }

  // The last sector of track 30 has number 597 whatever the size of the image.
  lemma LastFree(num: nat)
    requires num < 598
    ensures AbsSector(ModeOf(num), num, 30, 17) == 597
  {
    BeforeByZones(0, 29);
  }

  // ---- Chains of sectors ----

  datatype Image = Image(mode: nat, disk: seq<seq<Byte>>)

  // An image has at least the sectors whose numbers are not compared with its size.
  predicate Sound(im: Image) {
    && 598 <= |im.disk| && im.mode == ModeOf(|im.disk|)
    && forall a | 0 <= a < |im.disk| :: |im.disk[a]| == SECTOR
  }

  lemma AbsInImage(im: Image, t: int, s: nat)
    requires Sound(im)
    ensures AbsSector(im.mode, |im.disk|, t, s) < |im.disk|
  {
    AbsBelow(|im.disk|, t, s);
  }

  predicate Last(im: Image, a: nat)
    requires Sound(im) && a < |im.disk|
  {
    im.disk[a][0] == 0
  }

  // The sector a link leads to, or -1.
  function Link(im: Image, a: nat): (b: int)
    requires Sound(im) && a < |im.disk|
    ensures b < |im.disk|
  {
    AbsInImage(im, im.disk[a][0], im.disk[a][1]);
    AbsSector(im.mode, |im.disk|, im.disk[a][0], im.disk[a][1])
  }

  // Where the payload of a sector ends; it starts at byte 2.
  function PayloadEnd(im: Image, a: nat): (e: nat)
    requires Sound(im) && a < |im.disk|
    ensures e <= SECTOR
  {
    if Last(im, a) then 1 + im.disk[a][1] else SECTOR
  }

  // A chain of sectors up to its last one, or broken by a bad link or by one to a sector before.
  datatype Walk = Walk(chain: seq<nat>, broken: bool)

  ghost function WalkFrom(im: Image, a: nat, free: set<nat>): (w: Walk)
    requires Sound(im) && a in free && forall x | x in free :: x < |im.disk|
    ensures w.chain != [] && w.chain[0] == a
    decreases free
  {
    var b := Link(im, a);
    if Last(im, a) then Walk([a], false)
    else if b < 0 || b !in free - {a} then Walk([a], true)
    else
      var w := WalkFrom(im, b, free - {a});
      Walk([a] + w.chain, w.broken)
  }

  predicate Linked(im: Image, c: seq<nat>, i: nat)
    requires Sound(im) && i + 1 < |c| && c[i] < |im.disk|
  {
    !Last(im, c[i]) && Link(im, c[i]) == c[i + 1]
  }

  // All sectors are visited once along the links; only the end tells a whole chain from a broken one.
  ghost predicate IsWalk(im: Image, w: Walk)
    requires Sound(im)
  {
    var c, n := w.chain, |w.chain| - 1;
    && c != [] && (forall i | 0 <= i <= n :: c[i] < |im.disk|) && (forall i, j | 0 <= i < j <= n :: c[i] != c[j])
    && (forall i | 0 <= i < n :: Linked(im, c, i))
    && (if w.broken then !Last(im, c[n]) && (Link(im, c[n]) < 0 || Link(im, c[n]) in c) else Last(im, c[n]))
  }

  lemma {:induction false} WalkInFree(im: Image, a: nat, free: set<nat>)
    requires Sound(im) && a in free && forall x | x in free :: x < |im.disk|
    ensures var w := WalkFrom(im, a, free); var c, n := w.chain, |w.chain| - 1;
            && (forall i | 0 <= i <= n :: c[i] in free) && (forall i, j | 0 <= i < j <= n :: c[i] != c[j])
            && (forall i | 0 <= i < n :: Linked(im, c, i))
            && (if w.broken then !Last(im, c[n]) &&
                (Link(im, c[n]) < 0 || Link(im, c[n]) !in free || Link(im, c[n]) in c)
                else Last(im, c[n]))
    decreases free
  {
    hide Last, Link;
    var b := Link(im, a);
    if !Last(im, a) && b >= 0 && b in free - {a} {
      WalkInFree(im, b, free - {a});
      var w, v := WalkFrom(im, a, free).chain, WalkFrom(im, b, free - {a}).chain;
      forall i | 0 <= i < |w| - 1 ensures Linked(im, w, i) {
        assert i > 0 ==> Linked(im, v, i - 1);
      }
    }
  }

  ghost function AllSectors(n: nat): (s: set<nat>)
    ensures forall x: nat :: x in s <==> x < n
  {
    if n == 0 then {} else AllSectors(n - 1) + {n - 1}
  }

  // The walk of a file that starts at sector a.
  ghost function FileWalk(im: Image, a: nat): Walk
    requires Sound(im) && a < |im.disk|
  {
    WalkFrom(im, a, AllSectors(|im.disk|))
  }

  lemma FileWalkIsWalk(im: Image, a: nat)
    requires Sound(im) && a < |im.disk|
    ensures IsWalk(im, FileWalk(im, a))
  {
    hide Last, Link;
    WalkInFree(im, a, AllSectors(|im.disk|));
  }

  // ---- Contents ----

  // The bytes of the first n sectors of a chain.
  ghost function Content(im: Image, c: seq<nat>, n: nat): (s: seq<Byte>)
    requires Sound(im) && n <= |c| && forall i | 0 <= i < |c| :: c[i] < |im.disk|
    requires forall i | 0 <= i < |c| :: PayloadEnd(im, c[i]) >= 2
  {
    if n == 0 then [] else Content(im, c, n - 1) + im.disk[c[n - 1]][2..PayloadEnd(im, c[n - 1])]
  }

  // The chain of a file whose last sector, if it has one, holds a length of at least 1.
  ghost predicate IsFile(im: Image, w: Walk) {
    && Sound(im) && IsWalk(im, w)
    && (!w.broken ==> im.disk[w.chain[|w.chain| - 1]][1] >= 1)
  }

  lemma FilePayloads(im: Image, w: Walk, i: nat)
    requires IsFile(im, w) && i < |w.chain|
    ensures w.chain[i] < |im.disk| && 2 <= PayloadEnd(im, w.chain[i]) <= SECTOR
    ensures Last(im, w.chain[i]) <==> !w.broken && i == |w.chain| - 1
    ensures !Last(im, w.chain[i]) ==> PayloadEnd(im, w.chain[i]) == SECTOR
    ensures i + 1 < |w.chain| ==> Link(im, w.chain[i]) == w.chain[i + 1] && w.chain[i + 1] !in w.chain[..i + 1]
    ensures i + 1 == |w.chain| && w.broken ==> Link(im, w.chain[i]) < 0 || Link(im, w.chain[i]) in w.chain
  {
    hide Link;
    if i + 1 < |w.chain| {
      assert Linked(im, w.chain, i);
    }
  }

  ghost function Whole(im: Image, w: Walk): seq<Byte>
    requires IsFile(im, w)
  {
    AllPayloads(im, w);
    Content(im, w.chain, |w.chain|)
  }

  lemma AllPayloads(im: Image, w: Walk)
    requires IsFile(im, w)
    ensures forall i | 0 <= i < |w.chain| :: w.chain[i] < |im.disk| && PayloadEnd(im, w.chain[i]) >= 2
  {
    hide IsWalk;
    forall i | 0 <= i < |w.chain| ensures w.chain[i] < |im.disk| && PayloadEnd(im, w.chain[i]) >= 2 {
      FilePayloads(im, w, i);
    }
  }

  // The size of a file: 254 bytes for every sector, of the last one as many as its second byte is more
  // than 1.
  lemma {:induction false} ContentSize(im: Image, w: Walk, n: nat)
    requires IsFile(im, w) && n <= |w.chain|
    ensures AllPayloadsIn(im, w)
    ensures |Content(im, w.chain, n)| ==
              254 * n - if n == |w.chain| && !w.broken then 255 - im.disk[w.chain[n - 1]][1] as int else 0
    decreases n
  {
    assert w.chain != [];
    hide IsWalk;
    AllPayloads(im, w);
    if n > 0 {
      FilePayloads(im, w, n - 1);
      ContentSize(im, w, n - 1);
    }
  }

  // The place of byte off of sector k in the whole file.
  ghost function Place(im: Image, w: Walk, k: nat, off: nat): nat
    requires IsFile(im, w) && k < |w.chain| && off >= 2
  {
    AllPayloads(im, w);
    |Content(im, w.chain, k)| + off - 2
  }

  lemma {:induction false} PayloadInWhole(im: Image, w: Walk, k: nat, n: nat)
    requires IsFile(im, w) && k < n <= |w.chain|
    ensures AllPayloadsIn(im, w)
    ensures Content(im, w.chain, k) + im.disk[w.chain[k]][2..PayloadEnd(im, w.chain[k])] <= Content(im, w.chain, n)
    decreases n
  {
    hide IsWalk;
    AllPayloads(im, w);
    if k < n - 1 {
      PayloadInWhole(im, w, k, n - 1);
    }
  }

  ghost predicate AllPayloadsIn(im: Image, w: Walk) {
    IsFile(im, w) && forall i | 0 <= i < |w.chain| :: w.chain[i] < |im.disk| && PayloadEnd(im, w.chain[i]) >= 2
  }

  // A part of a sector's payload is that part of the file.
  lemma PartOfWhole(im: Image, w: Walk, k: nat, off: nat, n: nat)
    requires IsFile(im, w) && k < |w.chain| && 2 <= off && w.chain[k] < |im.disk| &&
             off + n <= PayloadEnd(im, w.chain[k])
    ensures Place(im, w, k, off + n) == Place(im, w, k, off) + n <= |Whole(im, w)|
    ensures im.disk[w.chain[k]][off..off + n] == Whole(im, w)[Place(im, w, k, off)..Place(im, w, k, off) + n]
    ensures off + n == PayloadEnd(im, w.chain[k]) && k + 1 < |w.chain| ==>
            Place(im, w, k + 1, 2) == Place(im, w, k, off) + n
    ensures off + n == PayloadEnd(im, w.chain[k]) && k + 1 == |w.chain| ==> |Whole(im, w)| == Place(im, w, k, off) + n
    ensures off + n < PayloadEnd(im, w.chain[k]) ==> Place(im, w, k, off) + n < |Whole(im, w)|
  {
    hide IsWalk;
    AllPayloads(im, w);
    PayloadInWhole(im, w, k, |w.chain|);
    var c, d := Content(im, w.chain, k), im.disk[w.chain[k]][2..PayloadEnd(im, w.chain[k])];
    SliceOfSlice(im.disk[w.chain[k]], 2, PayloadEnd(im, w.chain[k]), off, n);
    Within(c, d, Whole(im, w), off - 2, n);
  }

  lemma Within(c: seq<Byte>, d: seq<Byte>, all: seq<Byte>, i: nat, n: nat)
    requires c + d <= all && i + n <= |d|
    ensures d[i..i + n] == all[|c| + i..|c| + i + n]
  {
    assert all[..|c + d|] == c + d;
    assert all[|c| + i..|c| + i + n] == all[..|c + d|][|c| + i..|c| + i + n];
  }

  lemma SliceOfSlice(s: seq<Byte>, a: nat, e: nat, off: nat, n: nat)
    requires a <= off && off + n <= e <= |s|
    ensures s[off..off + n] == s[a..e][off - a..off - a + n]
  {
    var x, y := s[off..off + n], s[a..e][off - a..off - a + n];
    forall i | 0 <= i < n ensures x[i] == y[i] {
    }
  }

  // ---- The file system and its files ----

  class FileSystem {
    const im: Image
    var sectBuffer: seq<Byte>
    var currentSector: int

    ghost predicate Valid()
      reads this
    {
      && Sound(im) && |sectBuffer| == SECTOR && -1 <= currentSector < |im.disk|
      && (currentSector >= 0 ==> sectBuffer == im.disk[currentSector])
    }

    constructor (disk: seq<seq<Byte>>)
      requires |disk| >= 598 && forall a | 0 <= a < |disk| :: |disk[a]| == SECTOR
      ensures Valid() && im.disk == disk
    {
      var imageMode: nat := 0;
      if |disk| >= 1366 { imageMode := imageMode + 1; }
      if |disk| >= 3200 { imageMode := imageMode + 1; }
      im := Image(imageMode, disk);
      currentSector := -1;
      sectBuffer := seq(SECTOR, _ => 0);
    }

    // The window holds the sector asked for; nothing is written as no file is.
    method MoveWindow(abs: int) returns (res: Res)
      requires Valid()
      modifies `sectBuffer, `currentSector
      ensures Valid()
      ensures res == if abs < 0 then IntErr else if abs < |im.disk| then Ok else DiskErr
      ensures res == Ok ==> currentSector == abs
    {
      if abs < 0 { return IntErr; }
      if currentSector != abs {
        if abs >= |im.disk| { return DiskErr; }
        sectBuffer := im.disk[abs];
        currentSector := abs;
      }
      return Ok;
    }
  }

  class FileInD64 {
    const fs: FileSystem
    var currentTrack: nat
    var currentSector: nat
    var offsetInSector: nat
    var visited: seq<bool>
    ghost var walk: Walk
    ghost var k: nat

    // The file stands at byte offsetInSector of sector k of its chain, and has visited those before.
    ghost predicate Valid()
      reads this
    {
      && IsFile(fs.im, walk) && k < |walk.chain|
      && AbsSector(fs.im.mode, |fs.im.disk|, currentTrack, currentSector) == walk.chain[k]
      && |visited| == |fs.im.disk| && (forall a: nat | a < |visited| :: visited[a] <==> a in walk.chain[..k + 1])
      && 2 <= offsetInSector <= PayloadEnd(fs.im, walk.chain[k]) &&
          (Last(fs.im, walk.chain[k]) || offsetInSector < SECTOR)
    }

    // Number of bytes read so far.
    ghost function Pos(): nat
      requires Valid()
      reads this
    {
      Place(fs.im, walk, k, offsetInSector)
    }

    constructor (f: FileSystem)
      ensures fs == f && currentTrack == 0
    {
      fs := f;
      currentTrack, currentSector, offsetInSector, visited := 0, 0, 0, [];
    }

    // Marks the current sector; an error if it is no sector or marked already.
    method Visit() returns (res: Res)
      requires Sound(fs.im) && |visited| == |fs.im.disk|
      modifies this`visited
      ensures var a := AbsSector(fs.im.mode, |fs.im.disk|, currentTrack, currentSector);
              a < |old(visited)| &&
              if a < 0 || old(visited)[a] then res == IntErr && visited == old(visited)
              else res == Ok && visited == old(visited)[a := true]
    {
      AbsInImage(fs.im, currentTrack, currentSector);
      var abs := GetAbsSector(fs.im.mode, |fs.im.disk|, currentTrack, currentSector);
      if abs < 0 { return IntErr; }
      if visited[abs] { return IntErr; }
      visited := visited[abs := true];
      return Ok;
    }

    // A fresh file opens at the first byte of its chain.
    method Open(cluster: int) returns (res: Res)
      requires Sound(fs.im) && currentTrack == 0
      modifies this
      ensures res == Ok <==> 0 <= cluster < |fs.im.disk|
      ensures res == Ok ==> walk == FileWalk(fs.im, cluster)
      ensures res == Ok && IsFile(fs.im, walk) ==> Valid() && Pos() == 0
    {
      hide FileWalk, IsWalk, AbsSector;
      var ok;
      ok, currentTrack, currentSector := GetTrackSector(fs.im.mode, |fs.im.disk|, cluster, currentTrack);
      if !ok { return IntErr; }
      offsetInSector := 2;
      visited := seq(|fs.im.disk|, _ => false);
      res := Visit();
      walk, k := FileWalk(fs.im, cluster), 0;
      StartsAt(fs.im, cluster);
      if IsFile(fs.im, walk) {
        FilePayloads(fs.im, walk, 0);
      }
    }

    // One round of the copying loop.
    method ReadPart(len: nat) returns (res: Res, part: seq<Byte>, done: bool)
      requires Valid() && fs.Valid() && len > 0
      modifies this`currentTrack, this`currentSector, this`offsetInSector, this`visited, this`k, fs`sectBuffer,
          fs`currentSector
      ensures fs.Valid() && |part| <= len && old(Pos()) + |part| <= |Whole(fs.im, walk)|
      ensures part == Whole(fs.im, walk)[old(Pos())..old(Pos()) + |part|]
      ensures res == Ok ==> Valid() && Pos() == old(Pos()) + |part|
      ensures res == Ok && !done ==> part != []
      ensures res == Ok && done ==> !walk.broken && Pos() == |Whole(fs.im, walk)|
      ensures res == Ok ==> !(walk.broken && Pos() == |Whole(fs.im, walk)|)
      ensures res != Ok ==> res == IntErr && walk.broken && old(Pos()) + |part| == |Whole(fs.im, walk)|
    {
      hide IsWalk, AbsSector, Whole, Place;
      res, part, done := Ok, [], false;
      FilePayloads(fs.im, walk, k);
      ghost var a := walk.chain[k];
      var abs := GetAbsSector(fs.im.mode, |fs.im.disk|, currentTrack, currentSector);
      res := fs.MoveWindow(abs);
      if res != Ok { return; }
      var bytesLeft := (if fs.sectBuffer[0] == 0 then 1 + fs.sectBuffer[1] else SECTOR) - offsetInSector;
      var tr := if bytesLeft > len then len else bytesLeft;
      part := fs.sectBuffer[offsetInSector..offsetInSector + tr];
      assert bytesLeft == PayloadEnd(fs.im, a) - offsetInSector;
      PartOfWhole(fs.im, walk, k, offsetInSector, tr);
      ghost var was := Pos();
      offsetInSector := offsetInSector + tr;
      if bytesLeft == tr && fs.sectBuffer[0] == 0 {
        done := true;
        return;
      }
      if offsetInSector == SECTOR {
        res := NextSector(was + tr);
      }
    }

    // On to the next sector, with a mark that finds a chain that leads back into itself.
    method NextSector(ghost at: nat) returns (res: Res)
      requires IsFile(fs.im, walk) && k < |walk.chain| && fs.Valid() && fs.currentSector == walk.chain[k]
      requires |visited| == |fs.im.disk| && (forall a: nat | a < |visited| :: visited[a] <==> a in walk.chain[..k + 1])
      requires !Last(fs.im, walk.chain[k])
      requires k + 1 < |walk.chain| ==> Place(fs.im, walk, k + 1, 2) == at
      modifies this`currentTrack, this`currentSector, this`offsetInSector, this`visited, this`k
      ensures res == Ok <==> old(k) + 1 < |walk.chain|
      ensures res == Ok ==> Valid() && Pos() == at && (walk.broken ==> Pos() < |Whole(fs.im, walk)|)
      ensures res != Ok ==> res == IntErr && walk.broken
    {
      hide IsWalk, AbsSector, Whole, Place;
      FilePayloads(fs.im, walk, k);
      currentTrack := fs.sectBuffer[0];
      currentSector := fs.sectBuffer[1];
      offsetInSector := 2;
      assert walk.chain[..|walk.chain|] == walk.chain;
      res := Visit();
      if res == Ok {
        k := k + 1;
        FilePayloads(fs.im, walk, k);
        PartOfWhole(fs.im, walk, k, 2, 0);
      }
    }

    // The bytes of the chain from where the file stands: all that were asked for, or all that are
    // left. An error is returned exactly if a broken chain comes to its end.
    method Read(len: nat) returns (res: Res, data: seq<Byte>)
      requires Valid() && fs.Valid()
      modifies this`currentTrack, this`currentSector, this`offsetInSector, this`visited, this`k, fs`sectBuffer,
          fs`currentSector
      ensures fs.Valid()
      ensures |data| == if len < |Whole(fs.im, walk)| - old(Pos()) then len else |Whole(fs.im, walk)| - old(Pos())
      ensures data == Whole(fs.im, walk)[old(Pos())..old(Pos()) + |data|]
      ensures res == Ok <==> !(walk.broken && 0 < len && old(Pos()) + len >= |Whole(fs.im, walk)|)
      ensures res == Ok ==> Valid() && Pos() == old(Pos()) + |data|
      ensures res != Ok ==> res == IntErr
    {
      hide IsFile, Whole, Place, AbsSector;
      PosBound();
      ghost var p0 := Pos();
      res, data := Ok, [];
      while |data| < len
        invariant res == Ok && fs.Valid() && |data| <= len
        invariant Valid() && Pos() == p0 + |data| <= |Whole(fs.im, walk)|
        invariant data == Whole(fs.im, walk)[p0..p0 + |data|]
        invariant 0 < |data| ==> !(walk.broken && Pos() == |Whole(fs.im, walk)|)
        decreases len - |data|
      {
        var part, done;
        ghost var n := |data|;
        res, part, done := ReadPart(len - |data|);
        Joins(Whole(fs.im, walk), p0, n, |part|);
        data := data + part;
        if res != Ok { return; }
        if done { return; }
      }
    }

    lemma PosBound()
      requires Valid()
      ensures Pos() <= |Whole(fs.im, walk)|
      ensures walk.broken ==> Pos() < |Whole(fs.im, walk)|
    {
      hide IsWalk, AbsSector;
      FilePayloads(fs.im, walk, k);
      PartOfWhole(fs.im, walk, k, offsetInSector, 0);
    }
  }

  lemma Joins(s: seq<Byte>, p: nat, a: nat, b: nat)
    requires p + a + b <= |s|
    ensures s[p..p + a] + s[p + a..p + a + b] == s[p..p + a + b]
  {
  }

  lemma StartsAt(im: Image, a: nat)
    requires Sound(im) && a < |im.disk|
    ensures FileWalk(im, a).chain != [] && FileWalk(im, a).chain[0] == a
    ensures FileWalk(im, a).chain[..1] == [a]
  {
  }

  // ---- Many files through one window ----

  // Bytes asked for of file i by a list of reads.
  ghost function Asked(plan: seq<(nat, nat)>, i: nat): nat {
    if plan == [] then 0
    else Asked(plan[..|plan| - 1], i) + if plan[|plan| - 1].0 == i then plan[|plan| - 1].1 else 0
  }

  function Min(a: nat, b: nat): nat {
    if a < b then a else b
  }

  ghost predicate Distinct(files: seq<FileInD64>) {
    forall i, j | 0 <= i < j < |files| :: files[i] != files[j]
  }

  // What has come out of a file so far; after an error it is not read any more.
  ghost predicate Delivered(f: FileInD64, alive: bool, asked: nat, out: seq<Byte>)
    reads f
  {
    && IsFile(f.fs.im, f.walk)
    && out == Whole(f.fs.im, f.walk)[..Min(asked, |Whole(f.fs.im, f.walk)|)]
    && (if alive then f.Valid() && f.Pos() == |out| else |out| == |Whole(f.fs.im, f.walk)|)
  }

  method ReadOne(f: FileInD64, alive: bool, ghost asked: nat, out: seq<Byte>, len: nat)
    returns (alive': bool, out': seq<Byte>)
    requires f.fs.Valid() && Delivered(f, alive, asked, out)
    modifies f`currentTrack, f`currentSector, f`offsetInSector, f`visited, f`k, f.fs`sectBuffer, f.fs`currentSector
    ensures f.fs.Valid() && Delivered(f, alive', asked + len, out')
  {
    hide Whole, IsFile;
    alive', out' := alive, out;
    if alive {
      ghost var w, p := Whole(f.fs.im, f.walk), f.Pos();
      var res, data := f.Read(len);
      Prefixes(w, p, |data|);
      alive', out' := res == Ok, out + data;
    }
  }

  lemma Prefixes(s: seq<Byte>, p: nat, n: nat)
    requires p + n <= |s|
    ensures s[..p] + s[p..p + n] == s[..p + n]
  {
  }

  lemma NothingDelivered(f: FileInD64)
    requires f.Valid() && f.Pos() == 0
    ensures Delivered(f, true, 0, [])
  {
    hide IsWalk, Whole;
  }

  lemma DeliveredMeans(f: FileInD64, alive: bool, asked: nat, out: seq<Byte>)
    requires Delivered(f, alive, asked, out)
    ensures IsFile(f.fs.im, f.walk)
    ensures out == Whole(f.fs.im, f.walk)[..Min(asked, |Whole(f.fs.im, f.walk)|)]
  {
  }

  lemma AskedStep(plan: seq<(nat, nat)>, n: nat, i: nat)
    requires n < |plan|
    ensures Asked(plan[..n + 1], i) == Asked(plan[..n], i) + if plan[n].0 == i then plan[n].1 else 0
  {
    assert plan[..n + 1][..n] == plan[..n];
  }

  // Reads of many opened files in any order and any slices: each gives the bytes of its own chain.
  method Interleave(fs: FileSystem, files: seq<FileInD64>, plan: seq<(nat, nat)>) returns (outs: seq<seq<Byte>>)
    requires fs.Valid() && Distinct(files) && forall f | f in files :: f.fs == fs && f.Valid() && f.Pos() == 0
    requires forall r | r in plan :: r.0 < |files|
    modifies fs, files
    ensures |outs| == |files|
    ensures forall i | 0 <= i < |files| :: IsFile(fs.im, old(files[i].walk)) &&
              outs[i] == Whole(fs.im, old(files[i].walk))[..Min(Asked(plan, i), |Whole(fs.im, old(files[i].walk))|)]
  {
    hide Whole, IsFile, Delivered, Asked;
    outs := seq(|files|, _ => []);
    var alive := seq(|files|, _ => true);
    var n := 0;
    NothingAsked();
    forall i | 0 <= i < |files| ensures Delivered(files[i], true, 0, []) {
      NothingDelivered(files[i]);
    }
    while n < |plan|
      invariant 0 <= n <= |plan| && |outs| == |alive| == |files| && fs.Valid()
      invariant forall i | 0 <= i < |files| :: files[i].walk == old(files[i].walk)
      invariant forall i | 0 <= i < |files| :: Delivered(files[i], alive[i], Asked(plan[..n], i), outs[i])
    {
      var i, len := plan[n].0, plan[n].1;
      forall j | 0 <= j < |files| ensures Asked(plan[..n + 1], j) == Asked(plan[..n], j) + if j == i then len else 0 {
        AskedStep(plan, n, j);
      }
      var stillAlive, out := ReadOne(files[i], alive[i], Asked(plan[..n], i), outs[i], len);
      outs, alive := outs[i := out], alive[i := stillAlive];
      n := n + 1;
    }
    assert plan[..n] == plan;
    forall i | 0 <= i < |files| ensures IsFile(fs.im, old(files[i].walk)) &&
      outs[i] == Whole(fs.im, old(files[i].walk))[..Min(Asked(plan, i), |Whole(fs.im, old(files[i].walk))|)]
    {
      DeliveredMeans(files[i], alive[i], Asked(plan[..n], i), outs[i]);
    }
  }

  lemma NothingAsked()
    ensures forall i: nat :: Asked([], i) == 0
  {
  }
}
