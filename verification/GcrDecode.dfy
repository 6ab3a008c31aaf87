// Writing a track in group code and finding its sectors again, wherever the circle is cut.
module GcrDecode {
  import opened Bytes
  import opened Gcr
  import opened GcrTrack
  import GcrEncode

  // ---- Reading a circular buffer ----

  // A buffer holds the circle of the track from position r on, and one byte more behind it, which is
  // whatever follows in memory.
  ghost predicate Cut(t: Source, r: nat, img: seq<Byte>, len: nat) {
    && Good(t) && len == Length(Region(t.track)) && r < len && |img| == len + 1
    && forall i | 0 <= i < len :: img[i] == Around(t, r + i)
  }

  // Byte x of a buffer that continues at its begin behind len.
  function At(img: seq<Byte>, len: nat, x: nat): Byte
    requires |img| == len + 1 && x < 2 * len
  {
    if x < len then img[x] else img[x - len]
  }

  lemma CutAt(t: Source, r: nat, img: seq<Byte>, len: nat, x: nat)
    requires Cut(t, r, img, len) && x < 2 * len
    ensures At(img, len, x) == Around(t, r + x)
  {
    hide Track, Region;
    RegionSizes(Region(t.track), 0);
    if x >= len {
      assert img[x - len] == Around(t, r + (x - len));
      assert Turned(r + x, len) == Turned(r + (x - len), len);
    }
  }

  // From cur on the first sync mark of the circle has its bytes of all ones from g and ends before
  // m. Up to e lie at most two bytes of a mark that was cut by the start.
  ghost predicate SyncAhead(img: seq<Byte>, len: nat, cur: nat, e: nat, g: nat, m: nat) {
    && |img| == len + 1 && cur <= len
    && cur <= e <= g && g + 3 <= m < cur + len && (m <= len || m == g + 5)
    && (cur < e ==> e - cur <= 2 && e < len && m <= len && At(img, len, e) != FF)
    && (forall x | g <= x < m :: At(img, len, x) == FF)
    && At(img, len, m) != FF
    && (forall x | e <= x < g :: At(img, len, x) == FF ==> At(img, len, x + 1) != FF)
  }

  // Three bytes or more of the mark are at the end of the buffer and the others at its begin, with
  // another byte between them.
  predicate Split(img: seq<Byte>, len: nat, g: nat, m: nat)
    requires |img| == len + 1
  {
    img[len] != FF && g + 3 <= len < m
  }

  // The bytes in the order find_sync reads them: up to the last one, and all of them once more.
  function Reads(img: seq<Byte>, cur: nat): seq<Byte>
    requires cur <= |img|
  {
    img[cur..] + img
  }

  // Byte k is the first one behind a sync mark of three bytes or more.
  predicate BehindMark(s: seq<Byte>, k: nat) {
    3 <= k < |s| && s[k] != FF && s[k - 1] == s[k - 2] == s[k - 3] == FF
  }

  ghost predicate FirstBehindMark(s: seq<Byte>, k: nat) {
    BehindMark(s, k) && forall j: nat | j < k :: !BehindMark(s, j)
  }

  // Where byte k of those is in the buffer.
  function Place(img: seq<Byte>, cur: nat, k: nat): int {
    if k < |img| - cur then cur + k else k - (|img| - cur)
  }

  // find_sync: the byte behind the first sync mark, -1 if and only if there is none.
  method FindSync(img: seq<Byte>, len: nat, cur: nat) returns (p: int, ghost k: nat)
    requires |img| == len + 1 && cur <= len
    ensures p == -1 ==> forall j: nat :: !BehindMark(Reads(img, cur), j)
    ensures p != -1 ==> 0 <= p && FirstBehindMark(Reads(img, cur), k) && p == Place(img, cur, k)
  {
    ghost var s := Reads(img, cur);
    var wrapped, syncCount, pos: nat := false, 0, cur;
    k := 0;
    while true
      invariant pos <= len && k < |s| && wrapped == (k >= |img| - cur) && pos == Place(img, cur, k)
      invariant Trailing(s, k, syncCount) && forall j: nat | j < k :: !BehindMark(s, j)
      decreases |s| - k
    {
      assert img[pos] == s[k];
      MarkByCount(s, k, syncCount);
      if img[pos] == FF {
        syncCount := syncCount + 1;
      } else {
        if syncCount > 2 { return pos, k; }
        syncCount := 0;
      }
      if pos < len {
        pos := pos + 1;
      } else {
        if wrapped { return -1, k; }
        wrapped := true;
        pos := 0;
      }
      k := k + 1;
    }
  }

  // The n bytes before byte k are all ones, and no more.
  ghost predicate Trailing(s: seq<Byte>, k: nat, n: nat) {
    n <= k <= |s| && (forall j | k - n <= j < k :: s[j] == FF) && (n < k ==> s[k - n - 1] != FF)
  }

  lemma MarkByCount(s: seq<Byte>, k: nat, n: nat)
    requires k < |s| && Trailing(s, k, n)
    ensures BehindMark(s, k) <==> s[k] != FF && n > 2
    ensures if s[k] == FF then Trailing(s, k + 1, n + 1) else Trailing(s, k + 1, 0)
  {
  }

  // Where the byte behind the mark comes in that order, and where behind a split one.
  function Behind(img: seq<Byte>, len: nat, cur: nat, g: nat, m: nat): nat
    requires |img| == len + 1 && cur <= len && cur <= m
  {
    if Split(img, len, g, m) || (m == len && img[len] != FF) then len - cur
    else if m < len then m - cur else m - cur + 1
  }

  // The mark that lies ahead is the first one that is read, but of a split one only the first part
  // is seen, and the byte at the end of the buffer taken for the one behind it.
  lemma AheadIsFirst(img: seq<Byte>, len: nat, cur: nat, e: nat, g: nat, m: nat)
    requires SyncAhead(img, len, cur, e, g, m)
    ensures FirstBehindMark(Reads(img, cur), Behind(img, len, cur, g, m))
  {
    var s, q := Reads(img, cur), Behind(img, len, cur, g, m);
    ReadsAt(img, len, cur, q);
    ReadsAt(img, len, cur, q - 1);
    ReadsAt(img, len, cur, q - 2);
    ReadsAt(img, len, cur, q - 3);
    forall k: nat | k < q ensures !BehindMark(s, k) {
      if BehindMark(s, k) {
        NoEarlierMark(img, len, cur, e, g, m, k);
      }
    }
    hide Reads, At;
  }

  lemma ReadsAt(img: seq<Byte>, len: nat, cur: nat, k: nat)
    requires |img| == len + 1 && cur <= len && cur + k <= 2 * len
    ensures k < |Reads(img, cur)|
    ensures Reads(img, cur)[k] == if k == len - cur then img[len]
                                  else At(img, len, if k < len - cur then cur + k else cur + k - 1)
  {
  }

  lemma NoEarlierMark(img: seq<Byte>, len: nat, cur: nat, e: nat, g: nat, m: nat, k: nat)
    requires SyncAhead(img, len, cur, e, g, m) && k < Behind(img, len, cur, g, m)
    ensures !BehindMark(Reads(img, cur), k)
  {
    var s := Reads(img, cur);
    if BehindMark(s, k) {
      ReadsAt(img, len, cur, k);
      ReadsAt(img, len, cur, k - 1);
      ReadsAt(img, len, cur, k - 2);
      ReadsAt(img, len, cur, k - 3);
      hide Reads, At;
    }
  }

  // wrap: count bytes from cur on, continued at the begin, and the place behind them.
  method Wrap(img: seq<Byte>, len: nat, cur: nat, count: nat) returns (buf: seq<Byte>, next: nat)
    requires |img| == len + 1 && cur <= len && count <= len && cur + count <= 2 * len
    ensures |buf| == count && forall i | 0 <= i < count :: buf[i] == At(img, len, cur + i)
    ensures next == if cur + count <= len then cur + count else cur + count - len
  {
    if cur > len - count {
      next := cur + count - len;
      buf := [];
      var s, left := cur, count;
      while s < len && left > 0
        invariant cur <= s <= len && left == count - |buf| && s == cur + |buf|
        invariant forall i | 0 <= i < |buf| :: buf[i] == At(img, len, cur + i)
      {
        buf := buf + [img[s]];
        s, left := s + 1, left - 1;
      }
      s := 0;
      while left > 0
        invariant 0 <= left == count - |buf| && cur + |buf| == len + s
        invariant forall i | 0 <= i < |buf| :: buf[i] == At(img, len, cur + i)
      {
        buf := buf + [img[s]];
        s, left := s + 1, left - 1;
      }
    } else {
      next := cur + count;
      buf := img[cur..cur + count];
    }
  }

  // ---- Positions of the buffer on the circle ----

  // Place cur of the buffer is position y of the turning track, after the turn or not.
  predicate Here(r: nat, len: nat, cur: nat, turned: bool, y: nat) {
    cur <= len && y == r + cur + if turned then len else 0
  }

  lemma HereAt(t: Source, r: nat, img: seq<Byte>, len: nat, cur: nat, turned: bool, y: nat, d: nat)
    requires Cut(t, r, img, len) && Here(r, len, cur, turned, y) && d < len
    ensures At(img, len, cur + d) == Around(t, y + d)
  {
    hide Track, Region, At;
    RegionSizes(Region(t.track), 0);
    CutAt(t, r, img, len, cur + d);
    if turned {
      assert Turned(y + d, len) == Turned(r + (cur + d), len);
    }
  }

  // On the circle: from y on nothing that looks like a mark up to g, and then one that ends before m.
  ghost predicate MarkAround(t: Source, y: nat, g: nat, m: nat)
    requires Good(t)
  {
    && y <= g && g + 3 <= m < y + Length(Region(t.track))
    && (forall x | g <= x < m :: Around(t, x) == FF)
    && Around(t, m) != FF
    && (forall x | y <= x < g :: Around(t, x) == FF ==> Around(t, x + 1) != FF)
  }

  lemma MarkIsAhead(t: Source, r: nat, img: seq<Byte>, len: nat, cur: nat, turned: bool, y: nat, g: nat, m: nat)
    requires Cut(t, r, img, len) && Here(r, len, cur, turned, y) && MarkAround(t, y, g, m)
    requires m == g + 5 || cur + m - y <= len
    ensures SyncAhead(img, len, cur, cur, cur + g - y, cur + m - y)
  {
    hide Around, At, Region;
    forall x | cur <= x <= cur + m - y ensures At(img, len, x) == Around(t, y + (x - cur)) {
      HereAt(t, r, img, len, cur, turned, y, x - cur);
    }
    forall x | cur <= x < cur + g - y ensures At(img, len, x) == FF ==> At(img, len, x + 1) != FF {
      assert Around(t, y + (x - cur)) == FF ==> Around(t, y + (x - cur) + 1) != FF;
    }
    forall x | cur + g - y <= x < cur + m - y ensures At(img, len, x) == FF {
      assert Around(t, y + (x - cur)) == FF;
    }
    assert At(img, len, cur + m - y) == Around(t, m);
  }

  // Behind a header comes the mark of its data.
  lemma DataMarkAround(t: Source, n: nat, y: nat)
    requires Good(t) && n < 2 * Sectors(Region(t.track)) && Start(t, n) + 5 <= y <= Start(t, n) + 24
    ensures MarkAround(t, y, Start(t, n) + 24, Start(t, n) + 29)
  {
    hide Around, Region, Start, SectorImage;
    RegionSizes(Region(t.track), 0);
    forall x | y <= x < Start(t, n) + 24 ensures Around(t, x) == FF ==> Around(t, x + 1) != FF {
      QuietInSector(t, n, x - Start(t, n));
    }
    forall x | Start(t, n) + 24 <= x < Start(t, n) + 29 ensures Around(t, x) == FF {
      SyncByte(t, n, x - Start(t, n));
    }
    NoSyncByte(t, n, 29);
  }

  lemma SyncByte(t: Source, n: nat, i: nat)
    requires Good(t) && n < 2 * Sectors(Region(t.track)) && InSync(i)
    ensures Around(t, Start(t, n) + i) == FF
  {
    hide Around, Region, Start, SectorImage;
    AroundSector(t, n, i);
    SectorParts(t, Number(t, n));
  }

  lemma NoSyncByte(t: Source, n: nat, i: nat)
    requires Good(t) && n < 2 * Sectors(Region(t.track)) && i < SECTOR_BYTES && !InSync(i) && !Alone(i)
    ensures Around(t, Start(t, n) + i) != FF
  {
    hide Around, Region, Start, SectorImage;
    AroundSector(t, n, i);
    SectorFF(t, Number(t, n), i);
  }

  // Behind a data mark comes the header mark of the next sector.
  lemma HeaderMarkAround(t: Source, n: nat, y: nat)
    requires Good(t) && n + 1 < 2 * Sectors(Region(t.track)) && Start(t, n) + 29 <= y <= Start(t, n + 1)
    ensures MarkAround(t, y, Start(t, n + 1), Start(t, n + 1) + 5)
  {
    hide Around, Region, Start, SectorImage;
    NextStart(t, n);
    forall x | y <= x < Start(t, n + 1) ensures Around(t, x) == FF ==> Around(t, x + 1) != FF {
      QuietBehindData(t, n, x);
    }
    forall x | Start(t, n + 1) <= x < Start(t, n + 1) + 5 ensures Around(t, x) == FF {
      SyncByte(t, n + 1, x - Start(t, n + 1));
    }
    NoSyncByte(t, n + 1, 5);
  }

  lemma NextStart(t: Source, n: nat)
    requires Good(t) && n + 1 < 2 * Sectors(Region(t.track))
    ensures Start(t, n) + SECTOR_BYTES + 9 <= Start(t, n + 1) <= Start(t, n) + 433
    ensures Length(Region(t.track)) >= 6240
  {
    hide Offset, Region;
    var r := Region(t.track);
    RegionSizes(r, Sectors(r) - 1);
    if n < Sectors(r) { RegionSizes(r, n); } else { RegionSizes(r, n - Sectors(r)); }
  }

  // ---- The decoder ----

  // Bytes read at place cur are the bytes of the circle.
  method ReadAround(img: seq<Byte>, len: nat, cur: nat, count: nat,
                    ghost t: Source, ghost r: nat, ghost turned: bool, ghost y: nat)
    returns (buf: seq<Byte>, next: nat, ghost turned': bool)
    requires Cut(t, r, img, len) && Here(r, len, cur, turned, y) && count <= len && y + count <= r + 2 * len
    ensures |buf| == count && forall i | 0 <= i < count :: buf[i] == Around(t, y + i)
    ensures Here(r, len, next, turned', y + count)
    ensures turned ==> turned'
  {
    hide Around, Region, At;
    buf, next := Wrap(img, len, cur, count);
    turned' := turned || cur + count > len;
    forall i | 0 <= i < count ensures buf[i] == Around(t, y + i) {
      HereAt(t, r, img, len, cur, turned, y, i);
    }
  }

  lemma SameFive(g: seq<Byte>, e: seq<Byte>)
    requires |g| == |e| == 5 && g[0] == e[0] && g[1] == e[1] && g[2] == e[2] && g[3] == e[3] && g[4] == e[4]
    ensures g == e
  {
  }

  // The decoder gives back the bytes of every group of an encoded block.
  lemma DecodedGroup(bin: seq<Byte>, q: nat, g: seq<Byte>)
    requires |bin| % 4 == 0 && 4 * q + 4 <= |bin| && |g| == 5
    requires forall i | 0 <= i < 5 :: g[i] == Block(bin)[5 * q + i]
    ensures Decode5(g) == bin[4 * q..4 * q + 4]
  {
    hide Decode5, Encode4, Block;
    GroupInside(|bin|, q);
    BlockGroup(bin, q);
    SameFive(g, Block(bin)[5 * q..5 * q + 5]);
    FourOf(bin, 4 * q);
    Decode5OfEncode4(bin[4 * q], bin[4 * q + 1], bin[4 * q + 2], bin[4 * q + 3]);
  }

  lemma FourOf(b: seq<Byte>, at: nat)
    requires at + 4 <= |b|
    ensures b[at..at + 4] == [b[at], b[at + 1], b[at + 2], b[at + 3]]
  {
  }

  lemma GroupInside(n: nat, q: nat)
    requires n % 4 == 0 && 4 * q + 4 <= n
    ensures 5 * q + 5 <= n / 4 * 5
  {
  }

  // The four bytes of group q of a header, and of a data block, read on the circle.
  lemma HeaderGroup(t: Source, n: nat, q: nat, g: seq<Byte>)
    requires Good(t) && n < 2 * Sectors(Region(t.track)) && q < 2 && |g| == 5
    requires forall i | 0 <= i < 5 :: g[i] == Around(t, Start(t, n) + 5 + 5 * q + i)
    ensures Number(t, n) < Sectors(Region(t.track)) <= 21
    ensures Decode5(g) == Header(t, Number(t, n))[4 * q..4 * q + 4]
  {
    hide Around, Region, Decode5, Block, SectorImage, Number, Start, Header;
    RegionSizes(Region(t.track), 0);
    AroundSector(t, n, 0);
    var b := Block(Header(t, Number(t, n)));
    forall i | 0 <= i < 5 ensures g[i] == b[5 * q + i] {
      AroundSector(t, n, 5 + 5 * q + i);
      SectorParts(t, Number(t, n));
      assert SectorImage(t, Number(t, n))[5..15][5 * q + i] == SectorImage(t, Number(t, n))[5 + 5 * q + i];
    }
    DecodedGroup(Header(t, Number(t, n)), q, g);
  }

  lemma DataGroup(t: Source, n: nat, q: nat, g: seq<Byte>)
    requires Good(t) && n < 2 * Sectors(Region(t.track)) && q < 65 && |g| == 5
    requires forall i | 0 <= i < 5 :: g[i] == Around(t, Start(t, n) + 29 + 5 * q + i)
    ensures Number(t, n) < Sectors(Region(t.track))
    ensures Decode5(g) == DataBlock(t, Number(t, n))[4 * q..4 * q + 4]
  {
    hide Around, Region, Decode5, Block, SectorImage, Number, Start, DataBlock;
    AroundSector(t, n, 0);
    var b := Block(DataBlock(t, Number(t, n)));
    forall i | 0 <= i < 5 ensures g[i] == b[5 * q + i] {
      AroundSector(t, n, 29 + 5 * q + i);
      SectorParts(t, Number(t, n));
      assert SectorImage(t, Number(t, n))[29..SECTOR_BYTES][5 * q + i] == SectorImage(t, Number(t, n))[29 + 5 * q + i];
    }
    DecodedGroup(DataBlock(t, Number(t, n)), q, g);
  }

  // The first group behind a mark: of a header, or of a data block. Behind a split mark it starts
  // with bytes of all ones, and is neither.
  method ReadMark(img: seq<Byte>, len: nat, cur: nat, ghost t: Source, ghost r: nat, ghost split: bool, ghost a: Aim)
    returns (header: seq<Byte>, next: nat, ghost turned: bool)
    requires Cut(t, r, img, len) && a.n < 2 * Sectors(Region(t.track)) && Start(t, a.n) + 354 <= r + 2 * len
    requires if split then cur == len && Around(t, r + len) == FF else Here(r, len, cur, a.turned, a.Place(t))
    ensures |header| == 4 && Number(t, a.n) < Sectors(Region(t.track)) <= 21
    ensures split ==> header[0] >= 240 && next == 5
    ensures !split ==>
              && header == (if a.data then DataBlock(t, Number(t, a.n))[..4] else Header(t, Number(t, a.n))[..4])
              && Here(r, len, next, turned, a.Place(t) + 5) && (a.turned ==> turned)
  {
    hide Around, Region, Decode5, Start, Number, DataBlock, Header;
    RegionSizes(Region(t.track), 0);
    AroundSector(t, a.n, 0);
    var buf;
    buf, next, turned := ReadAround(img, len, cur, 5, t, r, a.turned && !split, if split then r + len else a.Place(t));
    header := Decode5(buf);
    if split {
      FirstAllOnes(buf);
    } else if a.data {
      DataGroup(t, a.n, 0, buf);
    } else {
      HeaderGroup(t, a.n, 0, buf);
    }
  }

  lemma FirstAllOnes(g: seq<Byte>)
    requires |g| == 5 && g[0] == FF
    ensures Decode5(g)[0] >= 240
  {
    var y: int := g[1];
    assert (FF * 4 + y / 64) / 32 == 31;
  }

  // The rest of a data block: 255 bytes behind those of the first group, in their place in bin.
  method ReadData(img: seq<Byte>, len: nat, cur: nat, header: seq<Byte>, bin: array<Byte>, dest: nat,
                  ghost t: Source, ghost r: nat, ghost turned: bool, ghost n: nat)
    returns (next: nat, ghost turned': bool)
    requires Cut(t, r, img, len) && n < 2 * Sectors(Region(t.track))
    requires Here(r, len, cur, turned, Start(t, n) + 34) && Start(t, n) + 354 <= r + 2 * len
    requires Number(t, n) < Sectors(Region(t.track)) && header == DataBlock(t, Number(t, n))[..4]
    requires dest + 256 <= bin.Length
    modifies bin
    ensures Here(r, len, next, turned', Start(t, n) + 354)
    ensures turned ==> turned'
    ensures bin[dest..dest + 256] == SectorData(t, Number(t, n))
    ensures forall i | 0 <= i < bin.Length && !(dest <= i < dest + 256) :: bin[i] == old(bin[i])
  {
    hide Around, Region, Decode5, Start, Number, DataBlock, SectorData;
    RegionSizes(Region(t.track), 0);
    ghost var block := DataBlock(t, Number(t, n));
    bin[dest] := header[1];
    bin[dest + 1] := header[2];
    bin[dest + 2] := header[3];
    var buf;
    buf, next, turned' := ReadAround(img, len, cur, 320, t, r, turned, Start(t, n) + 34);
    label Read:
    for i := 0 to 63
      invariant forall k | dest <= k < dest + 3 + 4 * i :: bin[k] == block[k - dest + 1]
      invariant forall k | 0 <= k < bin.Length && !(dest <= k < dest + 256) :: bin[k] == old(bin[k])
    {
      DataGroup(t, n, i + 1, buf[5 * i..5 * i + 5]);
      PutGroup(bin, dest + 3 + 4 * i, Decode5(buf[5 * i..5 * i + 5]));
    }
    DataGroup(t, n, 64, buf[315..320]);
    bin[dest + 255] := Decode5(buf[315..320])[0];
    DataOfBlock(t, Number(t, n));
  }

  method PutGroup(bin: array<Byte>, at: nat, g: seq<Byte>)
    requires at + 4 <= bin.Length && |g| == 4
    modifies bin
    ensures forall k | at <= k < at + 4 :: bin[k] == g[k - at]
    ensures forall k | 0 <= k < bin.Length && !(at <= k < at + 4) :: bin[k] == old(bin[k])
  {
    bin[at], bin[at + 1], bin[at + 2], bin[at + 3] := g[0], g[1], g[2], g[3];
  }

  lemma DataOfBlock(t: Source, s: nat)
    requires Good(t) && s < Sectors(Region(t.track))
    ensures DataBlock(t, s)[1..257] == SectorData(t, s)
  {
    hide SectorData;
  }

  // What the decoder comes to next: the header or data mark of sector n, with the bytes of all ones
  // from place g of the buffer to place m, before or behind the turn of the circle. A second time
  // at the begin of the buffer it is after the last mark was split by the end.
  datatype Aim = Aim(n: nat, data: bool, turned: bool, again: bool, e: nat, g: nat, m: nat) {
    // The position behind the mark.
    function Place(t: Source): nat {
      Start(t, n) + if data then 29 else 5
    }
  }

  ghost predicate Aiming(t: Source, r: nat, img: seq<Byte>, len: nat, cur: nat, a: Aim) {
    && a.n < 2 * Sectors(Region(t.track)) && SyncAhead(img, len, cur, a.e, a.g, a.m)
    && r + a.m + (if a.turned then len else 0) == a.Place(t)
  }

  // The first header mark that can be seen from the cut is that of sector n0.
  ghost predicate FirstSeen(t: Source, r: nat, n0: nat) {
    && n0 <= Sectors(Region(t.track))
    && (n0 > 0 ==> Start(t, n0 - 1) + 3 <= r)
    && r <= Start(t, n0) + 2
  }

  // All marks of one turn from there on lie before the second end of the buffer.
  lemma WithinTwoTurns(t: Source, r: nat, n0: nat, n: nat)
    requires Good(t) && FirstSeen(t, r, n0) && n0 <= n + 1 && n < n0 + Sectors(Region(t.track))
    ensures n < 2 * Sectors(Region(t.track)) && n0 <= Sectors(Region(t.track))
    ensures Start(t, n) + 354 <= r + 2 * Length(Region(t.track))
    ensures n <= n0 ==> Start(t, n) + 354 <= r + Length(Region(t.track))
  {
    hide Region;
    var g := Region(t.track);
    RegionSizes(g, 0);
  }

  // ---- Cuts that lose a sector ----

  // The cut leaves three or four bytes of a sync mark at the end of the buffer, and two or one at its begin.
  predicate Torn(region: nat, r: nat)
    requires region < 4
  {
    r < Offset(region, Sectors(region)) && r % (SECTOR_BYTES + GapLength(region)) in {3, 4, 27, 28}
  }

  // The sector whose mark that is.
  function TornSector(region: nat, r: nat): (s: nat)
    requires region < 4
    ensures Torn(region, r) ==> s < Sectors(region)
  {
    r / (SECTOR_BYTES + GapLength(region))
  }

  // Whether a sector is lost: if a mark is torn and the byte behind the buffer does not join its parts.
  predicate Lost(t: Source, r: nat, next: Byte) {
    next != FF && Torn(Region(t.track), r)
  }

  // A place c bytes behind the start of sector s.
  lemma TornAt(region: nat, s: nat, c: nat, r: nat)
    requires region < 4 && s < Sectors(region) && c < SECTOR_BYTES + GapLength(region) && r == Offset(region, s) + c
    ensures Torn(region, r) <==> c in {3, 4, 27, 28}
    ensures TornSector(region, r) == s
  {
    var p := SECTOR_BYTES + GapLength(region);
    assert Offset(region, s) == p * s && Offset(region, Sectors(region)) == p * Sectors(region);
    Quotient(p, s, c, r);
    Times(p, s + 1, Sectors(region));
  }

  lemma Quotient(p: nat, s: nat, c: nat, r: nat)
    requires c < p && r == p * s + c
    ensures r / p == s && r % p == c
  {
    var q := r / p;
    if q < s {
      Times(p, q + 1, s);
    } else if q > s {
      Times(p, s + 1, q);
    }
  }

  lemma Times(p: nat, a: nat, b: nat)
    requires a <= b
    ensures p * a <= p * b
  {
  }

  lemma OffsetGrows(region: nat, s: nat)
    requires region < 4 && s < Sectors(region)
    ensures Offset(region, s) + SECTOR_BYTES + GapLength(region) <= Offset(region, Sectors(region))
  {
  }

  lemma TornFromStart(t: Source, r: nat, n0: nat)
    requires Good(t) && r < Length(Region(t.track)) && FirstSeen(t, r, n0)
    ensures Torn(Region(t.track), r) <==> n0 > 0 && r - Start(t, n0 - 1) in {3, 4, 27, 28}
    ensures Torn(Region(t.track), r) ==> TornSector(Region(t.track), r) == n0 - 1
  {
    hide Region, Offset, GapLength, TornSector;
    var g := Region(t.track);
    RegionSizes(g, 0);
    if n0 > 0 { RegionSizes(g, n0 - 1); }
    if r >= Offset(g, Sectors(g)) {
      if n0 < Sectors(g) { OffsetGrows(g, n0); }
    } else {
      hide Torn;
      if r >= Start(t, n0) {
        TornAt(g, n0, r - Start(t, n0), r);
      } else {
        TornAt(g, n0 - 1, r - Start(t, n0 - 1), r);
      }
    }
  }

  // A mark lies over the end of the buffer with three bytes or four in front of it exactly if it is
  // the torn one, which is the last one of a turn.
  lemma SplitIsTorn(t: Source, r: nat, n0: nat, n: nat, data: bool)
    requires Good(t) && FirstSeen(t, r, n0) && n0 <= n + 1 && n < n0 + Sectors(Region(t.track))
    ensures var y, end := Start(t, n) + if data then 29 else 5, r + Length(Region(t.track));
            y - 2 <= end < y <==>
              n0 > 0 && n == n0 + Sectors(Region(t.track)) - 1 &&
              r - Start(t, n0 - 1) in if data then {27, 28} else {3, 4}
  {
    hide Region;
    var g := Region(t.track);
    RegionSizes(g, 0);
  }

  // The mark aimed at is split by the end, with another byte than all ones there.
  predicate AtEnd(t: Source, end: nat, next: Byte, a: Aim) {
    next != FF && a.Place(t) - 2 <= end < a.Place(t)
  }

  method NextMark(img: seq<Byte>, len: nat, cur: nat, ghost t: Source, ghost r: nat, ghost a: Aim)
    returns (p: int, ghost split: bool, ghost turned: bool)
    requires Cut(t, r, img, len) && Aiming(t, r, img, len, cur, a) && Start(t, a.n) + 354 <= r + 2 * len
    ensures split == AtEnd(t, r + len, img[len], a)
    ensures split ==> p == len && !a.turned && Around(t, r + len) == FF
    ensures !split ==> 0 <= p && Here(r, len, p, turned, a.Place(t)) && (a.turned ==> turned)
    ensures p < cur ==> turned && !a.turned && !split
  {
    hide Start, Region, Around, At;
    ghost var k;
    p, k := FindSync(img, len, cur);
    AheadIsFirst(img, len, cur, a.e, a.g, a.m);
    split := Split(img, len, a.g, a.m);
    turned := a.turned || k > len - cur;
    if split {
      CutAt(t, r, img, len, len);
    }
  }

  // At most two bytes of a mark left over by the cut are passed over.
  lemma CutMark(t: Source, r: nat, img: seq<Byte>, len: nat, d: nat, g: nat, m: nat)
    requires Cut(t, r, img, len) && d <= 2 && MarkAround(t, r + d, g, m) && m < r + len && Around(t, r + d) != FF
    ensures SyncAhead(img, len, 0, d, g - r, m - r)
  {
    hide Around, At, Region;
    RegionSizes(Region(t.track), 0);
    forall x | 0 <= x <= m - r ensures At(img, len, x) == Around(t, r + x) {
      HereAt(t, r, img, len, 0, false, r, x);
    }
    forall x | d <= x < g - r ensures At(img, len, x) == FF ==> At(img, len, x + 1) != FF {
      assert Around(t, r + x) == FF ==> Around(t, r + x + 1) != FF;
    }
    forall x | g - r <= x < m - r ensures At(img, len, x) == FF {
      assert Around(t, r + x) == FF;
    }
    assert At(img, len, m - r) == Around(t, m);
  }

  // A cut within a mark that leaves three bytes of it or more.
  lemma RestOfMark(t: Source, n: nat, i: nat, y: nat)
    requires Good(t) && n < 2 * Sectors(Region(t.track)) && i in {5, 29}
    requires Start(t, n) + i - 5 <= y <= Start(t, n) + i - 3
    ensures MarkAround(t, y, y, Start(t, n) + i)
  {
    hide Around, Region, Start;
    RegionSizes(Region(t.track), 0);
    forall x | y <= x < Start(t, n) + i ensures Around(t, x) == FF {
      SyncByte(t, n, x - Start(t, n));
    }
    NoSyncByte(t, n, i);
  }

  // The first mark seen from the cut.
  lemma FirstMark(t: Source, r: nat, img: seq<Byte>, len: nat) returns (n0: nat, a: Aim)
    requires Cut(t, r, img, len)
    ensures FirstSeen(t, r, n0) && a.n == (if a.data then n0 - 1 else n0) && !a.turned && !a.again
    ensures Aiming(t, r, img, len, 0, a)
  {
    hide Around, Region, SyncAhead, MarkAround;
    RegionSizes(Region(t.track), 0);
    var s := SectorOf(t, r);
    NextStart(t, s);
    var z := Start(t, s);
    n0 := if r <= z + 2 then s else s + 1;
    var early := z + 2 < r <= z + 26;
    var e, g, m := FirstMarkIn(t, r, img, len, s);
    a := Aim(if early then n0 - 1 else n0, early, false, false, e, g, m);
  }

  // Its place in the buffer, by where in the period the cut lies.
  lemma FirstMarkIn(t: Source, r: nat, img: seq<Byte>, len: nat, s: nat) returns (e: nat, g: nat, m: nat)
    requires Cut(t, r, img, len) && s < Sectors(Region(t.track))
    requires Start(t, s) <= r < Start(t, s + 1)
    ensures SyncAhead(img, len, 0, e, g, m)
    ensures r + m == if r <= Start(t, s) + 2 then Start(t, s) + 5
                     else if r <= Start(t, s) + 26 then Start(t, s) + 29 else Start(t, s + 1) + 5
  {
    hide Around, Region, SyncAhead, MarkAround, Start;
    RegionSizes(Region(t.track), 0);
    NextStart(t, s);
    var z, y := Start(t, s), Start(t, s + 1);
    e := 0;
    if r <= z + 2 {
      RestOfMark(t, s, 5, r);
      MarkIsAhead(t, r, img, len, 0, false, r, r, z + 5);
      g, m := 0, z + 5 - r;
    } else if r <= z + 26 {
      g, m := if r <= z + 24 then z + 24 - r else 0, z + 29 - r;
      if r < z + 5 {
        e := z + 5 - r;
        DataMarkAround(t, s, z + 5);
        NoSyncByte(t, s, 5);
        CutMark(t, r, img, len, e, z + 24, z + 29);
      } else if r <= z + 24 {
        DataMarkAround(t, s, r);
        MarkIsAhead(t, r, img, len, 0, false, r, z + 24, z + 29);
      } else {
        RestOfMark(t, s, 29, r);
        MarkIsAhead(t, r, img, len, 0, false, r, r, z + 29);
      }
    } else {
      g, m := y - r, y + 5 - r;
      if r < z + 29 {
        e := z + 29 - r;
        HeaderMarkAround(t, s, z + 29);
        NoSyncByte(t, s, 29);
        CutMark(t, r, img, len, e, y, y + 5);
      } else {
        HeaderMarkAround(t, s, r);
        MarkIsAhead(t, r, img, len, 0, false, r, y, y + 5);
      }
    }
  }

  // The sector in whose period the cut lies.
  lemma SectorOf(t: Source, r: nat) returns (s: nat)
    requires Good(t) && r < Length(Region(t.track))
    ensures s < Sectors(Region(t.track)) && Start(t, s) <= r < Start(t, s + 1)
  {
    hide Region, Offset;
    RegionSizes(Region(t.track), 0);
    s := 0;
    while s + 1 < Sectors(Region(t.track)) && Start(t, s + 1) <= r
      invariant s < Sectors(Region(t.track)) && Start(t, s) <= r
      decreases Sectors(Region(t.track)) - s
    {
      s := s + 1;
    }
  }

  // The sectors counted from n0 on are in bin.
  ghost predicate Found(t: Source, n0: nat, secs: nat, bin: seq<Byte>)
    requires Good(t) && |bin| == |t.data|
  {
    forall i | 0 <= i < Sectors(Region(t.track)) &&
        (n0 <= i < n0 + secs || n0 <= i + Sectors(Region(t.track)) < n0 + secs) ::
      bin[256 * i..256 * i + 256] == SectorData(t, i)
  }

  lemma HeadBytes(t: Source, s: nat)
    requires Good(t) && s < Sectors(Region(t.track)) <= 21
    ensures Header(t, s)[..4][0] == 8 && Header(t, s)[..4][2] == s && DataBlock(t, s)[..4][0] == 7
    ensures 256 * s + 256 <= |t.data|
  {
    hide SectorData, Region;
  }

  // Behind the header the decoder aims at the data of the same sector, behind data at the next header.
  lemma AimAtData(t: Source, r: nat, img: seq<Byte>, len: nat, cur: nat, turned: bool, again: bool, n: nat, y: nat)
    returns (a: Aim)
    requires Cut(t, r, img, len) && n < 2 * Sectors(Region(t.track)) && Here(r, len, cur, turned, y)
    requires Start(t, n) + 5 <= y <= Start(t, n) + 24
    ensures Aiming(t, r, img, len, cur, a) && a.n == n && a.data && a.turned == turned && a.again == again
  {
    hide Start, Region, SyncAhead, MarkAround, Around;
    DataMarkAround(t, n, y);
    MarkIsAhead(t, r, img, len, cur, turned, y, Start(t, n) + 24, Start(t, n) + 29);
    a := Aim(n, true, turned, again, cur, cur + Start(t, n) + 24 - y, cur + Start(t, n) + 29 - y);
  }

  lemma AimAtHeader(t: Source, r: nat, img: seq<Byte>, len: nat, cur: nat, turned: bool, again: bool, n: nat, y: nat)
    returns (a: Aim)
    requires Cut(t, r, img, len) && n + 1 < 2 * Sectors(Region(t.track)) && Here(r, len, cur, turned, y)
    requires Start(t, n) + 29 <= y <= Start(t, n) + 354
    ensures Aiming(t, r, img, len, cur, a) && a.n == n + 1 && !a.data && a.turned == turned && a.again == again
  {
    hide Start, Region, SyncAhead, MarkAround, Around;
    NextStart(t, n);
    HeaderMarkAround(t, n, y);
    MarkIsAhead(t, r, img, len, cur, turned, y, Start(t, n + 1), Start(t, n + 1) + 5);
    a := Aim(n + 1, false, turned, again, cur, cur + Start(t, n + 1) - y, cur + Start(t, n + 1) + 5 - y);
  }

  // Behind a split mark the decoder is at the begin of the buffer again, in the header or the data
  // of the torn sector.
  lemma AimAgain(t: Source, r: nat, img: seq<Byte>, len: nat, n0: nat, data: bool) returns (a: Aim)
    requires Cut(t, r, img, len) && 0 < n0 <= Sectors(Region(t.track))
    requires r - Start(t, n0 - 1) in if data then {27, 28} else {3, 4}
    ensures Aiming(t, r, img, len, 5, a) && !a.turned && a.again
    ensures a.data == !data && a.n == if data then n0 else n0 - 1
  {
    hide Start, Region, SyncAhead, MarkAround, Around;
    RegionSizes(Region(t.track), 0);
    if data {
      a := AimAtHeader(t, r, img, len, 5, false, true, n0 - 1, r + 5);
    } else {
      a := AimAtData(t, r, img, len, 5, false, true, n0 - 1, r + 5);
    }
  }

  // The second group of a header.
  method ReadHeader(img: seq<Byte>, len: nat, cur: nat, ghost t: Source, ghost r: nat, ghost turned: bool, ghost n: nat)
    returns (header: seq<Byte>, next: nat, ghost turned': bool)
    requires Cut(t, r, img, len) && n < 2 * Sectors(Region(t.track))
    requires Here(r, len, cur, turned, Start(t, n) + 10) && Start(t, n) + 354 <= r + 2 * len
    ensures Number(t, n) < Sectors(Region(t.track)) <= 21 && header == Header(t, Number(t, n))[4..]
    ensures Here(r, len, next, turned', Start(t, n) + 15) && (turned ==> turned')
  {
    hide Around, Region, Decode5, Start, Number, Header;
    RegionSizes(Region(t.track), 0);
    var buf;
    buf, next, turned' := ReadAround(img, len, cur, 5, t, r, turned, Start(t, n) + 10);
    header := Decode5(buf);
    HeaderGroup(t, n, 1, buf);
  }

  // How the aim belongs to what the decoder keeps: a data block without a header is only met first.
  // With a lost sector the turn does not get to its data: it ends at the torn mark.
  ghost predicate Plan(t: Source, r: nat, n0: nat, secs: nat, expectData: bool, dest: nat, next: Byte, a: Aim)
    requires Good(t)
  {
    && secs < Sectors(Region(t.track))
    && (if a.data && !expectData then a.n + 1 == n0 && (a.again || secs == 0)
        else a.n == n0 + if a.again then 0 else secs)
    && (if a.data then expectData ==> dest == 256 * Number(t, a.n) else expectData ==> a.again)
    && (if a.again then secs == Sectors(Region(t.track)) - 1 && !a.turned && Lost(t, r, next)
        else
          Lost(t, r, next) && secs == Sectors(Region(t.track)) - 1 && a.data && expectData ==>
            n0 > 0 && r - Start(t, n0 - 1) in {27, 28})
  }

  lemma PlanFacts(t: Source, r: nat, n0: nat, secs: nat, expectData: bool, dest: nat, next: Byte, a: Aim)
    requires Good(t) && FirstSeen(t, r, n0) && Plan(t, r, n0, secs, expectData, dest, next, a)
    ensures a.n < 2 * Sectors(Region(t.track)) && Start(t, a.n) + 354 <= r + 2 * Length(Region(t.track))
    ensures a.again ==> Start(t, a.n) + 354 <= r + Length(Region(t.track))
    ensures a.data && expectData ==> dest == 256 * Number(t, a.n)
  {
    hide FirstSeen, Start, Region, Number;
    RegionSizes(Region(t.track), 0);
    WithinTwoTurns(t, r, n0, a.n);
  }

  // If the last mark of its kind was not split, a torn one is of the other kind.
  lemma OtherIsTorn(t: Source, r: nat, n0: nat, next: Byte, a: Aim)
    requires Good(t) && r < Length(Region(t.track)) && FirstSeen(t, r, n0)
    requires a.n + 1 == n0 + Sectors(Region(t.track))
    requires Lost(t, r, next) && !AtEnd(t, r + Length(Region(t.track)), next, a)
    ensures n0 > 0 && r - Start(t, n0 - 1) in if a.data then {3, 4} else {27, 28}
  {
    hide FirstSeen, Start, Region, Torn, TornSector;
    RegionSizes(Region(t.track), 0);
    SplitIsTorn(t, r, n0, a.n, a.data);
    TornFromStart(t, r, n0);
  }

  // A header was read.
  lemma HeaderMet(t: Source, r: nat, img: seq<Byte>, len: nat, n0: nat, secs: nat, expectData: bool, dest: nat,
                  a: Aim, cur: nat, turned: bool) returns (a': Aim)
    requires Cut(t, r, img, len) && FirstSeen(t, r, n0) && Plan(t, r, n0, secs, expectData, dest, img[len], a)
    requires !a.data && !AtEnd(t, r + len, img[len], a) && Here(r, len, cur, turned, Start(t, a.n) + 15)
    ensures Aiming(t, r, img, len, cur, a') && a'.again == a.again && a'.data && a'.turned == turned
    ensures Plan(t, r, n0, secs, true, 256 * Number(t, a.n), img[len], a')
  {
    hide FirstSeen, Start, Region, Number, Lost, AtEnd;
    PlanFacts(t, r, n0, secs, expectData, dest, img[len], a);
    RegionSizes(Region(t.track), 0);
    if !a.again && secs + 1 == Sectors(Region(t.track)) && Lost(t, r, img[len]) {
      OtherIsTorn(t, r, n0, img[len], a);
    }
    a' := AimAtData(t, r, img, len, cur, turned, a.again, a.n, Start(t, a.n) + 15);
  }

  // A data block was met without its header.
  lemma StrayMet(t: Source, r: nat, img: seq<Byte>, len: nat, n0: nat, secs: nat, dest: nat,
                 a: Aim, cur: nat, turned: bool) returns (a': Aim)
    requires Cut(t, r, img, len) && FirstSeen(t, r, n0) && Plan(t, r, n0, secs, false, dest, img[len], a)
    requires a.data && Here(r, len, cur, turned, Start(t, a.n) + 34)
    ensures Aiming(t, r, img, len, cur, a') && a'.again == a.again && !a'.data && a'.turned == turned
    ensures Plan(t, r, n0, secs, false, dest, img[len], a')
  {
    hide FirstSeen, Start, Region, Number, Lost;
    PlanFacts(t, r, n0, secs, false, dest, img[len], a);
    RegionSizes(Region(t.track), 0);
    WithinTwoTurns(t, r, n0, n0);
    a' := AimAtHeader(t, r, img, len, cur, turned, a.again, a.n, Start(t, a.n) + 34);
  }

  // A sector was read: there are more, or it was the last one.
  lemma SectorMet(t: Source, r: nat, img: seq<Byte>, len: nat, n0: nat, secs: nat, dest: nat,
                  a: Aim, cur: nat, turned: bool) returns (a': Aim)
    requires Cut(t, r, img, len) && FirstSeen(t, r, n0) && Plan(t, r, n0, secs, true, dest, img[len], a)
    requires a.data && !AtEnd(t, r + len, img[len], a) && Here(r, len, cur, turned, Start(t, a.n) + 354)
    ensures secs + 1 < Sectors(Region(t.track)) ==>
              && Aiming(t, r, img, len, cur, a') && !a'.again && a'.turned == turned
              && Plan(t, r, n0, secs + 1, false, dest, img[len], a')
    ensures secs + 1 == Sectors(Region(t.track)) ==> a' == a && a.again == Lost(t, r, img[len])
    ensures a'.again == a.again
  {
    hide FirstSeen, Start, Region, Number, Lost, AtEnd;
    if secs + 1 < Sectors(Region(t.track)) {
      WithinTwoTurns(t, r, n0, n0 + secs + 1);
      a' := AimAtHeader(t, r, img, len, cur, turned, a.again, a.n, Start(t, a.n) + 354);
    } else {
      a' := a;
      if !a.again && Lost(t, r, img[len]) {
        OtherIsTorn(t, r, n0, img[len], a);
      }
    }
  }

  // The mark was split: the decoder goes on at the begin of the buffer, with one sector to come.
  lemma SplitMet(t: Source, r: nat, img: seq<Byte>, len: nat, n0: nat, secs: nat, expectData: bool, dest: nat, a: Aim)
    returns (a': Aim)
    requires Cut(t, r, img, len) && FirstSeen(t, r, n0) && Plan(t, r, n0, secs, expectData, dest, img[len], a)
    requires AtEnd(t, r + len, img[len], a)
    ensures Aiming(t, r, img, len, 5, a') && a'.again && !a.again && (a'.data ==> !a.data)
    ensures Plan(t, r, n0, secs, expectData, dest, img[len], a') && secs + 1 == Sectors(Region(t.track))
  {
    hide FirstSeen, Start, Region, Number, Torn, TornSector;
    PlanFacts(t, r, n0, secs, expectData, dest, img[len], a);
    RegionSizes(Region(t.track), 0);
    SplitIsTorn(t, r, n0, a.n, a.data);
    TornFromStart(t, r, n0);
    a' := AimAgain(t, r, img, len, n0, a.data);
  }

  // What is in bin: the sectors met, and in place of the last one of the turn what was there.
  ghost predicate Gathered(t: Source, n0: nat, secs: nat, again: bool, was: seq<Byte>, bin: seq<Byte>)
    requires Good(t) && |was| == |bin| == |t.data|
  {
    var max := Sectors(Region(t.track));
    && secs <= max && n0 <= max && (again ==> secs + 1 >= max)
    && Found(t, n0, if again then max - 1 else secs, bin)
    && (again || secs < max ==> SameAt(was, bin, Number(t, n0 + max - 1)))
  }

  predicate SameAt(was: seq<Byte>, bin: seq<Byte>, s: nat) {
    |was| == |bin| && forall i | 256 * s <= i < 256 * s + 256 && i < |bin| :: bin[i] == was[i]
  }

  lemma GatherOne(t: Source, n0: nat, secs: nat, again: bool, was: seq<Byte>, bin: seq<Byte>, bin': seq<Byte>)
    requires Good(t) && |was| == |bin| == |bin'| == |t.data| && Gathered(t, n0, secs, again, was, bin)
    requires secs < Sectors(Region(t.track))
    requires var d := 256 * Number(t, n0 + if again then 0 else secs);
             d + 256 <= |bin| && bin'[d..d + 256] == SectorData(t, Number(t, n0 + if again then 0 else secs)) &&
             forall i | 0 <= i < |bin| && !(d <= i < d + 256) :: bin'[i] == bin[i]
    ensures Gathered(t, n0, secs + 1, again, was, bin')
  {
    hide Region;
    RegionSizes(Region(t.track), 0);
    var max := Sectors(Region(t.track));
    var k, last := Number(t, n0 + if again then 0 else secs), Number(t, n0 + max - 1);
    var secs' := if again then max - 1 else secs + 1;
    forall i | 0 <= i < max && (n0 <= i < n0 + secs' || n0 <= i + max < n0 + secs')
      ensures bin'[256 * i..256 * i + 256] == SectorData(t, i)
    {
      if i != k {
        assert bin'[256 * i..256 * i + 256] == bin[256 * i..256 * i + 256];
      }
    }
    if again || secs + 1 < max {
      assert k != last;
    }
  }

  // The contents but for one sector, where other contents stay as they were.
  function Without(data: seq<Byte>, was: seq<Byte>, s: nat): (b: seq<Byte>)
    requires |data| == |was| && 256 * s + 256 <= |data|
    ensures |b| == |data|
  {
    data[..256 * s] + was[256 * s..256 * s + 256] + data[256 * s + 256..]
  }

  // What the decoder makes of the contents of bin.
  function Decoded(t: Source, r: nat, next: Byte, was: seq<Byte>): (b: seq<Byte>)
    requires Good(t) && |was| == |t.data|
    ensures |b| == |t.data|
  {
    if Lost(t, r, next) then Without(t.data, was, TornSector(Region(t.track), r)) else t.data
  }

  // All contents are there exactly if no sector is lost, or if the lost one was there before.
  lemma DecodedIsData(t: Source, r: nat, next: Byte, was: seq<Byte>)
    requires Good(t) && |was| == |t.data|
    ensures Decoded(t, r, next, was) == t.data <==>
              (Lost(t, r, next) ==>
                 var s := TornSector(Region(t.track), r);
                 was[256 * s..256 * s + 256] == SectorData(t, s))
  {
    hide Region, Torn, TornSector;
    if Lost(t, r, next) {
      var s := TornSector(Region(t.track), r);
      var b := Without(t.data, was, s);
      assert b[256 * s..256 * s + 256] == was[256 * s..256 * s + 256];
      if was[256 * s..256 * s + 256] == SectorData(t, s) {
        assert t.data[..256 * s] + t.data[256 * s..256 * s + 256] + t.data[256 * s + 256..] == t.data;
      }
    }
  }

  lemma AllGathered(t: Source, r: nat, n0: nat, again: bool, next: Byte, was: seq<Byte>, bin: seq<Byte>)
    requires Good(t) && r < Length(Region(t.track)) && |was| == |bin| == |t.data| && FirstSeen(t, r, n0)
    requires Gathered(t, n0, Sectors(Region(t.track)), again, was, bin) && again == Lost(t, r, next)
    ensures bin == Decoded(t, r, next, was)
  {
    hide Region, Torn, TornSector;
    TornFromStart(t, r, n0);
    var max := Sectors(Region(t.track));
    forall i | 0 <= i < |bin| ensures bin[i] == Decoded(t, r, next, was)[i] {
      var k := i / 256;
      if again && k == n0 - 1 {
        assert Number(t, n0 + max - 1) == k;
      } else {
        assert bin[256 * k..256 * k + 256] == SectorData(t, k);
        assert bin[i] == bin[256 * k..256 * k + 256][i - 256 * k];
        assert t.data[i] == t.data[256 * k..256 * k + 256][i - 256 * k];
      }
    }
  }

  // convert_gcr_track_to_bin: wherever the circle of bytes is cut and whatever follows it, as many
  // sectors are counted as there are, and bin holds the contents that were written; but if a mark is
  // torn and no byte of all ones joins its parts, its sector is passed over and the next one counted twice.
  method ConvertTrackToBin(img: seq<Byte>, len: nat, maxSector: nat, bin: array<Byte>, ghost t: Source, ghost r: nat)
    returns (secs: nat)
    requires Cut(t, r, img, len) && maxSector == Sectors(Region(t.track)) && bin.Length == |t.data|
    modifies bin
    ensures secs == maxSector && bin[..] == Decoded(t, r, img[len], old(bin[..]))
    ensures bin[..] == t.data <==>
              (Lost(t, r, img[len]) ==>
                 var s := TornSector(Region(t.track), r);
                 old(bin[256 * s..256 * s + 256]) == SectorData(t, s))
  {
    hide Aiming, FirstSeen, Gathered, Start, Number, Region, DataBlock, Header, SectorData, Around, Decoded, AtEnd;
    hide Plan, Lost, Torn, TornSector, Found;
    RegionSizes(Region(t.track), 0);
    var expectData, wrapped, current: nat, dest: nat := false, false, 0, 0;
    ghost var n0: nat, a: Aim := FirstMark(t, r, img, len);
    ghost var was := bin[..];
    secs := 0;
    NothingGathered(t, r, n0, was, img[len], a);
    while secs < maxSector
      invariant secs <= maxSector && Gathered(t, n0, secs, a.again, was, bin[..])
      invariant secs < maxSector ==>
                  && Aiming(t, r, img, len, current, a) && Plan(t, r, n0, secs, expectData, dest, img[len], a)
                  && (wrapped ==> a.turned)
      invariant secs == maxSector ==> a.again == Lost(t, r, img[len])
      decreases maxSector - secs, if a.again then 0 else 1, if !a.data then 1 else if expectData then 0 else 2
    {
      PlanFacts(t, r, n0, secs, expectData, dest, img[len], a);
      var newGcr: int;
      ghost var split, turned;
      newGcr, split, turned := NextMark(img, len, current, t, r, a);
      if newGcr < current {
        if wrapped { break; }
        wrapped := true;
      }
      current := newGcr;
      var header, rest;
      header, current, turned := ReadMark(img, len, current, t, r, split, a.(turned := turned));
      HeadBytes(t, Number(t, a.n));
      if header[0] == 8 {
        rest, current, turned := ReadHeader(img, len, current, t, r, turned, a.n);
        a := HeaderMet(t, r, img, len, n0, secs, expectData, dest, a, current, turned);
        dest := 256 * (header[2] as int);
        expectData := true;
      } else if header[0] == 7 {
        if !expectData {
          a := StrayMet(t, r, img, len, n0, secs, dest, a, current, turned);
        } else {
          ghost var before := bin[..];
          expectData := false;
          current, turned := ReadData(img, len, current, header, bin, dest, t, r, turned, a.n);
          SectorGathered(t, r, n0, secs, dest, img[len], a, was, before, bin[..]);
          a := SectorMet(t, r, img, len, n0, secs, dest, a, current, turned);
          secs := secs + 1;
        }
      } else {
        ghost var b := SplitMet(t, r, img, len, n0, secs, expectData, dest, a);
        AgainGathered(t, n0, was, bin[..]);
        a := b;
      }
    }
    AllGathered(t, r, n0, a.again, img[len], was, bin[..]);
    DecodedIsData(t, r, img[len], was);
  }

  lemma NothingGathered(t: Source, r: nat, n0: nat, was: seq<Byte>, next: Byte, a: Aim)
    requires Good(t) && |was| == |t.data| && FirstSeen(t, r, n0)
    requires a.n == (if a.data then n0 - 1 else n0) && !a.again
    ensures Gathered(t, n0, 0, false, was, was) && Plan(t, r, n0, 0, false, 0, next, a)
  {
    hide Region, Lost;
    RegionSizes(Region(t.track), 0);
  }

  lemma SectorGathered(t: Source, r: nat, n0: nat, secs: nat, dest: nat, next: Byte, a: Aim,
                       was: seq<Byte>, bin: seq<Byte>, bin': seq<Byte>)
    requires Good(t) && |was| == |bin| == |bin'| == |t.data| && Gathered(t, n0, secs, a.again, was, bin)
    requires Plan(t, r, n0, secs, true, dest, next, a) && a.data && Number(t, a.n) < Sectors(Region(t.track))
    requires bin'[dest..dest + 256] == SectorData(t, Number(t, a.n))
    requires forall i | 0 <= i < |bin| && !(dest <= i < dest + 256) :: bin'[i] == bin[i]
    ensures Gathered(t, n0, secs + 1, a.again, was, bin')
  {
    hide Region, Gathered, Number, Lost, SectorData;
    GatherOne(t, n0, secs, a.again, was, bin, bin');
  }

  lemma AgainGathered(t: Source, n0: nat, was: seq<Byte>, bin: seq<Byte>)
    requires Good(t) && |was| == |bin| == |t.data|
    requires Gathered(t, n0, Sectors(Region(t.track)) - 1, false, was, bin)
    ensures Gathered(t, n0, Sectors(Region(t.track)) - 1, true, was, bin)
  {
  }

  // ---- Torn marks in the buffer ----

  // The byte of the circle d places in front of r.
  ghost function Back(t: Source, r: nat, d: nat): Byte
    requires Good(t) && d <= Length(Region(t.track))
  {
    Around(t, if r >= d then r - d else Length(Region(t.track)) + r - d)
  }

  // Whether a mark is torn can be seen from six bytes of the buffer.
  lemma TornBytes(t: Source, r: nat, img: seq<Byte>, len: nat)
    requires Cut(t, r, img, len)
    ensures len > 3
    ensures Torn(Region(t.track), r) <==>
              && img[len - 3] == img[len - 2] == img[len - 1] == img[0] == FF
              && (img[1] != FF || img[2] != FF)
  {
    hide Region, Around, Start, Torn, TornSector, Back;
    RegionSizes(Region(t.track), 0);
    var s := SectorOf(t, r);
    TornInPeriod(t, r, s);
    BackAt(t, r, img, len, 1);
    BackAt(t, r, img, len, 2);
    BackAt(t, r, img, len, 3);
    assert img[0] == Around(t, r + 0) && img[1] == Around(t, r + 1) && img[2] == Around(t, r + 2);
    if r - Start(t, s) in {3, 4, 27, 28} {
      BytesOfTorn(t, r, s);
    } else {
      BytesOfOther(t, r, s);
    }
  }

  lemma BytesOfTorn(t: Source, r: nat, s: nat)
    requires Good(t) && s < Sectors(Region(t.track)) && Start(t, s) <= r && r - Start(t, s) in {3, 4, 27, 28}
    requires Length(Region(t.track)) > 3
    ensures Back(t, r, 3) == Back(t, r, 2) == Back(t, r, 1) == Around(t, r) == FF
    ensures Around(t, r + 1) != FF || Around(t, r + 2) != FF
  {
    hide Region, Around, Start;
    var c := r - Start(t, s);
    InTornMark(t, s, c);
  }

  lemma BytesOfOther(t: Source, r: nat, s: nat)
    requires Good(t) && s < Sectors(Region(t.track)) && Start(t, s) <= r < Start(t, s + 1)
    requires r < Length(Region(t.track)) && Length(Region(t.track)) > 3 && r - Start(t, s) !in {3, 4, 27, 28}
    ensures !(Back(t, r, 3) == Back(t, r, 2) == Back(t, r, 1) == Around(t, r) == FF)
  {
    hide Region, Around;
    var c := r - Start(t, s);
    if c < 3 {
      NoneBeforeStart(t, s);
    } else {
      hide Start;
      if 24 <= c < 27 {
        QuietInSector(t, s, 23);
        SyncByte(t, s, 24);
      } else if c == 5 || c == 29 {
        NoSyncByte(t, s, c);
      } else if c < 24 {
        QuietInSector(t, s, c - 1);
      } else {
        QuietBehindData(t, s, r - 1);
      }
    }
  }

  lemma TornInPeriod(t: Source, r: nat, s: nat)
    requires Good(t) && r < Length(Region(t.track)) && s < Sectors(Region(t.track))
    requires Start(t, s) <= r < Start(t, s + 1)
    ensures Torn(Region(t.track), r) <==> r - Start(t, s) in {3, 4, 27, 28}
  {
    hide Region, Torn, TornSector;
    NextStart(t, s);
    TornFromStart(t, r, if r <= Start(t, s) + 2 then s else s + 1);
  }

  // The last bytes of the buffer are those in front of its first one.
  lemma BackAt(t: Source, r: nat, img: seq<Byte>, len: nat, d: nat)
    requires Cut(t, r, img, len) && 0 < d <= len
    ensures img[len - d] == Back(t, r, d)
  {
    hide Region, Around;
    assert img[len - d] == Around(t, r + (len - d));
    if r >= d { TurnedBy(t, r - d); }
  }

  // The byte in front of a sector is none of all ones.
  lemma NoneBeforeStart(t: Source, s: nat)
    requires Good(t) && s < Sectors(Region(t.track))
    ensures var y := if s == 0 then Length(Region(t.track)) else Start(t, s); y > 0 && Around(t, y - 1) != FF
  {
    hide Region, Around;
    RegionSizes(Region(t.track), Sectors(Region(t.track)));
    RegionSizes(Region(t.track), 0);
    var n := if s == 0 then Sectors(Region(t.track)) else s;
    NextStart(t, n - 1);
    QuietBehindData(t, n - 1, Start(t, n) - 1);
    SyncByte(t, n, 0);
  }

  lemma InTornMark(t: Source, s: nat, c: nat)
    requires Good(t) && s < Sectors(Region(t.track)) && c in {3, 4, 27, 28}
    ensures forall y | Start(t, s) + c - 3 <= y <= Start(t, s) + c :: Around(t, y) == FF
    ensures Around(t, Start(t, s) + if c < 5 then 5 else 29) != FF
  {
    hide Region, Around, Start;
    RegionSizes(Region(t.track), 0);
    forall y | Start(t, s) + c - 3 <= y <= Start(t, s) + c ensures Around(t, y) == FF {
      SyncByte(t, s, y - Start(t, s));
    }
    NoSyncByte(t, s, if c < 5 then 5 else 29);
  }

  // ---- Round trips ----

  // An uncut track loses nothing, whatever follows it.
  lemma UncutIsWhole(t: Source, next: Byte)
    ensures !Lost(t, 0, next)
  {
  }

  // A track cut three bytes into its first mark loses its first sector, unless a byte of all ones follows it.
  lemma TornFirstSector(t: Source, next: Byte, was: seq<Byte>)
    requires Good(t) && |was| == |t.data| && next != FF
    ensures Lost(t, 3, next) && Decoded(t, 3, next, was) == was[..256] + t.data[256..]
  {
  }

  // The shift of test for any contents and any cut: the first r bytes of a written track are copied
  // behind its end while its begin moves up, and it is decoded from there. What follows is the byte
  // that was there before.
  method Rotated(mem: array<Byte>, t: Source, r: nat, bin: array<Byte>) returns (secs: nat)
    requires Good(t) && r < Length(Region(t.track)) && bin.Length == |t.data| && bin != mem
    requires Length(Region(t.track)) + r < mem.Length
    requires forall k | 0 <= k < Length(Region(t.track)) :: mem[k] == Around(t, k)
    modifies mem, bin
    ensures secs == Sectors(Region(t.track))
    ensures bin[..] == Decoded(t, r, old(mem[Length(Region(t.track)) + r]), old(bin[..]))
  {
    hide Region, Track, Around, Decoded;
    RegionSizes(Region(t.track), 0);
    var len := Length(Region(t.track));
    for i := 0 to r
      invariant forall k | 0 <= k < len + i :: mem[k] == Around(t, k)
      invariant mem[len + r] == old(mem[len + r]) && bin[..] == old(bin[..])
    {
      TurnedBy(t, i);
      mem[len + i] := mem[i];
    }
    var img := mem[r..r + len + 1];
    secs := ConvertTrackToBin(img, len, Sectors(Region(t.track)), bin, t, r);
  }

  // test for any contents: a track and one of its zone behind it are written, and the first one is
  // decoded at any cut. The byte that follows joins a torn mark, as the track behind has the same marks.
  method RoundTrip(mem: array<Byte>, t: Source, next: Source, r: nat, bin: array<Byte>) returns (secs: nat)
    requires Good(t) && Good(next) && Region(next.track) == Region(t.track) && r < Length(Region(t.track))
    requires bin.Length == |t.data| && bin != mem && mem.Length >= 2 * Length(Region(t.track))
    modifies mem, bin
    ensures secs == Sectors(Region(t.track)) && bin[..] == t.data
  {
    hide Region, Track, Around, Lost, GcrEncode.Wrote, TornSector;
    RegionSizes(Region(t.track), 0);
    var len := Length(Region(t.track));
    var buf := new Byte[260](_ => 0);
    ghost var m0 := mem[..];
    var end := GcrEncode.ConvertTrack(mem, 0, t, buf);
    ghost var m1 := mem[..];
    end := GcrEncode.ConvertTrack(mem, end, next, buf);
    WroteTracks(t, next, m0, m1, mem[..]);
    JoinedByNext(t, next, r);
    secs := Rotated(mem, t, r, bin);
  }

  lemma WroteTracks(t: Source, next: Source, was: seq<Byte>, mid: seq<Byte>, now: seq<Byte>)
    requires Good(t) && Good(next) && GcrEncode.Wrote(was, mid, 0, Track(t))
    requires GcrEncode.Wrote(mid, now, Length(Region(t.track)), Track(next))
    ensures forall k | 0 <= k < Length(Region(t.track)) :: k < |now| && now[k] == Around(t, k)
    ensures forall k | 0 <= k < Length(Region(next.track)) ::
              Length(Region(t.track)) + k < |now| && now[Length(Region(t.track)) + k] == Around(next, k)
  {
    hide Region, Track;
    var len := Length(Region(t.track));
    forall k | 0 <= k < len ensures k < |now| && now[k] == Around(t, k) {
      assert mid[k] == mid[0..|Track(t)|][k];
    }
    forall k | 0 <= k < Length(Region(next.track)) ensures len + k < |now| && now[len + k] == Around(next, k) {
      assert now[len + k] == now[len..len + |Track(next)|][k];
    }
  }

  // Where a mark is torn, a track of the same zone has bytes of all ones.
  lemma JoinedByNext(t: Source, next: Source, r: nat)
    requires Good(t) && Good(next) && Region(next.track) == Region(t.track) && r < Length(Region(t.track))
    ensures !Lost(t, r, Around(next, r))
  {
    hide Region, Around, Torn, TornSector, Start;
    var s := SectorOf(next, r);
    TornInPeriod(next, r, s);
    if Torn(Region(next.track), r) {
      InTornMark(next, s, r - Start(next, s));
    }
  }

  lemma TurnedBy(t: Source, y: nat)
    requires Good(t)
    ensures Around(t, Length(Region(t.track)) + y) == Around(t, y)
  {
    hide Region, Track;
    RegionSizes(Region(t.track), 0);
  }
}
