// A file as the bytes of the sectors of its cluster chain, one of which may be cached.
module FileView {
  import opened Bytes
  import opened FatTable
  import Chains

  // ---- Division by a cluster size ----

  lemma DivModUnique(k: nat, n: nat, q: nat, r: nat)
    requires 0 <= r < n && k == q * n + r
    ensures k / n == q && k % n == r
  {
    var q', r' := k / n, k % n;
    assert q * n + r == q' * n + r';
    if q < q' {
      Gap(q, q', n);
    } else if q' < q {
      Gap(q', q, n);
    }
  }

  lemma Gap(a: nat, b: nat, n: nat)
    requires a < b
    ensures a * n + n <= b * n
  {
    Scale(a + 1, b, n);
    assert (a + 1) * n == a * n + n;
  }

  lemma Scale(a: nat, b: nat, n: nat)
    requires a <= b
    ensures a * n <= b * n
  {
  }

  lemma DivBound(k: nat, n: nat, m: nat)
    requires n > 0 && k < m * n
    ensures k / n < m && k == k / n * n + k % n
  {
    assert k == k / n * n + k % n;
    if k / n >= m {
      Scale(m, k / n, n);
    }
  }

  // Numbers up to the end of the same group of n.
  lemma SameGroup(k: nat, j: nat, n: nat)
    requires n > 0 && k <= j < k - k % n + n
    ensures j / n == k / n && j % n == k % n + (j - k)
  {
    assert k == k / n * n + k % n;
    DivModUnique(j, n, k / n, k % n + (j - k));
  }

  lemma PositiveFactor(q: nat, n: nat)
    requires q * n > 0
    ensures q > 0
  {
  }

  // The number before a multiple of n.
  lemma GroupBefore(k: nat, n: nat)
    requires n > 0 && k > 0 && k % n == 0
    ensures k / n > 0 && (k - 1) / n == k / n - 1
  {
    assert k == k / n * n;
    PositiveFactor(k / n, n);
    assert (k / n - 1) * n == k / n * n - n;
    DivModUnique(k - 1, n, k / n - 1, n - 1);
  }

  // ---- Sectors of clusters ----

  function ClusterSector(g: Geometry, c: int, r: nat): int {
    g.database + (c - 2) * g.csize + r
  }

  // Cluster 2 starts the data area, and the sectors of a cluster and the clusters follow one another.
  lemma ClusterSectors(g: Geometry, c: int, r: nat)
    ensures ClusterSector(g, 2, 0) == g.database
    ensures ClusterSector(g, c, r + 1) == ClusterSector(g, c, r) + 1
    ensures ClusterSector(g, c + 1, 0) == ClusterSector(g, c, g.csize)
  {
  }

  // Cluster that a data sector belongs to.
  function SectorCluster(g: Geometry, s: int): int
    requires ClusterSize(g.csize)
  {
    (s - g.database) / g.csize + 2
  }

  lemma ClusterSectorParts(g: Geometry, c: int, r: nat)
    requires ClusterSize(g.csize) && c >= 2 && r < g.csize
    ensures ClusterSector(g, c, r) >= g.database
    ensures SectorCluster(g, ClusterSector(g, c, r)) == c
    ensures (ClusterSector(g, c, r) - g.database) % g.csize == r
  {
    Scale(0, c - 2, g.csize);
    DivModUnique(ClusterSector(g, c, r) - g.database, g.csize, c - 2, r);
  }

  lemma ClusterSectorInside(g: Geometry, c: int, r: nat, size: nat)
    requires ClusterSize(g.csize) && 2 <= c < g.nFatent && r < g.csize && DataInside(g, size)
    ensures g.database <= ClusterSector(g, c, r) < size
  {
    Scale(c - 1, g.nFatent - 2, g.csize);
    Scale(0, c - 2, g.csize);
    assert (c - 1) * g.csize == (c - 2) * g.csize + g.csize;
  }

  // ---- The file ----

  // The volume's sectors, the clusters of a file and its cached sector (dsect 0: none).
  datatype Store = Store(g: Geometry, view: seq<Sector>, chain: seq<nat>, dsect: nat, cache: Sector)

  ghost predicate Distinct(ch: seq<nat>) {
    forall i, j | 0 <= i < j < |ch| :: ch[i] != ch[j]
  }

  ghost predicate StoreOk(st: Store) {
    && ClusterSize(st.g.csize)
    && 0 < st.g.database
    && DataInside(st.g, |st.view|)
    && (forall i | 0 <= i < |st.chain| :: 2 <= st.chain[i] < st.g.nFatent)
    && Distinct(st.chain)
  }

  // Sectors and bytes that the chain has room for.
  function SectorCount(g: Geometry, ch: seq<nat>): nat {
    |ch| * g.csize
  }

  function Capacity(g: Geometry, ch: seq<nat>): nat {
    SectorCount(g, ch) * SS
  }

  lemma CapacityAt(g: Geometry, ch: seq<nat>, p: nat)
    ensures p < Capacity(g, ch) ==> p / SS < SectorCount(g, ch)
  {
  }

  function FileSector(g: Geometry, ch: seq<nat>, k: nat): int
    requires ClusterSize(g.csize) && k < SectorCount(g, ch)
  {
    DivBound(k, g.csize, |ch|);
    ClusterSector(g, ch[k / g.csize], k % g.csize)
  }

  predicate InFile(g: Geometry, ch: seq<nat>, s: int)
    requires ClusterSize(g.csize)
  {
    s >= g.database && SectorCluster(g, s) in ch
  }

  lemma InFileAbove(g: Geometry, ch: seq<nat>, s: int)
    requires ClusterSize(g.csize) && InFile(g, ch, s)
    ensures s >= g.database
  {
  }

  lemma NotInFileBelow(g: Geometry, ch: seq<nat>, s: int)
    requires ClusterSize(g.csize)
    ensures s < g.database ==> !InFile(g, ch, s)
  {
  }

  lemma FileSectorInside(st: Store, k: nat)
    requires StoreOk(st) && k < SectorCount(st.g, st.chain)
    ensures var s := FileSector(st.g, st.chain, k);
            st.g.database <= s < |st.view| && InFile(st.g, st.chain, s)
  {
    DivBound(k, st.g.csize, |st.chain|);
    var c := st.chain[k / st.g.csize];
    ClusterSectorInside(st.g, c, k % st.g.csize, |st.view|);
    ClusterSectorParts(st.g, c, k % st.g.csize);
  }

  lemma FileSectorInjective(st: Store, j: nat, k: nat)
    requires StoreOk(st) && j < SectorCount(st.g, st.chain) && k < SectorCount(st.g, st.chain) && j != k
    ensures FileSector(st.g, st.chain, j) != FileSector(st.g, st.chain, k)
  {
    DivBound(j, st.g.csize, |st.chain|);
    DivBound(k, st.g.csize, |st.chain|);
    var a, b := j / st.g.csize, k / st.g.csize;
    ClusterSectorParts(st.g, st.chain[a], j % st.g.csize);
    ClusterSectorParts(st.g, st.chain[b], k % st.g.csize);
    assert a != b ==> st.chain[a] != st.chain[b];
  }

  // The data of sector k of the file.
  function SectorData(st: Store, k: nat): Sector
    requires StoreOk(st) && k < SectorCount(st.g, st.chain)
  {
    FileSectorInside(st, k);
    var s := FileSector(st.g, st.chain, k);
    if s == st.dsect then st.cache else st.view[s]
  }

  function ByteAt(st: Store, i: nat): Byte
    requires StoreOk(st) && i < Capacity(st.g, st.chain)
  {
    SectorData(st, i / SS)[i % SS]
  }

  // The first n bytes.
  function Content(st: Store, n: nat): (c: seq<Byte>)
    requires StoreOk(st) && n <= Capacity(st.g, st.chain)
    ensures |c| == n
    ensures forall i | 0 <= i < n :: c[i] == ByteAt(st, i)
  {
    seq(n, i requires 0 <= i < n => ByteAt(st, i))
  }

  lemma ContentPrefix(st: Store, n: nat, m: nat)
    requires StoreOk(st) && n <= m <= Capacity(st.g, st.chain)
    ensures Content(st, n) == Content(st, m)[..n]
  {
  }

  // The cached sector of the file is its part of the content.
  lemma CachedSector(st: Store, k: nat)
    requires StoreOk(st) && k < SectorCount(st.g, st.chain) && st.dsect == FileSector(st.g, st.chain, k)
    ensures (k + 1) * SS <= Capacity(st.g, st.chain)
    ensures Content(st, Capacity(st.g, st.chain))[k * SS..(k + 1) * SS] == st.cache
  {
    var c := Content(st, Capacity(st.g, st.chain));
    forall i | 0 <= i < SS ensures c[k * SS + i] == st.cache[i] {
      assert (k * SS + i) / SS == k && (k * SS + i) % SS == i;
    }
  }

  // The cached sector is what the medium holds.
  predicate Clean(st: Store) {
    0 < st.dsect < |st.view| ==> st.cache == st.view[st.dsect]
  }

  // Two stores with the same data in the sectors below n hold the same first n bytes.
  lemma SameContent(st: Store, st': Store, n: nat)
    requires StoreOk(st) && StoreOk(st') && st'.g == st.g && st.chain <= st'.chain
    requires n <= Capacity(st.g, st.chain)
    requires forall k | 0 <= k < SectorCount(st.g, st.chain) && k * SS < n ::
               SectorCount(st.g, st.chain) <= SectorCount(st.g, st'.chain) && SectorData(st', k) == SectorData(st, k)
    ensures n <= Capacity(st.g, st'.chain) && Content(st', n) == Content(st, n)
  {
    hide SectorData, FileSector;
    Scale(|st.chain|, |st'.chain|, st.g.csize);
    forall i | 0 <= i < n ensures Content(st', n)[i] == Content(st, n)[i] {
      var k := i / SS;
      assert k * SS < n;
    }
  }

  // Outside the table and the clusters of ch nothing differs.
  ghost predicate SameElsewhere(g: Geometry, ch: seq<nat>, v: seq<Sector>, w: seq<Sector>)
    requires ClusterSize(g.csize)
  {
    |w| == |v| && forall s | 0 <= s < |v| && !InFat(g, s) && !InFile(g, ch, s) :: w[s] == v[s]
  }

  lemma SameElsewhereTwice(g: Geometry, ch: seq<nat>, u: seq<Sector>, v: seq<Sector>, w: seq<Sector>)
    requires ClusterSize(g.csize) && SameElsewhere(g, ch, u, v) && SameElsewhere(g, ch, v, w)
    ensures SameElsewhere(g, ch, u, w)
  {
  }

  lemma SameElsewhereGrows(g: Geometry, ch: seq<nat>, ch': seq<nat>, v: seq<Sector>, w: seq<Sector>)
    requires ClusterSize(g.csize) && SameElsewhere(g, ch, v, w) && ch <= ch'
    ensures SameElsewhere(g, ch', v, w)
  {
    assert forall c :: c in ch ==> c in ch';
  }

  lemma SameOutsideElsewhere(g: Geometry, ch: seq<nat>, v: seq<Sector>, w: seq<Sector>)
    requires ClusterSize(g.csize) && SameOutside(v, w, g)
    ensures SameElsewhere(g, ch, v, w)
  {
  }

  // What an operation on the file with chain ch does to the rest of the volume: only the table may
  // differ, of which the copy still follows, and the window stays or moves to the table.
  ghost predicate Kept(g: Geometry, ch: seq<nat>, a: Glance, b: Glance)
    requires ClusterSize(g.csize)
  {
    && SameElsewhere(g, ch, a.view, b.view)
    && (a.mirrored ==> b.mirrored)
    && (b.winsect == a.winsect || InFat(g, b.winsect))
  }

  lemma KeptBy(g: Geometry, ch: seq<nat>, a: Glance, b: Glance)
    requires ClusterSize(g.csize) && SameElsewhere(g, ch, a.view, b.view) && (a.mirrored ==> b.mirrored)
    requires b.winsect == a.winsect || InFat(g, b.winsect)
    ensures Kept(g, ch, a, b)
  {
  }

  lemma KeptSelf(g: Geometry, ch: seq<nat>, a: Glance)
    requires ClusterSize(g.csize)
    ensures Kept(g, ch, a, a)
  {
  }

  lemma KeptTwice(g: Geometry, ch: seq<nat>, a: Glance, b: Glance, c: Glance)
    requires ClusterSize(g.csize) && Kept(g, ch, a, b) && Kept(g, ch, b, c)
    ensures Kept(g, ch, a, c)
  {
  }

  // ---- What the operations on the cache and the medium do to the content ----

  // disk_write of the cached sector.
  lemma WriteBackKeeps(st: Store, n: nat)
    requires StoreOk(st) && n <= Capacity(st.g, st.chain) && st.dsect < |st.view|
    ensures var st' := st.(view := st.view[st.dsect := st.cache]);
            StoreOk(st') && Clean(st') && Content(st', n) == Content(st, n)
  {
    var st' := st.(view := st.view[st.dsect := st.cache]);
    SameContent(st, st', n);
  }

  // disk_read of sector s into the cache.
  lemma LoadKeeps(st: Store, s: nat, n: nat)
    requires StoreOk(st) && n <= Capacity(st.g, st.chain) && Clean(st) && 0 < s < |st.view|
    ensures var st' := st.(dsect := s, cache := st.view[s]);
            StoreOk(st') && Clean(st') && Content(st', n) == Content(st, n)
  {
    var st' := st.(dsect := s, cache := st.view[s]);
    forall k | 0 <= k < SectorCount(st.g, st.chain) ensures SectorData(st', k) == SectorData(st, k) {
      FileSectorInside(st, k);
    }
    SameContent(st, st', n);
  }

  // Taking over the cache for the sector at the growing edge without reading it.
  lemma AdoptKeeps(st: Store, k: nat, n: nat)
    requires StoreOk(st) && Clean(st) && k < SectorCount(st.g, st.chain) && n <= k * SS
    ensures var st' := st.(dsect := FileSector(st.g, st.chain, k));
            n <= Capacity(st.g, st.chain) && StoreOk(st') && Content(st', n) == Content(st, n)
  {
    FileSectorInside(st, k);
    var st' := st.(dsect := FileSector(st.g, st.chain, k));
    forall j | 0 <= j < k ensures SectorData(st', j) == SectorData(st, j) {
      FileSectorInside(st, j);
      FileSectorInjective(st, j, k);
    }
    SameContent(st, st', n);
  }

  // A longer chain, and any change of the table, leaves the content alone.
  lemma TableChangeKeeps(st: Store, view: seq<Sector>, chain: seq<nat>, n: nat)
    requires StoreOk(st) && n <= Capacity(st.g, st.chain)
    requires SameOutside(st.view, view, st.g) && st.g.fatbase + st.g.fsize <= st.g.database
    requires st.chain <= chain && StoreOk(st.(view := view, chain := chain))
    ensures n <= Capacity(st.g, chain) && Content(st.(view := view, chain := chain), n) == Content(st, n)
  {
    var st' := st.(view := view, chain := chain);
    Scale(|st.chain|, |chain|, st.g.csize);
    forall k | 0 <= k < SectorCount(st.g, st.chain) ensures SectorData(st', k) == SectorData(st, k) {
      DivBound(k, st.g.csize, |st.chain|);
      FileSectorInside(st, k);
    }
    SameContent(st, st', n);
  }

  // The cache stays what it was when the table changes or the chain grows.
  lemma TableChangeCache(st: Store, view: seq<Sector>, chain: seq<nat>)
    requires StoreOk(st) && SameOutside(st.view, view, st.g) && st.g.fatbase + st.g.fsize <= st.g.database
    requires forall c | c in st.chain :: c in chain
    requires st.dsect != 0 ==> InFile(st.g, st.chain, st.dsect) && st.dsect < |st.view|
    ensures st.dsect != 0 ==> InFile(st.g, chain, st.dsect) && st.dsect < |view|
    ensures Clean(st) ==> Clean(st.(view := view, chain := chain))
  {
  }

  // What an operation on the file with chain ch does to another file that shares no cluster with it: nothing.
  lemma OtherFileKeeps(st: Store, ch: seq<nat>, view: seq<Sector>, n: nat)
    requires StoreOk(st) && n <= Capacity(st.g, st.chain) && st.g.fatbase + st.g.fsize <= st.g.database
    requires SameElsewhere(st.g, ch, st.view, view) && Chains.Disjoint(ch, st.chain)
    ensures StoreOk(st.(view := view)) && Content(st.(view := view), n) == Content(st, n)
    ensures (st.dsect != 0 ==> InFile(st.g, st.chain, st.dsect)) && Clean(st) ==> Clean(st.(view := view))
  {
    var st' := st.(view := view);
    forall k | 0 <= k < SectorCount(st.g, st.chain) ensures SectorData(st', k) == SectorData(st, k) {
      FileSectorInside(st, k);
      assert SectorCluster(st.g, FileSector(st.g, st.chain, k)) in st.chain;
    }
    SameContent(st, st', n);
  }

  // s with d put over position at, growing when d reaches behind the end.
  function Overwrite(s: seq<Byte>, at: nat, d: seq<Byte>): (r: seq<Byte>)
    requires at <= |s|
    ensures |r| == if at + |d| > |s| then at + |d| else |s|
    ensures forall i | 0 <= i < |r| :: r[i] == if at <= i < at + |d| then d[i - at] else s[i]
  {
    s[..at] + d + (if at + |d| < |s| then s[at + |d|..] else [])
  }

  lemma OverwriteNothing(s: seq<Byte>, at: nat)
    requires at <= |s|
    ensures Overwrite(s, at, []) == s
  {
  }

  lemma OverwriteTwice(s: seq<Byte>, at: nat, d: seq<Byte>, e: seq<Byte>)
    requires at <= |s|
    ensures Overwrite(Overwrite(s, at, d), at + |d|, e) == Overwrite(s, at, d + e)
  {
    var a, b := Overwrite(Overwrite(s, at, d), at + |d|, e), Overwrite(s, at, d + e);
    assert |a| == |b|;
    forall i | 0 <= i < |a| ensures a[i] == b[i] {
    }
  }

  // Copying d into the cached sector k at offset o; the logical size n reaches at least to there.
  lemma CacheWrite(st: Store, k: nat, o: nat, d: seq<Byte>, n: nat)
    requires StoreOk(st) && k < SectorCount(st.g, st.chain) && st.dsect == FileSector(st.g, st.chain, k)
    requires o + |d| <= SS && k * SS + o <= n <= Capacity(st.g, st.chain)
    ensures var st' := st.(cache := Overwrite(st.cache, o, d));
            var at := k * SS + o;
            var n' := if at + |d| > n then at + |d| else n;
            StoreOk(st') && n' <= Capacity(st.g, st.chain) && Content(st', n') == Overwrite(Content(st, n), at, d)
  {
    var st' := st.(cache := Overwrite(st.cache, o, d));
    var at := k * SS + o;
    var n' := if at + |d| > n then at + |d| else n;
    var c := Overwrite(Content(st, n), at, d);
    forall i | 0 <= i < n' ensures ByteAt(st', i) == c[i] {
      CacheWriteByte(st, k, o, d, i);
    }
  }

  lemma CacheWriteByte(st: Store, k: nat, o: nat, d: seq<Byte>, i: nat)
    requires StoreOk(st) && k < SectorCount(st.g, st.chain) && st.dsect == FileSector(st.g, st.chain, k)
    requires o + |d| <= SS && i < Capacity(st.g, st.chain)
    ensures var st' := st.(cache := Overwrite(st.cache, o, d));
            var at := k * SS + o;
            ByteAt(st', i) == if at <= i < at + |d| then d[i - at] else ByteAt(st, i)
  {
    hide FileSector;
    var j := i / SS;
    if j == k {
      assert i == k * SS + i % SS;
    } else {
      FileSectorInjective(st, j, k);
    }
  }

  // ---- Transfers of several sectors of one cluster ----

  // Sectors k .. k + cc of the file, inside one cluster, lie behind one another.
  lemma Consecutive(st: Store, k: nat, cc: nat, j: nat)
    requires StoreOk(st) && k < SectorCount(st.g, st.chain) && k % st.g.csize + cc <= st.g.csize && j < cc
    ensures k + j < SectorCount(st.g, st.chain)
    ensures FileSector(st.g, st.chain, k + j) == FileSector(st.g, st.chain, k) + j
  {
    var n := st.g.csize;
    DivBound(k, n, |st.chain|);
    DivModUnique(k + j, n, k / n, k % n + j);
    Scale(k / n + 1, |st.chain|, n);
    assert (k / n + 1) * n == k / n * n + n;
  }

  // A sector of the same stretch, found by its number on the medium.
  lemma StretchSector(st: Store, k: nat, cc: nat, j: nat)
    requires StoreOk(st) && k < SectorCount(st.g, st.chain) && k % st.g.csize + cc <= st.g.csize
    requires j < SectorCount(st.g, st.chain)
    ensures var s := FileSector(st.g, st.chain, k);
            s <= FileSector(st.g, st.chain, j) < s + cc <==> k <= j < k + cc
  {
    hide FileSector, DataInside, Distinct;
    var s, t := FileSector(st.g, st.chain, k), FileSector(st.g, st.chain, j);
    if k <= j < k + cc {
      Consecutive(st, k, cc, j - k);
    } else if s <= t < s + cc {
      Consecutive(st, k, cc, t - s);
      FileSectorInjective(st, j, k + (t - s));
    }
  }

  lemma StretchInside(st: Store, k: nat, cc: nat)
    requires StoreOk(st) && k < SectorCount(st.g, st.chain) && k % st.g.csize + cc <= st.g.csize
    ensures var s := FileSector(st.g, st.chain, k);
            && st.g.database <= s && s + cc <= |st.view|
            && forall t | s <= t < s + cc :: InFile(st.g, st.chain, t)
    ensures (k + cc) * SS <= Capacity(st.g, st.chain)
  {
    hide FileSector, InFile;
    var s := FileSector(st.g, st.chain, k);
    FileSectorInside(st, k);
    forall t | s <= t < s + cc ensures InFile(st.g, st.chain, t) {
      Consecutive(st, k, cc, t - s);
      FileSectorInside(st, k + (t - s));
    }
    if cc > 0 {
      Consecutive(st, k, cc, cc - 1);
      FileSectorInside(st, k + (cc - 1));
    }
  }

  // The bytes a direct read returns: the medium's, with the cached sector patched in if it is dirty.
  function DirectRead(st: Store, s: nat, cc: nat, dirty: bool): (r: seq<Byte>)
    requires s + cc <= |st.view|
    ensures |r| == cc * SS
  {
    var r := Flat(st.view, s, cc);
    if dirty && s <= st.dsect < s + cc then Overwrite(r, (st.dsect - s) * SS, st.cache) else r
  }

  lemma DirectReadIsContent(st: Store, k: nat, cc: nat, dirty: bool)
    requires StoreOk(st) && k < SectorCount(st.g, st.chain) && k % st.g.csize + cc <= st.g.csize
    requires !dirty ==> Clean(st)
    ensures 0 <= FileSector(st.g, st.chain, k) && FileSector(st.g, st.chain, k) + cc <= |st.view|
    ensures (k + cc) * SS <= Capacity(st.g, st.chain)
    ensures DirectRead(st, FileSector(st.g, st.chain, k), cc, dirty) == Content(st, (k + cc) * SS)[k * SS..]
  {
    hide FileSector, DirectRead;
    StretchInside(st, k, cc);
    var s := FileSector(st.g, st.chain, k);
    var r := DirectRead(st, s, cc, dirty);
    var c := Content(st, (k + cc) * SS)[k * SS..];
    forall i | 0 <= i < cc * SS ensures r[i] == c[i] {
      DirectReadByte(st, k, cc, dirty, i);
    }
  }

  lemma DirectReadByte(st: Store, k: nat, cc: nat, dirty: bool, i: nat)
    requires StoreOk(st) && k < SectorCount(st.g, st.chain) && k % st.g.csize + cc <= st.g.csize
    requires !dirty ==> Clean(st)
    requires i < cc * SS && (k + cc) * SS <= Capacity(st.g, st.chain)
    requires 0 < FileSector(st.g, st.chain, k) && FileSector(st.g, st.chain, k) + cc <= |st.view|
    ensures DirectRead(st, FileSector(st.g, st.chain, k), cc, dirty)[i] == ByteAt(st, k * SS + i)
  {
    hide FileSector;
    var j := i / SS;
    Consecutive(st, k, cc, j);
    assert (k * SS + i) / SS == k + j && (k * SS + i) % SS == i % SS;
  }

  // The store after a direct write of cc sectors: a cached sector among them is refilled.
  function DirectWrite(st: Store, s: nat, cc: nat, data: seq<Byte>): Store
    requires s + cc <= |st.view| && |data| == cc * SS
  {
    var v := PutFlat(st.view, s, cc, data);
    if s <= st.dsect < s + cc then
      st.(view := v, cache := data[(st.dsect - s) * SS..(st.dsect - s + 1) * SS])
    else st.(view := v)
  }

  lemma DirectWriteIsOverwrite(st: Store, k: nat, cc: nat, data: seq<Byte>, n: nat)
    requires StoreOk(st) && k < SectorCount(st.g, st.chain) && k % st.g.csize + cc <= st.g.csize
    requires |data| == cc * SS && k * SS <= n <= Capacity(st.g, st.chain)
    ensures FileSector(st.g, st.chain, k) >= 0 && FileSector(st.g, st.chain, k) + cc <= |st.view|
    ensures var st' := DirectWrite(st, FileSector(st.g, st.chain, k), cc, data);
            var n' := if (k + cc) * SS > n then (k + cc) * SS else n;
            && StoreOk(st') && st'.dsect == st.dsect && (Clean(st) ==> Clean(st'))
            && n' <= Capacity(st.g, st.chain) && Content(st', n') == Overwrite(Content(st, n), k * SS, data)
  {
    StretchInside(st, k, cc);
    FileSectorInside(st, k);
    var st' := DirectWrite(st, FileSector(st.g, st.chain, k), cc, data);
    var n' := if (k + cc) * SS > n then (k + cc) * SS else n;
    var c := Overwrite(Content(st, n), k * SS, data);
    forall i | 0 <= i < n' ensures ByteAt(st', i) == c[i] {
      DirectWriteByte(st, k, cc, data, i);
    }
  }

  lemma StretchElsewhere(st: Store, k: nat, cc: nat, data: seq<Byte>)
    requires StoreOk(st) && k < SectorCount(st.g, st.chain) && k % st.g.csize + cc <= st.g.csize && |data| == cc * SS
    ensures 0 <= FileSector(st.g, st.chain, k) && FileSector(st.g, st.chain, k) + cc <= |st.view|
    ensures SameElsewhere(st.g, st.chain, st.view, PutFlat(st.view, FileSector(st.g, st.chain, k), cc, data))
  {
    hide FileSector, InFile;
    StretchInside(st, k, cc);
  }

  lemma DirectWriteByte(st: Store, k: nat, cc: nat, data: seq<Byte>, i: nat)
    requires StoreOk(st) && k < SectorCount(st.g, st.chain) && k % st.g.csize + cc <= st.g.csize
    requires |data| == cc * SS && i < Capacity(st.g, st.chain)
    requires 0 <= FileSector(st.g, st.chain, k) && FileSector(st.g, st.chain, k) + cc <= |st.view|
    ensures StoreOk(DirectWrite(st, FileSector(st.g, st.chain, k), cc, data))
    ensures ByteAt(DirectWrite(st, FileSector(st.g, st.chain, k), cc, data), i) ==
              if k * SS <= i < (k + cc) * SS then data[i - k * SS] else ByteAt(st, i)
  {
    hide FileSector, PutFlat;
    var s := FileSector(st.g, st.chain, k);
    var st' := DirectWrite(st, s, cc, data);
    var j := i / SS;
    StretchSector(st, k, cc, j);
    var t := FileSector(st.g, st.chain, j);
    FileSectorInside(st, j);
    if k <= j < k + cc {
      Consecutive(st, k, cc, j - k);
      assert t - s == j - k;
      assert SectorData(st', j) == data[(j - k) * SS..(j - k + 1) * SS];
      assert i - k * SS == (j - k) * SS + i % SS;
    } else {
      assert SectorData(st', j) == SectorData(st, j);
    }
  }

  // ---- Positions ----

  // Position p is inside the cluster of byte p - 1 unless it starts a cluster.
  lemma PositionCluster(p: nat, n: nat)
    requires n > 0 && p > 0
    ensures p % SS != 0 ==> (p - 1) / SS == p / SS
    ensures p % SS != 0 || p / SS % n != 0 ==> (p - 1) / SS / n == p / SS / n
    ensures p % SS == 0 && p / SS % n == 0 ==> p / SS / n > 0 && (p - 1) / SS / n == p / SS / n - 1
  {
    if p % SS == 0 {
      assert (p - 1) / SS == p / SS - 1;
      if p / SS % n == 0 {
        GroupBefore(p / SS, n);
      } else {
        var k := p / SS;
        assert k == k / n * n + k % n;
        DivModUnique(k - 1, n, k / n, k % n - 1);
      }
    }
  }

  // After moving on by cnt > 0 bytes within the cluster of sector k, the last byte passed is in it.
  lemma PositionAfter(p: nat, cnt: nat, n: nat)
    requires n > 0 && cnt > 0
    requires p + cnt <= (p / SS - p / SS % n + n) * SS
    ensures (p + cnt - 1) / SS / n == p / SS / n
  {
    var j := (p + cnt - 1) / SS;
    assert p / SS <= j < p / SS - p / SS % n + n;
    SameGroup(p / SS, j, n);
  }

  // The end of the cluster that a position inside the chain lies in.
  lemma ClusterEndInside(g: Geometry, ch: seq<nat>, p: nat)
    requires g.csize > 0 && p / SS / g.csize < |ch|
    ensures (p / SS - p / SS % g.csize + g.csize) * SS <= Capacity(g, ch)
  {
    var k, n := p / SS, g.csize;
    assert k == k / n * n + k % n;
    Gap(k / n, |ch|, n);
  }

  // A position at a cluster boundary starts a cluster of the chain or lies at its very end.
  lemma BoundaryIndex(g: Geometry, ch: seq<nat>, p: nat)
    requires g.csize > 0 && p % SS == 0 && p / SS % g.csize == 0 && p <= Capacity(g, ch)
    ensures p / SS / g.csize <= |ch|
    ensures p / SS / g.csize == |ch| <==> p == Capacity(g, ch)
  {
    var n := g.csize;
    var j := p / SS / n;
    assert p / SS == j * n;
    CancelLe(j, |ch|, n);
    if j < |ch| {
      Gap(j, |ch|, n);
    }
  }

  lemma CapacityOf(g: Geometry, ch: seq<nat>, p: nat)
    requires g.csize > 0 && p % SS == 0 && p / SS % g.csize == 0 && p / SS / g.csize == |ch|
    ensures p == Capacity(g, ch)
  {
    assert p / SS == p / SS / g.csize * g.csize;
  }

  // A sector boundary inside a cluster lies before the end of the chain.
  lemma InsideCluster(g: Geometry, ch: seq<nat>, p: nat)
    requires g.csize > 0 && p % SS == 0 && p / SS % g.csize != 0 && p <= Capacity(g, ch)
    ensures p < Capacity(g, ch)
  {
    if p == Capacity(g, ch) {
      DivModUnique(p / SS, g.csize, |ch|, 0);
    }
  }

  lemma CancelLe(a: nat, b: nat, n: nat)
    requires n > 0 && a * n <= b * n
    ensures a <= b
  {
    if b < a {
      Gap(b, a, n);
    }
  }

  // Overwriting a prefix that reaches far enough.
  lemma OverwritePrefix(s: seq<Byte>, n: nat, at: nat, d: seq<Byte>)
    requires at <= n <= |s| && at + |d| <= |s|
    ensures var n' := if at + |d| > n then at + |d| else n;
            Overwrite(s, at, d)[..n'] == Overwrite(s[..n], at, d)
  {
  }

  // Dividing by a cluster's bytes is dividing by sector and cluster size.
  lemma DivDiv(p: nat, n: nat)
    requires n > 0
    ensures p / (n * SS) == p / SS / n
  {
    var k := p / SS;
    assert k == k / n * n + k % n;
    assert p == k * SS + p % SS;
    assert p == (k / n) * (n * SS) + (k % n * SS + p % SS) by {
      assert (k / n * n) * SS == (k / n) * (n * SS);
    }
    assert k % n * SS + p % SS < n * SS;
    DivModUnique(p, n * SS, k / n, k % n * SS + p % SS);
  }

  // The start of the cluster that byte p lies in.
  lemma ClusterStart(p: nat, n: nat)
    requires n > 0
    ensures var b := p / (n * SS) * (n * SS);
            b <= p < b + n * SS && b % SS == 0 && b / SS % n == 0 && b / SS / n == p / SS / n
  {
    DivDiv(p, n);
    var j := p / SS / n;
    var k := p / SS;
    assert k == j * n + k % n;
    assert j * (n * SS) == j * n * SS;
    DivModUnique(j * n, n, j, 0);
  }

  // Number and start of the cluster that byte p lies in.
  function ClusterNumber(p: nat, n: nat): nat
    requires n > 0
  {
    p / (n * SS)
  }

  function ClusterFloor(p: nat, n: nat): nat
    requires n > 0
  {
    p / (n * SS) * (n * SS)
  }

  // The start of the cluster of byte p - 1 is a boundary not behind a byte of the same or a later cluster.
  lemma BoundaryNotBehind(p: nat, ofs: nat, n: nat)
    requires n > 0 && p > 0 && ofs > 0 && ClusterNumber(ofs - 1, n) >= ClusterNumber(p - 1, n)
    ensures var b := ClusterFloor(p - 1, n);
            b < ofs && b < p && b % SS == 0 && b / SS % n == 0 && b / SS / n == (p - 1) / SS / n
  {
    hide ClusterNumber, ClusterFloor;
    NotBehind(p - 1, ofs - 1, n);
    FloorIsBoundary(p - 1, n);
  }

  lemma FloorIsBoundary(p: nat, n: nat)
    requires n > 0
    ensures var b := ClusterFloor(p, n); b <= p && b % SS == 0 && b / SS % n == 0 && b / SS / n == p / SS / n
  {
    ClusterStart(p, n);
  }

  lemma NotBehind(x: nat, y: nat, n: nat)
    requires n > 0 && ClusterNumber(y, n) >= ClusterNumber(x, n)
    ensures ClusterFloor(x, n) <= y
  {
    DivTimes(y, n * SS);
    Scale(x / (n * SS), y / (n * SS), n * SS);
  }

  lemma DivTimes(x: nat, m: nat)
    requires m > 0
    ensures x / m * m <= x
  {
    assert x == x / m * m + x % m;
  }

  // Moving on by one cluster from a cluster boundary.
  lemma NextBoundary(p: nat, n: nat)
    requires n > 0 && p % SS == 0 && p / SS % n == 0
    ensures var q := p + n * SS; q % SS == 0 && q / SS % n == 0 && q / SS / n == p / SS / n + 1
  {
    var k := p / SS;
    assert k == k / n * n;
    assert (p + n * SS) / SS == k + n;
    assert (k / n + 1) * n == k / n * n + n;
    DivModUnique(k + n, n, k / n + 1, 0);
  }

  // Moving on by o bytes, at most a cluster, from a cluster boundary.
  lemma BoundaryPlus(p: nat, o: nat, n: nat)
    requires n > 0 && p % SS == 0 && p / SS % n == 0 && 0 < o <= n * SS
    ensures (p + o - 1) / SS / n == p / SS / n && (p + o) % SS == o % SS
    ensures o % SS != 0 ==>
              && (p + o) / SS == p / SS + o / SS && o / SS < n
              && (p + o) / SS % n == o / SS && (p + o) / SS / n == p / SS / n
  {
    PositionAfter(p, o, n);
    WholeSectors(p, o);
    if o % SS != 0 {
      assert o / SS < n;
      SameGroup(p / SS, p / SS + o / SS, n);
    }
  }

  lemma WholeSectors(p: nat, o: nat)
    requires p % SS == 0
    ensures (p + o) / SS == p / SS + o / SS && (p + o) % SS == o % SS
  {
  }

  // Two growing changes of a file make one.
  lemma GrowsTwice(g: Geometry, v0: Glance, f0: seq<nat>, c0: seq<nat>, v1: Glance, f1: seq<nat>, c1: seq<nat>,
                   v2: Glance, f2: seq<nat>, c2: seq<nat>)
    requires ClusterSize(g.csize) && (c1 != [] ==> Chains.IsChain(f1, c1))
    requires Chains.Grown(f0, c0, f1, c1) && Kept(g, c1, v0, v1)
    requires Chains.Grown(f1, c1, f2, c2) && Kept(g, c2, v1, v2)
    ensures Chains.Grown(f0, c0, f2, c2) && Kept(g, c2, v0, v2)
  {
    Chains.GrownPrefix(f1, c1, f2, c2);
    SameElsewhereGrows(g, c1, c2, v0.view, v1.view);
    SameElsewhereTwice(g, c2, v0.view, v1.view, v2.view);
    Chains.GrownTwice(f0, c0, f1, c1, f2, c2);
  }

  // A chain with room for more than a cluster behind a boundary has a next cluster.
  lemma RoomBehind(g: Geometry, ch: seq<nat>, p: nat)
    requires g.csize > 0 && p % SS == 0 && p / SS % g.csize == 0 && p + g.csize * SS < Capacity(g, ch)
    ensures p / SS / g.csize + 1 < |ch|
  {
    NextBoundary(p, g.csize);
    BoundaryIndex(g, ch, p + g.csize * SS);
  }

  // Landing rest bytes behind the boundary p inside the chain.
  lemma LandCapacity(g: Geometry, ch: seq<nat>, p: nat, rest: nat)
    requires g.csize > 0 && p % SS == 0 && p / SS % g.csize == 0 && p / SS / g.csize < |ch|
    requires 0 < rest <= g.csize * SS
    ensures p + rest <= Capacity(g, ch)
    ensures rest % SS != 0 ==> (p + rest) / SS < SectorCount(g, ch)
    ensures |ch| == p / SS / g.csize + 1 ==>
      Capacity(g, ch[..|ch| - 1]) == p && (rest == g.csize * SS ==> p + rest == Capacity(g, ch))
  {
    var n := g.csize;
    var j := p / SS / n;
    assert p / SS == j * n;
    Gap(j, |ch|, n);
    assert |ch| == j + 1 ==> |ch| * n == j * n + n;
    assert |ch| == j + 1 ==> |ch[..|ch| - 1]| == j;
  }

  lemma EmptyCapacity(g: Geometry)
    ensures Capacity(g, []) == 0
  {
  }
}
