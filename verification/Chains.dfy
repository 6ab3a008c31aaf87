// Cluster chains over an allocation table given as a sequence of entry values.
// Entries 0 and 1 are reserved, 0 means free, and a value past the table ends a chain.
module Chains {

  predicate InTable(f: seq<nat>, c: int) {
    2 <= c < |f|
  }

  // ch is the list of clusters from its first one to the end mark.
  ghost predicate IsChain(f: seq<nat>, ch: seq<nat>) {
    && ch != []
    && (forall i | 0 <= i < |ch| :: InTable(f, ch[i]))
    && (forall i | 0 <= i < |ch| - 1 :: f[ch[i]] == ch[i + 1])
    && f[ch[|ch| - 1]] >= |f|
  }

  // A chain visits no cluster twice.
  lemma {:induction false} ChainIsAcyclic(f: seq<nat>, ch: seq<nat>, i: nat, j: nat)
    requires IsChain(f, ch) && i < j < |ch|
    ensures ch[i] != ch[j]
    decreases |ch| - j
  {
    if j + 1 < |ch| {
      ChainIsAcyclic(f, ch, i + 1, j + 1);
    } else {
      assert f[ch[i]] == ch[i + 1];
      assert InTable(f, ch[i + 1]);
    }
  }

  // Chains depend on their own entries only.
  lemma ChainFrame(f: seq<nat>, f': seq<nat>, ch: seq<nat>)
    requires IsChain(f, ch) && |f'| == |f|
    requires forall i | 0 <= i < |ch| :: f'[ch[i]] == f[ch[i]]
    ensures IsChain(f', ch)
  {
    assert forall i | 0 <= i < |ch| - 1 :: f'[ch[i]] == f[ch[i]];
    assert f'[ch[|ch| - 1]] == f[ch[|ch| - 1]];
  }

  // Two chains that meet in a cluster are equal from there on.
  lemma {:induction false} ChainsMerge(f: seq<nat>, a: seq<nat>, b: seq<nat>, i: nat, j: nat)
    requires IsChain(f, a) && IsChain(f, b) && i < |a| && j < |b| && a[i] == b[j]
    ensures a[i..] == b[j..]
    decreases |a| - i
  {
    assert f[a[|a| - 1]] >= |f| && f[b[|b| - 1]] >= |f|;
    if i + 1 < |a| {
      assert f[a[i]] == a[i + 1] && InTable(f, a[i + 1]);
      assert j + 1 < |b|;
      assert f[b[j]] == b[j + 1];
      ChainsMerge(f, a, b, i + 1, j + 1);
      assert a[i..] == [a[i]] + a[i + 1..];
      assert b[j..] == [b[j]] + b[j + 1..];
    } else {
      assert j + 1 < |b| ==> f[b[j]] == b[j + 1] && InTable(f, b[j + 1]);
      assert a[i..] == [a[i]] && b[j..] == [b[j]];
    }
  }

  // A cluster of a chain is allocated and links to the chain or ends it.
  lemma ChainMember(f: seq<nat>, ch: seq<nat>, c: nat)
    requires IsChain(f, ch) && c in ch
    ensures InTable(f, c) && f[c] >= 2
  {
    var i :| 0 <= i < |ch| && ch[i] == c;
    assert i < |ch| - 1 ==> f[ch[i]] == ch[i + 1] && InTable(f, ch[i + 1]);
  }

  // ---- The volume as a set of chains ----

  ghost predicate Disjoint(a: seq<nat>, b: seq<nat>) {
    forall c :: !(c in a && c in b)
  }

  // The allocated clusters are exactly the clusters of the chains of S, no two of which share one.
  ghost predicate Partition(f: seq<nat>, S: set<seq<nat>>) {
    && (forall ch | ch in S :: IsChain(f, ch))
    && (forall a, b | a in S && b in S && a != b :: Disjoint(a, b))
    && (forall c | InTable(f, c) && f[c] != 0 :: exists ch | ch in S :: c in ch)
  }

  // The table after create_chain allocated n: a chain of its own (c == 0) or behind cluster c.
  function Stretched(f: seq<nat>, c: nat, n: nat, mark: nat): seq<nat>
    requires InTable(f, n) && (c == 0 || InTable(f, c))
  {
    if c == 0 then f[n := mark] else f[n := mark][c := n]
  }

  // The table after a new cluster n was allocated behind chain ch (ch == []: a new chain) still
  // partitions; exactly one chain changed, by one previously free cluster at its end.
  lemma StretchedPartition(f: seq<nat>, S: set<seq<nat>>, ch: seq<nat>, n: nat, mark: nat)
    requires Partition(f, S) && (ch == [] || ch in S)
    requires InTable(f, n) && f[n] == 0 && mark >= |f|
    requires ch != [] ==> IsChain(f, ch)
    ensures Partition(Stretched(f, if ch == [] then 0 else ch[|ch| - 1], n, mark), S - {ch} + {ch + [n]})
  {
    var last := if ch == [] then 0 else ch[|ch| - 1];
    var f' := Stretched(f, last, n, mark);
    var S' := S - {ch} + {ch + [n]};
    forall a | a in S ensures n !in a {
      if n in a {
        ChainMember(f, a, n);
      }
    }
    StretchedChain(f, ch, n, mark);
    forall a | a in S - {ch} ensures IsChain(f', a) && Disjoint(a, ch + [n]) {
      StretchedOther(f, a, ch, n, mark);
    }
    forall c | InTable(f', c) && f'[c] != 0 ensures exists a | a in S' :: c in a {
      StretchedCovers(f, S, ch, n, mark, c);
    }
    Replaced(f, f', S, ch, ch + [n]);
  }

  // One chain of a partition replaced by another that the rest do not touch.
  lemma Replaced(f: seq<nat>, f': seq<nat>, S: set<seq<nat>>, ch: seq<nat>, ch': seq<nat>)
    requires Partition(f, S) && IsChain(f', ch')
    requires forall a | a in S - {ch} :: IsChain(f', a) && Disjoint(a, ch')
    requires forall c | InTable(f', c) && f'[c] != 0 :: exists a | a in S - {ch} + {ch'} :: c in a
    ensures Partition(f', S - {ch} + {ch'})
  {
    hide IsChain;
  }

  lemma StretchedCovers(f: seq<nat>, S: set<seq<nat>>, ch: seq<nat>, n: nat, mark: nat, c: nat)
    requires Partition(f, S) && (ch == [] || ch in S)
    requires InTable(f, n) && f[n] == 0
    requires ch != [] ==> InTable(f, ch[|ch| - 1])
    requires InTable(f, c) && Stretched(f, if ch == [] then 0 else ch[|ch| - 1], n, mark)[c] != 0
    ensures exists a | a in S - {ch} + {ch + [n]} :: c in a
  {
    if c == n || c in ch {
      assert c in ch + [n];
    } else {
      assert f[c] != 0;
      var a :| a in S && c in a;
      assert a in S - {ch};
    }
  }

  // A chain other than ch does not notice the new cluster.
  lemma StretchedOther(f: seq<nat>, a: seq<nat>, ch: seq<nat>, n: nat, mark: nat)
    requires IsChain(f, a) && (ch == [] || IsChain(f, ch)) && Disjoint(a, ch)
    requires InTable(f, n) && f[n] == 0 && n !in a
    ensures IsChain(Stretched(f, if ch == [] then 0 else ch[|ch| - 1], n, mark), a) && Disjoint(a, ch + [n])
  {
    var f' := Stretched(f, if ch == [] then 0 else ch[|ch| - 1], n, mark);
    forall i | 0 <= i < |a| ensures f'[a[i]] == f[a[i]] {
      assert a[i] in a;
      assert ch != [] ==> ch[|ch| - 1] in ch;
    }
    ChainFrame(f, f', a);
  }

  lemma StretchedChain(f: seq<nat>, ch: seq<nat>, n: nat, mark: nat)
    requires ch == [] || IsChain(f, ch)
    requires InTable(f, n) && f[n] == 0 && mark >= |f|
    ensures IsChain(Stretched(f, if ch == [] then 0 else ch[|ch| - 1], n, mark), ch + [n])
  {
    var last := if ch == [] then 0 else ch[|ch| - 1];
    var f' := Stretched(f, last, n, mark);
    var ch' := ch + [n];
    forall i | 0 <= i < |ch| ensures ch[i] != n {
      ChainMember(f, ch, ch[i]);
    }
    forall i | 0 <= i < |ch'| - 1 ensures f'[ch'[i]] == ch'[i + 1] {
      if i + 1 < |ch| {
        ChainIsAcyclic(f, ch, i, |ch| - 1);
        assert f[ch[i]] == ch[i + 1];
      }
    }
  }

  // ---- Removing a chain ----

  // Number of free entries from lo on.
  function FreeFrom(f: seq<nat>, lo: nat): (n: nat)
    requires lo <= |f|
    ensures n <= |f| - lo
    decreases |f| - lo
  {
    if lo == |f| then 0 else (if f[lo] == 0 then 1 else 0) + FreeFrom(f, lo + 1)
  }

  lemma FreeFromStep(f: seq<nat>, c: nat)
    requires c < |f|
    ensures FreeFrom(f, c) == FreeFrom(f, c + 1) + (if f[c] == 0 then 1 else 0)
  {
  }

  lemma FreeFromEnd(f: seq<nat>)
    ensures FreeFrom(f, |f|) == 0
  {
  }

  function FreeCount(f: seq<nat>): (n: nat)
    ensures n <= |f|
  {
    if |f| < 2 then 0 else FreeFrom(f, 2)
  }

  lemma {:induction false} FreeFromUpdate(f: seq<nat>, lo: nat, c: nat, v: nat)
    requires lo <= |f| && c < |f|
    ensures FreeFrom(f[c := v], lo) == FreeFrom(f, lo)
              + (if lo <= c && v == 0 then 1 else 0) - (if lo <= c && f[c] == 0 then 1 else 0)
    decreases |f| - lo
  {
    if lo < |f| {
      FreeFromUpdate(f, lo + 1, c, v);
    }
  }

  lemma FreeCountUpdate(f: seq<nat>, c: nat, v: nat)
    requires InTable(f, c)
    ensures FreeCount(f[c := v]) == FreeCount(f) + (if v == 0 then 1 else 0) - (if f[c] == 0 then 1 else 0)
  {
    FreeFromUpdate(f, 2, c, v);
  }

  // The walk of remove_chain over an arbitrary table, cyclic ones included: it ends because
  // every step frees an entry.
  function Removed(f: seq<nat>, c: nat): (r: seq<nat>)
    requires c >= 2
    ensures |r| == |f|
    decreases |f| - FreeCount(f)
  {
    if c >= |f| || f[c] < 2 then f
    else
      FreeCountUpdate(f, c, 0);
      Removed(f[c := 0], f[c])
  }

  // Whether the walk ends properly: not at an entry of the reserved value 1.
  function RemovedOk(f: seq<nat>, c: nat): bool
    requires c >= 2
    decreases |f| - FreeCount(f)
  {
    if c >= |f| then true
    else if f[c] < 2 then f[c] == 0
    else
      FreeCountUpdate(f, c, 0);
      RemovedOk(f[c := 0], f[c])
  }

  lemma RemovedStep(f: seq<nat>, c: nat)
    requires c >= 2
    ensures c >= |f| || f[c] < 2 ==> Removed(f, c) == f && RemovedOk(f, c) == (c >= |f| || f[c] == 0)
    ensures c < |f| && f[c] >= 2 ==>
      && Removed(f, c) == Removed(f[c := 0], f[c])
      && RemovedOk(f, c) == RemovedOk(f[c := 0], f[c])
      && FreeCount(f[c := 0]) == FreeCount(f) + 1 <= |f|
  {
    if c < |f| {
      FreeCountUpdate(f, c, 0);
    }
  }

  // Removing a chain by its first cluster frees exactly the clusters of the chain.
  lemma {:induction false} RemovedChain(f: seq<nat>, ch: seq<nat>)
    requires IsChain(f, ch)
    ensures RemovedOk(f, ch[0])
    ensures forall c | 0 <= c < |f| :: Removed(f, ch[0])[c] == if c in ch then 0 else f[c]
    decreases |ch|
  {
    var c0 := ch[0];
    assert InTable(f, c0);
    var g := f[c0 := 0];
    FreeCountUpdate(f, c0, 0);
    if |ch| == 1 {
      assert f[c0] >= |f|;
      assert Removed(g, f[c0]) == g;
      assert ch == [c0];
    } else {
      var tl := ch[1..];
      assert f[c0] == ch[1] && InTable(f, ch[1]);
      forall i | 0 <= i < |tl| ensures g[tl[i]] == f[tl[i]] {
        ChainIsAcyclic(f, ch, 0, i + 1);
      }
      TailChain(f, ch);
      ChainFrame(f, g, tl);
      RemovedChain(g, tl);
      assert forall c :: c in ch <==> c == c0 || c in tl;
    }
  }

  lemma TailChain(f: seq<nat>, ch: seq<nat>)
    requires IsChain(f, ch) && |ch| > 1
    ensures IsChain(f, ch[1..])
  {
    var tl := ch[1..];
    forall i | 0 <= i < |tl| - 1 ensures f[tl[i]] == tl[i + 1] {
      assert f[ch[i + 1]] == ch[i + 2];
    }
  }

  lemma RemovedPartition(f: seq<nat>, S: set<seq<nat>>, ch: seq<nat>)
    requires Partition(f, S) && ch in S
    ensures IsChain(f, ch) && ch[0] >= 2 && Partition(Removed(f, ch[0]), S - {ch})
  {
    assert InTable(f, ch[0]);
    var f' := Removed(f, ch[0]);
    RemovedChain(f, ch);
    forall a | a in S - {ch} ensures IsChain(f', a) {
      assert Disjoint(a, ch);
      forall i | 0 <= i < |a| ensures f'[a[i]] == f[a[i]] {
        assert a[i] in a;
      }
      ChainFrame(f, f', a);
    }
    forall c | InTable(f', c) && f'[c] != 0 ensures exists a | a in S - {ch} :: c in a {
      assert c !in ch && f[c] != 0;
      var a :| a in S && c in a;
      assert a in S - {ch};
    }
  }

  // ---- The allocator's scan ----

  // d is visited by a cyclic scan that starts behind scl and ends at n.
  predicate Before(scl: nat, n: nat, d: nat) {
    if scl < n then scl < d < n else d > scl || d < n
  }

  // n is the next free cluster behind scl.
  ghost predicate NextFree(f: seq<nat>, scl: nat, n: nat) {
    InTable(f, n) && f[n] == 0 && forall d | InTable(f, d) && Before(scl, n, d) :: f[d] >= 2
  }

  // The scan met a reserved value before any free cluster.
  ghost predicate MeetsReserved(f: seq<nat>, scl: nat) {
    exists n :: InTable(f, n) && f[n] == 1 && forall d | InTable(f, d) && Before(scl, n, d) :: f[d] >= 2
  }

  // What the scan from scl returns: the next free cluster, 1 at a reserved value, 0 when all
  // clusters are in use.
  ghost predicate ScanResult(f: seq<nat>, scl: nat, r: nat) {
    if r == 0 then Full(f)
    else if r == 1 then MeetsReserved(f, scl)
    else NextFree(f, scl, r)
  }

  // All clusters from behind scl up to n are in use; a cluster number below 2 is not part of the table.
  ghost predicate InUse(f: seq<nat>, scl: nat, n: nat, wrapped: bool) {
    forall d | InTable(f, d) && (if wrapped then d > scl || d <= n else scl < d <= n) :: f[d] >= 2
  }

  lemma InUseStart(f: seq<nat>, scl: nat)
    ensures InUse(f, scl, scl, false)
  {
  }

  // The next cluster of the scan and whether it wrapped around; None at the second end.
  function ScanNext(size: nat, scl: nat, n: nat): nat {
    if n + 1 >= size then 2 else n + 1
  }

  lemma InUseStep(f: seq<nat>, scl: nat, n: nat, wrapped: bool)
    requires InUse(f, scl, n, wrapped) && scl < |f|
    requires if wrapped then n < scl else scl <= n < |f|
    ensures n + 1 >= |f| && 2 > scl ==> Full(f)
    ensures var n' := ScanNext(|f|, scl, n);
            var wrapped' := wrapped || n + 1 >= |f|;
            && (forall d | InTable(f, d) && Before(scl, n', d) && (wrapped' ==> n' <= scl) :: f[d] >= 2)
            && (InTable(f, n') && f[n'] >= 2 && (wrapped' ==> n' <= scl) ==>
                  InUse(f, scl, n', wrapped') && (n' == scl ==> Full(f)))
  {
  }

  ghost predicate Full(f: seq<nat>) {
    forall d | InTable(f, d) :: f[d] >= 2
  }

  ghost predicate HasReserved(f: seq<nat>) {
    exists c :: InTable(f, c) && f[c] == 1
  }

  // No reserved value occurs in a partitioned table, so the scan fails only on a full volume.
  lemma PartitionHasNoReserved(f: seq<nat>, S: set<seq<nat>>, scl: nat)
    requires Partition(f, S)
    ensures !MeetsReserved(f, scl)
  {
    forall c | InTable(f, c) ensures f[c] != 1 {
      if f[c] == 1 {
        var ch :| ch in S && c in ch;
        ChainMember(f, ch, c);
      }
    }
  }

  // The link of cluster j - 1 of a chain: cluster j, or the end mark behind the last one.
  lemma ChainLink(f: seq<nat>, ch: seq<nat>, j: nat)
    requires IsChain(f, ch) && 0 < j <= |ch|
    ensures InTable(f, ch[j - 1])
    ensures j < |ch| ==> f[ch[j - 1]] == ch[j] && InTable(f, ch[j])
    ensures j == |ch| ==> f[ch[j - 1]] >= |f|
  {
    assert j < |ch| ==> f[ch[j - 1]] == ch[j];
  }

  // What a scan's result means for the chain that asked for a cluster.
  lemma ScanMeans(f: seq<nat>, scl: nat, r: nat, ch: seq<nat>, mark: nat)
    requires ScanResult(f, scl, r) && (ch != [] ==> IsChain(f, ch)) && mark >= |f|
    ensures r == 0 ==> Full(f)
    ensures r == 1 ==> HasReserved(f)
    ensures r >= 2 ==>
      var c := if ch == [] then 0 else ch[|ch| - 1];
      && InTable(f, r) && f[r] == 0 && (c != 0 ==> InTable(f, c))
      && IsChain(Stretched(f, c, r, mark), ch + [r])
      && Grown(f, ch, Stretched(f, c, r, mark), ch + [r])
      && Stretched(f, c, r, mark) != f
  {
    if r >= 2 {
      if ch != [] {
        ChainLink(f, ch, |ch|);
      }
      StretchedChain(f, ch, r, mark);
      GrownOnce(f, ch, r, mark);
      var f' := Stretched(f, if ch == [] then 0 else ch[|ch| - 1], r, mark);
      assert f'[r] != f[r];
    }
  }

  // No entry is counted exactly if no entry is zero.
  lemma {:induction false} NoneFree(f: seq<nat>, lo: nat)
    requires lo <= |f|
    ensures FreeFrom(f, lo) == 0 <==> forall c | lo <= c < |f| :: f[c] != 0
    decreases |f| - lo
  {
    if lo < |f| {
      NoneFree(f, lo + 1);
    }
  }

  // On a table of chains the scan returns 0 exactly if no cluster is free, and else a free one.
  lemma ScanIsComplete(f: seq<nat>, S: set<seq<nat>>, scl: nat, r: nat)
    requires Partition(f, S) && ScanResult(f, scl, r) && |f| >= 2
    ensures r == 0 <==> forall c | InTable(f, c) :: f[c] != 0
    ensures r == 0 <==> FreeCount(f) == 0
    ensures r != 0 ==> InTable(f, r) && f[r] == 0
  {
    PartitionHasNoReserved(f, S, scl);
    forall c | InTable(f, c) && f[c] != 0 ensures f[c] >= 2 {
      var ch :| ch in S && c in ch;
      ChainMember(f, ch, c);
    }
    NoneFree(f, 2);
  }

  // ---- Counting free clusters ----

  // What a count by cluster comes to from entry lo on: it ends at the first reserved value 1.
  function CountedFrom(f: seq<nat>, lo: nat): (n: nat)
    requires lo <= |f|
    ensures n <= FreeFrom(f, lo)
    decreases |f| - lo
  {
    if lo == |f| || f[lo] == 1 then 0 else (if f[lo] == 0 then 1 else 0) + CountedFrom(f, lo + 1)
  }

  // A free cluster that such a count does not come to.
  ghost predicate FreeBehindReserved(f: seq<nat>, lo: nat) {
    exists i, j :: lo <= i < j < |f| && f[i] == 1 && f[j] == 0
  }

  // The count by cluster is the number of free ones if and only if none of them lies behind a reserved value.
  lemma {:induction false} CountByClusterIsRight(f: seq<nat>, lo: nat)
    requires lo <= |f|
    ensures CountedFrom(f, lo) == FreeFrom(f, lo) <==> !FreeBehindReserved(f, lo)
    decreases |f| - lo
  {
    if lo < |f| {
      if f[lo] == 1 {
        NoneFree(f, lo + 1);
      } else {
        CountByClusterIsRight(f, lo + 1);
        assert forall i, j | lo <= i < j < |f| && f[i] == 1 && f[j] == 0 :: lo + 1 <= i;
      }
    }
  }

  // On a table of chains it always is.
  lemma PartitionIsCounted(f: seq<nat>, S: set<seq<nat>>)
    requires Partition(f, S) && |f| >= 2
    ensures !HasReserved(f) && CountedFrom(f, 2) == FreeCount(f)
  {
    forall c | InTable(f, c) ensures f[c] != 1 {
      if f[c] == 1 {
        var ch :| ch in S && c in ch;
        ChainMember(f, ch, c);
      }
    }
    CountByClusterIsRight(f, 2);
  }

  // A table with a free cluster that is not counted.
  lemma ReservedHidesFree()
    ensures var f := [0xFF8, 0xFFF, 1, 0];
            CountedFrom(f, 2) == 0 && FreeCount(f) == 1 && FreeBehindReserved(f, 2)
  {
    var f: seq<nat> := [0xFF8, 0xFFF, 1, 0];
    assert FreeFrom(f, 4) == 0 && FreeFrom(f, 3) == 1;
    assert f[2] == 1 && f[3] == 0;
  }

  // Counting from the start of the table gives the free clusters exactly if the reserved entries are not zero.
  lemma CountFromStart(f: seq<nat>)
    requires |f| >= 2
    ensures FreeFrom(f, 0) == FreeCount(f) <==> f[0] != 0 && f[1] != 0
  {
    FreeFromStep(f, 0);
    FreeFromStep(f, 1);
  }

  // ---- A chain that grows at its end ----

  // From table f and chain ch to f' and ch': clusters that were free were appended, and no entry
  // outside the grown chain changed.
  ghost predicate Grown(f: seq<nat>, ch: seq<nat>, f': seq<nat>, ch': seq<nat>) {
    && |f'| == |f| && ch <= ch'
    && (forall i | |ch| <= i < |ch'| :: InTable(f, ch'[i]) && f[ch'[i]] == 0)
    && (forall c | InTable(f, c) && c !in ch' :: f'[c] == f[c])
  }

  lemma GrownPrefix(f: seq<nat>, ch: seq<nat>, f': seq<nat>, ch': seq<nat>)
    requires Grown(f, ch, f', ch')
    ensures ch <= ch'
  {
  }

  lemma GrownLength(f: seq<nat>, ch: seq<nat>, f': seq<nat>, ch': seq<nat>)
    requires Grown(f, ch, f', ch')
    ensures |ch| == |ch'| ==> ch == ch'
  {
  }

  lemma GrownSelf(f: seq<nat>, ch: seq<nat>)
    ensures Grown(f, ch, f, ch)
  {
  }

  lemma GrownOnce(f: seq<nat>, ch: seq<nat>, n: nat, mark: nat)
    requires InTable(f, n) && f[n] == 0 && (ch != [] ==> IsChain(f, ch))
    ensures Grown(f, ch, Stretched(f, if ch == [] then 0 else ch[|ch| - 1], n, mark), ch + [n])
  {
  }

  lemma PrefixMembers(a: seq<nat>, b: seq<nat>)
    requires a <= b
    ensures forall c | c in a :: c in b
  {
    forall c | c in a ensures c in b {
      var i :| 0 <= i < |a| && a[i] == c;
      assert b[i] == c;
    }
  }

  lemma {:induction false} SameFree(f: seq<nat>, g: seq<nat>, lo: nat)
    requires lo <= |f| == |g| && forall c | lo <= c < |f| :: f[c] == 0 <==> g[c] == 0
    ensures FreeFrom(f, lo) == FreeFrom(g, lo)
    decreases |f| - lo
  {
    if lo < |f| {
      SameFree(f, g, lo + 1);
    }
  }

  // The table with other clusters in use.
  function Taken(f: seq<nat>, cs: seq<nat>): (g: seq<nat>)
    requires forall i | 0 <= i < |cs| :: cs[i] < |f|
    ensures |g| == |f| && forall c | 0 <= c < |f| :: g[c] == if c in cs then 2 else f[c]
  {
    if cs == [] then f else Taken(f, cs[..|cs| - 1])[cs[|cs| - 1] := 2]
  }

  // Each free cluster that is taken into use is one free cluster less.
  lemma {:induction false} TakenCount(f: seq<nat>, cs: seq<nat>)
    requires forall i | 0 <= i < |cs| :: 2 <= cs[i] < |f| && f[cs[i]] == 0
    requires forall i, j | 0 <= i < j < |cs| :: cs[i] != cs[j]
    ensures FreeCount(Taken(f, cs)) + |cs| == FreeCount(f)
    decreases |cs|
  {
    if cs != [] {
      var n := |cs| - 1;
      TakenCount(f, cs[..n]);
      FreeCountUpdate(Taken(f, cs[..n]), cs[n], 2);
    }
  }

  // A chain pays for its new clusters with free ones.
  lemma GrownFree(f: seq<nat>, ch: seq<nat>, f': seq<nat>, ch': seq<nat>)
    requires Grown(f, ch, f', ch') && |f| >= 2
    requires (ch != [] ==> IsChain(f, ch)) && (ch' != [] ==> IsChain(f', ch'))
    ensures FreeCount(f') + |ch'| == FreeCount(f) + |ch|
  {
    var cs := ch'[|ch|..];
    NewClusters(f, ch, f', ch');
    hide IsChain, Grown;
    TakenCount(f, cs);
    forall c | 2 <= c < |f| ensures f'[c] == 0 <==> Taken(f, cs)[c] == 0 {
      GrownZero(f, ch, f', ch', c);
    }
    SameFree(f', Taken(f, cs), 2);
  }

  lemma NewClusters(f: seq<nat>, ch: seq<nat>, f': seq<nat>, ch': seq<nat>)
    requires Grown(f, ch, f', ch') && (ch' != [] ==> IsChain(f', ch'))
    ensures |ch| <= |ch'| && |f'| == |f|
    ensures forall i | 0 <= i < |ch'| - |ch| :: 2 <= ch'[|ch|..][i] < |f| && f[ch'[|ch|..][i]] == 0
    ensures forall i, j | 0 <= i < j < |ch'| - |ch| :: ch'[|ch|..][i] != ch'[|ch|..][j]
  {
    forall i | 0 <= i < |ch'| - |ch| ensures 2 <= ch'[|ch|..][i] < |f| && f[ch'[|ch|..][i]] == 0 {
      assert ch'[|ch|..][i] == ch'[|ch| + i];
    }
    forall i, j | 0 <= i < j < |ch'| - |ch| ensures ch'[|ch|..][i] != ch'[|ch|..][j] {
      ChainIsAcyclic(f', ch', |ch| + i, |ch| + j);
    }
  }

  lemma GrownZero(f: seq<nat>, ch: seq<nat>, f': seq<nat>, ch': seq<nat>, c: nat)
    requires Grown(f, ch, f', ch') && InTable(f, c)
    requires (ch != [] ==> IsChain(f, ch)) && (ch' != [] ==> IsChain(f', ch'))
    ensures f'[c] == 0 <==> c !in ch'[|ch|..] && f[c] == 0
  {
    if c in ch' {
      ChainMember(f', ch', c);
      var i :| 0 <= i < |ch'| && ch'[i] == c;
      if i < |ch| {
        assert ch[i] == c;
        ChainMember(f, ch, c);
      } else {
        assert ch'[|ch|..][i - |ch|] == c;
      }
    }
  }

  // Removing a chain gives its clusters back.
  lemma RemovedFree(f: seq<nat>, ch: seq<nat>)
    requires IsChain(f, ch) && ch[0] >= 2 && |f| >= 2
    ensures FreeCount(Removed(f, ch[0])) == FreeCount(f) + |ch|
  {
    var g := Removed(f, ch[0]);
    RemovedChain(f, ch);
    forall i | 0 <= i < |ch| ensures 2 <= ch[i] < |g| && g[ch[i]] == 0 {
      assert InTable(f, ch[i]);
    }
    forall i, j | 0 <= i < j < |ch| ensures ch[i] != ch[j] {
      ChainIsAcyclic(f, ch, i, j);
    }
    TakenCount(g, ch);
    forall c | 2 <= c < |f| ensures f[c] == 0 <==> Taken(g, ch)[c] == 0 {
      if c in ch {
        ChainMember(f, ch, c);
      }
    }
    SameFree(f, Taken(g, ch), 2);
  }

  // An allocation takes one free cluster.
  lemma StretchedFree(f: seq<nat>, c: nat, n: nat, mark: nat)
    requires InTable(f, n) && f[n] == 0 && mark > 0 && (c == 0 || (InTable(f, c) && f[c] != 0))
    ensures FreeCount(Stretched(f, c, n, mark)) + 1 == FreeCount(f)
  {
    hide FreeCount;
    FreeCountUpdate(f, n, mark);
    if c != 0 {
      FreeCountUpdate(f[n := mark], c, n);
    }
  }

  // Growing does not bring a reserved value into the table.
  lemma GrownNotReserved(f: seq<nat>, ch: seq<nat>, f': seq<nat>, ch': seq<nat>)
    requires Grown(f, ch, f', ch') && (ch' != [] ==> IsChain(f', ch')) && HasReserved(f')
    ensures HasReserved(f)
  {
    var c :| InTable(f', c) && f'[c] == 1;
    if c in ch' {
      ChainMember(f', ch', c);
    } else {
      assert InTable(f, c) && f[c] == 1;
    }
  }

  // A chain that shares no cluster with the one that grows stays what it is, and shares none afterwards.
  lemma GrownOther(f: seq<nat>, ch: seq<nat>, f': seq<nat>, ch': seq<nat>, other: seq<nat>)
    requires Grown(f, ch, f', ch') && Disjoint(ch, other) && (other != [] ==> IsChain(f, other))
    ensures Disjoint(ch', other) && (other != [] ==> IsChain(f', other))
  {
    if other != [] {
      forall c | c in ch' ensures c !in other {
        var i :| 0 <= i < |ch'| && ch'[i] == c;
        if i < |ch| {
          assert ch[i] == c;
        } else if c in other {
          ChainMember(f, other, c);
        }
      }
      forall i | 0 <= i < |other| ensures f'[other[i]] == f[other[i]] {
        assert other[i] in other;
      }
      ChainFrame(f, f', other);
    }
  }

  lemma GrownTwice(f: seq<nat>, ch: seq<nat>, f1: seq<nat>, ch1: seq<nat>, f2: seq<nat>, ch2: seq<nat>)
    requires Grown(f, ch, f1, ch1) && Grown(f1, ch1, f2, ch2) && (ch1 != [] ==> IsChain(f1, ch1))
    ensures Grown(f, ch, f2, ch2)
  {
    forall i | |ch| <= i < |ch2| ensures InTable(f, ch2[i]) && f[ch2[i]] == 0 {
      if i < |ch1| {
        assert ch2[i] == ch1[i];
      } else {
        if ch2[i] in ch1 {
          ChainMember(f1, ch1, ch2[i]);
        }
      }
    }
    forall c | InTable(f, c) && c !in ch2 ensures f2[c] == f[c] {
      PrefixMembers(ch1, ch2);
    }
  }
}
