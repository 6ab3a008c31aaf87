// Runs of allocations and removals by many owners of cluster chains.
module Allocation {
  import opened Bytes
  import FatTable
  import opened Chains
  import opened Volume

  // From table f to f' cluster r, which was free, was taken into use.
  ghost predicate Spent(f: seq<nat>, f': seq<nat>, r: int) {
    r >= 0 && InTable(f, r) && f[r] == 0 && |f'| == |f| && FreeCount(f') + 1 == FreeCount(f)
  }

  // A new chain of one cluster; 0 if no cluster is free.
  method NewChain(fs: FatFs, ghost S: set<seq<nat>>) returns (r: int, ghost S': set<seq<nat>>)
    requires fs.Valid() && Partition(fs.fat, S)
    modifies fs`disk, fs`winsect, fs`wflag, fs`view, fs`fat, fs`lastClust, fs`freeClust, fs.win
    ensures fs.Valid() && Partition(fs.fat, S') && |fs.disk| == |old(fs.disk)|
    ensures old(fs.Mirrored()) ==> fs.Mirrored()
    ensures CountKept(old(fs.fat), old(fs.freeClust), fs.fat, fs.freeClust)
    ensures r == 0 <==> FreeCount(old(fs.fat)) == 0
    ensures r == 0 ==> fs.fat == old(fs.fat) && S' == S
    ensures r != 0 ==> Spent(old(fs.fat), fs.fat, r) && S' == S + {[r]} && [r] !in S
  {
    hide FatFs.Valid, Partition, ScanResult, FreeCount, Spent;
    fs.TableBounds();
    ghost var f := fs.fat;
    r := fs.CreateChain(0);
    ScanOfPartition(f, S, old(fs.ScanStart(0)), r, [], FatTable.Trunc(fs.g.fatType, FatTable.END_MARK));
    S' := if r == 0 then S else S + {[r]};
  }

  // One cluster more at the end of chain ch; 0 if no cluster is free.
  method GrowChain(fs: FatFs, last: Dword, ghost S: set<seq<nat>>, ghost ch: seq<nat>)
    returns (r: int, ghost S': set<seq<nat>>)
    requires fs.Valid() && Partition(fs.fat, S) && ch in S && ch != [] && last == ch[|ch| - 1]
    modifies fs`disk, fs`winsect, fs`wflag, fs`view, fs`fat, fs`lastClust, fs`freeClust, fs.win
    ensures fs.Valid() && Partition(fs.fat, S') && |fs.disk| == |old(fs.disk)|
    ensures old(fs.Mirrored()) ==> fs.Mirrored()
    ensures CountKept(old(fs.fat), old(fs.freeClust), fs.fat, fs.freeClust)
    ensures r == 0 <==> FreeCount(old(fs.fat)) == 0
    ensures r == 0 ==> fs.fat == old(fs.fat) && S' == S
    ensures r != 0 ==> Spent(old(fs.fat), fs.fat, r) && S' == S - {ch} + {ch + [r]} && ch + [r] !in S - {ch}
  {
    hide FatFs.Valid, Partition, ScanResult, FreeCount, Spent;
    fs.TableBounds();
    ghost var f := fs.fat;
    MemberIsChain(f, S, ch);
    ChainLink(f, ch, |ch|);
    r := fs.CreateChain(last);
    ScanOfPartition(f, S, old(fs.ScanStart(last)), r, ch, FatTable.Trunc(fs.g.fatType, FatTable.END_MARK));
    S' := if r == 0 then S else S - {ch} + {ch + [r]};
  }

  // The chain that starts with cluster first is freed, and nothing else.
  method DropChain(fs: FatFs, first: Dword, ghost S: set<seq<nat>>, ghost ch: seq<nat>)
    returns (res: FResult, ghost S': set<seq<nat>>)
    requires fs.Valid() && Partition(fs.fat, S) && ch in S && ch != [] && first == ch[0]
    modifies fs`disk, fs`winsect, fs`wflag, fs`view, fs`fat, fs`freeClust, fs.win
    ensures fs.Valid() && Partition(fs.fat, S') && |fs.disk| == |old(fs.disk)|
    ensures old(fs.Mirrored()) ==> fs.Mirrored()
    ensures CountKept(old(fs.fat), old(fs.freeClust), fs.fat, fs.freeClust)
    ensures res == Ok && S' == S - {ch} && FreeCount(fs.fat) == FreeCount(old(fs.fat)) + |ch|
    ensures forall c | 0 <= c < |fs.fat| ::
              |fs.fat| == |old(fs.fat)| && fs.fat[c] == if c in ch then 0 else old(fs.fat)[c]
  {
    hide FatFs.Valid, Partition, Removed, FreeCount;
    fs.TableBounds();
    ghost var f := fs.fat;
    MemberIsChain(f, S, ch);
    RemovedPartition(f, S, ch);
    RemovedChain(f, ch);
    RemovedFree(f, ch);
    res := fs.RemoveChain(first);
    S' := S - {ch};
  }

  lemma MemberIsChain(f: seq<nat>, S: set<seq<nat>>, ch: seq<nat>)
    requires Partition(f, S) && ch in S
    ensures IsChain(f, ch) && InTable(f, ch[0]) && InTable(f, ch[|ch| - 1]) && f[ch[|ch| - 1]] != 0
  {
  }

  // What create_chain found on a partitioned table, and the chains afterwards.
  lemma ScanOfPartition(f: seq<nat>, S: set<seq<nat>>, scl: nat, r: int, ch: seq<nat>, mark: nat)
    requires Partition(f, S) && r >= 0 && ScanResult(f, scl, r) && mark >= |f| && (ch == [] || ch in S)
    ensures r == 0 || (InTable(f, r) && f[r] == 0)
    ensures |f| >= 2 ==> (r == 0 <==> FreeCount(f) == 0)
    ensures r != 0 ==>
      var last := if ch == [] then 0 else ch[|ch| - 1];
      && (last != 0 ==> InTable(f, last))
      && Partition(Stretched(f, last, r, mark), S - {ch} + {ch + [r]})
      && Spent(f, Stretched(f, last, r, mark), r)
      && S - {ch} + {ch + [r]} == (if ch == [] then S + {[r]} else S - {ch} + {ch + [r]})
      && ch + [r] !in S - {ch}
  {
    hide FreeCount;
    PartitionHasNoReserved(f, S, scl);
    if |f| >= 2 {
      ScanIsComplete(f, S, scl, r);
    }
    if r != 0 {
      if ch != [] {
        MemberIsChain(f, S, ch);
      }
      StretchedPartition(f, S, ch, r, mark);
      StretchedFree(f, if ch == [] then 0 else ch[|ch| - 1], r, mark);
      assert [] !in S;
      assert ch + [r] == [r] || ch != [];
      if ch + [r] in S - {ch} {
        ChainMember(f, ch + [r], r);
      }
    }
  }

  // ---- Runs ----

  datatype Op = New | Grow(i: nat) | Drop(i: nat)

  function SetOf(chains: seq<seq<nat>>): set<seq<nat>> {
    set c | c in chains
  }

  // First and last clusters of the chains that the run holds; the other chains belong to somebody else.
  ghost predicate Owned(f: seq<nat>, others: set<seq<nat>>, chains: seq<seq<nat>>, heads: seq<Dword>,
                        tails: seq<Dword>)
  {
    && Partition(f, others + SetOf(chains))
    && |heads| == |tails| == |chains|
    && (forall i | 0 <= i < |chains| :: chains[i] !in others)
    && (forall i | 0 <= i < |chains| ::
          chains[i] != [] && heads[i] == chains[i][0] && tails[i] == chains[i][|chains[i]| - 1])
    && (forall i, j | 0 <= i < j < |chains| :: chains[i] != chains[j])
  }

  // The chains after an operation whose result is r: the cluster taken, or 0.
  function Applied(chains: seq<seq<nat>>, op: Op, r: nat): seq<seq<nat>> {
    match op
    case New => if r == 0 then chains else chains + [[r]]
    case Grow(i) => if i >= |chains| || r == 0 then chains else chains[i := chains[i] + [r]]
    case Drop(i) => if i >= |chains| then chains else chains[..i] + chains[i + 1..]
  }

  // The chains after a run, from none on.
  function Fold(ops: seq<Op>, rs: seq<nat>): seq<seq<nat>>
    requires |ops| == |rs|
  {
    if ops == [] then []
    else
      var n := |ops| - 1;
      Applied(Fold(ops[..n], rs[..n]), ops[n], rs[n])
  }

  function Total(chains: seq<seq<nat>>): nat {
    if chains == [] then 0 else Total(chains[..|chains| - 1]) + |chains[|chains| - 1]|
  }

  // Whether an operation asks for a cluster; one on a chain that is not there does nothing.
  predicate Asks(chains: seq<seq<nat>>, op: Op) {
    op.New? || (op.Grow? && op.i < |chains|)
  }

  // The result of an operation on a volume that had the table f before the run: nothing exactly if the
  // chains of the run hold all clusters that were free, else one of those that they do not hold.
  ghost predicate Granted(f: seq<nat>, chains: seq<seq<nat>>, op: Op, r: nat) {
    if Asks(chains, op) then
      && (r == 0 <==> Total(chains) == FreeCount(f))
      && (r != 0 ==> InTable(f, r) && f[r] == 0 && forall k | 0 <= k < |chains| :: r !in chains[k])
    else r == 0
  }

  // Any run of allocations, growth and removals: its chains are what the operations make of them, they
  // and the chains of others stay disjoint and acyclic, every other cluster that was free is free again,
  // and an operation is refused only when there is none.
  method Run(fs: FatFs, ops: seq<Op>, ghost others: set<seq<nat>>)
    returns (rs: seq<nat>, heads: seq<Dword>, tails: seq<Dword>, ghost chains: seq<seq<nat>>)
    requires fs.Valid() && Partition(fs.fat, others)
    modifies fs`disk, fs`winsect, fs`wflag, fs`view, fs`fat, fs`lastClust, fs`freeClust, fs.win
    ensures fs.Valid() && Owned(fs.fat, others, chains, heads, tails)
    ensures |rs| == |ops| && chains == Fold(ops, rs)
    ensures forall n | 0 <= n < |ops| :: Granted(old(fs.fat), Fold(ops[..n], rs[..n]), ops[n], rs[n])
    ensures FreeCount(fs.fat) + Total(chains) == FreeCount(old(fs.fat))
    ensures old(fs.Mirrored()) ==> fs.Mirrored()
    ensures CountKept(old(fs.fat), old(fs.freeClust), fs.fat, fs.freeClust)
  {
    hide FatFs.Valid, FatFs.Mirrored, Partition, Owned, Granted, FreeCount;
    rs, heads, tails, chains := [], [], [], [];
    StartsOwned(fs.fat, others);
    for n := 0 to |ops|
      invariant fs.Valid() && Owned(fs.fat, others, chains, heads, tails)
      invariant |fs.fat| == |old(fs.fat)| && |rs| == n && chains == Fold(ops[..n], rs)
      invariant forall k | 0 <= k < n :: Granted(old(fs.fat), Fold(ops[..k], rs[..k]), ops[k], rs[k])
      invariant FreeCount(fs.fat) + Total(chains) == FreeCount(old(fs.fat))
      invariant old(fs.Mirrored()) ==> fs.Mirrored()
      invariant CountKept(old(fs.fat), old(fs.freeClust), fs.fat, fs.freeClust)
    {
      var r;
      r, heads, tails, chains := Do(fs, ops[n], old(fs.fat), others, chains, heads, tails);
      FoldStep(ops, rs, n, r);
      rs := rs + [r];
      assert rs[..n] == rs[..|rs| - 1];
    }
    assert ops[..|ops|] == ops;
  }

  lemma FoldStep(ops: seq<Op>, rs: seq<nat>, n: nat, r: nat)
    requires n < |ops| && |rs| == n
    ensures Fold(ops[..n + 1], rs + [r]) == Applied(Fold(ops[..n], rs), ops[n], r)
    ensures forall k | 0 <= k < n :: (rs + [r])[..k] == rs[..k] && (rs + [r])[k] == rs[k]
    ensures (rs + [r])[..n] == rs
  {
    assert ops[..n + 1][..n] == ops[..n] && (rs + [r])[..n] == rs;
  }

  // One operation.
  method Do(fs: FatFs, op: Op, ghost f0: seq<nat>, ghost others: set<seq<nat>>, ghost chains: seq<seq<nat>>,
            heads: seq<Dword>, tails: seq<Dword>)
    returns (r: nat, heads': seq<Dword>, tails': seq<Dword>, ghost chains': seq<seq<nat>>)
    requires fs.Valid() && Owned(fs.fat, others, chains, heads, tails)
    requires Partition(f0, others) && |f0| == |fs.fat| && FreeCount(fs.fat) + Total(chains) == FreeCount(f0)
    modifies fs`disk, fs`winsect, fs`wflag, fs`view, fs`fat, fs`lastClust, fs`freeClust, fs.win
    ensures fs.Valid() && Owned(fs.fat, others, chains', heads', tails') && |fs.fat| == |f0|
    ensures chains' == Applied(chains, op, r) && Granted(f0, chains, op, r)
    ensures FreeCount(fs.fat) + Total(chains') == FreeCount(f0)
    ensures old(fs.Mirrored()) ==> fs.Mirrored()
    ensures CountKept(old(fs.fat), old(fs.freeClust), fs.fat, fs.freeClust)
  {
    hide FatFs.Valid, FatFs.Mirrored, Partition, Owned, SetOf, FreeCount, Total, Spent;
    fs.TableBounds();
    r, heads', tails', chains' := 0, heads, tails, chains;
    ghost var f, S := fs.fat, others + SetOf(chains);
    OwnedSizes(f, others, chains, heads, tails);
    match op
    case New =>
      var c, S' := NewChain(fs, S);
      if c != 0 {
        SpentBounds(f, fs.fat, c);
        IsGranted(f0, f, fs.fat, others, chains, heads, tails, c);
        r, heads', tails', chains' := c, heads + [c], tails + [c], chains + [[c]];
        OwnsNew(f, fs.fat, others, chains, heads, tails, c);
        TotalNew(chains, [c]);
      }
    case Grow(i) =>
      if i < |heads| {
        var c, S' := GrowChain(fs, tails[i], S, chains[i]);
        if c != 0 {
          SpentBounds(f, fs.fat, c);
          IsGranted(f0, f, fs.fat, others, chains, heads, tails, c);
          r, tails', chains' := c, tails[i := c], chains[i := chains[i] + [c]];
          OwnsLonger(f, fs.fat, others, chains, heads, tails, i, c);
          TotalLonger(chains, i, c);
        }
      }
    case Drop(i) =>
      if i < |heads| {
        var res, S' := DropChain(fs, heads[i], S, chains[i]);
        heads', tails' := heads[..i] + heads[i + 1..], tails[..i] + tails[i + 1..];
        chains' := chains[..i] + chains[i + 1..];
        OwnsRest(f, fs.fat, others, chains, heads, tails, i);
        TotalRest(chains, i);
        fs.TableBounds();
      }
  }

  lemma SpentBounds(f: seq<nat>, f': seq<nat>, r: int)
    requires Spent(f, f', r)
    ensures 2 <= r < |f| == |f'| && FreeCount(f') + 1 == FreeCount(f)
  {
  }

  // A cluster that was taken was free before the run, and none of the chains of the run holds it.
  lemma IsGranted(f0: seq<nat>, f: seq<nat>, f': seq<nat>, others: set<seq<nat>>, chains: seq<seq<nat>>,
                  heads: seq<Dword>, tails: seq<Dword>, r: nat)
    requires Partition(f0, others) && |f0| == |f| && Owned(f, others, chains, heads, tails) && Spent(f, f', r)
    ensures InTable(f0, r) && f0[r] == 0 && forall k | 0 <= k < |chains| :: r !in chains[k]
  {
    hide FreeCount, IsChain, Disjoint;
    forall ch | ch in others + SetOf(chains) ensures r !in ch {
      if r in ch {
        ChainMember(f, ch, r);
      }
    }
    forall k | 0 <= k < |chains| ensures r !in chains[k] {
      assert chains[k] in SetOf(chains);
    }
  }

  lemma TotalNew(chains: seq<seq<nat>>, c: seq<nat>)
    ensures Total(chains + [c]) == Total(chains) + |c|
  {
    assert (chains + [c])[..|chains|] == chains;
  }

  lemma {:induction false} TotalLonger(chains: seq<seq<nat>>, i: nat, r: nat)
    requires i < |chains|
    ensures Total(chains[i := chains[i] + [r]]) == Total(chains) + 1
  {
    var n := |chains| - 1;
    var c := chains[i := chains[i] + [r]];
    if i == n {
      assert c[..n] == chains[..n];
    } else {
      TotalLonger(chains[..n], i, r);
      assert c[..n] == chains[..n][i := chains[..n][i] + [r]];
    }
  }

  lemma {:induction false} TotalRest(chains: seq<seq<nat>>, i: nat)
    requires i < |chains|
    ensures Total(chains[..i] + chains[i + 1..]) + |chains[i]| == Total(chains)
  {
    var n := |chains| - 1;
    var c := chains[..i] + chains[i + 1..];
    if i == n {
      assert c == chains[..n];
    } else {
      TotalRest(chains[..n], i);
      assert c[..n - 1] == chains[..n][..i] + chains[..n][i + 1..];
    }
  }

  lemma OwnedSizes(f: seq<nat>, others: set<seq<nat>>, chains: seq<seq<nat>>, heads: seq<Dword>, tails: seq<Dword>)
    requires Owned(f, others, chains, heads, tails)
    ensures Partition(f, others + SetOf(chains)) && |heads| == |tails| == |chains|
    ensures forall i | 0 <= i < |chains| ::
              chains[i] in others + SetOf(chains) && chains[i] != [] &&
              heads[i] == chains[i][0] && tails[i] == chains[i][|chains[i]| - 1]
  {
    hide Partition;
  }

  lemma OwnsNew(f: seq<nat>, f': seq<nat>, others: set<seq<nat>>, chains: seq<seq<nat>>, heads: seq<Dword>,
                tails: seq<Dword>, r: Dword)
    requires Owned(f, others, chains, heads, tails) && Partition(f', others + SetOf(chains) + {[r]})
    requires [r] !in others + SetOf(chains)
    ensures Owned(f', others, chains + [[r]], heads + [r], tails + [r])
  {
    hide Partition;
    NewSet(others, chains, [r]);
    forall i | 0 <= i < |chains| ensures chains[i] != [r] {
      assert chains[i] in SetOf(chains);
    }
  }

  lemma OwnsLonger(f: seq<nat>, f': seq<nat>, others: set<seq<nat>>, chains: seq<seq<nat>>, heads: seq<Dword>,
                   tails: seq<Dword>, i: nat, r: Dword)
    requires Owned(f, others, chains, heads, tails) && i < |chains|
    requires Partition(f', others + SetOf(chains) - {chains[i]} + {chains[i] + [r]})
    requires chains[i] + [r] !in others + SetOf(chains) - {chains[i]}
    ensures Owned(f', others, chains[i := chains[i] + [r]], heads, tails[i := r])
  {
    hide Partition;
    GrowSet(others, chains, i, chains[i] + [r]);
    forall j | 0 <= j < |chains| && j != i ensures chains[j] != chains[i] + [r] {
      assert chains[j] in SetOf(chains) && chains[j] != chains[i];
    }
    assert chains[i] !in others;
  }

  lemma OwnsRest(f: seq<nat>, f': seq<nat>, others: set<seq<nat>>, chains: seq<seq<nat>>, heads: seq<Dword>,
                 tails: seq<Dword>, i: nat)
    requires Owned(f, others, chains, heads, tails) && i < |chains|
    requires Partition(f', others + SetOf(chains) - {chains[i]})
    ensures Owned(f', others, chains[..i] + chains[i + 1..], heads[..i] + heads[i + 1..], tails[..i] + tails[i + 1..])
  {
    hide Partition;
    DropSet(others, chains, i);
    DistinctRest(chains, i);
    var c, h, l := chains[..i] + chains[i + 1..], heads[..i] + heads[i + 1..], tails[..i] + tails[i + 1..];
    forall j | 0 <= j < |c| ensures c[j] !in others && c[j] != [] && h[j] == c[j][0] && l[j] == c[j][|c[j]| - 1] {
      var k := if j < i then j else j + 1;
      assert c[j] == chains[k] && h[j] == heads[k] && l[j] == tails[k];
    }
  }

  lemma DistinctRest(chains: seq<seq<nat>>, i: nat)
    requires i < |chains| && forall j, k | 0 <= j < k < |chains| :: chains[j] != chains[k]
    ensures var c := chains[..i] + chains[i + 1..]; forall j, k | 0 <= j < k < |c| :: c[j] != c[k]
  {
    var c := chains[..i] + chains[i + 1..];
    forall j, k | 0 <= j < k < |c| ensures c[j] != c[k] {
      assert c[j] == chains[if j < i then j else j + 1] && c[k] == chains[if k < i then k else k + 1];
    }
  }

  lemma StartsOwned(f: seq<nat>, others: set<seq<nat>>)
    requires Partition(f, others)
    ensures Owned(f, others, [], [], [])
  {
    assert others + SetOf([]) == others;
  }

  lemma NewSet(others: set<seq<nat>>, chains: seq<seq<nat>>, c: seq<nat>)
    ensures others + SetOf(chains + [c]) == others + SetOf(chains) + {c}
  {
  }

  lemma GrowSet(others: set<seq<nat>>, chains: seq<seq<nat>>, i: nat, c: seq<nat>)
    requires i < |chains| && chains[i] !in others && forall j | 0 <= j < |chains| && j != i :: chains[j] != chains[i]
    ensures others + SetOf(chains[i := c]) == others + SetOf(chains) - {chains[i]} + {c}
  {
    var a, b := others + SetOf(chains[i := c]), others + SetOf(chains) - {chains[i]} + {c};
    forall x | x in b ensures x in a {
      if x == c {
        assert chains[i := c][i] == c;
      } else if x in SetOf(chains) {
        var j :| 0 <= j < |chains| && chains[j] == x;
        assert chains[i := c][j] == x;
      }
    }
    forall x | x in a ensures x in b {
      if x in SetOf(chains[i := c]) {
        var j :| 0 <= j < |chains| && chains[i := c][j] == x;
        assert j != i ==> chains[j] == x && x in SetOf(chains);
      }
    }
  }

  lemma DropSet(others: set<seq<nat>>, chains: seq<seq<nat>>, i: nat)
    requires i < |chains| && chains[i] !in others && forall j | 0 <= j < |chains| && j != i :: chains[j] != chains[i]
    ensures others + SetOf(chains[..i] + chains[i + 1..]) == others + SetOf(chains) - {chains[i]}
  {
    var rest := chains[..i] + chains[i + 1..];
    forall x ensures x in SetOf(rest) <==> x in SetOf(chains) - {chains[i]} {
      if x in SetOf(chains) - {chains[i]} {
        var j :| 0 <= j < |chains| && chains[j] == x;
        assert rest[if j < i then j else j - 1] == x;
      }
      if x in rest {
        var j :| 0 <= j < |rest| && rest[j] == x;
        assert chains[if j < i then j else j + 1] == x;
      }
    }
  }
}
