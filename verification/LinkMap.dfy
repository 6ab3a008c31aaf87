// The cluster link map table: a chain stored as runs of consecutive clusters.
module LinkMap {
  import Chains

  // Length of the longest run of consecutive clusters at the start of ch.
  function Run(ch: seq<nat>): (n: nat)
    requires ch != []
    ensures 1 <= n <= |ch|
    ensures forall k | 0 <= k < n :: ch[k] == ch[0] + k
    ensures n < |ch| ==> ch[n] != ch[n - 1] + 1
  {
    if |ch| == 1 || ch[1] != ch[0] + 1 then 1 else 1 + Run(ch[1..])
  }

  // Length and first cluster of every run, in order.
  function Fragments(ch: seq<nat>): (t: seq<nat>)
    ensures |t| % 2 == 0 && |t| <= 2 * |ch|
    decreases |ch|
  {
    if ch == [] then [] else [Run(ch), ch[0]] + Fragments(ch[Run(ch)..])
  }

  // Items that the table of a chain takes: its size, the runs and the terminator.
  function TableSize(ch: seq<nat>): nat {
    2 + |Fragments(ch)|
  }

  // From index i on, t holds the items fr and a terminator.
  ghost predicate Listed(t: seq<nat>, i: nat, fr: seq<nat>) {
    i + |fr| < |t| && t[i..i + |fr|] == fr && t[i + |fr|] == 0
  }

  // From index i on, t holds the runs of ch and the terminator.
  ghost predicate MapsAt(t: seq<nat>, i: nat, ch: seq<nat>) {
    Listed(t, i, Fragments(ch))
  }

  // t is the link map of ch, whatever its first item says about its size.
  ghost predicate Maps(t: seq<nat>, ch: seq<nat>) {
    MapsAt(t, 1, ch)
  }

  lemma FirstFragment(ch: seq<nat>)
    requires ch != []
    ensures Fragments(ch) == [Run(ch), ch[0]] + Fragments(ch[Run(ch)..])
  {
    hide Run;
  }

  lemma ListedTail(t: seq<nat>, i: nat, a: nat, b: nat, rest: seq<nat>)
    requires Listed(t, i, [a, b] + rest)
    ensures i + 2 < |t| && t[i] == a && t[i + 1] == b && Listed(t, i + 2, rest)
  {
    var fr := t[i..i + 2 + |rest|];
    assert fr == [a, b] + rest && fr[0] == a && fr[1] == b && fr[2..] == rest;
  }

  // Behind the first run the table maps the rest of the chain.
  lemma MapsTail(t: seq<nat>, i: nat, ch: seq<nat>)
    requires MapsAt(t, i, ch)
    ensures i < |t| && (ch == [] <==> t[i] == 0)
    ensures ch != [] ==> i + 2 < |t| && t[i] == Run(ch) && t[i + 1] == ch[0] && MapsAt(t, i + 2, ch[Run(ch)..])
  {
    hide Run, Listed;
    if ch == [] {
      ListedNothing(t, i);
    } else {
      FirstFragment(ch);
      ListedTail(t, i, Run(ch), ch[0], Fragments(ch[Run(ch)..]));
    }
  }

  lemma ListedNothing(t: seq<nat>, i: nat)
    requires Listed(t, i, [])
    ensures i < |t| && t[i] == 0
  {
  }

  // Following the chain one cluster at a time.
  function Follow(f: seq<nat>, c: nat, k: nat): nat
    decreases k
  {
    if k == 0 then c else if c < |f| then Follow(f, f[c], k - 1) else c
  }

  lemma {:induction false} FollowIsIndex(f: seq<nat>, ch: seq<nat>, k: nat)
    requires Chains.IsChain(f, ch) && k < |ch|
    ensures Follow(f, ch[0], k) == ch[k]
    decreases k
  {
    assert Chains.InTable(f, ch[0]);
    if k > 0 {
      assert f[ch[0]] == ch[1];
      Chains.TailChain(f, ch);
      FollowIsIndex(f, ch[1..], k - 1);
    }
  }

  // From index j on, n clusters follow one another.
  ghost predicate RunAt(ch: seq<nat>, j: nat, n: nat) {
    j + n <= |ch| && forall k | j <= k < j + n :: ch[k] == ch[j] + (k - j)
  }

  // A run that cannot be continued is the longest one.
  lemma RunAtIsRun(ch: seq<nat>, j: nat, n: nat)
    requires 1 <= n && RunAt(ch, j, n)
    requires j + n < |ch| ==> ch[j + n] != ch[j + n - 1] + 1
    ensures Run(ch[j..]) == n
  {
    var rest := ch[j..];
    forall k | 0 <= k < n ensures rest[k] == rest[0] + k {
      assert rest[k] == ch[j + k];
    }
    RunUnique(rest, n);
  }

  lemma {:induction false} RunUnique(ch: seq<nat>, n: nat)
    requires 1 <= n <= |ch|
    requires forall k | 0 <= k < n :: ch[k] == ch[0] + k
    requires n < |ch| ==> ch[n] != ch[n - 1] + 1
    ensures Run(ch) == n
  {
    if n > 1 {
      assert ch[1] == ch[0] + 1;
      assert forall k | 0 <= k < n - 1 :: ch[1..][k] == ch[k + 1];
      RunUnique(ch[1..], n - 1);
    }
  }

  // The last cluster's end mark is the number of the cluster behind it.
  predicate LinksPastEnd(f: seq<nat>, ch: seq<nat>) {
    ch != [] && ch[|ch| - 1] < |f| && f[ch[|ch| - 1]] == ch[|ch| - 1] + 1
  }

  // A table with one cluster whose end mark is 3.
  lemma EndLooksLikeLink()
    ensures Chains.IsChain([0xFF8, 0xFFF, 3], [2]) && LinksPastEnd([0xFF8, 0xFFF, 3], [2])
  {
    assert [0xFF8, 0xFFF, 3][2] == 3;
  }

  // An end mark that is larger than the number of entries, as put_fat writes it, is not one of these.
  lemma FarMarkIsNoLink(f: seq<nat>, ch: seq<nat>)
    requires Chains.IsChain(f, ch) && f[ch[|ch| - 1]] > |f|
    ensures !LinksPastEnd(f, ch)
  {
    assert Chains.InTable(f, ch[|ch| - 1]);
  }

  // A list of distinct table entries is no longer than the table.
  lemma {:induction false} DistinctBound(ch: seq<nat>, n: nat)
    requires forall i | 0 <= i < |ch| :: ch[i] < n
    requires forall i, j | 0 <= i < j < |ch| :: ch[i] != ch[j]
    ensures |ch| <= n
    decreases n
  {
    if ch != [] {
      assert 0 <= ch[0] < n;
      if n - 1 in ch {
        var k :| 0 <= k < |ch| && ch[k] == n - 1;
        DistinctBound(ch[..k] + ch[k + 1..], n - 1);
      } else {
        DistinctBound(ch, n - 1);
      }
    }
  }

  lemma ChainLength(f: seq<nat>, ch: seq<nat>)
    requires Chains.IsChain(f, ch)
    ensures |ch| <= |f|
  {
    forall i, j | 0 <= i < j < |ch| ensures ch[i] != ch[j] {
      Chains.ChainIsAcyclic(f, ch, i, j);
    }
    forall i | 0 <= i < |ch| ensures ch[i] < |f| {
      assert Chains.InTable(f, ch[i]);
    }
    DistinctBound(ch, |f|);
  }

  // fr from k on are the runs of the chain from cluster done on.
  ghost predicate RunsLeft(ch: seq<nat>, done: nat, fr: seq<nat>, k: nat) {
    done <= |ch| && k <= |fr| && fr[k..] == Fragments(ch[done..])
  }

  lemma RunsLeftStart(ch: seq<nat>)
    ensures RunsLeft(ch, 0, Fragments(ch), 0)
  {
    assert ch[0..] == ch;
  }

  lemma RunsLeftEnd(ch: seq<nat>, fr: seq<nat>, k: nat)
    requires RunsLeft(ch, |ch|, fr, k)
    ensures k == |fr|
  {
    assert ch[|ch|..] == [];
  }

  // One run further in the list of runs.
  lemma RunsLeftStep(ch: seq<nat>, done: nat, fr: seq<nat>, k: nat)
    requires RunsLeft(ch, done, fr, k) && done < |ch|
    ensures var n := Run(ch[done..]);
            k + 2 <= |fr| && fr[k] == n && fr[k + 1] == ch[done] && RunsLeft(ch, done + n, fr, k + 2)
  {
    var rest := ch[done..];
    var n := Run(rest);
    assert rest[n..] == ch[done + n..];
    assert fr[k..] == [n, rest[0]] + Fragments(ch[done + n..]);
    assert fr[k] == fr[k..][0] && fr[k + 1] == fr[k..][1];
    assert fr[k + 2..] == fr[k..][2..];
  }

  // The first m items behind the size are in the table.
  ghost predicate Filled(t: seq<int>, fr: seq<nat>, m: nat) {
    m <= |fr| && m < |t| && forall i | 1 <= i <= m :: t[i] == fr[i - 1]
  }

  lemma FilledNone(t: seq<int>, fr: seq<nat>)
    requires t != []
    ensures Filled(t, fr, 0)
  {
  }

  lemma FilledMaps(t: seq<nat>, ch: seq<nat>)
    requires Filled(t, Fragments(ch), |Fragments(ch)|) && |Fragments(ch)| + 1 < |t| && t[|Fragments(ch)| + 1] == 0
    ensures Maps(t, ch)
  {
  }

  // The link map of a chain of two runs: size, length and first cluster of each, terminator.
  lemma TwoRuns()
    ensures TableSize([5, 6, 7, 12, 13]) == 6 && Maps([6, 3, 5, 2, 12, 0], [5, 6, 7, 12, 13])
  {
    var ch: seq<nat> := [5, 6, 7, 12, 13];
    RunAtIsRun(ch, 0, 3);
    RunAtIsRun(ch, 3, 2);
    assert ch[0..] == ch && ch[3..] == [12, 13] && [12, 13][2..] == [];
    FirstFragment(ch);
    FirstFragment([12, 13]);
    assert Fragments(ch) == [3, 5] + [2, 12];
    assert [6, 3, 5, 2, 12, 0][1..5] == [3, 5, 2, 12];
  }
}
