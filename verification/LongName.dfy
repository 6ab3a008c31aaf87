// Long file names: their parts of 13 characters in directory entries, and the sum of the short name.
module LongName {
  import opened Bytes

  // Room for a long name without its terminator, and directory entry constants.
  const MAX_LFN: int := 255
  const LLEF: int := 0x40
  const ENTRY: int := 32
  const AM_LFN: int := 0x0F

  // LfnOfs: where character s of a part lies in the entry.
  function Ofs(s: nat): (o: nat)
    requires s < 13
    ensures 1 <= o <= 9 || 14 <= o <= 24 || 28 <= o <= 30
  {
    if s < 5 then 1 + 2 * s else if s < 11 then 14 + 2 * (s - 5) else 28 + 2 * (s - 11)
  }

  predicate IsName(name: seq<Word>) {
    1 <= |name| <= MAX_LFN && forall i | 0 <= i < |name| :: name[i] != 0 && name[i] != 0xFFFF
  }

  // Number of entries the name takes.
  function Parts(name: seq<Word>): (n: nat)
    ensures |name| <= 13 * n < |name| + 13
  {
    (|name| + 12) / 13
  }

  // Character s of part k, counted from 1: the name, a terminator, filler.
  function PartChar(name: seq<Word>, k: nat, s: nat): Word
    requires k > 0
  {
    var i := 13 * (k - 1) + s;
    if i < |name| then name[i] else if i == |name| then 0 else 0xFFFF
  }

  // The bytes b hold part k of the name of which the short name has the given sum.
  ghost predicate IsPart(b: seq<Byte>, name: seq<Word>, k: nat, sum: Byte) {
    && |b| == ENTRY && 1 <= k <= Parts(name) <= 20
    && b[0] == k + (if k == Parts(name) then LLEF else 0)
    && b[11] == AM_LFN && b[12] == 0 && b[13] == sum && b[26] == 0 && b[27] == 0
    && forall s: nat | s < 13 :: LdWord(b, Ofs(s)) == PartChar(name, k, s)
  }

  // The name buffer: the name and a terminator.
  ghost predicate Holds(buf: seq<Word>, name: seq<Word>) {
    |buf| == MAX_LFN + 1 && |name| <= MAX_LFN && buf[..|name|] == name && buf[|name|] == 0
  }

  method StWord(dir: array<Byte>, p: nat, w: Word)
    requires p + 2 <= dir.Length
    modifies dir
    ensures LdWord(dir[..], p) == w && dir[p] == w % 0x100 && dir[p + 1] == w / 0x100
    ensures forall i | 0 <= i < dir.Length && i != p && i != p + 1 :: dir[i] == old(dir[i])
  {
    dir[p] := w % 0x100;
    dir[p + 1] := w / 0x100;
  }

  // fit_lfn: part ord of the name in the entry that starts at byte d of the window.
  method FitLfn(lfnbuf: array<Word>, dir: array<Byte>, d: nat, ord: Byte, sum: Byte, ghost name: seq<Word>)
    requires IsName(name) && Holds(lfnbuf[..], name) && 1 <= ord <= Parts(name) && d + ENTRY <= dir.Length
    modifies dir
    ensures IsPart(dir[d..d + ENTRY], name, ord, sum)
    ensures forall i | 0 <= i < dir.Length && !(d <= i < d + ENTRY) :: dir[i] == old(dir[i])
  {
    dir[d + 13] := sum;
    dir[d + 11] := AM_LFN;
    dir[d + 12] := 0;
    StWord(dir, d + 26, 0);
    var wc := FitChars(lfnbuf, dir, d, ord, name);
    var i := (ord - 1) * 13 + 13;
    var last := wc == 0xFFFF || lfnbuf[i] == 0;
    dir[d] := ord + if last then LLEF else 0;
    assert dir[d + 26] == 0 && dir[d + 27] == 0;
  }

  // One character of the entry; the others and the fixed fields stay.
  method PutChar(dir: array<Byte>, d: nat, s: nat, w: Word)
    requires s < 13 && d + ENTRY <= dir.Length
    modifies dir
    ensures forall t: nat | t < 13 ::
              LdWord(dir[d..d + ENTRY], Ofs(t)) == if t == s then w else LdWord(old(dir[d..d + ENTRY]), Ofs(t))
    ensures forall i | 0 <= i < dir.Length && !(d <= i < d + ENTRY) :: dir[i] == old(dir[i])
    ensures forall i | d <= i < d + ENTRY && i - d in {0, 11, 12, 13, 26, 27} :: dir[i] == old(dir[i])
  {
    StWord(dir, d + Ofs(s), w);
  }

  // The loop over the 13 characters; the result is the filler once the terminator is written.
  method FitChars(lfnbuf: array<Word>, dir: array<Byte>, d: nat, ord: Byte, ghost name: seq<Word>) returns (wc: Word)
    requires IsName(name) && Holds(lfnbuf[..], name) && 1 <= ord <= Parts(name) && d + ENTRY <= dir.Length
    modifies dir
    ensures forall s: nat | s < 13 :: LdWord(dir[d..d + ENTRY], Ofs(s)) == PartChar(name, ord, s)
    ensures wc == 0xFFFF <==> 13 * ord > |name|
    ensures forall i | 0 <= i < dir.Length && !(d <= i < d + ENTRY) :: dir[i] == old(dir[i])
    ensures forall i | d <= i < d + ENTRY && i - d in {0, 11, 12, 13, 26, 27} :: dir[i] == old(dir[i])
  {
    wc := 0;
    var i: nat := (ord - 1) * 13;
    var s := 0;
    while s < 13
      invariant 0 <= s <= 13
      invariant wc == 0xFFFF <==> 13 * (ord - 1) + s > |name|
      invariant wc != 0xFFFF ==> i == 13 * (ord - 1) + s
      invariant forall t: nat | t < s :: LdWord(dir[d..d + ENTRY], Ofs(t)) == PartChar(name, ord, t)
      invariant forall i | 0 <= i < dir.Length && !(d <= i < d + ENTRY) :: dir[i] == old(dir[i])
      invariant forall i | d <= i < d + ENTRY && i - d in {0, 11, 12, 13, 26, 27} :: dir[i] == old(dir[i])
    {
      if wc != 0xFFFF {
        wc := lfnbuf[i];
        i := i + 1;
      }
      PutChar(dir, d, s, wc);
      if wc == 0 { wc := 0xFFFF; }
      s := s + 1;
    }
  }

  // The reader's buffer has room for the last part: also for the terminator if that is stored in the
  // entry, and for one place more.
  predicate Readable(name: seq<Word>) {
    |name| + (if |name| % 13 == 0 then 0 else 1) < MAX_LFN
  }

  // The characters from part k on are in the buffer.
  ghost predicate PickedFrom(buf: seq<Word>, name: seq<Word>, k: nat)
    requires k > 0
  {
    && |buf| == MAX_LFN + 1 && |name| <= MAX_LFN
    && (forall i | 13 * (k - 1) <= i < |name| :: buf[i] == name[i])
    && (k <= Parts(name) ==> buf[|name|] == 0)
  }

  // Character s of an entry.
  function CharAt(b: seq<Byte>, s: nat): Word
    requires |b| == ENTRY && s < 13
  {
    LdWord(b, Ofs(s))
  }

  // The first character of an entry that ends a name, or 13.
  function FirstNul(b: seq<Byte>, s: nat): (n: nat)
    requires |b| == ENTRY && s <= 13
    ensures s <= n <= 13 && (forall t: nat | s <= t < n :: CharAt(b, t) != 0)
    ensures n < 13 ==> CharAt(b, n) == 0
    decreases 13 - s
  {
    if s == 13 || CharAt(b, s) == 0 then s else FirstNul(b, s + 1)
  }

  predicate Flagged(b: seq<Byte>)
    requires |b| == ENTRY
  {
    b[0] / LLEF % 2 == 1
  }

  // Characters that are taken from an entry: up to its terminator.
  function Taken(b: seq<Byte>): (n: nat)
    requires |b| == ENTRY
    ensures 0 < n <= 13
  {
    if FirstNul(b, 0) < 13 then FirstNul(b, 0) + 1 else 13
  }

  // Where the characters of an entry go.
  function PlaceOf(b: seq<Byte>): int
    requires |b| == ENTRY
  {
    13 * ((b[0] as int) % 0x40 - 1)
  }

  predicate Filled(b: seq<Byte>)
    requires |b| == ENTRY
  {
    forall s: nat | FirstNul(b, 0) < s < 13 :: CharAt(b, s) == 0xFFFF
  }

  // The characters of any entry have room in the buffer, with one place more behind the last part,
  // and nothing but filler follows a terminator.
  predicate Fitting(b: seq<Byte>)
    requires |b| == ENTRY
  {
    && b[0] % 0x40 > 0 && PlaceOf(b) + Taken(b) <= MAX_LFN - (if Flagged(b) then 1 else 0)
    && Filled(b)
  }

  // The parts of a name fit, but the last one of a name that has no room does not.
  lemma PartFits(b: seq<Byte>, name: seq<Word>, k: nat, sum: Byte)
    requires IsName(name) && IsPart(b, name, k, sum)
    ensures Fitting(b) <==> k < Parts(name) || Readable(name)
    ensures PlaceOf(b) == 13 * (k - 1) && (Flagged(b) <==> k == Parts(name))
    ensures PlaceOf(b) + Taken(b) == if 13 * k <= |name| then 13 * k else |name| + 1
  {
    hide CharAt, PartChar;
    var n := FirstNul(b, 0);
    if n < 13 {
      PartCharAt(b, name, k, sum, n);
    }
    if 13 * k > |name| {
      PartCharAt(b, name, k, sum, |name| - 13 * (k - 1));
    }
    forall s: nat | n < s < 13 ensures CharAt(b, s) == 0xFFFF {
      PartCharAt(b, name, k, sum, s);
    }
  }

  // The first n characters of an entry are in the buffer from place at on, and all else is as it was.
  ghost predicate Copied(was: seq<Word>, buf: seq<Word>, b: seq<Byte>, at: nat, n: nat) {
    && |was| == |buf| == MAX_LFN + 1 && |b| == ENTRY && n <= 13 && (n > 0 ==> at + n <= MAX_LFN)
    && (forall j | at <= j < at + n :: buf[j] == CharAt(b, j - at))
    && (forall j | 0 <= j <= MAX_LFN && !(at <= j < at + n) :: buf[j] == was[j])
  }

  lemma NothingCopied(buf: seq<Word>, b: seq<Byte>, at: nat)
    requires |buf| == MAX_LFN + 1 && |b| == ENTRY
    ensures Copied(buf, buf, b, at, 0)
  {
  }

  lemma CopyMore(was: seq<Word>, buf: seq<Word>, b: seq<Byte>, at: nat, n: nat)
    requires Copied(was, buf, b, at, n) && n < 13 && at + n < MAX_LFN
    ensures Copied(was, buf[at + n := CharAt(b, n)], b, at, n + 1)
  {
    hide CharAt;
  }

  // A part of the name that is copied, and a terminator behind the last one.
  lemma PartPicked(was: seq<Word>, mid: seq<Word>, buf: seq<Word>, b: seq<Byte>, name: seq<Word>, k: nat, sum: Byte)
    requires IsName(name) && IsPart(b, name, k, sum) && PickedFrom(was, name, k + 1)
    requires 0 <= PlaceOf(b) && Copied(was, mid, b, PlaceOf(b), Taken(b))
    requires buf == if Flagged(b) then mid[PlaceOf(b) + Taken(b) := 0] else mid
    ensures PickedFrom(buf, name, k)
  {
    hide Taken, PlaceOf, CharAt, PartChar, Flagged;
    PartFits(b, name, k, sum);
    var at := 13 * (k - 1);
    forall i | at <= i < |name| ensures buf[i] == name[i] {
      if i < at + 13 {
        PartCharAt(b, name, k, sum, i - at);
      }
    }
    if at <= |name| < at + 13 {
      PartCharAt(b, name, k, sum, |name| - at);
    }
  }

  lemma PartCharAt(b: seq<Byte>, name: seq<Word>, k: nat, sum: Byte, s: nat)
    requires IsPart(b, name, k, sum) && s < 13
    ensures CharAt(b, s) == PartChar(name, k, s)
    ensures 13 * (k - 1) + s < |name| ==> CharAt(b, s) == name[13 * (k - 1) + s]
    ensures 13 * (k - 1) + s == |name| ==> CharAt(b, s) == 0
    ensures 13 * (k - 1) + s > |name| ==> CharAt(b, s) == 0xFFFF
  {
    hide LdWord, Ofs;
  }

  // pick_lfn: an entry goes to its place if it fits.
  method PickLfn(lfnbuf: array<Word>, dir: array<Byte>, d: nat, ghost name: seq<Word>, ghost k: nat, ghost sum: Byte)
    returns (ok: bool)
    requires lfnbuf.Length == MAX_LFN + 1 && d + ENTRY <= dir.Length && k > 0
    modifies lfnbuf
    ensures ok == Fitting(dir[d..d + ENTRY])
    ensures IsName(name) && IsPart(dir[d..d + ENTRY], name, k, sum) ==> ok == (k < Parts(name) || Readable(name))
    ensures IsName(name) && IsPart(dir[d..d + ENTRY], name, k, sum) && ok &&
            PickedFrom(old(lfnbuf[..]), name, k + 1) ==>
              PickedFrom(lfnbuf[..], name, k)
  {
    hide IsName, IsPart, Readable, PickedFrom, Copied, Taken, Filled;
    ghost var b, was := dir[d..d + ENTRY], lfnbuf[..];
    assert b[0] == dir[d];
    if IsName(name) && IsPart(b, name, k, sum) {
      PartFits(b, name, k, sum);
    }
    var place: int := dir[d] % 0x40;
    if place == 0 { return false; }
    var i: nat := (place - 1) * 13;
    ok, i := PickChars(lfnbuf, dir, d, i);
    if !ok { return; }
    ghost var mid := lfnbuf[..];
    if dir[d] / LLEF % 2 == 1 {
      if i >= MAX_LFN { return false; }
      lfnbuf[i] := 0;
    }
    if IsName(name) && IsPart(b, name, k, sum) && PickedFrom(was, name, k + 1) {
      PartPicked(was, mid, lfnbuf[..], b, name, k, sum);
    }
  }

  // The loop over the 13 characters.
  method PickChars(lfnbuf: array<Word>, dir: array<Byte>, d: nat, start: nat) returns (ok: bool, i: nat)
    requires lfnbuf.Length == MAX_LFN + 1 && d + ENTRY <= dir.Length && start == PlaceOf(dir[d..d + ENTRY])
    modifies lfnbuf
    ensures var b := dir[d..d + ENTRY];
            && (ok <==> start + Taken(b) <= MAX_LFN && Filled(b))
            && (ok ==> i == start + Taken(b) && Copied(old(lfnbuf[..]), lfnbuf[..], b, start, Taken(b)))
  {
    hide CharAt, PlaceOf, Copied;
    var s, wc := 0, 1;
    ghost var b, was := dir[d..d + ENTRY], lfnbuf[..];
    NothingCopied(was, b, start);
    ghost var n := FirstNul(b, 0);
    i := start;
    while s < 13
      invariant 0 <= s <= 13 && (wc == 0 <==> n < s)
      invariant i == (start + if n < s then n + 1 else s) && (s > 0 ==> i <= MAX_LFN)
      invariant forall t: nat | n < t < s :: CharAt(b, t) == 0xFFFF
      invariant Copied(was, lfnbuf[..], b, start, i - start)
    {
      var uc := CharAt(dir[d..d + ENTRY], s);
      if wc != 0 {
        if i >= MAX_LFN { return false, i; }
        wc := uc;
        CopyMore(was, lfnbuf[..], b, start, i - start);
        lfnbuf[i] := wc;
        i := i + 1;
      } else {
        if uc != 0xFFFF { return false, i; }
      }
      s := s + 1;
    }
    ok := true;
  }

  // A name of 254 characters, one less than the limit, is written but not read back.
  lemma LongestIsNotReadable(name: seq<Word>)
    requires |name| == MAX_LFN - 1
    ensures !Readable(name)
  {
  }

  // ---- The sum of the short name ----

  // sum_sfn over the first n bytes: rotate right by one bit and add.
  function SumSfn(b: seq<Byte>, n: nat): Byte
    requires n <= |b|
  {
    if n == 0 then 0
    else
      var sum: int := SumSfn(b, n - 1);
      (sum / 2 + sum * 0x80 + b[n - 1]) % 0x100
  }

  method SumOf(dir: seq<Byte>) returns (sum: Byte)
    requires 11 <= |dir|
    ensures sum == SumSfn(dir, 11)
  {
    sum := 0;
    var n := 0;
    while n < 11
      invariant 0 <= n <= 11 && sum == SumSfn(dir, n)
    {
      sum := ((sum as int) / 2 + (sum as int) * 0x80 + dir[n]) % 0x100;
      n := n + 1;
    }
  }

  // The sum so far as it goes into the next addition: rotated right by one bit.
  function Turned(sum: Byte): Byte {
    sum / 2 + if sum % 2 == 1 then 0x80 else 0
  }

  lemma TurnedBack(sum: Byte)
    ensures sum == Turned(sum) % 0x80 * 2 + Turned(sum) / 0x80
  {
  }

  // The sum depends on the bytes summed only.
  lemma {:induction false} SameSum(a: seq<Byte>, b: seq<Byte>, n: nat)
    requires n <= |a| && n <= |b| && a[..n] == b[..n]
    ensures SumSfn(a, n) == SumSfn(b, n)
  {
    if n > 0 {
      assert a[n - 1] == a[..n][n - 1] && b[n - 1] == b[..n][n - 1];
      assert a[..n - 1] == a[..n][..n - 1] && b[..n - 1] == b[..n][..n - 1];
      SameSum(a, b, n - 1);
    }
  }

  // Another character in one place gives another sum.
  lemma {:induction false} OneCharacter(b: seq<Byte>, i: nat, c: Byte, n: nat)
    requires i < n <= |b| && b[i] != c
    ensures SumSfn(b[i := c], n) != SumSfn(b, n)
  {
    var d := b[i := c];
    if i == n - 1 {
      assert d[..i] == b[..i];
      SameSum(d, b, i);
      AddsApart(Turned(SumSfn(b, i)), b[i], c);
    } else {
      OneCharacter(b, i, c, n - 1);
      TurnsApart(SumSfn(d, n - 1), SumSfn(b, n - 1), b[n - 1]);
    }
    SumStep(b, n);
    SumStep(d, n);
  }

  lemma SumStep(b: seq<Byte>, n: nat)
    requires 0 < n <= |b|
    ensures SumSfn(b, n) == (Turned(SumSfn(b, n - 1)) as int + b[n - 1]) % 0x100
  {
    var sum: int := SumSfn(b, n - 1);
    var plain, turned: int := sum / 2 + sum * 0x80 + b[n - 1], Turned(SumSfn(b, n - 1)) + b[n - 1] as int;
    Congruent(plain, turned, 0, sum / 2);
  }

  // Two numbers that differ by d and a multiple of 256 are the same byte exactly if d is 0.
  lemma Congruent(x: nat, y: nat, d: int, k: int)
    requires x == y + d + 0x100 * k && -0x100 < d < 0x100
    ensures x % 0x100 == y % 0x100 <==> d == 0
  {
    var m := x / 0x100 - y / 0x100;
    assert d + 0x100 * (k - m) == x % 0x100 - y % 0x100;
  }

  lemma AddsApart(t: Byte, x: Byte, y: Byte)
    requires x != y
    ensures (t as int + x) % 0x100 != (t as int + y) % 0x100
  {
    Congruent(t as int + x, t as int + y, x - y as int, 0);
  }

  lemma TurnsApart(x: Byte, y: Byte, c: Byte)
    requires x != y
    ensures (Turned(x) as int + c) % 0x100 != (Turned(y) as int + c) % 0x100
  {
    hide Turned;
    TurnedBack(x);
    TurnedBack(y);
    AddsApart(c, Turned(x), Turned(y));
  }

  function Exchanged(b: seq<Byte>, i: nat): (d: seq<Byte>)
    requires i + 1 < |b|
    ensures |d| == |b| && d[..i] == b[..i] && d[i] == b[i + 1] && d[i + 1] == b[i] && d[i + 2..] == b[i + 2..]
  {
    b[i := b[i + 1]][i + 1 := b[i]]
  }

  // Two different neighbours exchanged give another sum, unless the sums behind the first of them are
  // 0x00 and 0xFF.
  lemma {:induction false} ExchangeChanges(b: seq<Byte>, i: nat, n: nat)
    requires i + 1 < n <= |b| && b[i] != b[i + 1]
    ensures SumSfn(Exchanged(b, i), n) == SumSfn(b, n) <==>
              {SumSfn(b, i + 1), SumSfn(Exchanged(b, i), i + 1)} == {0, 0xFF}
  {
    hide SumSfn, Turned, Exchanged;
    var d := Exchanged(b, i);
    SumStep(b, n);
    SumStep(d, n);
    if n == i + 2 {
      SameSum(d, b, i);
      SumStep(b, i + 1);
      SumStep(d, i + 1);
      TwoOrders(Turned(SumSfn(b, i)), b[i], b[i + 1]);
    } else {
      ExchangeChanges(b, i, n - 1);
      assert d[n - 1] == d[i + 2..][n - 3 - i] == b[n - 1];
      if SumSfn(d, n - 1) != SumSfn(b, n - 1) {
        TurnsApart(SumSfn(d, n - 1), SumSfn(b, n - 1), b[n - 1]);
      }
    }
  }

  // Two bytes added in both orders to a rotated sum.
  lemma TwoOrders(t: Byte, x: Byte, y: Byte)
    requires x != y
    ensures var u: Byte, v: Byte := (t as int + x) % 0x100, (t as int + y) % 0x100;
            (Turned(u) as int + y) % 0x100 == (Turned(v) as int + x) % 0x100 <==> {u, v} == {0, 0xFF}
  {
    hide Turned;
    var u: Byte, v: Byte := (t as int + x) % 0x100, (t as int + y) % 0x100;
    AddsApart(t, x, y);
    TurnedLess(u);
    TurnedLess(v);
    var d := Turned(u) as int - u - (Turned(v) as int - v);
    Congruent(Turned(u) as int + y, Turned(v) as int + x, d, (t as int + y) / 0x100 - (t as int + x) / 0x100);
    assert {u, v} == {0, 0xFF} <==> (u == 0 && v == 0xFF) || (u == 0xFF && v == 0) by {
      if {u, v} == {0, 0xFF} {
        assert u in {0, 0xFF} && v in {0, 0xFF};
      }
    }
  }

  // How far rotating moves a sum: an even one down by its half, an odd one to 0 up to 127 above.
  lemma TurnedLess(u: Byte)
    ensures Turned(u) as int - u as int == if u % 2 == 0 then -(u as int / 2) else 127 - u as int / 2
  {
  }

  // The sum of AB and nine blanks, and of BA.
  lemma SumOfAB(b: seq<Byte>)
    requires |b| == 11 && b[0] == 0x41 && b[1] == 0x42 && forall i | 2 <= i < 11 :: b[i] == 0x20
    ensures SumSfn(b, 11) == 0x91
  {
    FirstSum(b);
    hide SumSfn;
    NextSum(b, 1, 0x41);
    NextSum(b, 2, 0xE2);
    NextSum(b, 3, 0x91);
    NextSum(b, 4, 0xE8);
    NextSum(b, 5, 0x94);
    NextSum(b, 6, 0x6A);
    NextSum(b, 7, 0x55);
    NextSum(b, 8, 0xCA);
    NextSum(b, 9, 0x85);
    NextSum(b, 10, 0xE2);
    NextSum(b, 11, 0x91);
  }

  lemma SumOfBA(b: seq<Byte>)
    requires |b| == 11 && b[0] == 0x42 && b[1] == 0x41 && forall i | 2 <= i < 11 :: b[i] == 0x20
    ensures SumSfn(b, 11) == 0x51
  {
    FirstSum(b);
    hide SumSfn;
    NextSum(b, 1, 0x42);
    NextSum(b, 2, 0x62);
    NextSum(b, 3, 0x51);
    NextSum(b, 4, 0xC8);
    NextSum(b, 5, 0x84);
    NextSum(b, 6, 0x62);
    NextSum(b, 7, 0x51);
    NextSum(b, 8, 0xC8);
    NextSum(b, 9, 0x84);
    NextSum(b, 10, 0x62);
    NextSum(b, 11, 0x51);
  }

  lemma FirstSum(b: seq<Byte>)
    ensures SumSfn(b, 0) == 0
  {
  }

  lemma NextSum(b: seq<Byte>, n: nat, r: Byte)
    requires 0 < n <= |b| && (Turned(SumSfn(b, n - 1)) as int + b[n - 1]) % 0x100 == r
    ensures SumSfn(b, n) == r
  {
    SumStep(b, n);
  }
}
