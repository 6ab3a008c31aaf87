// File name matching with '?' and '*' under case folding.
module Pattern {
  import opened Bytes

  const ASK: Byte := 0x3F
  const STAR: Byte := 0x2A

  // A zero-terminated string without its terminator.
  predicate Text(s: seq<Byte>) {
    forall i | 0 <= i < |s| :: s[i] != 0
  }

  // The upper-case table of a single-byte code page for the characters from 0x80 on.
  predicate CodePage(ext: seq<Byte>) {
    |ext| == 0x80 && Text(ext)
  }

  function Fold(ext: seq<Byte>, c: Byte): (u: Byte)
    requires CodePage(ext)
    ensures u == 0 <==> c == 0
  {
    if 0x61 <= c <= 0x7A then c - 0x20 else if c >= 0x80 then ext[c - 0x80] else c
  }

  // Below 0x80 two characters are the same under folding if they are, or if they are one letter in both
  // cases; from 0x80 on if the table has one upper case for both.
  lemma SameLetter(ext: seq<Byte>, c: Byte, d: Byte)
    requires CodePage(ext) && (c < 0x80 <==> d < 0x80)
    ensures c < 0x80 ==>
              (Fold(ext, c) == Fold(ext, d) <==>
               c == d || ((c - d == 32 || d - c == 32) && 'A' as int <= (if c < d then c else d) <= 'Z' as int))
    ensures c >= 0x80 ==> (Fold(ext, c) == Fold(ext, d) <==> ext[c - 0x80] == ext[d - 0x80])
  {
  }

  predicate Wild(c: Byte) {
    c == ASK || c == STAR
  }

  ghost predicate AllWild(w: seq<Byte>) {
    forall i | 0 <= i < |w| :: Wild(w[i])
  }

  // The whole of s matches p.
  ghost predicate Glob(ext: seq<Byte>, p: seq<Byte>, s: seq<Byte>)
    requires CodePage(ext)
    decreases |p| + |s|
  {
    if p == [] then s == []
    else if p[0] == STAR then Glob(ext, p[1..], s) || (s != [] && Glob(ext, p, s[1..]))
    else s != [] && (p[0] == ASK || Fold(ext, p[0]) == Fold(ext, s[0])) && Glob(ext, p[1..], s[1..])
  }

  // p matches s behind exactly skip characters or, with inf, behind skip characters or more.
  ghost predicate GlobBehind(ext: seq<Byte>, p: seq<Byte>, s: seq<Byte>, skip: nat, inf: bool)
    requires CodePage(ext)
  {
    if inf then exists k | skip <= k <= |s| :: Glob(ext, p, s[k..])
    else skip <= |s| && Glob(ext, p, s[skip..])
  }

  // Number of characters before the first wildcard.
  function Literal(p: seq<Byte>): (n: nat)
    ensures n <= |p|
    ensures forall i | 0 <= i < n :: !Wild(p[i])
    ensures n < |p| ==> Wild(p[n])
  {
    if p == [] || Wild(p[0]) then 0 else 1 + Literal(p[1..])
  }

  lemma {:induction false} GlobNeedsLiteral(ext: seq<Byte>, p: seq<Byte>, s: seq<Byte>)
    requires CodePage(ext) && Glob(ext, p, s)
    ensures |s| >= Literal(p)
    decreases |p|
  {
    if p != [] && !Wild(p[0]) {
      GlobNeedsLiteral(ext, p[1..], s[1..]);
    }
  }

  // ---- A block of wildcards ----

  function Asks(w: seq<Byte>): nat {
    if w == [] then 0 else (if w[0] == ASK then 1 else 0) + Asks(w[1..])
  }

  // A question mark stands for any one character, and a letter for both cases.
  lemma OneCharacter(ext: seq<Byte>, s: seq<Byte>)
    requires CodePage(ext)
    ensures Glob(ext, ['?' as int], s) <==> |s| == 1
    ensures (forall c | c in s :: c < 0x80) ==>
              (Glob(ext, ['a' as int], s) <==> s == ['a' as int] || s == ['A' as int])
  {
    assert ['?' as int][1..] == [] && ['a' as int][1..] == [];
    if s != [] {
      assert s[0] in s && (s[1..] == [] ==> s == [s[0]]);
    }
  }

  // A star stands for any number of characters.
  lemma {:induction false} StarTakesAll(ext: seq<Byte>, s: seq<Byte>)
    requires CodePage(ext)
    ensures Glob(ext, ['*' as int], s)
    decreases |s|
  {
    assert ['*' as int][1..] == [];
    if s != [] {
      StarTakesAll(ext, s[1..]);
    }
  }

  // A block of wildcards skips as many characters as it has '?', and with a '*' any number more.
  lemma {:induction false} WildBlock(ext: seq<Byte>, w: seq<Byte>, p: seq<Byte>, s: seq<Byte>)
    requires CodePage(ext) && AllWild(w)
    ensures Glob(ext, w + p, s) == GlobBehind(ext, p, s, Asks(w), STAR in w)
    decreases |w| + |s|
  {
    if w == [] {
      assert w + p == p && s[0..] == s;
    } else {
      var v := w[1..];
      assert (w + p)[1..] == v + p;
      if w[0] == ASK {
        if s != [] {
          WildBlock(ext, v, p, s[1..]);
          BehindTail(ext, p, s, Asks(v), STAR in v);
        }
      } else {
        WildBlock(ext, v, p, s);
        if s != [] {
          WildBlock(ext, w, p, s[1..]);
        }
        StarBlock(ext, p, s, Asks(v), STAR in v);
      }
    }
  }

  // Skipping one character more.
  lemma BehindTail(ext: seq<Byte>, p: seq<Byte>, s: seq<Byte>, n: nat, inf: bool)
    requires CodePage(ext) && s != []
    ensures GlobBehind(ext, p, s[1..], n, inf) == GlobBehind(ext, p, s, n + 1, inf)
  {
    var t := s[1..];
    if inf {
      if k :| n <= k <= |t| && Glob(ext, p, t[k..]) {
        assert t[k..] == s[k + 1..];
      }
      if k :| n + 1 <= k <= |s| && Glob(ext, p, s[k..]) {
        assert t[k - 1..] == s[k..];
      }
    } else if n <= |t| {
      assert t[n..] == s[n + 1..];
    }
  }

  // A '*' takes no character or one and then any more.
  lemma StarBlock(ext: seq<Byte>, p: seq<Byte>, s: seq<Byte>, n: nat, inf: bool)
    requires CodePage(ext)
    ensures GlobBehind(ext, p, s, n, true) ==
              (GlobBehind(ext, p, s, n, inf) || (s != [] && GlobBehind(ext, p, s[1..], n, true)))
  {
    if s != [] {
      BehindTail(ext, p, s, n, true);
    }
    if k :| n <= k <= |s| && Glob(ext, p, s[k..]) {
      assert k == n || n + 1 <= k;
    }
  }

  // ---- The matcher ----

  // get_achar at position i of a string.
  function CharAt(ext: seq<Byte>, s: seq<Byte>, i: nat): Byte
    requires CodePage(ext)
  {
    if i < |s| then Fold(ext, s[i]) else 0
  }

  // pattern_matching: the pattern behind skip characters of the name, with inf behind any more.
  method PatternMatching(ext: seq<Byte>, pat: seq<Byte>, nam: seq<Byte>, skip: nat, inf: bool) returns (r: bool)
    requires CodePage(ext) && Text(pat) && Text(nam)
    ensures r == GlobBehind(ext, pat, nam, skip, inf)
    ensures skip == 0 && !inf ==> r == Glob(ext, pat, nam)
    decreases |pat|, 3
  {
    hide Glob, CodePage, Text, Fold;
    assert nam[0..] == nam;
    var n, k := 0, skip;
    while k != 0
      invariant 0 <= k && n + k == skip && n <= |nam|
      decreases k
    {
      k := k - 1;
      TextCharAt(ext, nam, n);
      if CharAt(ext, nam, n) == 0 { return false; }
      n := n + 1;
    }
    if |pat| == 0 && inf {
      GlobEmpty(ext, pat, nam);
      return true;
    }
    r := Shift(ext, pat, nam, skip, inf);
  }

  // The loop that tries the pattern at one place of the name after the other.
  method Shift(ext: seq<Byte>, pat: seq<Byte>, nam: seq<Byte>, skip: nat, inf: bool) returns (r: bool)
    requires CodePage(ext) && Text(pat) && Text(nam) && skip <= |nam|
    ensures r == GlobBehind(ext, pat, nam, skip, inf)
    decreases |pat|, 2
  {
    hide Glob, CodePage, Text, Fold, Literal;
    var n := skip;
    while true
      invariant skip <= n <= |nam|
      invariant n > skip ==> inf
      invariant forall j | skip <= j < n :: !Glob(ext, pat, nam[j..])
      decreases |nam| - n
    {
      TextTail(nam, n);
      var matched, nc := Attempt(ext, pat, nam[n..]);
      if matched { return true; }
      if nc == 0 {
        NoLaterMatch(ext, pat, nam, n);
      }
      if !(inf && nc != 0) { return false; }
      n := n + 1;
    }
  }

  lemma TextTail(s: seq<Byte>, n: nat)
    requires Text(s) && n <= |s|
    ensures Text(s[n..])
  {
  }

  lemma TextCharAt(ext: seq<Byte>, s: seq<Byte>, i: nat)
    requires CodePage(ext) && Text(s)
    ensures CharAt(ext, s, i) == 0 <==> i >= |s|
  {
    hide Fold, CodePage;
  }

  // Nothing matches an empty pattern but the empty rest at the end of the name.
  lemma GlobEmpty(ext: seq<Byte>, p: seq<Byte>, s: seq<Byte>)
    requires CodePage(ext) && p == []
    ensures Glob(ext, p, s[|s|..])
  {
    assert s[|s|..] == [];
  }

  // Behind a failure at the end of the name only shorter rests follow, which cannot match.
  lemma NoLaterMatch(ext: seq<Byte>, pat: seq<Byte>, nam: seq<Byte>, n: nat)
    requires CodePage(ext) && n <= |nam| && |nam| - n <= Literal(pat)
    ensures forall j | n < j <= |nam| :: !Glob(ext, pat, nam[j..])
  {
    forall j | n < j <= |nam| ensures !Glob(ext, pat, nam[j..]) {
      if Glob(ext, pat, nam[j..]) {
        GlobNeedsLiteral(ext, pat, nam[j..]);
      }
    }
  }

  // One character of the literal start.
  lemma GlobStep(ext: seq<Byte>, pat: seq<Byte>, nam: seq<Byte>, i: nat)
    requires CodePage(ext) && Text(pat) && Text(nam) && i <= |pat| && i <= |nam| && (i < |pat| ==> !Wild(pat[i]))
    ensures CharAt(ext, pat, i) != CharAt(ext, nam, i) ==> !Glob(ext, pat[i..], nam[i..])
    ensures CharAt(ext, pat, i) == CharAt(ext, nam, i) == 0 ==> Glob(ext, pat[i..], nam[i..])
    ensures CharAt(ext, pat, i) == CharAt(ext, nam, i) != 0 ==>
              i < |pat| && i < |nam| && Glob(ext, pat[i..], nam[i..]) == Glob(ext, pat[i + 1..], nam[i + 1..])
  {
    hide Fold, CodePage, Text;
    TextCharAt(ext, pat, i);
    TextCharAt(ext, nam, i);
    if i < |pat| {
      assert pat[i..][1..] == pat[i + 1..];
      if i < |nam| {
        assert nam[i..][1..] == nam[i + 1..];
      }
    }
  }

  lemma {:induction false} LiteralReach(p: seq<Byte>, i: nat)
    requires i <= |p| && forall j | 0 <= j < i :: !Wild(p[j])
    ensures i <= Literal(p)
  {
    if i > 0 {
      LiteralReach(p[1..], i - 1);
    }
  }

  // One round of the shift loop: the pattern against the name from its first character on. On a
  // failure nc is 0 only if the name ended within the pattern's literal start.
  method Attempt(ext: seq<Byte>, pat: seq<Byte>, nam: seq<Byte>) returns (matched: bool, nc: Byte)
    requires CodePage(ext) && Text(pat) && Text(nam)
    ensures matched == Glob(ext, pat, nam)
    ensures !matched && nc == 0 ==> |nam| <= Literal(pat)
    ensures nc != 0 ==> nam != []
    decreases |pat|, 1
  {
    hide Glob, CodePage, Text, Fold, Literal, CharAt;
    var i: nat := 0;
    assert pat[0..] == pat && nam[0..] == nam;
    while true
      invariant i <= |pat| && i <= |nam|
      invariant forall j | 0 <= j < i :: !Wild(pat[j])
      invariant Glob(ext, pat, nam) == Glob(ext, pat[i..], nam[i..])
      decreases |pat| - i
    {
      LiteralReach(pat, i);
      if i < |pat| && Wild(pat[i]) {
        TextTail(nam, i);
        matched := WildBranch(ext, pat, i, nam[i..]);
        TextAt(nam, i);
        nc := if i < |nam| then nam[i] else 0;
        return;
      }
      var pc := CharAt(ext, pat, i);
      nc := CharAt(ext, nam, i);
      GlobStep(ext, pat, nam, i);
      TextCharAt(ext, nam, i);
      if pc != nc { return false, nc; }
      if pc == 0 { return true, nc; }
      i := i + 1;
    }
  }

  lemma TextAt(s: seq<Byte>, i: nat)
    requires Text(s)
    ensures i < |s| ==> s[i] != 0
  {
  }

  // The wildcards from position w on, and the match of what follows them.
  method WildBranch(ext: seq<Byte>, pat: seq<Byte>, w: nat, nam: seq<Byte>) returns (matched: bool)
    requires CodePage(ext) && Text(pat) && Text(nam) && w < |pat| && Wild(pat[w])
    ensures matched == Glob(ext, pat[w..], nam)
    decreases |pat|, 0
  {
    hide Glob, CodePage, Text, GlobBehind;
    var pp, nm, nx := Wildcards(pat, w);
    WildBlock(ext, pat[w..pp], pat[pp..], nam);
    assert pat[w..] == pat[w..pp] + pat[pp..];
    TextTail(pat, pp);
    matched := PatternMatching(ext, pat[pp..], nam, nm, nx);
  }

  method Wildcards(pat: seq<Byte>, w: nat) returns (pp: nat, nm: nat, nx: bool)
    requires w < |pat| && Wild(pat[w])
    ensures w < pp <= |pat| && AllWild(pat[w..pp])
    ensures nm == Asks(pat[w..pp]) && nx == (STAR in pat[w..pp])
  {
    pp, nm, nx := w, 0, false;
    assert pat[w..pp] == [];
    while true
      invariant w <= pp < |pat| && Wild(pat[pp])
      invariant AllWild(pat[w..pp])
      invariant nm == Asks(pat[w..pp]) && nx == (STAR in pat[w..pp])
      decreases |pat| - pp
    {
      AsksAppend(pat[w..pp], pat[pp]);
      SliceGrows(pat, w, pp);
      if pat[pp] == ASK { nm := nm + 1; } else { nx := true; }
      pp := pp + 1;
      if !(pp < |pat| && Wild(pat[pp])) { return; }
    }
  }

  lemma SliceGrows(s: seq<Byte>, a: nat, b: nat)
    requires a <= b < |s|
    ensures s[a..b + 1] == s[a..b] + [s[b]]
  {
  }

  lemma {:induction false} AsksAppend(w: seq<Byte>, c: Byte)
    ensures Asks(w + [c]) == Asks(w) + (if c == ASK then 1 else 0)
  {
    if w == [] {
      assert w + [c] == [c];
    } else {
      assert (w + [c])[1..] == w[1..] + [c];
      AsksAppend(w[1..], c);
    }
  }
}
