// Intel HEX: the writer of bin2hex and the reader of hex2bin.
module Hex {
  import opened Bytes

  const MAX_PAYLOAD: int := 59

  // ---- Records and their text ----

  // A record: number of payload bytes, address high and low, type, payload, checksum.
  type Raw = seq<Byte>

  predicate Fits(r: Raw) {
    |r| >= 5 && r[0] <= MAX_PAYLOAD && |r| == r[0] + 5
  }

  function Digit(n: nat): (c: char)
    requires n < 16
    ensures c != ':'
  {
    "0123456789ABCDEF"[n]
  }

  // The formats of two and of four digits.
  function Hex2(b: Byte): string {
    [Digit(b / 16), Digit(b % 16)]
  }

  function Hex4(w: Word): string {
    [Digit(w / 4096), Digit(w / 256 % 16), Digit(w / 16 % 16), Digit(w % 16)]
  }

  function HexAll(s: seq<Byte>): (t: string)
    ensures |t| == 2 * |s|
  {
    if s == [] then "" else Hex2(s[0]) + HexAll(s[1..])
  }

  function Print(r: Raw): string {
    ":" + HexAll(r) + "\n"
  }

  function PrintAll(rs: seq<Raw>): string {
    if rs == [] then "" else Print(rs[0]) + PrintAll(rs[1..])
  }

  function Sum(s: seq<Byte>): nat {
    if s == [] then 0 else Sum(s[..|s| - 1]) + s[|s| - 1]
  }

  predicate SumsToZero(r: Raw) {
    Sum(r) % 0x100 == 0
  }

  lemma {:induction false} HexAllAppend(a: seq<Byte>, b: seq<Byte>)
    ensures HexAll(a + b) == HexAll(a) + HexAll(b)
  {
    if a == [] {
      assert a + b == b;
    } else {
      assert (a + b)[1..] == a[1..] + b;
      HexAllAppend(a[1..], b);
    }
  }

  lemma {:induction false} PrintAllAppend(a: seq<Raw>, b: seq<Raw>)
    ensures PrintAll(a + b) == PrintAll(a) + PrintAll(b)
  {
    hide Print;
    if a == [] {
      assert a + b == b;
    } else {
      assert (a + b)[1..] == a[1..] + b;
      PrintAllAppend(a[1..], b);
    }
  }

  lemma {:induction false} SumAppend(a: seq<Byte>, b: seq<Byte>)
    ensures Sum(a + b) == Sum(a) + Sum(b)
  {
    if b == [] {
      assert a + b == a;
    } else {
      assert (a + b)[..|a + b| - 1] == a + b[..|b| - 1];
      SumAppend(a, b[..|b| - 1]);
    }
  }

  lemma Hex4IsHexAll(w: Word)
    ensures Hex4(w) == HexAll([Hi(w), Lo(w)])
  {
    hide Digit, Hi, Lo;
    var hi, lo := Hi(w), Lo(w);
    assert [hi, lo][1..] == [lo] && [lo][1..] == [];
    HighNibbles(w);
    LowNibbles(w);
  }

  lemma HighNibbles(w: Word)
    ensures Hi(w) / 16 == w / 4096 && Hi(w) % 16 == w / 256 % 16
  {
  }

  lemma LowNibbles(w: Word)
    ensures Lo(w) / 16 == w / 16 % 16 && Lo(w) % 16 == w % 16
  {
    var a, b, c: int := w / 256, w % 256 / 16, w % 16;
    assert w == 256 * a + 16 * b + c;
    assert w / 16 == 16 * a + b;
  }

  // ---- The reader ----

  // One digit as read_hexuint8_t takes it: anything else is 0.
  function Value(c: char): (n: nat)
    ensures n < 16
  {
    if '0' <= c <= '9' then (c as int) % 16 else if 'A' <= c <= 'F' then c as int - 55 else 0
  }

  lemma ValueOfDigit(n: nat)
    requires n < 16
    ensures Value(Digit(n)) == n
  {
  }

  lemma DigitOfValue(c: char)
    ensures Value(c) != 0 ==> Digit(Value(c)) == c
  {
  }

  // What two characters of the text from pos on stand for, or 0 if there are no two left.
  function ByteAt(text: string, pos: nat): Byte {
    if pos + 2 <= |text| then Value(text[pos]) * 16 + Value(text[pos + 1]) else 0
  }

  method ReadHexByte(text: string, pos: nat) returns (b: Byte, next: nat)
    requires pos <= |text|
    ensures b == ByteAt(text, pos) && next == if pos + 2 <= |text| then pos + 2 else |text|
  {
    if pos + 2 <= |text| {
      b, next := Value(text[pos]) * 16 + Value(text[pos + 1]), pos + 2;
    } else {
      b, next := 0, |text|;
    }
  }

  lemma {:induction false} DigitsAt(s: seq<Byte>, i: nat)
    requires i < |s|
    ensures HexAll(s)[2 * i] == Digit(s[i] / 16) && HexAll(s)[2 * i + 1] == Digit(s[i] % 16)
  {
    hide Digit;
    if i > 0 {
      DigitsAt(s[1..], i - 1);
    }
  }

  // Reading the digits of byte i of a record gives that byte.
  lemma ReadsBack(text: string, start: nat, r: Raw, i: nat)
    requires start + 2 * |r| <= |text| && text[start..start + 2 * |r|] == HexAll(r) && i < |r|
    ensures ByteAt(text, start + 2 * i) == r[i]
  {
    hide Digit, Value, HexAll;
    DigitsAt(r, i);
    var digits := text[start..start + 2 * |r|];
    assert text[start + 2 * i] == digits[2 * i] && text[start + 2 * i + 1] == digits[2 * i + 1];
    ValueOfDigit(r[i] / 16);
    ValueOfDigit(r[i] % 16);
  }

  // The record whose digits start at a place of any text; where the text ends its bytes are 0.
  function RecordAt(text: string, start: nat): (r: Raw)
    ensures |r| >= 5 && |r| == r[0] as int + 5
  {
    seq<Byte>(ByteAt(text, start) as int + 5, i requires 0 <= i => ByteAt(text, start + 2 * i))
  }

  // Behind a record, and behind the characters up to the next colon.
  function Behind(text: string, pos: nat): (p: nat)
    ensures p <= |text|
  {
    if pos <= |text| then pos else |text|
  }

  function NextColon(text: string, pos: nat): (c: nat)
    requires pos <= |text|
    ensures pos <= c <= |text| && (c < |text| ==> text[c] == ':') && forall i | pos <= i < c :: text[i] != ':'
    decreases |text| - pos
  {
    if pos == |text| || text[pos] == ':' then pos else NextColon(text, pos + 1)
  }

  // All records of any text.
  function Parsed(text: string, pos: nat): seq<Raw>
    requires pos <= |text|
    decreases |text| - pos
  {
    var c := NextColon(text, pos);
    if c == |text| then []
    else
      var r := RecordAt(text, c + 1);
      [r] + Parsed(text, Behind(text, c + 1 + 2 * |r|))
  }

  lemma SumStep(r: seq<Byte>, i: nat)
    requires i < |r|
    ensures Sum(r[..i + 1]) == Sum(r[..i]) + r[i]
  {
    assert r[..i + 1][..i] == r[..i];
  }

  // The bytes of one record and their sum.
  method ReadRecord(text: string, start: nat) returns (data: Raw, chk: Byte, pos: nat)
    requires start <= |text|
    ensures data == RecordAt(text, start) && chk == Sum(data) % 0x100 && pos == Behind(text, start + 2 * |data|)
  {
    hide ByteAt, Sum;
    ghost var r := RecordAt(text, start);
    data, chk, pos := [], 0, start;
    SumOfNothing();
    while true
      invariant |data| < |r| && data == r[..|data|] && pos == Behind(text, start + 2 * |data|)
      invariant chk == Sum(r[..|data|]) % 0x100
      decreases |r| - |data|
    {
      var d;
      SumStep(r, |data|);
      ModSum(Sum(r[..|data|]), r[|data|]);
      AtEnd(text, start + 2 * |data|);
      d, pos := ReadHexByte(text, pos);
      chk := (chk as int + d) % 0x100;
      data := data + [d];
      if |data| >= data[0] as int + 5 { break; }
    }
    assert r[..|r|] == r;
  }

  // At the end of the text every byte is 0.
  lemma AtEnd(text: string, pos: nat)
    ensures ByteAt(text, Behind(text, pos)) == ByteAt(text, pos)
  {
  }

  lemma SumOfNothing()
    ensures Sum([]) == 0
  {
  }

  // What the reader remembers between records: the address, the highest place written and the buffer.
  datatype Reader = Reader(addr: Dword, high: nat, buf: seq<Byte>)

  datatype Outcome = Go(r: Reader) | Stop(high: nat, buf: seq<Byte>)

  function Stored(buf: seq<Byte>, p: nat, payload: seq<Byte>): (b: seq<Byte>)
    requires p + |payload| <= |buf|
    ensures |b| == |buf|
  {
    buf[..p] + payload + buf[p + |payload|..]
  }

  function High(addr: Dword): nat {
    addr / 0x1_0000 * 0x1_0000
  }

  // What one record does. The size is only checked for its first byte; the buffer has room behind it.
  function Step(r: Reader, raw: Raw, offset: Dword, size: nat): (o: Outcome)
    requires Fits(raw) && |r.buf| == size + 64
    ensures o.Go? ==> |o.r.buf| == |r.buf|
  {
    var kind := raw[3];
    if kind == 1 then Stop(r.high, r.buf)
    else if kind == 2 then
      if raw[0] == 2 then Go(r.(addr := ((raw[4] as int) * 0x100 + raw[5]) * 16)) else Stop(0, r.buf)
    else if kind == 4 then
      if raw[0] == 2 then Go(r.(addr := ((raw[4] as int) * 0x100 + raw[5]) * 0x1_0000 + r.addr % 0x1_0000))
      else Stop(0, r.buf)
    else if kind == 3 || kind == 5 then Go(r)
    else if kind == 0 then
      var a: int := High(r.addr) + (raw[1] as int) * 0x100 + raw[2];
      if a < offset || a - offset >= size then Stop(0, r.buf)
      else
        var n: int := raw[0];
        Go(Reader(Wrap32(a + n), if n > 0 && a - offset + n - 1 > r.high then a - offset + n - 1 else r.high,
                  Stored(r.buf, a - offset, raw[4..4 + n])))
    else Stop(0, r.buf)
  }

  // A file of records; one without an end record gives 0.
  function ReadAll(recs: seq<Raw>, offset: Dword, size: nat, r: Reader): (o: Outcome)
    requires (forall raw | raw in recs :: Fits(raw)) && |r.buf| == size + 64
    ensures o.Stop?
  {
    if recs == [] then Stop(0, r.buf)
    else
      match Step(r, recs[0], offset, size)
      case Stop(high, buf) => Stop(high, buf)
      case Go(r') => ReadAll(recs[1..], offset, size, r')
  }

  // The records up to the one that stops the reader whose sum is not zero.
  function Bad(recs: seq<Raw>, offset: Dword, size: nat, r: Reader): nat
    requires (forall raw | raw in recs :: Fits(raw)) && |r.buf| == size + 64
  {
    if recs == [] then 0
    else
      (if SumsToZero(recs[0]) then 0 else 1) +
      match Step(r, recs[0], offset, size)
      case Stop(_, _) => 0
      case Go(r') => Bad(recs[1..], offset, size, r')
  }

  // The payload of a data record, byte by byte.
  method StoreData(buffer: array<Byte>, data: Raw, addr: Dword, offset: Dword, high: nat)
    returns (addr': Dword, high': nat)
    requires Fits(data) && offset <= addr && addr - offset + MAX_PAYLOAD <= buffer.Length <= 0x1_0000_0000
    modifies buffer
    ensures buffer[..] == Stored(old(buffer[..]), addr - offset, data[4..4 + data[0] as int])
    ensures addr' == Wrap32(addr + data[0] as int)
    ensures var last := addr - offset + (data[0] as int) - 1; high' == if data[0] > 0 && last > high then last else high
  {
    addr', high' := addr, high;
    var i := 0;
    var p: int := addr - offset;
    while i < data[0] as int
      invariant 0 <= i <= data[0] && addr' == Wrap32(addr + i)
      invariant forall k | 0 <= k < buffer.Length ::
                buffer[k] == if p <= k < p + i then data[4 + k - p] else old(buffer[k])
      invariant high' == if i > 0 && p + i - 1 > high then p + i - 1 else high
    {
      Distance(addr, offset, i);
      buffer[Sub32(addr', offset)] := data[4 + i];
      if Sub32(addr', offset) > high' { high' := Sub32(addr', offset); }
      addr' := Wrap32(addr' + 1);
      i := i + 1;
    }
  }

  // The distance from the offset grows with the address, also over the end of the address space.
  lemma Distance(addr: Dword, offset: Dword, i: nat)
    requires offset <= addr && addr - offset + i < 0x1_0000_0000 && i < MAX_PAYLOAD
    ensures Sub32(Wrap32(addr + i), offset) == addr - offset + i
    ensures Wrap32(Wrap32(addr + i) + 1) == Wrap32(addr + i + 1)
  {
  }

  // A file of records with any characters but colons in front of, between and behind them.
  function Spell(recs: seq<Raw>, gaps: seq<string>): string
    requires |gaps| == |recs| + 1
  {
    if recs == [] then gaps[0] else gaps[0] + ":" + HexAll(recs[0]) + Spell(recs[1..], gaps[1..])
  }

  predicate NoColon(gaps: seq<string>) {
    forall i | 0 <= i < |gaps| :: ':' !in gaps[i]
  }

  // The characters up to the next colon.
  method FindRecord(text: string, start: nat) returns (found: bool, pos: nat)
    requires start <= |text|
    ensures found == (NextColon(text, start) < |text|) && pos == NextColon(text, start) + 1
  {
    pos := start;
    while pos < |text| && text[pos] != ':'
      invariant start <= pos <= |text| && NextColon(text, pos) == NextColon(text, start)
    {
      pos := pos + 1;
    }
    found := pos < |text|;
    pos := pos + 1;
  }

  // The records of a file are those that were spelled in it.
  lemma {:induction false} ParsedSpelled(text: string, pos: nat, recs: seq<Raw>, gaps: seq<string>)
    requires |gaps| == |recs| + 1 && NoColon(gaps) && (forall raw | raw in recs :: Fits(raw))
    requires pos <= |text| && text[pos..] == Spell(recs, gaps)
    ensures Parsed(text, pos) == recs
    decreases |recs|
  {
    hide HexAll, Fits, RecordAt, NextColon, Parsed;
    var g := gaps[0];
    if recs == [] {
      GapPassed(text, pos, g);
      NothingParsed(text, pos);
    } else {
      var h, rest := HexAll(recs[0]), Spell(recs[1..], gaps[1..]);
      SpelledParts(text, pos, g, h, rest);
      GapPassed(text, pos, g);
      SpelledRecord(text, pos + |g| + 1, recs[0]);
      ParsedFirst(text, pos, pos + |g|, recs[0]);
      ParsedSpelled(text, pos + |g| + 1 + |h|, recs[1..], gaps[1..]);
      assert recs == [recs[0]] + recs[1..];
    }
  }

  lemma NothingParsed(text: string, pos: nat)
    requires pos <= |text| && NextColon(text, pos) == |text|
    ensures Parsed(text, pos) == []
  {
  }

  lemma ParsedFirst(text: string, pos: nat, c: nat, r: Raw)
    requires pos <= |text| && c == NextColon(text, pos) < |text| && r == RecordAt(text, c + 1)
    requires c + 1 + 2 * |r| <= |text|
    ensures Parsed(text, pos) == [r] + Parsed(text, c + 1 + 2 * |r|)
  {
    hide RecordAt, NextColon;
  }

  lemma GapPassed(text: string, pos: nat, g: string)
    requires pos + |g| <= |text| && text[pos..pos + |g|] == g && ':' !in g
    requires pos + |g| == |text| || text[pos + |g|] == ':'
    ensures NextColon(text, pos) == pos + |g|
  {
    forall i | pos <= i < pos + |g| ensures text[i] != ':' {
      assert text[i] == g[i - pos];
    }
  }

  lemma SpelledRecord(text: string, start: nat, r: Raw)
    requires Fits(r) && start + 2 * |r| <= |text| && text[start..start + 2 * |r|] == HexAll(r)
    ensures RecordAt(text, start) == r
  {
    hide HexAll, ByteAt;
    forall i | 0 <= i < |r| ensures ByteAt(text, start + 2 * i) == r[i] {
      ReadsBack(text, start, r, i);
    }
    assert ByteAt(text, start + 2 * 0) == r[0];
  }

  lemma SpelledParts(text: string, start: nat, g: string, h: string, rest: string)
    requires start <= |text| && text[start..] == g + ":" + h + rest
    ensures var next := start + |g|;
            && next + 1 + |h| <= |text| && text[next] == ':' && text[start..next] == g
            && text[next + 1..next + 1 + |h|] == h && text[next + 1 + |h|..] == rest
  {
    var s := text[start..];
    assert s[..|g|] == g && s[|g|] == ':' && s[|g| + 1..|g| + 1 + |h|] == h && s[|g| + 1 + |h|..] == rest;
  }

  // What the writer prints is such a file, with a newline behind every record.
  function Newlines(n: nat): seq<string> {
    seq(n, _ => "\n")
  }

  lemma PrintIsSpelled(recs: seq<Raw>)
    ensures PrintAll(recs) == Spell(recs, [""] + Newlines(|recs|)) && NoColon([""] + Newlines(|recs|))
  {
    hide PrintAll, Spell;
    PrintBehindNewline(recs);
    FirstGap(recs, "\n", Newlines(|recs|));
    assert ("\n" + PrintAll(recs))[1..] == PrintAll(recs);
  }

  lemma FirstGap(recs: seq<Raw>, g: string, gaps: seq<string>)
    requires |gaps| == |recs|
    ensures Spell(recs, [g] + gaps) == g + Spell(recs, [""] + gaps)
  {
    hide HexAll;
    assert ([g] + gaps)[1..] == gaps && ([""] + gaps)[1..] == gaps;
  }

  lemma {:induction false} PrintBehindNewline(recs: seq<Raw>)
    ensures "\n" + PrintAll(recs) == Spell(recs, ["\n"] + Newlines(|recs|))
  {
    hide HexAll;
    var gaps := ["\n"] + Newlines(|recs|);
    if recs != [] {
      assert gaps[1..] == ["\n"] + Newlines(|recs| - 1);
      PrintBehindNewline(recs[1..]);
    }
  }

  // read_hex_file without record structures: on any text the buffer and the result are what its records say.
  method ReadHexFile(text: string, buffer: array<Byte>, offset: Dword, size: nat)
    returns (result: nat, complaints: nat)
    requires forall raw | raw in Parsed(text, 0) :: Fits(raw)
    requires buffer.Length == size + 64 <= 0x1_0000_0000
    modifies buffer
    ensures ReadAll(Parsed(text, 0), offset, size, Reader(0, 0, old(buffer[..]))) == Stop(result, buffer[..])
    ensures complaints == Bad(Parsed(text, 0), offset, size, Reader(0, 0, old(buffer[..])))
  {
    hide Step, Fits, Sum, ReadAll, Parsed, RecordAt, Bad;
    var addr: Dword, high: nat, pos: nat := 0, 0, 0;
    ghost var recs, k: nat := Parsed(text, 0), 0;
    ghost var all := ReadAll(recs, offset, size, Reader(0, 0, buffer[..]));
    ghost var bad := Bad(recs, offset, size, Reader(0, 0, buffer[..]));
    complaints := 0;
    assert recs[0..] == recs;
    while true
      invariant k <= |recs| && pos <= |text| && recs[k..] == Parsed(text, pos)
      invariant all == ReadAll(recs[k..], offset, size, Reader(addr, high, buffer[..]))
      invariant complaints + Bad(recs[k..], offset, size, Reader(addr, high, buffer[..])) == bad
      decreases |recs| - k
    {
      var found;
      ParsedStep(text, pos, recs, k);
      found, pos := FindRecord(text, pos);
      if !found {
        NoMore(recs, k, offset, size, Reader(addr, high, buffer[..]));
        return 0, complaints;
      }
      OneMore(recs, k, offset, size, Reader(addr, high, buffer[..]));
      var data, chk;
      data, chk, pos := ReadRecord(text, pos);
      assert recs[k] in recs;
      if chk != 0 { complaints := complaints + 1; }
      var done: bool;
      done, addr, high := OneRecord(buffer, data, addr, offset, high, size);
      if done { return high, complaints; }
      k := k + 1;
    }
  }

  lemma ParsedStep(text: string, pos: nat, recs: seq<Raw>, k: nat)
    requires pos <= |text| && k <= |recs| && recs[k..] == Parsed(text, pos)
    ensures var c := NextColon(text, pos);
            if c == |text| then k == |recs|
            else
              && k < |recs| && recs[k] == RecordAt(text, c + 1)
              && recs[k + 1..] == Parsed(text, Behind(text, c + 1 + 2 * |recs[k]|))
  {
    hide RecordAt;
    if NextColon(text, pos) < |text| {
      assert recs[k..][0] == recs[k] && recs[k..][1..] == recs[k + 1..];
    }
  }

  lemma OneMore(recs: seq<Raw>, k: nat, offset: Dword, size: nat, r: Reader)
    requires (forall raw | raw in recs :: Fits(raw)) && |r.buf| == size + 64 && k < |recs|
    ensures ReadAll(recs[k..], offset, size, r) ==
              match Step(r, recs[k], offset, size)
              case Stop(high, buf) => Stop(high, buf)
              case Go(r') => ReadAll(recs[k + 1..], offset, size, r')
    ensures Bad(recs[k..], offset, size, r) == (if SumsToZero(recs[k]) then 0 else 1) +
              match Step(r, recs[k], offset, size)
              case Stop(_, _) => 0
              case Go(r') => Bad(recs[k + 1..], offset, size, r')
  {
    hide Step, Fits, SumsToZero;
    assert recs[k..][0] == recs[k] && recs[k..][1..] == recs[k + 1..];
  }

  lemma NoMore(recs: seq<Raw>, k: nat, offset: Dword, size: nat, r: Reader)
    requires |r.buf| == size + 64 && k == |recs|
    ensures recs[k..] == [] && ReadAll([], offset, size, r) == Stop(0, r.buf) && Bad([], offset, size, r) == 0
  {
  }

  // There is none if all records sum to zero.
  lemma {:induction false} NoneBad(recs: seq<Raw>, offset: Dword, size: nat, r: Reader)
    requires (forall raw | raw in recs :: Fits(raw)) && |r.buf| == size + 64
    ensures (forall raw | raw in recs :: SumsToZero(raw)) ==> Bad(recs, offset, size, r) == 0
    decreases |recs|
  {
    hide Step, Fits, SumsToZero;
    if recs != [] {
      var o := Step(r, recs[0], offset, size);
      if o.Go? {
        NoneBad(recs[1..], offset, size, o.r);
      }
    }
  }

  // The switch over the record type.
  method OneRecord(buffer: array<Byte>, data: Raw, addr: Dword, offset: Dword, high: nat, size: nat)
    returns (done: bool, addr': Dword, high': nat)
    requires Fits(data) && buffer.Length == size + 64 <= 0x1_0000_0000
    modifies buffer
    ensures Step(Reader(addr, high, old(buffer[..])), data, offset, size) ==
              if done then Stop(high', buffer[..]) else Go(Reader(addr', high', buffer[..]))
  {
    hide Stored;
    done, addr', high' := false, addr, high;
    match data[3]
    case 1 =>
      done := true;
    case 2 =>
      if data[0] == 2 {
        addr' := ((data[4] as int) * 0x100 + data[5]) * 16;
      } else {
        done, high' := true, 0;
      }
    case 4 =>
      if data[0] == 2 {
        addr' := ((data[4] as int) * 0x100 + data[5]) * 0x1_0000 + addr % 0x1_0000;
      } else {
        done, high' := true, 0;
      }
    case 5 =>
    case 3 =>
    case 0 =>
      var a := High(addr) + (data[1] as int) * 0x100 + data[2];
      if a < offset || a - offset >= size {
        done, high' := true, 0;
      } else {
        addr', high' := StoreData(buffer, data, a, offset, high);
      }
    case _ =>
      done, high' := true, 0;
  }

  // ---- The writer ----

  const END: Raw := [0, 0, 0, 1, 0xFF]

  function Checksum(s: seq<Byte>): Byte {
    (0x100 - Sum(s) % 0x100) % 0x100
  }

  function Hi(w: Word): Byte {
    w / 0x100
  }

  function Lo(w: Word): Byte {
    w % 0x100
  }

  function LineHead(n: Byte, w: Word): seq<Byte> {
    [n, Hi(w), Lo(w), 0]
  }

  function LineBody(w: Word, payload: seq<Byte>): seq<Byte>
    requires |payload| <= 32
  {
    LineHead(|payload|, w) + payload
  }

  function DataRaw(hex: Dword, payload: seq<Byte>): Raw
    requires |payload| <= 32
  {
    var body := LineBody(hex % 0x1_0000, payload);
    body + [Checksum(body)]
  }

  function SegmentRaw(segment: Word): Raw {
    var body: seq<Byte> := [2, 0, 0, 4, Hi(segment), Lo(segment)];
    body + [Checksum(body)]
  }

  // Bytes of the next line: 32, or what is left of the segment or of the data.
  function LineLength(hex: Dword, left: nat): (n: nat)
    ensures n <= left && n <= 32 && (left > 0 ==> n > 0) && hex % 0x1_0000 + n <= 0x1_0000
  {
    var inSegment := 0x1_0000 - hex % 0x1_0000;
    var line := if inSegment > 32 then 32 else inSegment;
    if left < line then left else line
  }

  // The records of data from address hex on; the first one and every 64K a segment record before it.
  function Records(data: seq<Byte>, hex: nat, first: bool): seq<Raw>
    requires hex + |data| <= 0x1_0000_0000
    decreases |data|
  {
    if data == [] then []
    else
      var n := LineLength(hex, |data|);
      (if first || hex % 0x1_0000 == 0 then [SegmentRaw(hex / 0x1_0000)] else [])
      + [DataRaw(hex, data[..n])] + Records(data[n..], hex + n, false)
  }

  lemma ChecksumSums(body: seq<Byte>)
    ensures SumsToZero(body + [Checksum(body)])
  {
    assert (body + [Checksum(body)])[..|body|] == body;
  }

  // A record is complete, sums to zero, and as a data record stays within its 64K segment.
  predicate Proper(r: Raw) {
    Fits(r) && SumsToZero(r) && (r[3] == 0 ==> (r[1] as int) * 0x100 + r[2] + r[0] <= 0x1_0000)
  }

  lemma RawsAreProper(hex: Dword, payload: seq<Byte>)
    requires |payload| <= 32 && hex % 0x1_0000 + |payload| <= 0x1_0000
    ensures Proper(DataRaw(hex, payload)) && Proper(SegmentRaw(hex / 0x1_0000))
  {
    hide SumsToZero, Checksum;
    ChecksumSums(LineBody(hex % 0x1_0000, payload));
    ChecksumSums([2, 0, 0, 4, Hi(hex / 0x1_0000), Lo(hex / 0x1_0000)]);
  }

  lemma {:induction false} RecordsAreProper(data: seq<Byte>, hex: nat, first: bool)
    requires hex + |data| <= 0x1_0000_0000
    ensures forall r | r in Records(data, hex, first) + [END] :: Proper(r)
    decreases |data|
  {
    hide Proper, DataRaw, SegmentRaw, LineLength;
    EndIsProper();
    if data != [] {
      var n := LineLength(hex, |data|);
      RawsAreProper(hex, data[..n]);
      RecordsAreProper(data[n..], hex + n, false);
    }
  }

  lemma EndIsProper()
    ensures Proper(END)
  {
    SumStep(END, 0);
    SumStep(END, 1);
    SumStep(END, 2);
    SumStep(END, 3);
    SumStep(END, 4);
    assert END[..0] == [] && END[..5] == END;
  }

  // The payload of a line and its share of the checksum.
  method PrintBytes(buffer: seq<Byte>, ch0: Byte) returns (out: string, ch: Byte)
    ensures out == HexAll(buffer) && ch == (ch0 + Sum(buffer)) % 0x100
  {
    hide Hex2, Sum, HexAll;
    out, ch := "", ch0;
    NothingPrinted();
    assert buffer[..0] == [];
    for i := 0 to |buffer|
      invariant out == HexAll(buffer[..i]) && ch == (ch0 + Sum(buffer[..i])) % 0x100
    {
      NextByte(buffer[..i], buffer[i]);
      assert buffer[..i + 1] == buffer[..i] + [buffer[i]];
      ModSum(ch0 + Sum(buffer[..i]), buffer[i]);
      out := out + Hex2(buffer[i]);
      ch := (ch as int + buffer[i]) % 0x100;
    }
    assert buffer[..|buffer|] == buffer;
  }

  lemma NothingPrinted()
    ensures HexAll([]) == "" && Sum([]) == 0
  {
  }

  // One data line as the loop prints it.
  method PrintData(hexOffset: Dword, buffer: seq<Byte>) returns (line: string)
    requires 0 < |buffer| <= 32
    ensures line == Print(DataRaw(hexOffset, buffer))
  {
    hide Hex2, Hex4, Sum, HexAll, LineBody, Checksum;
    var offsetOut: Word := hexOffset % 0x1_0000;
    var b1: Byte, b2: Byte := offsetOut % 0x100, offsetOut / 0x100;
    line := ":" + Hex2(|buffer|) + Hex4(offsetOut) + "00";
    var payload, ch := PrintBytes(buffer, (|buffer| + b1 + b2) % 0x100);
    ch := (0xFF - ch as int + 1) % 0x100;
    DataText(offsetOut, buffer);
    LineChecksum(offsetOut, buffer);
    line := line + payload + Hex2(ch) + "\n";
  }

  lemma DataText(w: Word, payload: seq<Byte>)
    requires |payload| <= 32
    ensures HexAll(LineBody(w, payload) + [Checksum(LineBody(w, payload))]) ==
              Hex2(|payload|) + Hex4(w) + "00" + HexAll(payload) + Hex2(Checksum(LineBody(w, payload)))
  {
    hide Hex2, Hex4, Sum, HexAll, Checksum, LineHead;
    LineStart(|payload|, w);
    HexAllAppend(LineHead(|payload|, w), payload);
    NextByte(LineBody(w, payload), Checksum(LineBody(w, payload)));
  }

  lemma LineChecksum(w: Word, payload: seq<Byte>)
    requires |payload| <= 32
    ensures Checksum(LineBody(w, payload)) ==
              (0xFF - ((|payload| + w % 0x100 + w / 0x100) % 0x100 + Sum(payload)) % 0x100 + 1) % 0x100
  {
    hide Hex2, Hex4, Sum, HexAll, LineHead;
    LineStart(|payload|, w);
    SumAppend(LineHead(|payload|, w), payload);
    ModSum(|payload| + w % 0x100 + w / 0x100, Sum(payload));
  }

  lemma ModSum(a: nat, b: nat)
    ensures (a % 0x100 + b) % 0x100 == (a + b) % 0x100
  {
  }

  lemma SegmentSum(a: Byte, b: Byte)
    ensures (0x100 - (6 + a + b) % 0x100) % 0x100 == (0xFA - b - a) % 0x100
  {
  }

  lemma NextByte(s: seq<Byte>, b: Byte)
    ensures HexAll(s + [b]) == HexAll(s) + Hex2(b) && Sum(s + [b]) == Sum(s) + b
  {
    HexAllAppend(s, [b]);
    assert (s + [b])[..|s|] == s;
    assert HexAll([b]) == Hex2(b);
  }

  lemma LineStart(n: Byte, w: Word)
    ensures HexAll(LineHead(n, w)) == Hex2(n) + Hex4(w) + "00"
    ensures Sum(LineHead(n, w)) == n + w / 0x100 + w % 0x100
  {
    hide Hex4, Digit;
    var s, a: seq<Byte>, z: seq<Byte> := LineHead(n, w), [Hi(w), Lo(w)], [0];
    Hex4IsHexAll(w);
    assert s == [n] + a + z;
    HexAllAppend([n] + a, z);
    HexAllAppend([n], a);
    Single(n);
    Single(0);
    ZeroDigit();
    SumStep(s, 0);
    SumStep(s, 1);
    SumStep(s, 2);
    SumStep(s, 3);
    assert s[..0] == [] && s[..4] == s;
  }

  lemma Single(b: Byte)
    ensures HexAll([b]) == Hex2(b)
  {
    assert [b][1..] == [];
  }

  lemma ZeroDigit()
    ensures Hex2(0) == "00"
  {
  }

  // A segment line as the loop prints it.
  method PrintSegment(segment: Word, ch: Byte) returns (line: string)
    requires ch == (0xFA - segment % 0x100 - segment / 0x100) % 0x100
    ensures line == Print(SegmentRaw(segment))
  {
    hide Hex2, Hex4, SegmentRaw, HexAll;
    SegmentText(segment, ch);
    line := ":02000004" + Hex4(segment) + Hex2(ch) + "\n";
  }

  lemma SegmentText(segment: Word, ch: Byte)
    requires ch == (0xFA - segment % 0x100 - segment / 0x100) % 0x100
    ensures HexAll(SegmentRaw(segment)) == "02000004" + Hex4(segment) + Hex2(ch)
  {
    hide Hex4, Sum, HexAll, Digit;
    var start: seq<Byte>, s: seq<Byte> := [2, 0, 0, 4], [Hi(segment), Lo(segment)];
    var body: seq<Byte> := [2, 0, 0, 4, Hi(segment), Lo(segment)];
    assert body == start + s;
    HexAllAppend(start, s);
    Hex4IsHexAll(segment);
    SegmentStart(segment);
    NextByte(body, Checksum(body));
    SegmentSum(segment / 0x100, segment % 0x100);
  }

  lemma SegmentStart(segment: Word)
    ensures HexAll([2, 0, 0, 4]) == "02000004"
    ensures Sum([2, 0, 0, 4, Hi(segment), Lo(segment)]) == 6 + segment / 0x100 + segment % 0x100
  {
    var a: seq<Byte>, b: seq<Byte> := [2, 0, 0, 4], [2, 0, 0, 4, Hi(segment), Lo(segment)];
    hide Digit;
    SumStep(b, 0);
    SumStep(b, 1);
    SumStep(b, 2);
    SumStep(b, 3);
    SumStep(b, 4);
    SumStep(b, 5);
    assert b[..0] == [] && b[..6] == b;
    HexAllAppend([2, 0], [0, 4]);
    HexAllAppend([2], [0]);
    HexAllAppend([0], [4]);
    assert [2, 0] == [2] + [0] && [0, 4] == [0] + [4] && a == [2, 0] + [0, 4];
    Single(2);
    Single(0);
    Single(4);
    SmallDigits();
  }

  lemma SmallDigits()
    ensures Digit(0) == '0' && Digit(2) == '2' && Digit(4) == '4'
  {
  }

  // The records of one round of the loop.
  function Chunk(hex: Dword, announce: bool, payload: seq<Byte>): seq<Raw>
    requires |payload| <= 32
  {
    (if announce then [SegmentRaw(hex / 0x1_0000)] else []) + [DataRaw(hex, payload)]
  }

  method PrintChunk(hexOffset: Dword, segFlag: bool, ch: Byte, buffer: seq<Byte>) returns (text: string)
    requires 0 < |buffer| <= 32
    requires segFlag ==> ch == (0xFA - hexOffset / 0x1_0000 % 0x100 - hexOffset / 0x1_0000 / 0x100) % 0x100
    ensures text == PrintAll(Chunk(hexOffset, segFlag, buffer))
  {
    hide DataRaw, SegmentRaw, Print;
    text := "";
    if segFlag {
      text := PrintSegment(hexOffset / 0x1_0000, ch);
      PrintAllAppend([SegmentRaw(hexOffset / 0x1_0000)], [DataRaw(hexOffset, buffer)]);
    }
    var line := PrintData(hexOffset, buffer);
    text := text + line;
  }

  lemma RecordsByChunk(data: seq<Byte>, pos: nat, hex: nat, first: bool)
    requires pos < |data| && hex + |data| - pos <= 0x1_0000_0000
    ensures var n := LineLength(hex, |data| - pos);
            Records(data[pos..], hex, first) ==
              Chunk(hex, first || hex % 0x1_0000 == 0, data[pos..pos + n]) + Records(data[pos + n..], hex + n, false)
  {
    hide DataRaw, SegmentRaw, LineLength;
    var n := LineLength(hex, |data| - pos);
    assert data[pos..][..n] == data[pos..pos + n] && data[pos..][n..] == data[pos + n..];
  }

  // fread of one line; the end of the file is only seen by a read that comes short.
  method ReadLine(data: seq<Byte>, pos: nat, hexOffset: Dword) returns (buffer: seq<Byte>, eof: bool)
    requires pos <= |data|
    ensures pos + |buffer| <= |data| && |buffer| == LineLength(hexOffset, |data| - pos)
    ensures buffer == data[pos..pos + |buffer|]
    ensures eof ==> pos + |buffer| == |data|
    ensures buffer == [] ==> eof
  {
    var bytesInSegment := 0x1_0000 - hexOffset % 0x1_0000;
    var bytesToRead := if bytesInSegment > 32 then 32 else bytesInSegment;
    var bytesRead := if |data| - pos < bytesToRead then |data| - pos else bytesToRead;
    eof := bytesRead < bytesToRead;
    buffer := data[pos..pos + bytesRead];
  }

  // Number and checksum of the segment of an address.
  method NewSegment(hexOffset: Dword) returns (segment: Word, ch: Byte)
    ensures segment == hexOffset / 0x1_0000
    ensures ch == (0xFA - segment % 0x100 - segment / 0x100) % 0x100
  {
    segment := hexOffset / 0x1_0000;
    ch := (0xFA - segment % 0x100 - segment / 0x100 % 0x100) % 0x100;
  }

  // ---- The length limit ----

  // The limit is counted down line by line, so it only stops the loop where a line ends.
  predicate LineEnd(hex: nat, left: nat, limit: nat)
    requires hex + left <= 0x1_0000_0000
    decreases left
  {
    limit == 0 ||
    (left > 0 &&
     var n := LineLength(hex, left);
     n <= limit && LineEnd(hex + n, left - n, limit - n))
  }

  // Lines end every 32 bytes from the start, at the end of its segment, from there on at multiples
  // of 32, and at the end of the data.
  predicate EndsLine(hex: nat, left: nat, limit: nat) {
    var inSegment := 0x1_0000 - hex % 0x1_0000;
    limit <= left &&
    (limit == left || limit == inSegment || (if limit < inSegment then limit else hex + limit) % 32 == 0)
  }

  lemma {:induction false} LineEndIsEndsLine(hex: nat, left: nat, limit: nat)
    requires hex + left <= 0x1_0000_0000
    ensures LineEnd(hex, left, limit) <==> EndsLine(hex, left, limit)
    decreases left
  {
    if limit > 0 && left > 0 {
      var n := LineLength(hex, left);
      if n <= limit {
        LineEndIsEndsLine(hex + n, left - n, limit - n);
        NextLine(hex, left, limit, n);
      }
    }
  }

  lemma NextLine(hex: nat, left: nat, limit: nat, n: nat)
    requires hex + left <= 0x1_0000_0000 && 0 < left && n == LineLength(hex, left) <= limit
    ensures EndsLine(hex, left, limit) <==> EndsLine(hex + n, left - n, limit - n)
  {
    var inSegment := 0x1_0000 - hex % 0x1_0000;
    SegmentOf(hex, n);
    if n == inSegment {
      Multiple(hex + n, limit - n);
    } else if n == 32 {
      Multiple(32, limit - n);
      Multiple(32, hex + limit - n);
    }
  }

  lemma SegmentOf(hex: nat, n: nat)
    requires hex % 0x1_0000 + n <= 0x1_0000
    ensures (hex + n) % 0x1_0000 == if hex % 0x1_0000 + n == 0x1_0000 then 0 else hex % 0x1_0000 + n
    ensures (hex + n) % 0x1_0000 == 0 ==> (hex + n) % 32 == 0
  {
    var q := (hex + n) / 0x1_0000;
    assert hex + n == 32 * (2048 * q) + (hex + n) % 0x1_0000;
  }

  lemma Multiple(a: nat, b: nat)
    requires a % 32 == 0
    ensures (a + b) % 32 == b % 32
  {
  }

  // The data that is written: up to the limit, or all of it where the limit is passed within a line.
  function Sent(data: seq<Byte>, start: nat, limit: nat): seq<Byte>
    requires start + |data| <= 0x1_0000_0000
  {
    if LineEnd(start, |data|, limit) && limit <= |data| then data[..limit] else data
  }

  lemma {:induction false} LineEndInside(hex: nat, left: nat, limit: nat)
    requires hex + left <= 0x1_0000_0000 && LineEnd(hex, left, limit)
    ensures limit <= left
    decreases left
  {
    if limit > 0 {
      var n := LineLength(hex, left);
      LineEndInside(hex + n, left - n, limit - n);
    }
  }

  // The records of the data in front of a line's end come first.
  lemma {:induction false} RecordsSplit(data: seq<Byte>, hex: nat, first: bool, limit: nat)
    requires hex + |data| <= 0x1_0000_0000 && limit <= |data| && LineEnd(hex, |data|, limit)
    ensures Records(data, hex, first) ==
              Records(data[..limit], hex, first) + Records(data[limit..], hex + limit, first && limit == 0)
    decreases |data|
  {
    hide LineLength, Records, Chunk;
    if limit == 0 {
      NoRecords(hex, first);
      assert data[..0] == [] && data[0..] == data;
    } else {
      var n, part := LineLength(hex, |data|), data[..limit];
      SameLine(hex, limit, |data|);
      RecordsSplit(data[n..], hex + n, false, limit - n);
      assert data[0..] == data && part[0..] == part && part[0..n] == data[0..n];
      assert part[n..] == data[n..][..limit - n] && data[n..][limit - n..] == data[limit..];
      RecordsByChunk(data, 0, hex, first);
      RecordsByChunk(part, 0, hex, first);
    }
  }

  lemma SameLine(hex: Dword, a: nat, b: nat)
    requires LineLength(hex, b) <= a <= b
    ensures LineLength(hex, a) == LineLength(hex, b)
  {
  }

  // More data gives a longer text.
  lemma {:induction false} LongerText(a: seq<Byte>, b: seq<Byte>, hex: nat, first: bool)
    requires hex + |b| <= 0x1_0000_0000 && |a| < |b|
    ensures |PrintAll(Records(a, hex, first))| < |PrintAll(Records(b, hex, first))|
    decreases |b|
  {
    hide DataRaw, SegmentRaw, Print, PrintAll, LineLength;
    TextLength(b, hex, first);
    if a == [] {
      PrintNothing();
    } else {
      TextLength(a, hex, first);
      ShorterLine(hex, |a|, |b|);
      var n, k := LineLength(hex, |a|), LineLength(hex, |b|);
      if n == k {
        LongerText(a[n..], b[n..], hex + n, false);
      } else {
        PrintNothing();
        assert Records(a[n..], hex + n, false) == [];
      }
    }
  }

  lemma ShorterLine(hex: nat, a: nat, b: nat)
    requires 0 < a < b && hex + b <= 0x1_0000_0000
    ensures LineLength(hex, a) == LineLength(hex, b) || LineLength(hex, a) == a < LineLength(hex, b)
  {
  }

  // The text of the first line with its segment, and that of the rest.
  lemma TextLength(data: seq<Byte>, hex: nat, first: bool)
    requires hex + |data| <= 0x1_0000_0000 && data != []
    ensures var n := LineLength(hex, |data|);
            |PrintAll(Records(data, hex, first))| ==
              (if first || hex % 0x1_0000 == 0 then 16 else 0) + 12 + 2 * n +
              |PrintAll(Records(data[n..], hex + n, false))|
  {
    hide LineLength, DataRaw, SegmentRaw, PrintAll, Print;
    var n := LineLength(hex, |data|);
    var d, rest := DataRaw(hex, data[..n]), Records(data[n..], hex + n, false);
    OneMoreText(d, rest);
    DataFields(hex, data[..n]);
    if first || hex % 0x1_0000 == 0 {
      var g := SegmentRaw(hex / 0x1_0000);
      assert Records(data, hex, first) == [g] + ([d] + rest);
      OneMoreText(g, [d] + rest);
      SegmentFields(hex / 0x1_0000);
    } else {
      assert Records(data, hex, first) == [d] + rest;
    }
  }

  lemma OneMoreText(raw: Raw, rest: seq<Raw>)
    ensures |PrintAll([raw] + rest)| == 2 * |raw| + 2 + |PrintAll(rest)|
  {
    hide HexAll;
    assert ([raw] + rest)[1..] == rest;
  }

  // The loop of main in plain mode: the text of all records, and the end record. The limit is
  // counted down in 32 bits, and passed if no line ends there.
  method WriteHex(data: seq<Byte>, start: Dword, limit: Dword) returns (out: string)
    requires start + |data| <= 0x1_0000_0000
    ensures out == PrintAll(Records(Sent(data, start, limit), start, true) + [END])
    ensures limit <= |data| ==>
              (out == PrintAll(Records(data[..limit], start, true) + [END]) <==> EndsLine(start, |data|, limit))
  {
    hide Records, Chunk, PrintAll, LineLength, Wrap32, EndsLine, Reachable, Sent;
    var hexOffset: Dword, length: Dword, eof: bool := start, limit, false;
    var segment: int, segFlag: bool, ch: Byte := -1, false, 0;
    var pos: nat := 0;
    ghost var done: seq<Raw> := [];
    ghost var all := Records(data, start, true);
    assert data[0..] == data && [] + all == all;
    PrintNothing();
    out := "";
    while length != 0 && !eof
      invariant pos <= |data| && length == (if pos <= limit then limit - pos else limit - pos + 0x1_0000_0000)
      invariant (limit == 0 ==> pos == 0) && (eof ==> pos == |data|)
      invariant pos < |data| ==> !segFlag && (segment == -1 <==> pos == 0) && hexOffset == start + pos
      invariant Reachable(start, |data|, limit, 0) <==> Reachable(start, |data|, limit, pos)
      invariant done + Records(data[pos..], start + pos, pos == 0) == all
      invariant out == PrintAll(done)
      decreases |data| - pos, if eof then 0 else 1
    {
      if hexOffset % 0x1_0000 == 0 || segment == -1 {
        segment, ch := NewSegment(hexOffset);
        segFlag := true;
      }
      var buffer;
      buffer, eof := ReadLine(data, pos, hexOffset);
      LineEndStep(start, |data|, limit, pos, |buffer|);
      if |buffer| != 0 {
        RecordsByChunk(data, pos, start + pos, pos == 0);
        var text := PrintChunk(hexOffset, segFlag, ch, buffer);
        PrintAllAppend(done, Chunk(hexOffset, segFlag, buffer));
        done := done + Chunk(hexOffset, segFlag, buffer);
        segFlag := false;
        out := out + text;
      }
      NoWrap(start + pos + |buffer|);
      pos := pos + |buffer|;
      hexOffset := Wrap32(hexOffset + |buffer|);
      length := Sub32(length, |buffer|);
    }
    WrittenIsSent(data, start, limit, pos, done);
    PrintAllAppend(done, [END]);
    EndText();
    out := out + ":00000001FF\n";
    if limit <= |data| {
      SentIsPart(data, start, limit);
    }
  }

  // Only where a line ends is the text that of the part up to the limit.
  lemma SentIsPart(data: seq<Byte>, start: nat, limit: nat)
    requires start + |data| <= 0x1_0000_0000 && limit <= |data|
    ensures var part, sent := Records(data[..limit], start, true), Records(Sent(data, start, limit), start, true);
            PrintAll(sent + [END]) == PrintAll(part + [END]) <==> EndsLine(start, |data|, limit)
  {
    hide Records, PrintAll, LineEnd;
    LineEndIsEndsLine(start, |data|, limit);
    if limit < |data| {
      LongerText(data[..limit], data, start, true);
      PrintAllAppend(Records(data, start, true), [END]);
      PrintAllAppend(Records(data[..limit], start, true), [END]);
    } else {
      assert data[..limit] == data;
    }
  }

  // The limit is where a line of data ends that starts at place pos.
  predicate Reachable(start: nat, len: nat, limit: nat, pos: nat)
    requires start + len <= 0x1_0000_0000 && pos <= len
  {
    pos <= limit && LineEnd(start + pos, len - pos, limit - pos)
  }

  lemma LineEndStep(start: nat, len: nat, limit: nat, pos: nat, n: nat)
    requires start + len <= 0x1_0000_0000 && pos <= len && pos != limit
    requires n == if pos < len then LineLength(start + pos, len - pos) else 0
    ensures Reachable(start, len, limit, pos) <==> Reachable(start, len, limit, pos + n)
  {
    hide LineLength;
  }

  // Where the loop ends, the records of what was sent are written.
  lemma WrittenIsSent(data: seq<Byte>, start: nat, limit: nat, pos: nat, done: seq<Raw>)
    requires start + |data| <= 0x1_0000_0000 && pos <= |data| && (pos == |data| || pos == limit)
    requires Reachable(start, |data|, limit, 0) <==> Reachable(start, |data|, limit, pos)
    requires done + Records(data[pos..], start + pos, pos == 0) == Records(data, start, true)
    ensures done == Records(Sent(data, start, limit), start, true)
  {
    hide Records, LineLength;
    if LineEnd(start, |data|, limit) {
      LineEndInside(start, |data|, limit);
      assert pos == limit;
      RecordsSplit(data, start, true, limit);
      SameStart(done, Records(data[..limit], start, true), Records(data[pos..], start + pos, pos == 0));
    } else {
      assert data[pos..] == [];
      NoRecords(start + pos, pos == 0);
    }
  }

  lemma SameStart(a: seq<Raw>, b: seq<Raw>, c: seq<Raw>)
    requires a + c == b + c
    ensures a == b
  {
    assert |a| == |b|;
    assert a == (a + c)[..|a|] && b == (b + c)[..|a|];
  }

  // Forty bytes with a limit of 20 are all written, as 20 lies within the first line.
  lemma LimitWithinLine(data: seq<Byte>)
    requires |data| == 40
    ensures Sent(data, 0, 20) == data
  {
  }

  lemma NoWrap(x: nat)
    ensures x < 0x1_0000_0000 ==> Wrap32(x) == x
  {
  }

  lemma NoRecords(hex: nat, first: bool)
    requires hex <= 0x1_0000_0000
    ensures Records([], hex, first) == []
  {
  }

  lemma EndText()
    ensures PrintAll([END]) == ":00000001FF\n"
  {
    hide Digit;
    HexAllAppend([0, 0], [0, 1, 0xFF]);
    HexAllAppend([0], [0]);
    HexAllAppend([0], [1, 0xFF]);
    HexAllAppend([1], [0xFF]);
    assert END == [0, 0] + [0, 1, 0xFF] && [0, 0] == [0] + [0] && [0, 1, 0xFF] == [0] + [1, 0xFF] &&
           [1, 0xFF] == [1] + [0xFF];
    Single(0);
    Single(1);
    Single(0xFF);
    EndDigits();
    assert [END][1..] == [];
  }

  lemma EndDigits()
    ensures Digit(0) == '0' && Digit(1) == '1' && Digit(15) == 'F'
  {
  }

  lemma PrintNothing()
    ensures PrintAll([]) == ""
  {
  }

  // ---- Round trip ----

  // A segment record sets the upper half of the address.
  lemma SegmentStep(r: Reader, hex: Dword, offset: Dword, size: nat)
    requires |r.buf| == size + 64 && Fits(SegmentRaw(hex / 0x1_0000))
    ensures var o := Step(r, SegmentRaw(hex / 0x1_0000), offset, size);
            o.Go? && o.r.high == r.high && o.r.buf == r.buf && High(o.r.addr) == High(hex)
  {
    SegmentFields(hex / 0x1_0000);
    var addr: Dword := hex / 0x1_0000 * 0x1_0000 + r.addr % 0x1_0000;
    assert High(addr) == High(hex);
    hide SegmentRaw, High, Fits;
  }

  lemma SegmentFields(segment: Word)
    ensures var raw := SegmentRaw(segment);
            |raw| == 7 && raw[0] == 2 && raw[3] == 4 && (raw[4] as int) * 0x100 + raw[5] == segment
  {
    hide Checksum;
  }

  // A data record in the right segment stores its payload at its address.
  lemma DataStep(r: Reader, hex: Dword, payload: seq<Byte>, offset: Dword, size: nat)
    requires |r.buf| == size + 64 && 0 < |payload| <= 32 && Fits(DataRaw(hex, payload))
    requires High(r.addr) == High(hex) && offset <= hex && hex - offset + |payload| <= size
    ensures var last := hex - offset + |payload| - 1;
            Step(r, DataRaw(hex, payload), offset, size) ==
              Go(Reader(Wrap32(hex + |payload|), if last > r.high then last else r.high,
                        Stored(r.buf, hex - offset, payload)))
  {
    hide Stored, DataRaw, Fits;
    DataFields(hex, payload);
    assert High(hex) + hex % 0x1_0000 == hex;
  }

  lemma DataFields(hex: Dword, payload: seq<Byte>)
    requires |payload| <= 32
    ensures var raw := DataRaw(hex, payload);
            |raw| == 5 + |payload| && raw[0] == |payload| && raw[3] == 0 && raw[4..4 + |payload|] == payload &&
            (raw[1] as int) * 0x100 + raw[2] == hex % 0x1_0000
  {
    hide Checksum;
  }

  lemma StoredTwice(buf: seq<Byte>, p: nat, a: seq<Byte>, b: seq<Byte>)
    requires p + |a| + |b| <= |buf|
    ensures Stored(Stored(buf, p, a), p + |a|, b) == Stored(buf, p, a + b)
  {
  }

  // Reading the records of data stores it at its place and gives the highest place written.
  lemma {:induction false} ReadsRecords(data: seq<Byte>, hex: nat, first: bool, offset: Dword, size: nat, r: Reader)
    requires hex + |data| <= 0x1_0000_0000 && offset <= hex && hex - offset + |data| <= size && |r.buf| == size + 64
    requires data != [] ==> first || hex % 0x1_0000 == 0 || High(r.addr) == High(hex)
    requires r.high <= hex - offset
    requires forall raw | raw in Records(data, hex, first) + [END] :: Fits(raw)
    ensures ReadAll(Records(data, hex, first) + [END], offset, size, r) ==
              Stop(if data == [] then r.high else hex - offset + |data| - 1, Stored(r.buf, hex - offset, data))
    decreases |data|, 1
  {
    hide Step, Fits, Stored, DataRaw, SegmentRaw, LineLength, High;
    if data == [] {
      EndStops(r, offset, size);
      StoredNothing(r.buf, hex - offset);
    } else {
      var n := LineLength(hex, |data|);
      var line := [DataRaw(hex, data[..n])] + (Records(data[n..], hex + n, false) + [END]);
      var recs := Records(data, hex, first) + [END];
      if first || hex % 0x1_0000 == 0 {
        var segment := SegmentRaw(hex / 0x1_0000);
        assert recs == [segment] + line && segment in recs;
        SegmentStep(r, hex, offset, size);
        GoesOn(segment, line, offset, size, r);
        ReadsLine(data, hex, offset, size, Step(r, segment, offset, size).r);
      } else {
        assert recs == line;
        ReadsLine(data, hex, offset, size, r);
      }
    }
  }

  lemma {:induction false} ReadsLine(data: seq<Byte>, hex: nat, offset: Dword, size: nat, r: Reader)
    requires data != [] && hex + |data| <= 0x1_0000_0000 && offset <= hex && hex - offset + |data| <= size
    requires |r.buf| == size + 64 && High(r.addr) == High(hex) && r.high <= hex - offset
    requires var n := LineLength(hex, |data|);
             Fits(DataRaw(hex, data[..n])) &&
                 forall raw | raw in Records(data[n..], hex + n, false) + [END] :: Fits(raw)
    ensures var n := LineLength(hex, |data|);
            ReadAll([DataRaw(hex, data[..n])] + (Records(data[n..], hex + n, false) + [END]), offset, size, r) ==
              Stop(hex - offset + |data| - 1, Stored(r.buf, hex - offset, data))
    decreases |data|, 0
  {
    hide Step, Fits, Stored, DataRaw, Records, LineLength, High, ReadAll;
    var n := LineLength(hex, |data|);
    var d, rest := DataRaw(hex, data[..n]), Records(data[n..], hex + n, false) + [END];
    DataStep(r, hex, data[..n], offset, size);
    GoesOn(d, rest, offset, size, r);
    var r2 := Step(r, d, offset, size).r;
    NextHigh(hex, n);
    ReadsRecords(data[n..], hex + n, false, offset, size, r2);
    StoredTwice(r.buf, hex - offset, data[..n], data[n..]);
    assert data == data[..n] + data[n..];
  }

  lemma GoesOn(raw: Raw, rest: seq<Raw>, offset: Dword, size: nat, r: Reader)
    requires (forall raw | raw in rest :: Fits(raw)) && Fits(raw) && |r.buf| == size + 64 &&
             Step(r, raw, offset, size).Go?
    ensures ReadAll([raw] + rest, offset, size, r) == ReadAll(rest, offset, size, Step(r, raw, offset, size).r)
  {
    hide Step, Fits;
    assert ([raw] + rest)[1..] == rest;
  }

  // Within a segment the upper half of the address stays.
  lemma NextHigh(hex: nat, n: nat)
    requires hex + n <= 0x1_0000_0000 && hex < 0x1_0000_0000 && hex % 0x1_0000 + n <= 0x1_0000
    ensures hex + n < 0x1_0000_0000 ==> High(Wrap32(hex + n)) == High(hex + n)
  {
  }

  lemma EndStops(r: Reader, offset: Dword, size: nat)
    requires |r.buf| == size + 64
    ensures Fits(END) && ReadAll([END], offset, size, r) == Stop(r.high, r.buf)
  {
  }

  lemma StoredNothing(buf: seq<Byte>, p: nat)
    requires p <= |buf|
    ensures Stored(buf, p, []) == buf
  {
  }

  // What bin2hex prints, hex2bin reads back: the bytes at their place behind the offset, the highest
  // place written, and no complaint about a checksum.
  method RoundTrip(data: seq<Byte>, start: Dword, limit: Dword, offset: Dword, size: nat, buffer: array<Byte>)
    returns (high: nat, complaints: nat)
    requires start + |data| <= 0x1_0000_0000
    requires offset <= start && start - offset + |data| <= size && buffer.Length == size + 64 <= 0x1_0000_0000
    modifies buffer
    ensures complaints == 0
    ensures var sent := Sent(data, start, limit);
            && high == (if sent == [] then 0 else start - offset + |sent| - 1)
            && buffer[..] == Stored(old(buffer[..]), start - offset, sent)
            && (offset == start ==> (buffer[..high + 1] == sent <==> sent != []))
  {
    hide Proper, ReadAll, Records, PrintAll, LineEnd, Parsed, Spell, NoColon, Bad;
    ghost var sent := Sent(data, start, limit);
    var text := WriteHex(data, start, limit);
    ghost var recs := Records(sent, start, true) + [END];
    RecordsAreProper(sent, start, true);
    ProperParts(recs);
    ReadsRecords(sent, start, true, offset, size, Reader(0, 0, buffer[..]));
    PrintIsSpelled(recs);
    assert text[0..] == text;
    ParsedSpelled(text, 0, recs, [""] + Newlines(|recs|));
    NoneBad(recs, offset, size, Reader(0, 0, buffer[..]));
    high, complaints := ReadHexFile(text, buffer, offset, size);
  }

  // ---- The result and the size of the output ----

  // Bytes up to the highest one that a record stores or that was stored before.
  function Reached(r: Reader, raw: Raw, offset: Dword, top: nat): nat
    requires Fits(raw)
  {
    var end := High(r.addr) + (raw[1] as int) * 0x100 + raw[2] - offset + raw[0];
    if raw[3] == 0 && raw[0] > 0 && end > top then end else top
  }

  // Those that a whole file stores.
  function Extent(recs: seq<Raw>, offset: Dword, size: nat, r: Reader, top: nat): nat
    requires (forall raw | raw in recs :: Fits(raw)) && |r.buf| == size + 64
  {
    if recs == [] then top
    else
      match Step(r, recs[0], offset, size)
      case Stop(_, _) => top
      case Go(r') => Extent(recs[1..], offset, size, r', Reached(r, recs[0], offset, top))
  }

  // The file is read up to an end record.
  predicate Ends(recs: seq<Raw>, offset: Dword, size: nat, r: Reader)
    requires (forall raw | raw in recs :: Fits(raw)) && |r.buf| == size + 64
  {
    recs != [] &&
    match Step(r, recs[0], offset, size)
    case Stop(_, _) => recs[0][3] == 1
    case Go(r') => Ends(recs[1..], offset, size, r')
  }

  // The result is 0, or one less than the number of bytes up to the highest one stored.
  lemma {:induction false} ResultIsExtent(recs: seq<Raw>, offset: Dword, size: nat, r: Reader, top: nat)
    requires (forall raw | raw in recs :: Fits(raw)) && |r.buf| == size + 64
    requires r.high == if top == 0 then 0 else top - 1
    ensures ReadAll(recs, offset, size, r).high ==
              if Ends(recs, offset, size, r) && Extent(recs, offset, size, r, top) > 0
              then Extent(recs, offset, size, r, top) - 1 else 0
  {
    if recs != [] {
      var o := Step(r, recs[0], offset, size);
      if o.Go? {
        OneRecordExtent(r, recs[0], offset, size, top);
        hide Step, Reached, Fits;
        ResultIsExtent(recs[1..], offset, size, o.r, Reached(r, recs[0], offset, top));
      }
    }
  }

  lemma OneRecordExtent(r: Reader, raw: Raw, offset: Dword, size: nat, top: nat)
    requires Fits(raw) && |r.buf| == size + 64 && Step(r, raw, offset, size).Go?
    requires r.high == if top == 0 then 0 else top - 1
    ensures var reached := Reached(r, raw, offset, top);
            Step(r, raw, offset, size).r.high == if reached == 0 then 0 else reached - 1
  {
    hide Stored, Fits;
  }

  // hex2bin writes one byte more than the result: as many as are stored up to the highest one exactly
  // if the file ends well and a record in it stores a byte.
  lemma OutputIsExtent(recs: seq<Raw>, offset: Dword, size: nat, buf: seq<Byte>)
    requires (forall raw | raw in recs :: Fits(raw)) && |buf| == size + 64
    ensures var r := Reader(0, 0, buf);
            ReadAll(recs, offset, size, r).high + 1 == Extent(recs, offset, size, r, 0) <==>
              (if Ends(recs, offset, size, r) then Extent(recs, offset, size, r, 0) > 0
               else Extent(recs, offset, size, r, 0) == 1)
  {
    ResultIsExtent(recs, offset, size, Reader(0, 0, buf), 0);
  }

  // A file of the end record alone stores nothing, and one byte is written.
  lemma EmptyFile(offset: Dword, size: nat, buf: seq<Byte>)
    requires |buf| == size + 64
    ensures Fits(END) && Extent([END], offset, size, Reader(0, 0, buf), 0) == 0
    ensures ReadAll([END], offset, size, Reader(0, 0, buf)).high + 1 == 1
  {
  }

  lemma ProperParts(rs: seq<Raw>)
    requires forall r | r in rs :: Proper(r)
    ensures forall r | r in rs :: Fits(r) && SumsToZero(r)
  {
    hide Fits, SumsToZero;
  }

  // ---- Records, byte by byte ----

  // A segment record, a data record and digits.
  lemma SegmentExample()
    ensures SegmentRaw(0x1234) == [2, 0, 0, 4, 0x12, 0x34, 0xB4]
  {
    hide Sum;
    var a: seq<Byte> := [2, 0, 0, 4, 0x12, 0x34];
    SumOfSix(a);
  }

  lemma DataExample()
    ensures DataRaw(0x1_2345, [1, 2, 3]) == [3, 0x23, 0x45, 0, 1, 2, 3, 0x8F]
  {
    hide Sum;
    var b: seq<Byte> := [3, 0x23, 0x45, 0, 1, 2, 3];
    SumOfSix(b[..6]);
    SumStep(b, 6);
    assert b[..7] == b && LineBody(0x2345, [1, 2, 3]) == b;
  }

  lemma DigitExamples()
    ensures Hex2(0xA5) == "A5" && Hex2(0x0F) == "0F" && Hex4(0x12AF) == "12AF"
  {
  }

  lemma SumOfSix(b: seq<Byte>)
    requires |b| == 6
    ensures Sum(b) == b[0] as int + b[1] + b[2] + b[3] + b[4] + b[5]
  {
    SumStep(b, 0);
    SumStep(b, 1);
    SumStep(b, 2);
    SumStep(b, 3);
    SumStep(b, 4);
    SumStep(b, 5);
    assert b[..0] == [] && b[..6] == b;
  }

  // The address behind a segmented and behind an extended address record, and where data goes.
  lemma AddressExamples(r: Reader, size: nat)
    requires |r.buf| == size + 64 && size > 0x10 && r.addr == 0x55_4321
    ensures Step(r, [2, 0, 0, 2, 0x12, 0x34, 0], 0, size) == Go(r.(addr := 0x1_2340))
    ensures Step(r, [2, 0, 0, 4, 0x12, 0x34, 0], 0, size) == Go(r.(addr := 0x1234_4321))
    ensures Step(r, [2, 0, 0x10, 0, 7, 8, 0], 0x55_0008, size) ==
              Go(Reader(0x55_0012, if r.high < 9 then 9 else r.high, r.buf[..8] + [7, 8] + r.buf[10..]))
  {
    assert [2, 0, 0x10, 0, 7, 8, 0][4..6] == [7, 8];
  }
}
