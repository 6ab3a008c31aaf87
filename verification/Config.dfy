// The configuration page: items packed as tagged records into flash memory, and read back.
module Config {
  import opened Bytes

  datatype Kind = Value | Enum | Text

  // The definition of an item. The default of a text is not a number.
  datatype Def = Def(id: Byte, kind: Kind, min: int, max: int, def: int)

  // What an item holds: a number, or the characters of a text.
  datatype Setting = Setting(value: int, text: seq<Byte>)

  // A record of the page: id, type, payload.
  datatype Rec = Rec(id: Byte, tag: Byte, payload: seq<Byte>)

  function Tag(k: Kind): Byte {
    match k
    case Value => 1
    case Enum => 2
    case Text => 3
  }

  // An id that does not end the page, 32-bit bounds; a text of at most 255 characters.
  predicate GoodDef(d: Def) {
    && d.id != 0xFF && -0x8000_0000 <= d.min && d.max < 0x8000_0000
    && (d.kind.Text? ==> 0 <= d.max <= 0xFF)
  }

  // A value within its bounds, an enumeration within a byte, a text within its room.
  predicate InRange(d: Def, s: Setting) {
    && (!d.kind.Text? ==> d.min <= s.value <= d.max)
    && (d.kind.Enum? ==> 0 <= s.value <= 0xFF)
    && (d.kind.Text? ==> |s.text| <= d.max && forall i | 0 <= i < |s.text| :: s.text[i] != 0)
  }

  // What the machine can hold for an item, in its bounds or not: 32 bits, a terminated text in its room.
  predicate Held(d: Def, s: Setting) {
    && (!d.kind.Text? ==> -0x8000_0000 <= s.value < 0x8000_0000)
    && (d.kind.Text? ==> |s.text| <= d.max && forall i | 0 <= i < |s.text| :: s.text[i] != 0)
  }

  // ---- Numbers in a record ----

  // A signed number as the machine holds it, and back.
  function Unsigned(v: int): Dword
    requires -0x8000_0000 <= v < 0x8000_0000
  {
    if v >= 0 then v else v + 0x1_0000_0000
  }

  function Signed(u: Dword): int {
    if u < 0x8000_0000 then u else u - 0x1_0000_0000
  }

  function BigEndian(u: Dword): (b: seq<Byte>)
    ensures |b| == 4
  {
    [u / 0x100_0000, u / 0x1_0000 % 0x100, u / 0x100 % 0x100, u % 0x100]
  }

  // Shifting in the bytes of a payload one after the other.
  function Shifted(p: seq<Byte>): Dword {
    if p == [] then 0 else Wrap32((Shifted(p[..|p| - 1]) as int) * 0x100 + p[|p| - 1])
  }

  lemma ShiftedBigEndian(u: Dword)
    ensures Shifted(BigEndian(u)) == u
  {
    var p := BigEndian(u);
    var a: int, b: int, c: int, d: int := p[0], p[1], p[2], p[3];
    assert p[..3][..2] == p[..2] && p[..2][..1] == p[..1] && p[..1][..0] == [];
    assert Shifted(p[..1]) == a;
    assert Shifted(p[..2]) == a * 0x100 + b;
    assert Shifted(p[..3]) == a * 0x1_0000 + b * 0x100 + c;
    FromBytes(u);
  }

  lemma FromBytes(u: Dword)
    ensures u == u / 0x100_0000 * 0x100_0000 + u / 0x1_0000 % 0x100 * 0x1_0000 + u / 0x100 % 0x100 * 0x100 + u % 0x100
  {
    assert u / 0x1_0000 == u / 0x100_0000 * 0x100 + u / 0x1_0000 % 0x100;
    assert u / 0x100 == u / 0x1_0000 * 0x100 + u / 0x100 % 0x100;
  }

  lemma ShiftedByte(b: Byte)
    ensures Shifted([b]) == b
  {
    assert [b][..0] == [];
  }

  // ---- One item ----

  // An enumeration is cut to its low byte.
  function Payload(d: Def, s: Setting): seq<Byte>
    requires GoodDef(d) && Held(d, s)
  {
    match d.kind
    case Value => BigEndian(Unsigned(s.value))
    case Enum => [s.value % 0x100]
    case Text => s.text
  }

  function Record(d: Def, s: Setting): Rec
    requires GoodDef(d) && Held(d, s)
  {
    Rec(d.id, Tag(d.kind), Payload(d, s))
  }

  function UpToNul(t: seq<Byte>): seq<Byte> {
    if t == [] || t[0] == 0 then [] else [t[0]] + UpToNul(t[1..])
  }

  lemma {:induction false} NoNul(t: seq<Byte>)
    requires forall i | 0 <= i < |t| :: t[i] != 0
    ensures UpToNul(t) == t
  {
    if t != [] {
      NoNul(t[1..]);
    }
  }

  // ConfigItem::unpack: what an item holds after a record with its id.
  function Unpacked(d: Def, s: Setting, r: Rec): Setting
    requires GoodDef(d)
  {
    if r.tag != Tag(d.kind) then s
    else
      match d.kind
      case Text =>
        var field := if |r.payload| > d.max then d.max else |r.payload|;
        s.(text := UpToNul(r.payload[..field]))
      case _ =>
        var v := Signed(Shifted(r.payload));
        var w := if v < d.min then d.def else v;
        s.(value := if w > d.max then d.def else w)
  }

  // A record of an item of the same kind sets what that item held if it is in range here.
  lemma RecordSets(d: Def, was: Setting, from: Def, s: Setting)
    requires GoodDef(d) && GoodDef(from) && Held(from, s) && d.kind == from.kind && InRange(d, s)
    ensures var r := Unpacked(d, was, Record(from, s));
            if d.kind.Text? then r.text == s.text && r.value == was.value else r.value == s.value && r.text == was.text
  {
    match d.kind
    case Value => ShiftedBigEndian(Unsigned(s.value));
    case Enum => ShiftedByte(s.value);
    case Text =>
      assert s.text[..|s.text|] == s.text;
      NoNul(s.text);
  }

  // What an item holds after all records of a page.
  function Restored(d: Def, s: Setting, recs: seq<Rec>): Setting
    requires GoodDef(d)
  {
    if recs == [] then s
    else
      var n := |recs| - 1;
      var t := Restored(d, s, recs[..n]);
      if recs[n].id == d.id then Unpacked(d, t, recs[n]) else t
  }

  // Records with other ids leave an item alone.
  lemma {:induction false} OthersKeep(d: Def, s: Setting, recs: seq<Rec>)
    requires GoodDef(d) && forall r | r in recs :: r.id != d.id
    ensures Restored(d, s, recs) == s
  {
    if recs != [] {
      OthersKeep(d, s, recs[..|recs| - 1]);
    }
  }

  predicate Unique(recs: seq<Rec>) {
    forall i, j | 0 <= i < j < |recs| :: recs[i].id != recs[j].id
  }

  // Of records with unique ids only the item's own one counts.
  lemma {:induction false} OwnCounts(d: Def, s: Setting, recs: seq<Rec>, k: nat)
    requires GoodDef(d) && k < |recs| && recs[k].id == d.id
    requires Unique(recs)
    ensures Restored(d, s, recs) == Unpacked(d, s, recs[k])
  {
    hide Unpacked;
    var n := |recs| - 1;
    if k == n {
      forall r | r in recs[..n] ensures r.id != d.id {
      }
      OthersKeep(d, s, recs[..n]);
    } else {
      OwnCounts(d, s, recs[..n], k);
    }
  }

  // ---- The page ----

  predicate Storable(recs: seq<Rec>) {
    forall r | r in recs :: r.id != 0xFF && |r.payload| <= 0xFF
  }

  function RecBytes(r: Rec): (b: seq<Byte>)
    requires |r.payload| <= 0xFF
    ensures |b| == 3 + |r.payload|
  {
    [r.id, r.tag, |r.payload|] + r.payload
  }

  function AllBytes(recs: seq<Rec>): seq<Byte>
    requires Storable(recs)
  {
    if recs == [] then [] else AllBytes(recs[..|recs| - 1]) + RecBytes(recs[|recs| - 1])
  }

  function StoreId(id: Dword): (b: seq<Byte>)
    ensures |b| == 4
  {
    [id % 0x100, id / 0x100 % 0x100, id / 0x1_0000 % 0x100, id / 0x100_0000]
  }

  // The id of the store, the records, and their end mark.
  ghost predicate IsPage(page: seq<Byte>, id: Dword, recs: seq<Rec>) {
    Storable(recs) && StoreId(id) + AllBytes(recs) + [0xFF] <= page
  }

  // ---- What fits into a page ----

  // Room that is asked for a record: for a text also that of its terminator.
  function RecNeed(r: Rec): (n: nat)
    requires |r.payload| <= 0xFF
    ensures |RecBytes(r)| <= n <= |RecBytes(r)| + 1
  {
    3 + |r.payload| + if r.tag == Tag(Text) then 1 else 0
  }

  // The records that are stored in a block of this size: those for which there is room. The room is
  // counted from the end of the id, but for the whole block.
  function Kept(recs: seq<Rec>, size: nat): (k: seq<Rec>)
    requires Storable(recs)
    ensures Storable(k) && (forall r | r in k :: r in recs) && |AllBytes(k)| <= size
  {
    if recs == [] then []
    else
      var n := |recs| - 1;
      var k := Kept(recs[..n], size);
      if |AllBytes(k)| + RecNeed(recs[n]) > size then k
      else
        BytesAppend(k, recs[n]);
        k + [recs[n]]
  }

  lemma BytesAppend(k: seq<Rec>, r: Rec)
    requires Storable(k) && Storable([r])
    ensures Storable(k + [r]) && AllBytes(k + [r]) == AllBytes(k) + RecBytes(r)
  {
    assert r in [r];
    assert (k + [r])[..|k|] == k;
  }

  // Bytes behind the block are written: by the records or their end mark, or by the start of a last
  // record that does not fit.
  predicate Overruns(recs: seq<Rec>, size: nat)
    requires Storable(recs)
  {
    var end := 4 + |AllBytes(Kept(recs, size))|;
    end >= size || (end == size - 1 && LastDropped(recs, size))
  }

  predicate LastDropped(recs: seq<Rec>, size: nat)
    requires Storable(recs)
  {
    recs != [] && Kept(recs, size) == Kept(recs[..|recs| - 1], size)
  }

  // Records that fit with their end mark are all kept, and nothing behind the block is written.
  lemma {:induction false} FittingAreKept(recs: seq<Rec>, size: nat)
    requires Storable(recs) && 4 + |AllBytes(recs)| < size
    ensures Kept(recs, size) == recs && !Overruns(recs, size)
  {
    hide RecBytes;
    if recs != [] {
      var n := |recs| - 1;
      BytesGrow(recs, n);
      assert recs[..n + 1] == recs;
      FittingAreKept(recs[..n], size);
    }
  }

  // A block of eight bytes for the id and a record of four: its end mark lies behind the block.
  lemma FullBlock()
    ensures Storable([Rec(1, 2, [0])]) && Overruns([Rec(1, 2, [0])], 8)
  {
    var recs := [Rec(1, 2, [0])];
    assert recs[..0] == [] && recs[0].id == 1;
    KeptStep([], recs[0], 8);
    assert [] + [recs[0]] == recs;
  }

  // Without room nothing more is kept.
  lemma {:induction false} FullKeeps(recs: seq<Rec>, n: nat, size: nat)
    requires Storable(recs) && n <= |recs| && |AllBytes(Kept(recs[..n], size))| == size
    ensures Kept(recs, size) == Kept(recs[..n], size)
  {
    hide RecBytes, AllBytes, RecNeed;
    var m := |recs| - 1;
    if n == |recs| {
      assert recs[..n] == recs;
    } else {
      assert recs[..m][..n] == recs[..n];
      FullKeeps(recs[..m], n, size);
    }
  }

  lemma UniqueAppend(recs: seq<Rec>, r: Rec)
    requires Unique(recs) && forall i | 0 <= i < |recs| :: recs[i].id != r.id
    ensures Unique(recs + [r])
  {
  }

  lemma {:induction false} KeptAreUnique(recs: seq<Rec>, size: nat)
    requires Storable(recs) && Unique(recs)
    ensures Unique(Kept(recs, size))
  {
    hide RecBytes, AllBytes, RecNeed;
    if recs != [] {
      var n := |recs| - 1;
      KeptAreUnique(recs[..n], size);
      var k := Kept(recs[..n], size);
      forall i | 0 <= i < |k| ensures k[i].id != recs[n].id {
        assert k[i] in k;
        var j :| 0 <= j < n && recs[..n][j] == k[i];
        assert recs[j].id != recs[n].id;
      }
      UniqueAppend(k, recs[n]);
    }
  }

  // ---- Items and stores ----

  class ConfigItem {
    const definition: Def
    var value: int
    var text: seq<Byte>

    ghost function State(): Setting
      reads this
    {
      Setting(value, text)
    }

    constructor (d: Def, defText: seq<Byte>)
      ensures definition == d
      ensures State() == if d.kind.Text? then Setting(0, defText) else Setting(d.def, [])
    {
      definition := d;
      value := if d.kind.Text? then 0 else d.def;
      text := if d.kind.Text? then defText else [];
    }

    // Room an item asks for: a text also for its terminator.
    function Need(): nat
      reads this
    {
      match definition.kind
      case Value => 7
      case Enum => 4
      case Text => 4 + |text|
    }

    // Bytes that are written for an item: without room only the id and the type, as far as they fit.
    function Touched(room: nat): nat
      reads this
    {
      if room >= Need() then Need() else if room > 1 then 2 else if room > 0 then 1 else 0
    }

    lemma NeedOfRecord()
      requires GoodDef(definition) && Held(definition, State())
      ensures var r := Record(definition, State());
              |r.payload| <= 0xFF && Storable([r]) && RecNeed(r) == Need() && r.tag == Tag(definition.kind)
    {
    }

    method Pack(buffer: array<Byte>, at: nat, room: nat) returns (n: nat)
      requires GoodDef(definition) && Held(definition, State()) && at + Touched(room) <= buffer.Length
      modifies buffer
      ensures room < Need() ==> n == 0
      ensures 0 < room < Need() ==> buffer[at] == definition.id
      ensures 1 < room < Need() ==> buffer[at + 1] == Tag(definition.kind)
      ensures room >= Need() ==> n == 3 + |Payload(definition, State())|
      ensures room >= Need() ==> buffer[at..at + n] == RecBytes(Record(definition, State()))
      ensures forall i | 0 <= i < at || at + Touched(room) <= i < buffer.Length :: buffer[i] == old(buffer[i])
    {
      hide BigEndian, Unsigned, Payload, RecBytes;
      var len: int := room;
      if len > 0 {
        buffer[at] := definition.id;
        len := len - 1;
      }
      if len > 0 {
        buffer[at + 1] := Tag(definition.kind);
        len := len - 1;
      }
      n := PackPayload(buffer, at + 2, len);
      if n > 0 {
        Joined(buffer[..], at, definition.id, Tag(definition.kind), Payload(definition, State()));
      }
    }

    // Length and payload of the record, if they fit; the result is the length of the record.
    method PackPayload(buffer: array<Byte>, at: nat, len: int) returns (n: nat)
      requires GoodDef(definition) && Held(definition, State())
      requires len >= Need() - 2 ==> at + Need() - 2 <= buffer.Length
      modifies buffer
      ensures |Payload(definition, State())| <= 0xFF && |Payload(definition, State())| + 3 <= Need()
      ensures n == if len < Need() - 2 then 0 else 3 + |Payload(definition, State())|
      ensures n > 0 ==> var p := Payload(definition, State()); buffer[at..at + 1 + |p|] == [|p| as Byte] + p
      ensures forall i | 0 <= i < buffer.Length && (n == 0 || i < at || at + Need() - 2 <= i) ::
                buffer[i] == old(buffer[i])
    {
      hide BigEndian, Unsigned;
      match definition.kind
      case Value =>
        if len < 5 { return 0; }
        PutNumber(buffer, at, Unsigned(value));
        return 7;
      case Enum =>
        if len < 2 { return 0; }
        buffer[at], buffer[at + 1] := 1, value % 0x100;
        return 4;
      case Text =>
        if 2 + |text| > len { return 0; }
        PutText(buffer, at, text);
        return 3 + |text|;
    }

    // A record of another type is ignored, a value out of bounds gives the default, a text is cut.
    method Unpack(buffer: array<Byte>, at: nat)
      requires GoodDef(definition) && at + 2 <= buffer.Length && at + 2 + buffer[at + 1] as int <= buffer.Length
      modifies this
      ensures State() == Unpacked(definition, old(State()),
                                  Rec(definition.id, buffer[at], buffer[at + 2..at + 2 + buffer[at + 1] as int]))
    {
      if buffer[at] != Tag(definition.kind) { return; }
      var field: int := buffer[at + 1];
      match definition.kind
      case Text =>
        if field > definition.max { field := definition.max; }
        text := CopyText(buffer[at + 2..at + 2 + field]);
        assert buffer[at + 2..at + 2 + field] == buffer[at + 2..at + 2 + buffer[at + 1] as int][..field];
      case _ =>
        var u := GetNumber(buffer[at + 2..at + 2 + field]);
        value := Signed(u);
        if value < definition.min { value := definition.def; }
        if value > definition.max { value := definition.def; }
    }
  }

  // The bytes of a record in a buffer.
  lemma Joined(b: seq<Byte>, at: nat, id: Byte, tag: Byte, p: seq<Byte>)
    requires |p| <= 0xFF && at + 3 + |p| <= |b| && b[at] == id && b[at + 1] == tag
    requires b[at + 2..at + 3 + |p|] == [|p| as Byte] + p
    ensures b[at..at + 3 + |p|] == RecBytes(Rec(id, tag, p))
  {
    assert b[at..at + 3 + |p|] == [b[at], b[at + 1]] + b[at + 2..at + 3 + |p|];
  }

  method GetNumber(p: seq<Byte>) returns (u: Dword)
    ensures u == Shifted(p)
  {
    hide Wrap32;
    u := 0;
    for i := 0 to |p|
      invariant u == Shifted(p[..i])
    {
      assert p[..i + 1][..i] == p[..i];
      u := Wrap32((u as int) * 0x100 + p[i]);
    }
    assert p[..|p|] == p;
  }

  // strncpy: the characters up to a terminator.
  method CopyText(p: seq<Byte>) returns (t: seq<Byte>)
    ensures t == UpToNul(p)
  {
    t := [];
    while |t| < |p| && p[|t|] != 0
      invariant |t| <= |p| && t + UpToNul(p[|t|..]) == UpToNul(p)
      decreases |p| - |t|
    {
      assert p[|t|..][1..] == p[|t| + 1..];
      t := t + [p[|t|]];
    }
    assert t + [] == t;
  }

  // Length and four bytes, the highest first.
  method PutNumber(buffer: array<Byte>, at: nat, u: Dword)
    requires at + 5 <= buffer.Length
    modifies buffer
    ensures buffer[at..at + 5] == [4] + BigEndian(u)
    ensures forall i | 0 <= i < at || at + 5 <= i < buffer.Length :: buffer[i] == old(buffer[i])
  {
    buffer[at] := 4;
    buffer[at + 1], buffer[at + 2] := u / 0x100_0000, u / 0x1_0000 % 0x100;
    buffer[at + 3], buffer[at + 4] := u / 0x100 % 0x100, u % 0x100;
  }

  // Length, characters and a terminator.
  method PutText(buffer: array<Byte>, at: nat, text: seq<Byte>)
    requires |text| <= 0xFF && at + |text| + 2 <= buffer.Length
    modifies buffer
    ensures buffer[at..at + 1 + |text|] == [|text| as Byte] + text && buffer[at + 1 + |text|] == 0
    ensures forall i | 0 <= i < at || at + |text| + 2 <= i < buffer.Length :: buffer[i] == old(buffer[i])
  {
    buffer[at] := |text|;
    for i := 0 to |text|
      invariant buffer[at] == |text|
      invariant forall k | at + 1 <= k < at + 1 + i :: buffer[k] == text[k - at - 1]
      invariant forall k | 0 <= k < at || at + |text| + 2 <= k < buffer.Length :: buffer[k] == old(buffer[k])
    {
      buffer[at + 1 + i] := text[i];
    }
    buffer[at + 1 + |text|] := 0;
  }

  // ---- The store ----

  ghost predicate Packable(items: seq<ConfigItem>)
    reads items
  {
    forall i | 0 <= i < |items| :: GoodDef(items[i].definition) && Held(items[i].definition, items[i].State())
  }

  // The records of the items, in their order.
  ghost function Recs(items: seq<ConfigItem>): (r: seq<Rec>)
    requires Packable(items)
    reads items
    ensures |r| == |items| && Storable(r)
    ensures forall i | 0 <= i < |items| :: r[i] == Record(items[i].definition, items[i].State())
  {
    if items == [] then []
    else
      var n := |items| - 1;
      Recs(items[..n]) + [Record(items[n].definition, items[n].State())]
  }

  lemma {:induction false} BytesGrow(recs: seq<Rec>, k: nat)
    requires Storable(recs) && k < |recs|
    ensures Storable(recs[..k]) && Storable(recs[..k + 1])
    ensures AllBytes(recs[..k + 1]) == AllBytes(recs[..k]) + RecBytes(recs[k])
    ensures AllBytes(recs[..k + 1]) <= AllBytes(recs)
    decreases |recs|
  {
    hide RecBytes;
    var n := |recs| - 1;
    assert recs[..k + 1][..k] == recs[..k];
    if k < n {
      BytesGrow(recs[..n], k);
      assert recs[..n][..k] == recs[..k] && recs[..n][..k + 1] == recs[..k + 1];
    } else {
      assert recs[..k + 1] == recs;
    }
  }

  // What a block of this size holds after some records, with the place b behind those that are kept, and
  // what of the bytes behind the block is written; was is what they held.
  ghost predicate Holds(mem: seq<Byte>, size: nat, id: Dword, recs: seq<Rec>, b: nat, was: seq<Byte>) {
    && Storable(recs) && |mem| == size + 5 == |was|
    && b == 4 + |AllBytes(Kept(recs, size))| && b < |mem|
    && mem[..b] == StoreId(id) + AllBytes(Kept(recs, size))
    && (forall i | size <= i < |mem| && b + 2 <= i :: mem[i] == was[i])
    && (b + 1 == size ==> mem[size] == if LastDropped(recs, size) then recs[|recs| - 1].tag else was[size])
  }

  // One record more: the bytes that were written for it are those from b to b + touched.
  lemma HoldsMore(before: seq<Byte>, mem: seq<Byte>, size: nat, id: Dword, recs: seq<Rec>, b: nat, was: seq<Byte>,
                  r: Rec, touched: nat)
    requires Holds(before, size, id, recs, b, was) && Storable([r]) && |mem| == |before|
    requires forall i | 0 <= i < b || b + touched <= i < |mem| :: mem[i] == before[i]
    requires var room := size - (b - 4);
             if room >= RecNeed(r)
             then touched == RecNeed(r) && b + |RecBytes(r)| <= |mem| && mem[b..b + |RecBytes(r)|] == RecBytes(r)
             else touched <= 2 && (room > 1 && b + 1 < |mem| ==> mem[b + 1] == r.tag)
    ensures Holds(mem, size, id, recs + [r], if size - (b - 4) >= RecNeed(r) then b + |RecBytes(r)| else b, was)
  {
    hide AllBytes, RecBytes, Kept, StoreId, RecNeed;
    KeptStep(recs, r, size);
    assert mem[..b] == before[..b];
    if size - (b - 4) >= RecNeed(r) {
      var b' := b + |RecBytes(r)|;
      assert mem[..b'] == mem[..b] + mem[b..b'];
    }
  }

  lemma KeptStep(recs: seq<Rec>, r: Rec, size: nat)
    requires Storable(recs) && Storable([r])
    ensures Storable(recs + [r]) && |r.payload| <= 0xFF
    ensures var k := Kept(recs, size);
            if |AllBytes(k)| + RecNeed(r) > size then Kept(recs + [r], size) == k && LastDropped(recs + [r], size)
            else
              && Kept(recs + [r], size) == k + [r] && !LastDropped(recs + [r], size)
              && Storable(k + [r]) && AllBytes(k + [r]) == AllBytes(k) + RecBytes(r)
  {
    hide RecBytes, AllBytes, RecNeed;
    assert r in [r];
    assert (recs + [r])[..|recs|] == recs;
    BytesAppend(Kept(recs, size), r);
  }

  lemma HoldsRoom(mem: seq<Byte>, size: nat, id: Dword, recs: seq<Rec>, b: nat, was: seq<Byte>)
    requires Holds(mem, size, id, recs, b, was)
    ensures 4 <= b <= size + 4 && |mem| == size + 5
  {
    hide AllBytes, Kept;
  }

  lemma HoldsNothing(mem: seq<Byte>, size: nat, id: Dword, was: seq<Byte>)
    requires 4 <= size && |mem| == size + 5 == |was| && mem[..4] == StoreId(id)
    requires forall i | size <= i < |mem| :: mem[i] == was[i]
    ensures Holds(mem, size, id, [], 4, was)
  {
  }

  lemma HoldsAll(mem: seq<Byte>, size: nat, id: Dword, recs: seq<Rec>, n: nat, b: nat, was: seq<Byte>)
    requires Storable(recs) && n <= |recs| && Holds(mem, size, id, recs[..n], b, was)
    requires n == |recs| || size - (b - 4) < 1
    ensures Holds(mem, size, id, recs, b, was)
  {
    hide AllBytes, Kept;
    if n < |recs| {
      FullKeeps(recs, n, size);
    } else {
      assert recs[..n] == recs;
    }
  }

  // The end mark completes the page.
  lemma PageOf(before: seq<Byte>, mem: seq<Byte>, size: nat, id: Dword, recs: seq<Rec>, b: nat, was: seq<Byte>)
    requires Holds(before, size, id, recs, b, was) && mem == before[b := 0xFF]
    ensures IsPage(mem, id, Kept(recs, size))
    ensures !Overruns(recs, size) ==>
              mem[size..] == was[size..] && IsPage(mem[..size], id, Kept(recs, size))
    ensures Overruns(recs, size) && 5 + |AllBytes(Kept(recs, size))| == size ==>
              recs != [] && mem[size] == recs[|recs| - 1].tag
  {
    hide AllBytes, Kept, StoreId;
    assert mem[..b + 1] == mem[..b] + [0xFF];
    if b < size {
      assert mem[..size][..b + 1] == mem[..b + 1];
    }
  }

  // A block of memory, with the five bytes that lie behind it.
  class ConfigStore {
    const id: Dword
    const blockSize: nat
    const memBlock: array<Byte>
    const items: seq<ConfigItem>
    var dirty: bool

    constructor (storeId: Dword, pageSize: nat, its: seq<ConfigItem>)
      ensures id == storeId && items == its && blockSize == pageSize && !dirty
      ensures memBlock.Length == pageSize + 5 && fresh(memBlock)
    {
      id, blockSize, items, dirty := storeId, pageSize, its, false;
      memBlock := new Byte[pageSize + 5](_ => 0);
    }

    // The block of all ones with the id at its start.
    method Clear()
      requires 4 <= blockSize < memBlock.Length
      modifies memBlock
      ensures memBlock[..4] == StoreId(id)
      ensures forall i | blockSize <= i < memBlock.Length :: memBlock[i] == old(memBlock[i])
    {
      for i := 0 to blockSize
        invariant forall k | 0 <= k < i :: memBlock[k] == 0xFF
        invariant forall k | blockSize <= k < memBlock.Length :: memBlock[k] == old(memBlock[k])
      {
        memBlock[i] := 0xFF;
      }
      memBlock[0], memBlock[1] := id % 0x100, id / 0x100 % 0x100;
      memBlock[2], memBlock[3] := id / 0x1_0000 % 0x100, id / 0x100_0000;
    }

    method PackItem(item: ConfigItem, b: nat, remain: nat, ghost recs: seq<Rec>, ghost was: seq<Byte>)
      returns (len: nat)
      requires GoodDef(item.definition) && Held(item.definition, item.State())
      requires Holds(memBlock[..], blockSize, id, recs, b, was) && remain == blockSize - (b - 4)
      modifies memBlock
      ensures Holds(memBlock[..], blockSize, id, recs + [Record(item.definition, item.State())], b + len, was)
    {
      hide Held, Holds, RecBytes, Payload;
      ghost var r := Record(item.definition, item.State());
      ghost var before := memBlock[..];
      item.NeedOfRecord();
      HoldsRoom(before, blockSize, id, recs, b, was);
      len := item.Pack(memBlock, b, remain);
      HoldsMore(before, memBlock[..], blockSize, id, recs, b, was, r, item.Touched(remain));
    }

    // The page of the items that fit, with its end mark. Bytes behind the block are written exactly if
    // the records that are kept come too close to its end.
    method Pack()
      requires Packable(items) && 4 <= blockSize && memBlock.Length == blockSize + 5
      modifies memBlock
      ensures IsPage(memBlock[..], id, Kept(Recs(items), blockSize))
      ensures !Overruns(Recs(items), blockSize) ==>
                && memBlock[blockSize..] == old(memBlock[blockSize..])
                && IsPage(memBlock[..blockSize], id, Kept(Recs(items), blockSize))
      ensures Overruns(Recs(items), blockSize) && 5 + |AllBytes(Kept(Recs(items), blockSize))| == blockSize ==>
                memBlock[blockSize] == Tag(items[|items| - 1].definition.kind)
    {
      hide GoodDef, Held, Storable, RecBytes, AllBytes, Recs, Kept, LastDropped, Holds;
      ghost var recs := Recs(items);
      ghost var was := memBlock[..];
      var remain: int := blockSize;
      Clear();
      var b: nat := 4;
      var n := 0;
      HoldsNothing(memBlock[..], blockSize, id, was);
      assert recs[..0] == [];
      while n < |items|
        invariant 0 <= n <= |items| && Packable(items) && recs == Recs(items)
        invariant Holds(memBlock[..], blockSize, id, recs[..n], b, was)
        invariant remain == blockSize - (b - 4) && remain >= 1
        decreases |items| - n
      {
        var len := PackItem(items[n], b, remain, recs[..n], was);
        assert recs[..n + 1] == recs[..n] + [Record(items[n].definition, items[n].State())];
        b := b + len;
        remain := remain - len;
        n := n + 1;
        if remain < 1 { break; }
      }
      HoldsRoom(memBlock[..], blockSize, id, recs[..n], b, was);
      HoldsAll(memBlock[..], blockSize, id, recs, n, b, was);
      ghost var before := memBlock[..];
      memBlock[b] := 0xFF;
      PageOf(before, memBlock[..], blockSize, id, recs, b, was);
    }

    // Every record of the page goes to the items with its id, whatever the page holds.
    method Unpack()
      requires 4 <= blockSize && memBlock.Length == blockSize + 5 && AllGood(items) && Distinct(items)
      modifies items
      ensures forall i | 0 <= i < |items| ::
                items[i].State() ==
                Restored(items[i].definition, old(items[i].State()), PageRecs(memBlock[..blockSize], 4))
    {
      hide Restored, GoodDef, Unpacked, PageRecs;
      ghost var page := memBlock[..blockSize];
      ghost var recs, all := [], PageRecs(page, 4);
      var index := 4;
      NothingRestored([]);
      while index < blockSize
        invariant 4 <= index && recs + PageRecs(page, index) == all
        invariant forall i | 0 <= i < |items| ::
                    items[i].State() == Restored(items[i].definition, old(items[i].State()), recs)
        decreases blockSize - index
      {
        PageRecsStep(page, index);
        var tag := memBlock[index];
        if tag == 0xFF { break; }
        var len: int := memBlock[index + 2];
        if len > blockSize - index - 3 { break; }
        ghost var r := Rec(page[index], page[index + 1], page[index + 3..index + 3 + len]);
        UnpackRecord(index, r);
        forall i | 0 <= i < |items|
          ensures items[i].State() == Restored(items[i].definition, old(items[i].State()), recs + [r])
        {
          RestoredStep(items[i].definition, old(items[i].State()), recs, r);
        }
        recs := recs + [r];
        index := index + len + 3;
      }
      PageRecsStep(page, index);
      assert recs + [] == recs;
    }

    // The record at place index goes to the items with its id.
    method UnpackRecord(index: nat, ghost r: Rec)
      requires AllGood(items) && Distinct(items)
      requires index + 3 <= memBlock.Length && index + 3 + memBlock[index + 2] as int <= memBlock.Length
      requires r == Rec(memBlock[index], memBlock[index + 1],
                        memBlock[index + 3..index + 3 + memBlock[index + 2] as int])
      modifies items
      ensures forall i | 0 <= i < |items| ::
                items[i].State() == if r.id == items[i].definition.id
                                    then Unpacked(items[i].definition, old(items[i].State()), r)
                                    else old(items[i].State())
    {
      hide GoodDef, Unpacked;
      for n := 0 to |items|
        invariant forall i | n <= i < |items| :: items[i].State() == old(items[i].State())
        invariant forall i | 0 <= i < n ::
                    items[i].State() == if r.id == items[i].definition.id
                                        then Unpacked(items[i].definition, old(items[i].State()), r)
                                        else old(items[i].State())
      {
        if memBlock[index] == items[n].definition.id {
          items[n].Unpack(memBlock, index + 1);
        }
      }
    }

    // Numbers are moved to the nearer bound.
    method CheckBounds()
      requires Distinct(items)
      modifies this`dirty, items
      ensures forall i | 0 <= i < |items| :: items[i].State() == Clamped(items[i].definition, old(items[i].State()))
      ensures dirty == (old(dirty) || exists i :: 0 <= i < |items| && items[i].State() != old(items[i].State()))
    {
      for n := 0 to |items|
        invariant forall i | n <= i < |items| :: items[i].State() == old(items[i].State())
        invariant forall i | 0 <= i < n :: items[i].State() == Clamped(items[i].definition, old(items[i].State()))
        invariant dirty == (old(dirty) || exists i :: 0 <= i < n && items[i].State() != old(items[i].State()))
      {
        var d := items[n].definition;
        if d.kind.Enum? || d.kind.Value? {
          if items[n].value < d.min {
            items[n].value := d.min;
            dirty := true;
          } else if items[n].value > d.max {
            items[n].value := d.max;
            dirty := true;
          }
        }
      }
    }
  }

  function Clamped(d: Def, s: Setting): Setting {
    if d.kind.Text? then s
    else if s.value < d.min then s.(value := d.min)
    else if s.value > d.max then s.(value := d.max) else s
  }

  ghost predicate AllGood(items: seq<ConfigItem>) {
    forall i | 0 <= i < |items| :: GoodDef(items[i].definition)
  }

  ghost predicate Distinct(items: seq<ConfigItem>) {
    forall i, j | 0 <= i < j < |items| :: items[i] != items[j]
  }

  lemma NothingRestored(recs: seq<Rec>)
    ensures recs == [] ==> forall d, s | GoodDef(d) :: Restored(d, s, recs) == s
  {
  }

  // The records of any page from place i on: up to an id of all ones, the end of the page, or a
  // length that leaves it.
  ghost function PageRecs(page: seq<Byte>, i: nat): seq<Rec>
    decreases |page| - i
  {
    if i + 3 > |page| || page[i] == 0xFF || i + 3 + page[i + 2] as int > |page| then []
    else
      var next := i + 3 + page[i + 2] as int;
      [Rec(page[i], page[i + 1], page[i + 3..next])] + PageRecs(page, next)
  }

  lemma PageRecsStep(page: seq<Byte>, i: nat)
    ensures if i + 3 > |page| || page[i] == 0xFF || i + 3 + page[i + 2] as int > |page|
            then PageRecs(page, i) == []
            else
              var next := i + 3 + page[i + 2] as int;
              PageRecs(page, i) == [Rec(page[i], page[i + 1], page[i + 3..next])] + PageRecs(page, next)
  {
  }

  // Of a page that was packed these are the records of the items.
  lemma PackedPage(page: seq<Byte>, id: Dword, recs: seq<Rec>)
    requires IsPage(page, id, recs)
    ensures PageRecs(page, 4) == recs
  {
    hide IsPage, AllBytes, PageRecs;
    NoBytes(recs);
    PackedFrom(page, id, recs, 0);
    assert recs[0..] == recs;
  }

  lemma {:induction false} PackedFrom(page: seq<Byte>, id: Dword, recs: seq<Rec>, k: nat)
    requires IsPage(page, id, recs) && k <= |recs| && Storable(recs[..k])
    ensures PageRecs(page, 4 + |AllBytes(recs[..k])|) == recs[k..]
    decreases |recs| - k
  {
    hide IsPage, AllBytes, PageRecs, Storable;
    PageAt(page, id, recs, k);
    PageRecsStep(page, 4 + |AllBytes(recs[..k])|);
    if k < |recs| {
      PackedFrom(page, id, recs, k + 1);
      assert recs[k..] == [recs[k]] + recs[k + 1..];
    }
  }

  // Where record k of a page stands, and the end mark behind the last one.
  lemma PageAt(page: seq<Byte>, id: Dword, recs: seq<Rec>, k: nat)
    requires IsPage(page, id, recs) && k <= |recs|
    ensures Storable(recs[..k])
    ensures var i := 4 + |AllBytes(recs[..k])|;
            i < |page| &&
            if k == |recs| then page[i] == 0xFF
            else
              && page[i] != 0xFF && i + 3 + |recs[k].payload| < |page| && Storable(recs[..k + 1])
              && page[i + 2] == |recs[k].payload| && i + 3 + |recs[k].payload| == 4 + |AllBytes(recs[..k + 1])|
              && recs[k] == Rec(page[i], page[i + 1], page[i + 3..i + 3 + |recs[k].payload|])
  {
    hide RecBytes;
    PageSound(page, id, recs, k);
    if k < |recs| {
      BytesGrow(recs, k);
      var a, r := 4 + |AllBytes(recs[..k])|, RecBytes(recs[k]);
      RecordInPage(page, StoreId(id), AllBytes(recs[..k]), r, AllBytes(recs));
      RecFields(recs[k], page, a);
    } else {
      assert recs[..k] == recs;
    }
  }

  lemma RestoredStep(d: Def, s: Setting, recs: seq<Rec>, r: Rec)
    requires GoodDef(d)
    ensures Restored(d, s, recs + [r]) ==
              if r.id == d.id then Unpacked(d, Restored(d, s, recs), r) else Restored(d, s, recs)
  {
    assert (recs + [r])[..|recs|] == recs;
  }

  lemma PageSound(page: seq<Byte>, id: Dword, recs: seq<Rec>, k: nat)
    requires Storable(recs) && k <= |recs|
    ensures Storable(recs[..k])
  {
  }

  lemma RecordInPage(page: seq<Byte>, head: seq<Byte>, a: seq<Byte>, r: seq<Byte>, all: seq<Byte>)
    requires head + all <= page && a + r <= all
    ensures |head| + |a| + |r| <= |page| && page[|head| + |a|..|head| + |a| + |r|] == r
  {
    assert page[..|head + all|] == head + all;
    assert all[..|a + r|] == a + r;
    assert page[|head| + |a|..|head| + |a| + |r|] == (head + all)[|head| + |a|..|head| + |a| + |r|];
  }

  lemma RecFields(r: Rec, page: seq<Byte>, i: nat)
    requires |r.payload| <= 0xFF && i + 3 + |r.payload| <= |page| && page[i..i + 3 + |r.payload|] == RecBytes(r)
    ensures page[i + 2] == |r.payload| && r == Rec(page[i], page[i + 1], page[i + 3..i + 3 + |r.payload|])
  {
    var s := page[i..i + 3 + |r.payload|];
    assert s[0] == page[i] && s[1] == page[i + 1] && s[2] == page[i + 2];
    assert s[3..] == page[i + 3..i + 3 + |r.payload|];
  }

  lemma NoBytes(recs: seq<Rec>)
    ensures Storable(recs[..0]) && AllBytes(recs[..0]) == []
  {
  }

  // ---- Round trip ----

  ghost predicate UniqueIds(items: seq<ConfigItem>) {
    forall i, j | 0 <= i < j < |items| :: items[i].definition.id != items[j].definition.id
  }

  // The record of item i is in the page, and is that of an item with id of d.
  ghost predicate Has(items: seq<ConfigItem>, kept: seq<Rec>, d: Def, i: nat)
    requires Packable(items) && i < |items|
    reads items
  {
    items[i].definition.id == d.id && Record(items[i].definition, items[i].State()) in kept
  }

  // The record of the item with that id sets another item of the same kind that can hold its setting,
  // and leaves one of another kind alone, as does a page without such a record.
  lemma PageRestores(items: seq<ConfigItem>, kept: seq<Rec>, d: Def, s: Setting)
    requires Packable(items) && GoodDef(d)
    requires Unique(kept)
    ensures forall i | 0 <= i < |items| && Has(items, kept, d, i) ::
              if items[i].definition.kind != d.kind then Restored(d, s, kept) == s
              else InRange(d, items[i].State()) ==> Same(d.kind, Restored(d, s, kept), items[i].State())
    ensures (forall r | r in kept :: r.id != d.id) ==> Restored(d, s, kept) == s
  {
    hide InRange, GoodDef, Restored, Unpacked;
    forall i | 0 <= i < |items| && Has(items, kept, d, i)
      ensures if items[i].definition.kind != d.kind then Restored(d, s, kept) == s
              else InRange(d, items[i].State()) ==> Same(d.kind, Restored(d, s, kept), items[i].State())
    {
      var r := Record(items[i].definition, items[i].State());
      var k :| 0 <= k < |kept| && kept[k] == r;
      OwnCounts(d, s, kept, k);
      if items[i].definition.kind != d.kind {
        OtherKindKeeps(d, s, r, items[i].definition.kind);
      } else if InRange(d, items[i].State()) {
        RecordSets(d, s, items[i].definition, items[i].State());
      }
    }
    if forall r | r in kept :: r.id != d.id {
      OthersKeep(d, s, kept);
    }
  }

  lemma OtherKindKeeps(d: Def, s: Setting, r: Rec, kind: Kind)
    requires GoodDef(d) && r.tag == Tag(kind) && kind != d.kind
    ensures Unpacked(d, s, r) == s
  {
  }

  // Two settings of a kind that mean the same.
  predicate Same(k: Kind, a: Setting, b: Setting) {
    if k.Text? then a.text == b.text else a.value == b.value
  }

  // What an item that held was holds after the page: the setting of the item with its id if it is of
  // its kind and can be held, and what it held, if in range, without a record of its id and kind.
  ghost predicate Settled(items: seq<ConfigItem>, kept: seq<Rec>, d: Def, was: Setting, now: Setting)
    requires Packable(items)
    reads items
  {
    && (forall i | 0 <= i < |items| && Has(items, kept, d, i) ::
          if items[i].definition.kind != d.kind then InRange(d, was) ==> now == was
          else InRange(d, items[i].State()) ==> Same(d.kind, now, items[i].State()))
    && (InRange(d, was) && (forall r | r in kept :: r.id != d.id) ==> now == was)
  }

  lemma ItemSettles(items: seq<ConfigItem>, kept: seq<Rec>, d: Def, was: Setting)
    requires Packable(items) && GoodDef(d)
    requires Unique(kept)
    ensures Settled(items, kept, d, was, Clamped(d, Restored(d, was, kept)))
  {
    hide Packable, InRange, GoodDef, Restored, Same, Clamped, Has;
    PageRestores(items, kept, d, was);
    if InRange(d, was) {
      ClampInRange(d, was);
    }
    forall i | 0 <= i < |items| && Has(items, kept, d, i)
      ensures if items[i].definition.kind != d.kind
              then InRange(d, was) ==> Clamped(d, Restored(d, was, kept)) == was
              else InRange(d, items[i].State()) ==>
                Same(d.kind, Clamped(d, Restored(d, was, kept)), items[i].State())
    {
      if items[i].definition.kind == d.kind && InRange(d, items[i].State()) {
        ClampKeeps(d, Restored(d, was, kept), items[i].State());
      }
    }
  }

  lemma UniqueRecs(items: seq<ConfigItem>, size: nat)
    requires Packable(items) && UniqueIds(items)
    ensures Unique(Kept(Recs(items), size))
  {
    hide GoodDef, Held, Kept;
    KeptAreUnique(Recs(items), size);
  }

  // Store a is packed into its page, without writing behind it, and store b, maybe of other
  // definitions, reads it. Every item gets what the records of the page and its bounds make of it.
  method Reload(a: ConfigStore, b: ConfigStore)
    requires Packable(a.items) && UniqueIds(a.items)
    requires 4 <= a.blockSize && a.memBlock.Length == a.blockSize + 5 && !Overruns(Recs(a.items), a.blockSize)
    requires AllGood(b.items) && Distinct(b.items)
    requires b.blockSize == a.blockSize && b.memBlock.Length == a.memBlock.Length
    requires a.memBlock != b.memBlock && forall x | x in a.items :: x !in b.items
    modifies a.memBlock, b.memBlock, b`dirty, b.items
    ensures Packable(a.items) && Recs(a.items) == old(Recs(a.items))
    ensures forall j | 0 <= j < |b.items| ::
              && var kept := Kept(Recs(a.items), a.blockSize);
              && var d := b.items[j].definition;
              && b.items[j].State() == Clamped(d, Restored(d, old(b.items[j].State()), kept))
              && Settled(a.items, kept, d, old(b.items[j].State()), b.items[j].State())
  {
    hide Storable, AllBytes, GoodDef, InRange, Held, Restored, IsPage, Settled, Clamped, Recs, Kept, Overruns, PageRecs;
    ghost var recs := Recs(a.items);
    ghost var kept := Kept(recs, a.blockSize);
    UniqueRecs(a.items, a.blockSize);
    a.Pack();
    CopyPage(a.memBlock, b.memBlock, a.blockSize);
    PackedPage(b.memBlock[..b.blockSize], a.id, kept);
    b.Unpack();
    b.CheckBounds();
    forall i | 0 <= i < |a.items| ensures a.items[i].State() == old(a.items[i].State()) {
      assert a.items[i] in a.items && a.items[i] !in b.items;
    }
    assert Recs(a.items) == recs;
    forall j | 0 <= j < |b.items|
      ensures Settled(a.items, kept, b.items[j].definition, old(b.items[j].State()), b.items[j].State())
    {
      ItemSettles(a.items, kept, b.items[j].definition, old(b.items[j].State()));
    }
  }

  // The page goes through the flash memory.
  method CopyPage(from: array<Byte>, to: array<Byte>, size: nat)
    requires from != to && size <= from.Length == to.Length
    modifies to
    ensures to[..size] == from[..size]
  {
    for i := 0 to size
      invariant forall k | 0 <= k < i :: to[k] == from[k]
    {
      to[i] := from[i];
    }
  }

  // check_bounds changes nothing that is in range.
  lemma ClampKeeps(d: Def, t: Setting, s: Setting)
    requires Same(d.kind, t, s) && InRange(d, s)
    ensures Clamped(d, t) == t
  {
  }

  lemma ClampInRange(d: Def, s: Setting)
    requires InRange(d, s)
    ensures Clamped(d, s) == s
  {
  }

  // A number goes to the nearest one in its bounds, and a text stays.
  lemma ClampIsNearest(d: Def, s: Setting, y: int)
    requires d.min <= d.max
    ensures d.kind.Text? ==> Clamped(d, s) == s
    ensures !d.kind.Text? ==> d.min <= Clamped(d, s).value <= d.max && Clamped(d, s).text == s.text
    ensures !d.kind.Text? && d.min <= y <= d.max ==>
              Distance(s.value, Clamped(d, s).value) <= Distance(s.value, y)
  {
  }

  function Distance(a: int, b: int): nat {
    if a < b then b - a else a - b
  }

  // The bytes of the records of a number and of a text, and of a page.
  lemma RecordExamples(d: Def, e: Def)
    requires GoodDef(d) && d.id == 0x10 && d.kind == Value && GoodDef(e) && e.id == 0x11 && e.kind == Text && e.max >= 2
    ensures RecBytes(Record(d, Setting(0x1234_5678, []))) == [0x10, 1, 4, 0x12, 0x34, 0x56, 0x78]
    ensures RecBytes(Record(d, Setting(-2, []))) == [0x10, 1, 4, 0xFF, 0xFF, 0xFF, 0xFE]
    ensures RecBytes(Record(e, Setting(0, [0x41, 0x42]))) == [0x11, 3, 2, 0x41, 0x42]
    ensures StoreId(0x1234_5678) == [0x78, 0x56, 0x34, 0x12]
  {
  }

  lemma EnumExample(d: Def)
    requires GoodDef(d) && d.id == 0x12 && d.kind == Enum
    ensures RecBytes(Record(d, Setting(0x103, []))) == [0x12, 2, 1, 3]
  {
  }
}
