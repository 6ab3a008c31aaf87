// Bytes, little-endian words and 32-bit arithmetic as the C code uses them.
module Bytes {

  datatype Option<+T> = None | Some(value: T)

  type Byte = b: int | 0 <= b < 0x100

  type Word = w: int | 0 <= w < 0x1_0000

  type Dword = d: int | 0 <= d < 0x1_0000_0000

  // One fixed sector size, the configuration _MAX_SS == _MIN_SS.
  const SS: int := 512

  type Sector = s: seq<Byte> | |s| == SS witness seq(SS, _ => 0)

  const DWORD_MAX: int := 0xFFFF_FFFF

  // Unsigned 32-bit subtraction.
  function Sub32(a: Dword, b: Dword): Dword {
    if a >= b then a - b else a - b + 0x1_0000_0000
  }

  // Unsigned 32-bit addition and multiplication of naturals.
  function Wrap32(x: nat): Dword {
    x % 0x1_0000_0000
  }

  function LdWord(b: seq<Byte>, p: nat): Word
    requires p + 2 <= |b|
  {
    (b[p] as int) + 0x100 * (b[p + 1] as int)
  }

  function LdDword(b: seq<Byte>, p: nat): Dword
    requires p + 4 <= |b|
  {
    (b[p] as int) + 0x100 * (b[p + 1] as int) + 0x1_0000 * (b[p + 2] as int) + 0x100_0000 * (b[p + 3] as int)
  }

  // Words are stored with the lowest byte first.
  lemma LittleEndian()
    ensures LdWord([0x34, 0x12], 0) == 0x1234 && LdDword([0x78, 0x56, 0x34, 0x12], 0) == 0x1234_5678
  {
  }

  // A difference is what has to be added.
  lemma SubUndone(a: Dword, b: Dword)
    ensures Wrap32(Sub32(a, b) + b) == a
  {
  }

  // Bitwise or of two numbers below 2^n.
  function Or(a: nat, b: nat, n: nat): nat {
    if n == 0 then 0
    else (if a % 2 == 1 || b % 2 == 1 then 1 else 0) + 2 * Or(a / 2, b / 2, n - 1)
  }

  // Bitwise and of two numbers below 2^n.
  function And(a: nat, b: nat, n: nat): nat {
    if n == 0 then 0
    else (if a % 2 == 1 && b % 2 == 1 then 1 else 0) + 2 * And(a / 2, b / 2, n - 1)
  }

  function Pow2(n: nat): nat {
    if n == 0 then 1 else 2 * Pow2(n - 1)
  }

  lemma {:induction false} AndSelf(a: nat, n: nat)
    requires a < Pow2(n)
    ensures And(a, a, n) == a
  {
    if n > 0 {
      AndSelf(a / 2, n - 1);
    }
  }

  predicate PowerOfTwo(a: nat) {
    a == 1 || (a > 0 && a % 2 == 0 && PowerOfTwo(a / 2))
  }

  // a & (a - 1) is zero exactly for the powers of two.
  lemma {:induction false} PowerTest(a: nat, n: nat)
    requires 0 < a < Pow2(n)
    ensures And(a, a - 1, n) == 0 <==> PowerOfTwo(a)
  {
    if a % 2 == 1 {
      AndSelf(a / 2, n - 1);
    } else {
      PowerTest(a / 2, n - 1);
    }
  }

  lemma {:induction false} OrBound(a: nat, b: nat, n: nat)
    ensures Or(a, b, n) < Pow2(n)
  {
    if n > 0 {
      OrBound(a / 2, b / 2, n - 1);
    }
  }

  // Every bit of a is one of b.
  predicate Within(a: nat, b: nat, n: nat) {
    n == 0 || (a % 2 <= b % 2 && Within(a / 2, b / 2, n - 1))
  }

  lemma {:induction false} OrKeeps(a: nat, b: nat, n: nat)
    requires b < Pow2(n)
    ensures Or(a, b, n) == b <==> Within(a, b, n)
    ensures Within(0, b, n)
  {
    if n > 0 {
      OrKeeps(a / 2, b / 2, n - 1);
    }
  }

  lemma OrNibble(a: nat, b: nat)
    requires a < 16 && b < 16
    ensures Or(a, b, 4) < 16
    ensures Or(a, b, 4) == b <==> Within(a, b, 4)
    ensures Within(0, b, 4)
  {
    hide Or, Within;
    assert Pow2(4) == 16;
    OrBound(a, b, 4);
    OrKeeps(a, b, 4);
  }

  // ---- Transfers of several sectors ----

  // The bytes of cc sectors from s on.
  function Flat(v: seq<Sector>, s: nat, cc: nat): (r: seq<Byte>)
    requires s + cc <= |v|
    ensures |r| == cc * SS
    ensures forall i | 0 <= i < |r| :: r[i] == v[s + i / SS][i % SS]
  {
    seq(cc * SS, i requires 0 <= i < cc * SS => v[s + i / SS][i % SS])
  }

  // The sectors after cc sectors from s on were written with data.
  function PutFlat(v: seq<Sector>, s: nat, cc: nat, data: seq<Byte>): (r: seq<Sector>)
    requires s + cc <= |v| && |data| == cc * SS
    ensures |r| == |v|
    ensures forall t | 0 <= t < |v| :: r[t] == if s <= t < s + cc then data[(t - s) * SS..(t - s + 1) * SS] else v[t]
  {
    seq(|v|, t requires 0 <= t < |v| => if s <= t < s + cc then data[(t - s) * SS..(t - s + 1) * SS] else v[t])
  }

  // One sector only.
  lemma SingleSector(v: seq<Sector>, s: nat, data: Sector)
    requires s < |v|
    ensures PutFlat(v, s, 1, data) == v[s := data] && Flat(v, s, 1) == v[s]
  {
    assert data[0 * SS..1 * SS] == data;
    assert forall i | 0 <= i < SS :: Flat(v, s, 1)[i] == v[s][i];
  }
}
