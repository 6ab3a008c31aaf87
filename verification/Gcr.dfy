// The group code of the 1541: four bytes as five, and how bytes of all ones come about in it.
module Gcr {
  import opened Bytes

  const FF: Byte := 0xFF
  const GAP: Byte := 0x55

  // The five-bit code of a nibble.
  const GCR_TABLE: seq<Byte> := [0x0A, 0x0B, 0x12, 0x13, 0x0E, 0x0F, 0x16, 0x17,
                                 0x09, 0x19, 0x1A, 0x1B, 0x0D, 0x1D, 0x1E, 0x15]

  function Code(nibble: nat): (c: nat)
    requires nibble < 16
    ensures 0 < c < 31
  {
    GCR_TABLE[nibble]
  }

  // The ten bits of a byte.
  function Code2(b: Byte): (c: nat)
    ensures c < 0x400 && c / 32 == Code(b / 16) && c % 32 == Code(b % 16)
  {
    Code(b % 16) + 32 * Code(b / 16)
  }

  // Four bytes as forty bits in five bytes.
  function Encode4(a: Byte, b: Byte, c: Byte, d: Byte): (g: seq<Byte>)
    ensures |g| == 5
  {
    [Code2(a) / 4,
     Code2(a) % 4 * 64 + Code2(b) / 16,
     Code2(b) % 16 * 16 + Code2(c) / 64,
     Code2(c) % 64 * 4 + Code2(d) / 256,
     Code2(d) % 256]
  }

  // The nibble of a five-bit code, as the decoder registers give it; codes that stand for none
  // are read as 15.
  function Nibble(code: nat): (n: nat)
    ensures n < 16
  {
    if code == 0x0A then 0
    else if code == 0x0B then 1
    else if code == 0x12 then 2
    else if code == 0x13 then 3
    else if code == 0x0E then 4
    else if code == 0x0F then 5
    else if code == 0x16 then 6
    else if code == 0x17 then 7
    else if code == 0x09 then 8
    else if code == 0x19 then 9
    else if code == 0x1A then 10
    else if code == 0x1B then 11
    else if code == 0x0D then 12
    else if code == 0x1D then 13
    else if code == 0x1E then 14
    else 15
  }

  function Uncode2(bits: nat): Byte {
    Nibble(bits / 32 % 32) * 16 + Nibble(bits % 32)
  }

  // conv_5bytes_gcr2bin: forty bits back to four bytes.
  function Decode5(g: seq<Byte>): (b: seq<Byte>)
    requires |g| == 5
    ensures |b| == 4
  {
    var x: int, y: int, z: int, v: int, w: int := g[0], g[1], g[2], g[3], g[4];
    [Uncode2(x * 4 + y / 64),
     Uncode2(y % 64 * 16 + z / 16),
     Uncode2(z % 16 * 64 + v / 4),
     Uncode2(v % 4 * 256 + w)]
  }

  lemma NibbleOfCode(n: nat)
    requires n < 16
    ensures Nibble(Code(n)) == n
  {
    assert GCR_TABLE[0] == 0x0A && GCR_TABLE[1] == 0x0B && GCR_TABLE[2] == 0x12 && GCR_TABLE[3] == 0x13;
    assert GCR_TABLE[4] == 0x0E && GCR_TABLE[5] == 0x0F && GCR_TABLE[6] == 0x16 && GCR_TABLE[7] == 0x17;
    assert GCR_TABLE[8] == 0x09 && GCR_TABLE[9] == 0x19 && GCR_TABLE[10] == 0x1A && GCR_TABLE[11] == 0x1B;
    assert GCR_TABLE[12] == 0x0D && GCR_TABLE[13] == 0x1D && GCR_TABLE[14] == 0x1E && GCR_TABLE[15] == 0x15;
  }

  lemma Uncode2OfCode2(b: Byte)
    ensures Uncode2(Code2(b)) == b
  {
    hide Code2, Code, Nibble;
    NibbleOfCode(b / 16);
    NibbleOfCode(b % 16);
    assert Code2(b) / 32 % 32 == Code(b / 16);
  }

  // Cutting ten-bit groups into bytes and putting them together again.
  lemma JoinFirst(x: nat, y: nat)
    requires x < 0x400 && y < 0x400
    ensures x / 4 * 4 + (x % 4 * 64 + y / 16) / 64 == x
  {
    assert y / 16 < 64;
  }

  lemma JoinSecond(x: nat, y: nat, z: nat)
    requires x < 0x400 && y < 0x400 && z < 0x400
    ensures (x % 4 * 64 + y / 16) % 64 * 16 + (y % 16 * 16 + z / 64) / 16 == y
  {
    assert y / 16 < 64 && z / 64 < 16;
    assert (x % 4 * 64 + y / 16) % 64 == y / 16;
    assert (y % 16 * 16 + z / 64) / 16 == y % 16;
  }

  lemma JoinThird(y: nat, z: nat, v: nat)
    requires y < 0x400 && z < 0x400 && v < 0x400
    ensures (y % 16 * 16 + z / 64) % 16 * 64 + (z % 64 * 4 + v / 256) / 4 == z
  {
    assert z / 64 < 16 && v / 256 < 4;
    assert (y % 16 * 16 + z / 64) % 16 == z / 64;
    assert (z % 64 * 4 + v / 256) / 4 == z % 64;
  }

  lemma JoinFourth(z: nat, v: nat)
    requires z < 0x400 && v < 0x400
    ensures (z % 64 * 4 + v / 256) % 4 * 256 + v % 256 == v
  {
    assert v / 256 < 4;
    assert (z % 64 * 4 + v / 256) % 4 == v / 256;
  }

  // The decoder undoes the encoder.
  lemma Decode5OfEncode4(a: Byte, b: Byte, c: Byte, d: Byte)
    ensures Decode5(Encode4(a, b, c, d)) == [a, b, c, d]
  {
    hide Code2, Uncode2, Code;
    Uncode2OfCode2(a);
    Uncode2OfCode2(b);
    Uncode2OfCode2(c);
    Uncode2OfCode2(d);
    JoinFirst(Code2(a), Code2(b));
    JoinSecond(Code2(a), Code2(b), Code2(c));
    JoinThird(Code2(b), Code2(c), Code2(d));
    JoinFourth(Code2(c), Code2(d));
  }

  lemma CodeBounds(b: Byte)
    ensures Code2(b) / 16 < 62 && Code2(b) / 4 < 248 && Code2(b) % 64 != 63 && Code2(b) % 256 != 255
  {
    hide Code2, Code;
    TenBits(Code2(b));
  }

  lemma TenBits(x: nat)
    requires x / 32 <= 30 && x % 32 <= 30
    ensures x / 16 < 62 && x / 4 < 248 && x % 64 != 63 && x % 256 != 255
  {
    if x % 64 == 63 {
      Mod32(x, 2 * (x / 64) + 1, 31);
    }
    if x % 256 == 255 {
      Mod32(x, 8 * (x / 256) + 7, 31);
    }
  }

  lemma Mod32(x: nat, q: nat, r: nat)
    requires x == 32 * q + r && r < 32
    ensures x % 32 == r
  {
  }

  // Only the middle byte of five can be all ones: every other holds a whole code, and none is 31.
  lemma OnlyMiddleIsFF(a: Byte, b: Byte, c: Byte, d: Byte, i: nat)
    requires i < 5 && i != 2
    ensures Encode4(a, b, c, d)[i] != FF
  {
    hide Code2, Code;
    CodeBounds(a);
    CodeBounds(b);
    CodeBounds(c);
    CodeBounds(d);
  }

  // convert_block_bin2gcr as a function: every four bytes of a block as five.
  ghost function Block(bin: seq<Byte>): (g: seq<Byte>)
    requires |bin| % 4 == 0
    ensures |g| == |bin| / 4 * 5
  {
    if bin == [] then [] else Encode4(bin[0], bin[1], bin[2], bin[3]) + Block(bin[4..])
  }

  lemma {:induction false} BlockGroup(bin: seq<Byte>, q: nat)
    requires |bin| % 4 == 0 && 4 * q + 4 <= |bin|
    ensures Block(bin)[5 * q..5 * q + 5] == Encode4(bin[4 * q], bin[4 * q + 1], bin[4 * q + 2], bin[4 * q + 3])
  {
    hide Encode4;
    var rest := Block(bin[4..]);
    if q > 0 {
      BlockGroup(bin[4..], q - 1);
      assert Block(bin)[5 * q..5 * q + 5] == rest[5 * q - 5..5 * q];
    }
  }

  lemma {:induction false} BlockAppend(bin: seq<Byte>, a: Byte, b: Byte, c: Byte, d: Byte)
    requires |bin| % 4 == 0
    ensures Block(bin + [a, b, c, d]) == Block(bin) + Encode4(a, b, c, d)
  {
    hide Encode4;
    if bin == [] {
      assert bin + [a, b, c, d] == [a, b, c, d];
    } else {
      assert (bin + [a, b, c, d])[4..] == bin[4..] + [a, b, c, d];
      BlockAppend(bin[4..], a, b, c, d);
    }
  }

  // A byte of all ones within a block is the middle one of its five, so no two are adjacent.
  lemma FFInBlock(bin: seq<Byte>, i: nat)
    requires |bin| % 4 == 0 && i < |bin| / 4 * 5 && Block(bin)[i] == FF
    ensures i % 5 == 2
  {
    hide Encode4, Block;
    var q := i / 5;
    BlockGroup(bin, q);
    assert Block(bin)[i] == Block(bin)[5 * q..5 * q + 5][i % 5];
    if i % 5 != 2 {
      OnlyMiddleIsFF(bin[4 * q], bin[4 * q + 1], bin[4 * q + 2], bin[4 * q + 3], i % 5);
    }
  }

  // The decoder over any number of groups.
  ghost function Decoded(g: seq<Byte>): seq<Byte> {
    if |g| < 5 then [] else Decode5(g[..5]) + Decoded(g[5..])
  }

  // A block decodes to what was encoded.
  lemma {:induction false} BlockDecodes(bin: seq<Byte>)
    requires |bin| % 4 == 0
    ensures Decoded(Block(bin)) == bin
  {
    hide Encode4, Decode5;
    if bin != [] {
      var g := Block(bin);
      Decode5OfEncode4(bin[0], bin[1], bin[2], bin[3]);
      assert g[..5] == Encode4(bin[0], bin[1], bin[2], bin[3]) && g[5..] == Block(bin[4..]);
      BlockDecodes(bin[4..]);
    }
  }

  // The codes of the sixteen nibbles, as the 1541 has them.
  lemma Codes()
    ensures Code(0x0) == 0x0A && Code(0x1) == 0x0B && Code(0x2) == 0x12 && Code(0x3) == 0x13
    ensures Code(0x4) == 0x0E && Code(0x5) == 0x0F && Code(0x6) == 0x16 && Code(0x7) == 0x17
    ensures Code(0x8) == 0x09 && Code(0x9) == 0x19 && Code(0xA) == 0x1A && Code(0xB) == 0x1B
    ensures Code(0xC) == 0x0D && Code(0xD) == 0x1D && Code(0xE) == 0x1E && Code(0xF) == 0x15
  {
  }

  // Eight nibbles as forty bits, the highest first.
  lemma EncodedBits()
    ensures Encode4(0x08, 0x01, 0x00, 0x01) == [0x52, 0x54, 0xB5, 0x29, 0x4B]
    ensures Encode4(0x12, 0x34, 0x56, 0x78) == [0x5C, 0xA6, 0xE7, 0xDA, 0xE9]
  {
    SomeCodes();
    hide Code2;
  }

  lemma SomeCodes()
    ensures Code2(0x08) == 0x149 && Code2(0x01) == 0x14B && Code2(0x00) == 0x14A
    ensures Code2(0x12) == 0x172 && Code2(0x34) == 0x26E && Code2(0x56) == 0x1F6 && Code2(0x78) == 0x2E9
  {
    Codes();
    hide Code;
  }
}
