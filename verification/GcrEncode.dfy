// Writing the bytes of a track into drive memory.
module GcrEncode {
  import opened Bytes
  import opened Gcr
  import opened GcrTrack

  // From position at on the memory holds what was put, and nothing else of it changed.
  ghost predicate Wrote(was: seq<Byte>, now: seq<Byte>, at: nat, put: seq<Byte>) {
    && |was| == |now| && at + |put| <= |now| && now[at..at + |put|] == put
    && forall i | 0 <= i < at || at + |put| <= i < |now| :: now[i] == was[i]
  }

  // Putting p and then q behind it is putting p + q.
  lemma Joined(was: seq<Byte>, mid: seq<Byte>, now: seq<Byte>, at: nat, p: seq<Byte>, q: seq<Byte>)
    requires Wrote(was, mid, at, p) && Wrote(mid, now, at + |p|, q)
    ensures Wrote(was, now, at, p + q)
  {
    assert now[at..at + |p|] == mid[at..at + |p|];
    assert now[at..at + |p| + |q|] == now[at..at + |p|] + now[at + |p|..at + |p| + |q|];
  }

  lemma Put(was: seq<Byte>, now: seq<Byte>, at: nat, put: seq<Byte>)
    requires Wrote(was, now, at, put)
    ensures at + |put| <= |now| && now[at..at + |put|] == put
  {
  }

  // The loops that put the same byte n times.
  method PutRun(mem: array<Byte>, at: nat, n: nat, v: Byte) returns (next: nat)
    requires at + n <= mem.Length
    modifies mem
    ensures next == at + n && Wrote(old(mem[..]), mem[..], at, Run(n, v))
  {
    next := at;
    for i := 0 to n
      invariant next == at + i
      invariant forall k | at <= k < next :: mem[k] == v
      invariant forall k | 0 <= k < at || next <= k < mem.Length :: mem[k] == old(mem[k])
    {
      mem[next] := v;
      next := next + 1;
    }
  }

  method Put5(mem: array<Byte>, at: nat, a: Byte, b: Byte, c: Byte, d: Byte) returns (next: nat)
    requires at + 5 <= mem.Length
    modifies mem
    ensures next == at + 5 && Wrote(old(mem[..]), mem[..], at, Encode4(a, b, c, d))
  {
    hide Code2;
    mem[at] := Code2(a) / 4;
    mem[at + 1] := Code2(a) % 4 * 64 + Code2(b) / 16;
    mem[at + 2] := Code2(b) % 16 * 16 + Code2(c) / 64;
    mem[at + 3] := Code2(c) % 64 * 4 + Code2(d) / 256;
    mem[at + 4] := Code2(d) % 256;
    next := at + 5;
  }

  // convert_block_bin2gcr.
  method ConvertBlock(mem: array<Byte>, at: nat, bin: seq<Byte>) returns (next: nat)
    requires |bin| % 4 == 0 && at + |bin| / 4 * 5 <= mem.Length
    modifies mem
    ensures next == at + |bin| / 4 * 5 && Wrote(old(mem[..]), mem[..], at, Block(bin))
  {
    hide Encode4, Block;
    next := at;
    var i := 0;
    while i < |bin|
      invariant 0 <= i <= |bin| && i % 4 == 0 && next == at + i / 4 * 5
      invariant Wrote(old(mem[..]), mem[..], at, Block(bin[..i]))
    {
      BlockAppend(bin[..i], bin[i], bin[i + 1], bin[i + 2], bin[i + 3]);
      assert bin[..i + 4] == bin[..i] + [bin[i], bin[i + 1], bin[i + 2], bin[i + 3]];
      label Before:
      next := Put5(mem, next, bin[i], bin[i + 1], bin[i + 2], bin[i + 3]);
      assert mem[at..next] == Block(bin[..i + 4]);
      i := i + 4;
    }
    assert bin[..i] == bin;
  }

  // The sector buffer: the mark 7, the data and their checksum.
  method FillBuffer(buf: array<Byte>, data: seq<Byte>)
    requires |data| == 256 && buf.Length == 260
    modifies buf
    ensures buf[..] == [7] + data + [Checksum(data), 0, 0]
  {
    hide Xor;
    buf[0], buf[258], buf[259] := 7, 0, 0;
    var chk: Byte := 0;
    for i := 0 to 256
      invariant buf[0] == 7 && buf[258] == 0 && buf[259] == 0 && chk == Checksum(data[..i])
      invariant forall k | 1 <= k <= i :: buf[k] == data[k - 1]
    {
      assert data[..i + 1][..i] == data[..i];
      chk := Xor(chk, data[i]);
      buf[i + 1] := data[i];
    }
    assert data[..256] == data;
    buf[257] := chk;
  }

  // A sync mark, a block and a gap behind it.
  method WriteMarked(mem: array<Byte>, at: nat, block: seq<Byte>, gap: nat) returns (next: nat)
    requires |block| % 4 == 0 && at + 5 + |block| / 4 * 5 + gap <= mem.Length
    modifies mem
    ensures next == at + 5 + |block| / 4 * 5 + gap && Wrote(old(mem[..]), mem[..], at, Marked(block, gap))
  {
    hide Block, Wrote;
    ghost var m0 := mem[..];
    next := PutRun(mem, at, 5, FF);
    ghost var m1 := mem[..];
    next := ConvertBlock(mem, next, block);
    Joined(m0, m1, mem[..], at, Run(5, FF), Block(block));
    m1 := mem[..];
    next := PutRun(mem, next, gap, GAP);
    Joined(m0, m1, mem[..], at, Run(5, FF) + Block(block), Run(gap, GAP));
  }

  // One sector: the header, and the data with their checksum.
  method WriteSector(mem: array<Byte>, at: nat, t: Source, s: nat, buf: array<Byte>) returns (next: nat)
    requires Good(t) && s < Sectors(Region(t.track)) && buf.Length == 260 && buf != mem
    requires at + SECTOR_BYTES + GapLength(Region(t.track)) <= mem.Length
    modifies mem, buf
    ensures next == at + SECTOR_BYTES + GapLength(Region(t.track)) &&
            Wrote(old(mem[..]), mem[..], at, SectorImage(t, s))
  {
    hide Header, SectorData, Region, GapLength, Wrote, Marked;
    RegionSizes(Region(t.track), 0);
    ghost var m0 := mem[..];
    next := WriteMarked(mem, at, Header(t, s), 9);
    ghost var m1 := mem[..];
    FillBuffer(buf, SectorData(t, s));
    next := WriteMarked(mem, next, buf[..], GapLength(Region(t.track)));
    Joined(m0, m1, mem[..], at, Marked(Header(t, s), 9), Marked(DataBlock(t, s), GapLength(Region(t.track))));
  }

  // convert_track_bin2gcr without error codes: all sectors, and gap up to the length of the track.
  method ConvertTrack(mem: array<Byte>, at: nat, t: Source, buf: array<Byte>) returns (next: nat)
    requires Good(t) && buf.Length == 260 && buf != mem && at + Length(Region(t.track)) <= mem.Length
    modifies mem, buf
    ensures next == at + Length(Region(t.track)) && Wrote(old(mem[..]), mem[..], at, Track(t))
    ensures Formatted(mem[at..next], t)
  {
    hide Region, Wrote, SectorImage, SectorsUpTo, Offset;
    var region := Region(t.track);
    RegionSizes(region, 0);
    ghost var m0 := mem[..];
    var end := at + Length(region);
    next := at;
    NothingWrote(m0, at);
    for s := 0 to Sectors(region)
      invariant next == at + Offset(region, s) && Wrote(m0, mem[..], at, SectorsUpTo(t, s))
    {
      OffsetBound(region, s + 1);
      RegionSizes(region, s);
      ghost var m1 := mem[..];
      next := WriteSector(mem, next, t, s, buf);
      Joined(m0, m1, mem[..], at, SectorsUpTo(t, s), SectorImage(t, s));
      NextSector(t, s);
    }
    ghost var m1 := mem[..];
    ghost var n := end - next;
    next := PutRun(mem, next, end - next, GAP);
    Joined(m0, m1, mem[..], at, SectorsUpTo(t, Sectors(region)), Run(n, GAP));
    TrackIsFormatted(t);
    Put(m0, mem[..], at, Track(t));
  }

  lemma NothingWrote(m: seq<Byte>, at: nat)
    requires at <= |m|
    ensures Wrote(m, m, at, [])
  {
  }

  lemma OffsetBound(region: nat, s: nat)
    requires region < 4 && s <= Sectors(region)
    ensures Offset(region, s) <= Length(region)
  {
  }

  lemma NextSector(t: Source, s: nat)
    requires Good(t) && s < Sectors(Region(t.track))
    ensures SectorsUpTo(t, 0) == []
    ensures SectorsUpTo(t, s + 1) == SectorsUpTo(t, s) + SectorImage(t, s)
  {
  }
}
