/** io.cpp: reading file data back through each layout. */
module IoRead {
  import opened Basics
  import opened Layout
  import opened FileData
  import opened IoUnits

  lemma UnitByte(d: seq<byte>, s: nat, ptrs: seq<nat>, size: nat, j: nat, o: nat, pos: nat)
    requires s > 0 && PtrsIn(d, s, ptrs) && size <= |ptrs| * s && j < |ptrs| && o < s && pos == j * s + o < size
    ensures TableBytes(d, s, ptrs, size)[pos] == UnitAt(d, s, ptrs[j])[o]
  {
    hide UnitAt;
    ByteAtUnit(d, s, ptrs, j, o);
  }

  /** A stretch of the byte sequence that lies in one unit. */
  lemma UnitSlice(d: seq<byte>, s: nat, ptrs: seq<nat>, size: nat, idx: nat, o: nat, left: nat)
    requires s > 0 && PtrsIn(d, s, ptrs) && size <= |ptrs| * s
    requires idx < |ptrs| && o + left <= s && idx * s + o + left <= size
    ensures TableBytes(d, s, ptrs, size)[idx * s + o .. idx * s + o + left] == UnitAt(d, s, ptrs[idx])[o .. o + left]
  {
    var lo := idx * s + o;
    hide UnitAt;
    var part, unit := TableBytes(d, s, ptrs, size)[lo .. lo + left], UnitAt(d, s, ptrs[idx])[o .. o + left];
    forall x | 0 <= x < left ensures part[x] == unit[x] {
      UnitByte(d, s, ptrs, size, idx, o + x, lo + x);
    }
  }

  /** Appending the part of unit idx from byte o on continues the table's byte sequence. */
  lemma ReadNext(d: seq<byte>, s: nat, ptrs: seq<nat>, size: nat, offset: nat, out: seq<byte>,
                 idx: nat, o: nat, left: nat, len: nat)
    requires s > 0 && PtrsIn(d, s, ptrs) && InUnits(s, 0, size, |ptrs|) && offset + len <= size
    requires |out| < len && Cursor(s, idx, o, offset, |out|, len) && left == Min(len - |out|, s - o)
    requires out == TableBytes(d, s, ptrs, size)[offset .. offset + |out|]
    ensures idx < |ptrs| && o + left <= s
    ensures out + UnitAt(d, s, ptrs[idx])[o .. o + left]
          == TableBytes(d, s, ptrs, size)[offset .. offset + |out| + left]
    ensures |out| + left < len ==> Cursor(s, idx + 1, 0, offset, |out| + left, len)
  {
    hide TableBytes, UnitAt;
    CursorInside(s, idx, o, offset + |out|, |ptrs|);
    UnitSlice(d, s, ptrs, size, idx, o, left);
    Continued(TableBytes(d, s, ptrs, size), offset, offset + |out|, offset + |out| + left);
    if |out| + left < len { NextStarts(s, idx, o, offset + |out|, left); }
  }

  lemma NextStarts(s: nat, idx: nat, o: nat, pos: nat, left: nat)
    requires idx * s + o == pos && o + left == s
    ensures (idx + 1) * s == pos + left
  {
  }

  lemma CursorInside(s: nat, idx: nat, o: nat, pos: nat, n: nat)
    requires o < s && idx * s + o == pos && pos < n * s
    ensures idx < n
  {
    DivMod(idx, s, o);
    DivBelow(pos, n, s);
  }

  lemma CursorStart(s: nat, off: nat, len: nat)
    requires s > 0
    ensures len > 0 ==> Cursor(s, IndFromOffset(s, off), OffsetInInd(s, off), off, 0, len)
  {
    DivBounds(off, s);
  }

  lemma PartOfChunk(d: seq<byte>, s: nat, p: nat, o: nat, left: nat, off: nat)
    requires o + left <= s && p * s + s <= |d| && off == p * s + o
    ensures off + left <= |d| && Chunk(d, s, p)[o .. o + left] == d[off .. off + left]
  {
    SliceOfSlice(d, p * s, s, o, left);
  }

  lemma SliceOfSlice(d: seq<byte>, a: nat, s: nat, o: nat, left: nat)
    requires a + s <= |d| && o + left <= s
    ensures d[a .. a + s][o .. o + left] == d[a + o .. a + o + left]
  {
    var x, y := d[a .. a + s][o .. o + left], d[a + o .. a + o + left];
    assert forall i | 0 <= i < left :: x[i] == d[a + o + i] == y[i];
  }

  lemma Continued(all: seq<byte>, lo: nat, mid: nat, hi: nat)
    requires lo <= mid <= hi <= |all|
    ensures all[lo .. mid] + all[mid .. hi] == all[lo .. hi]
  {
  }

  /** The bytes of one unit, holes included, as read_ind gets them from the device. */
  method ReadUnitPart(fs: FsContext, p: nat, s: nat, o: nat, left: nat) returns (out: seq<byte>)
    requires o + left <= s && p * s + s <= |fs.disk|
    ensures out == UnitAt(fs.disk, s, p)[o .. o + left]
  {
    if p == 0 {
      out := Zeros(left);
      assert out == Zeros(s)[o .. o + left];
    } else {
      var off := p * s + o;
      PartOfChunk(fs.disk, s, p, o, left, off);
      out := fs.disk[off .. off + left];
    }
  }

  /** read_ind: `nbyte` bytes from `offset` on through a table of pointers to units of size s. */
  method ReadInd(fs: FsContext, ino: Inode, nbyte: nat, offset: nat, s: nat, n: nat) returns (out: seq<byte>)
    requires s > 0 && n <= |ino.data| / 4 && PtrsIn(fs.disk, s, Front(ino, n)) && InUnits(s, 0, ino.size, n)
    requires offset <= ino.size
    ensures out == TableBytes(fs.disk, s, Front(ino, n), ino.size)[offset .. offset + Min(nbyte, ino.size - offset)]
  {
    hide Cursor, IndFromOffset, OffsetInInd, InUnits, TableBytes, PtrsIn;
    var len := Min(nbyte, ino.size - offset);
    var idx: nat := IndFromOffset(s, offset);
    var o: nat := OffsetInInd(s, offset);
    out := [];
    CursorStart(s, offset, len);
    ReadStart(fs.disk, s, Front(ino, n), ino.size, offset);
    while |out| < len
      invariant |out| <= len && offset + len <= ino.size && o < s
      invariant |out| < len ==> Cursor(s, idx, o, offset, |out|, len)
      invariant |TableBytes(fs.disk, s, Front(ino, n), ino.size)| == ino.size
      invariant out == TableBytes(fs.disk, s, Front(ino, n), ino.size)[offset .. offset + |out|]
      decreases len - |out|
    {
      var left := Min(len - |out|, s - o);
      ReadNext(fs.disk, s, Front(ino, n), ino.size, offset, out, idx, o, left, len);
      UnitReadable(fs.disk, s, Front(ino, n), idx);
      var part := ReadUnitPart(fs, Table(ino.data)[idx], s, o, left);
      out := out + part;
      o := 0;
      idx := idx + 1;
    }
  }

  lemma ReadStart(d: seq<byte>, s: nat, ptrs: seq<nat>, size: nat, offset: nat)
    requires s > 0 && PtrsIn(d, s, ptrs) && InUnits(s, 0, size, |ptrs|) && offset <= size
    ensures size <= |ptrs| * s && |TableBytes(d, s, ptrs, size)| == size
    ensures TableBytes(d, s, ptrs, size)[offset..offset] == []
  {
  }

  lemma UnitReadable(d: seq<byte>, s: nat, ptrs: seq<nat>, j: nat)
    requires PtrsIn(d, s, ptrs) && j < |ptrs|
    ensures ptrs[j] * s + s <= |d|
  {
  }

  /** read: what the file holds from `offset` on, as far as it reaches. */
  method Read(fs: FsContext, ino: Inode, nbyte: nat, offset: nat) returns (rc: Rc, out: seq<byte>)
    requires fs.g.Valid() && (ino.Type() != Other ==> Readable(fs.g, fs.disk, ino))
    ensures offset >= ino.size || nbyte == 0 ==> rc == Ok(0) && out == []
    ensures offset < ino.size && nbyte > 0 && ino.Type() == Other ==> rc == Perm
    ensures offset < ino.size && nbyte > 0 && ino.Type() != Other ==>
      && rc == Ok(|out|)
      && out == Content(fs.g, fs.disk, ino)[offset .. offset + Min(nbyte, ino.size - offset)]
  {
    if nbyte == 0 || offset >= ino.size { return Ok(0), []; }
    if ino.Type() == Emb {
      var len := if offset + nbyte > ino.size then ino.size - offset else nbyte;
      out := ino.data[offset .. offset + len];
      return Ok(|out|), out;
    } else if ino.Type() == Other {
      return Perm, [];
    }
    UnitsOk(fs.g, ino);
    var s := UnitSize(fs.g, ino.Type());
    out := ReadInd(fs, ino, nbyte, offset, s, Units(ino.size, s));
    rc := Ok(|out|);
  }
}
