/** A file as bytes: what its inode means under each of the three layouts. */
module FileData {
  import opened Basics
  import opened Layout
  import opened EraseBlk

  // ------------------------------------------------------------ indirect units

  predicate PtrsIn(d: seq<byte>, s: nat, ptrs: seq<nat>) {
    s <= |d| && forall j | 0 <= j < |ptrs| :: ptrs[j] * s + s <= |d|
  }

  /** The bytes behind one pointer; pointer 0 is a hole. */
  function UnitAt(d: seq<byte>, s: nat, p: nat): (r: seq<byte>)
    requires p * s + s <= |d|
    ensures |r| == s
  {
    if p == 0 then Zeros(s) else Chunk(d, s, p)
  }

  function ByteAt(d: seq<byte>, s: nat, ptrs: seq<nat>, i: nat): byte
    requires s > 0 && PtrsIn(d, s, ptrs) && i < |ptrs| * s
  {
    DivBelow(i, |ptrs|, s);
    UnitAt(d, s, ptrs[i / s])[i % s]
  }

  lemma ByteAtUnit(d: seq<byte>, s: nat, ptrs: seq<nat>, j: nat, o: nat)
    requires s > 0 && PtrsIn(d, s, ptrs) && j < |ptrs| && o < s
    ensures j * s + o < |ptrs| * s
    ensures ByteAt(d, s, ptrs, j * s + o) == UnitAt(d, s, ptrs[j])[o]
  {
    DivMod(j, s, o);
    MulMono(j, |ptrs|, s);
  }

  /** The first `size` bytes reached through a pointer table. */
  function TableBytes(d: seq<byte>, s: nat, ptrs: seq<nat>, size: nat): (r: seq<byte>)
    requires s > 0 && PtrsIn(d, s, ptrs) && size <= |ptrs| * s
    ensures |r| == size
  {
    seq(size, i requires 0 <= i < size => ByteAt(d, s, ptrs, i))
  }

  // ------------------------------------------------------------ inode contents

  /** The pointers of a file that are in use. */
  function Ptrs(g: Geometry, ino: Inode): (r: seq<nat>)
    requires g.Valid() && LayoutOk(g, ino)
    ensures forall j | 0 <= j < |r| :: r[j] < U32
  {
    if ino.Type() == Emb then [] else
      UnitsOk(g, ino);
      Table(ino.data)[..Units(ino.size, UnitSize(g, ino.Type()))]
  }

  /** The layout invariant: the type tag agrees with the size, and the size fits the pointer table. */
  predicate LayoutOk(g: Geometry, ino: Inode)
    requires g.Valid()
  {
    && |ino.data| == g.MaxEmb()
    && ino.size <= g.MaxEbin()
    && ino.Type() == TypeFromSize(g, ino.size)
  }

  lemma UnitsOk(g: Geometry, ino: Inode)
    requires g.Valid() && LayoutOk(g, ino) && ino.Type() != Emb
    ensures UnitSize(g, ino.Type()) > 0
    ensures 1 <= Units(ino.size, UnitSize(g, ino.Type())) <= g.MaxPtrs() == |Table(ino.data)|
  {
    Sizes(g);
    UnitsFit(ino.size, UnitSize(g, ino.Type()), g.MaxPtrs());
  }

  predicate Readable(g: Geometry, d: seq<byte>, ino: Inode)
    requires g.Valid()
  {
    LayoutOk(g, ino) && PtrsIn(d, UnitSize(g, ino.Type()), Ptrs(g, ino))
  }

  /** The file's bytes. */
  function Content(g: Geometry, d: seq<byte>, ino: Inode): (r: seq<byte>)
    requires g.Valid() && Readable(g, d, ino)
    ensures |r| == ino.size
  {
    if ino.Type() == Emb then ino.data[..ino.size] else
      UnitsOk(g, ino);
      TableBytes(d, UnitSize(g, ino.Type()), Ptrs(g, ino), ino.size)
  }

  /** A write of `buf` at `off` into a plain byte sequence; a gap behind its end is filled with zeros. */
  function Splice(oldBytes: seq<byte>, buf: seq<byte>, off: nat): (r: seq<byte>)
    ensures |r| == Max(|oldBytes|, off + |buf|)
    ensures forall i | 0 <= i < |r| ::
              r[i] == if off <= i < off + |buf| then buf[i - off] else if i < |oldBytes| then oldBytes[i] else 0
  {
    seq(Max(|oldBytes|, off + |buf|), i requires 0 <= i =>
      if off <= i < off + |buf| then buf[i - off] else if i < |oldBytes| then oldBytes[i] else 0)
  }

  /** Unit j of the table holds its share of `bytes`. */
  ghost predicate Spells(d: seq<byte>, s: nat, p: nat, j: nat, bytes: seq<byte>) {
    && p * s + s <= |d|
    && forall o: nat | o < s && j * s + o < |bytes| :: UnitAt(d, s, p)[o] == bytes[j * s + o]
  }

  /** A table whose units spell a byte sequence is that byte sequence. */
  lemma SpelledOut(d: seq<byte>, s: nat, ptrs: seq<nat>, bytes: seq<byte>)
    requires s > 0 && s <= |d| && |bytes| <= |ptrs| * s
    requires forall j: nat | j < |ptrs| :: Spells(d, s, ptrs[j], j, bytes)
    ensures PtrsIn(d, s, ptrs) && TableBytes(d, s, ptrs, |bytes|) == bytes
  {
    assert PtrsIn(d, s, ptrs) by {
      forall j: nat | j < |ptrs| ensures ptrs[j] * s + s <= |d| { assert Spells(d, s, ptrs[j], j, bytes); }
    }
    var t := TableBytes(d, s, ptrs, |bytes|);
    forall i | 0 <= i < |bytes| ensures t[i] == bytes[i] {
      DivBounds(i, s);
      DivBelow(i, |ptrs|, s);
      assert Spells(d, s, ptrs[i / s], i / s, bytes);
    }
  }

  // ------------------------------------------------------------ ownership of pointers

  function Nz(ptrs: seq<nat>): set<nat> {
    set j | 0 <= j < |ptrs| && ptrs[j] != 0 :: ptrs[j]
  }

  predicate Distinct(ptrs: seq<nat>) {
    forall i, j | 0 <= i < j < |ptrs| && ptrs[i] != 0 :: ptrs[i] != ptrs[j]
  }

  /**
   * A file of type t holds exactly the pointers `ptrs`, each once; all other files together hold the
   * clusters `oc` and the erase blocks `ob`. Everything held is allocated and counted.
   */
  predicate Owned(g: Geometry, eb: seq<EraseBlock>, t: DataType, ptrs: seq<nat>, oc: set<nat>, ob: set<nat>,
                  exact: bool)
    requires g.k > 0
  {
    && Distinct(ptrs)
    && if t == Ebin then
         Nz(ptrs) !! ob && LiveOk(g, eb, oc, exact) && EbinLive(eb, ob + Nz(ptrs))
       else
         Nz(ptrs) !! oc && LiveOk(g, eb, oc + Nz(ptrs), exact) && EbinLive(eb, ob)
  }

  lemma NzUpdate(ptrs: seq<nat>, j: nat, q: nat)
    requires j < |ptrs| && Distinct(ptrs) && (q == 0 || q !in Nz(ptrs))
    ensures Distinct(ptrs[j := q])
    ensures Nz(ptrs[j := q]) == Nz(ptrs) - {ptrs[j]} + (if q == 0 then {} else {q})
  {
    var t := ptrs[j := q];
    forall x ensures x in Nz(t) <==> x in Nz(ptrs) - {ptrs[j]} + (if q == 0 then {} else {q}) {
      if x in Nz(t) {
        var i :| 0 <= i < |t| && t[i] != 0 && t[i] == x;
        if i != j { assert ptrs[i] == x; assert x in Nz(ptrs); }
      }
      if x in Nz(ptrs) && x != ptrs[j] {
        var i :| 0 <= i < |ptrs| && ptrs[i] != 0 && ptrs[i] == x;
        assert t[i] == x;
      }
      if q != 0 && x == q { assert t[j] == x; }
    }
    forall i, k | 0 <= i < k < |t| && t[i] != 0 ensures t[i] != t[k] {
      if i == j {
        assert ptrs[k] == 0 || ptrs[k] in Nz(ptrs);
      } else if k == j {
        assert ptrs[i] in Nz(ptrs);
      }
    }
  }

  /** Everything a file owns can be read. */
  lemma OwnedIn(g: Geometry, eb: seq<EraseBlock>, d: seq<byte>, t: DataType, ptrs: seq<nat>,
                oc: set<nat>, ob: set<nat>, exact: bool)
    requires g.Valid() && |eb| == g.blocks && |d| == g.DeviceSize()
    requires Owned(g, eb, t, ptrs, oc, ob, exact)
    ensures PtrsIn(d, UnitSize(g, t), ptrs)
  {
    Sizes(g);
    forall j | 0 <= j < |ptrs| ensures ptrs[j] * UnitSize(g, t) + UnitSize(g, t) <= |d| {
      if ptrs[j] != 0 {
        assert ptrs[j] in Nz(ptrs);
        if t == Ebin { BlockInDevice(g, ptrs[j]); } else {
          assert ClinPtrOk(g, eb, ptrs[j]);
          ClusterInBlock(g, ptrs[j]);
        }
      }
    }
  }

  /** A live cluster keeps its bytes across a step that keeps every used cluster. */
  lemma KeptClin(g: Geometry, eb0: seq<EraseBlock>, d0: seq<byte>, eb1: seq<EraseBlock>, d1: seq<byte>, own: set<nat>,
                 p: nat)
    requires g.Valid() && Kept(g, eb0, d0, eb1, d1, own)
    requires ClinPtrOk(g, eb0, p)
    requires forall b | b in own :: b < |eb0| && !IsClinType(eb0[b].etype)
    ensures p * g.c + g.c <= |d0| && UnitAt(d1, g.c, p) == UnitAt(d0, g.c, p)
  {
    var b, i := p / g.k, p % g.k;
    DivBounds(p, g.k);
    assert Used(g, eb0, b, i);
    assert ClOf(g, b, i) == p;
    ClInDevice(g, b, i);
    assert Cluster(g, d1, b, i) == Cluster(g, d0, b, i);
  }

  lemma KeptEbin(g: Geometry, eb0: seq<EraseBlock>, d0: seq<byte>, eb1: seq<EraseBlock>, d1: seq<byte>, own: set<nat>,
                 p: nat)
    requires g.Valid() && Kept(g, eb0, d0, eb1, d1, own)
    requires p < |eb0| && eb0[p].etype == EbinBlk && p !in own
    ensures p * g.E() + g.E() <= |d0| && UnitAt(d1, g.E(), p) == UnitAt(d0, g.E(), p)
  {
    BlockInDevice(g, p);
    forall i: nat | i < g.k ensures Cluster(g, d1, p, i) == Cluster(g, d0, p, i) { assert Used(g, eb0, p, i); }
    BlockOfClusters(g, d0, d1, p);
  }
}
