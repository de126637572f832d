/** inode_group.cpp and inode.cpp: how inodes are packed into a cluster, and parsed out of it again. */
module InodeCodec {
  import opened Basics
  import opened Layout
  import opened FileData

  // ---------------------------------------------------------- one inode

  /** An inode every field of which fits its place on disk. */
  predicate InodeOk(g: Geometry, ino: Inode)
    requires g.Valid()
  {
    && ino.size < U64 && ino.flags < U32 && ino.no < U32 && ino.nlink < U32 && ino.mode < U32
    && |ino.owner| == 8 && |ino.tail| == 96
    && LayoutOk(g, ino)
  }

  /** What get_inode_size adds to the header; (i_size - 1) is 64-bit arithmetic. */
  function DataLen(g: Geometry, size: nat, flags: nat): nat
    requires g.Valid()
  {
    var s := UnitSize(g, TypeOfFlags(flags));
    Sizes(g);
    var last := (size + (U64 - 1)) % U64;
    match TypeOfFlags(flags)
    case Emb => size
    case Clin => DivBounds(last, s); last / s * 4 + 4
    case Ebin => DivBounds(last, s); last / s * 4 + 4
    case Other => 0
  }

  /** get_inode_size */
  function InodeSize(g: Geometry, ino: Inode): nat
    requires g.Valid()
  {
    INODE_SIZE + DataLen(g, ino.size, ino.flags)
  }

  /** A file that keeps its layout invariant always fits into one cluster, so it can be packed. */
  lemma InodeFitsCluster(g: Geometry, ino: Inode)
    requires g.Valid() && InodeOk(g, ino)
    ensures INODE_SIZE <= InodeSize(g, ino) <= g.c
    ensures ino.Type() != Emb ==> InodeSize(g, ino) == INODE_SIZE + 4 * |Ptrs(g, ino)|
  {
    Sizes(g);
    if ino.Type() != Emb {
      UnitsOk(g, ino);
      assert (ino.size + (U64 - 1)) % U64 == ino.size - 1;
    }
  }

  function Header(ino: Inode): (h: seq<byte>)
    requires ino.size < U64 && ino.flags < U32 && ino.no < U32 && ino.nlink < U32 && ino.mode < U32
    requires |ino.owner| == 8 && |ino.tail| == 96
    ensures |h| == INODE_SIZE
  {
    Put32(ino.size / U32) + Put32(ino.size % U32) + Put32(ino.flags) + Put32(ino.no) + Put32(ino.nlink)
      + ino.owner + Put32(ino.mode) + ino.tail
  }

  /** The first get_inode_size bytes of an inode in memory. */
  function Encode(g: Geometry, ino: Inode): (b: seq<byte>)
    requires g.Valid() && InodeOk(g, ino)
    ensures |b| == InodeSize(g, ino)
  {
    InodeFitsCluster(g, ino);
    Header(ino) + ino.data[..DataLen(g, ino.size, ino.flags)]
  }

  /** An inode as it comes back from disk: behind its data the cluster-sized allocation is zero. */
  function Norm(g: Geometry, ino: Inode): (r: Inode)
    requires g.Valid() && InodeOk(g, ino)
    ensures InodeOk(g, r) && r == ino.(data := r.data)
  {
    InodeFitsCluster(g, ino);
    var len := DataLen(g, ino.size, ino.flags);
    ino.(data := ino.data[..len] + Zeros(g.MaxEmb() - len))
  }

  /** Reading an inode back does not change what the file holds. */
  lemma NormKeepsContent(g: Geometry, d: seq<byte>, ino: Inode)
    requires g.Valid() && InodeOk(g, ino) && Readable(g, d, ino)
    ensures Ptrs(g, Norm(g, ino)) == Ptrs(g, ino)
    ensures Readable(g, d, Norm(g, ino)) && Content(g, d, Norm(g, ino)) == Content(g, d, ino)
  {
    InodeFitsCluster(g, ino);
    var r := Norm(g, ino);
    if ino.Type() != Emb {
      UnitsOk(g, ino);
      var n := |Ptrs(g, ino)|;
      forall j | 0 <= j < n ensures Ptrs(g, r)[j] == Ptrs(g, ino)[j] {
        assert forall x | 4 * j <= x < 4 * j + 4 :: r.data[x] == ino.data[x];
      }
    }
  }

  // ---------------------------------------------------------- parsing a header

  function SizeAt(b: seq<byte>, off: nat): nat
    requires off + INODE_SIZE <= |b|
  {
    Get32(b, off) * U32 + Get32(b, off + 4)
  }

  function FlagsAt(b: seq<byte>, off: nat): nat
    requires off + INODE_SIZE <= |b|
  {
    Get32(b, off + 8)
  }

  function NoAt(b: seq<byte>, off: nat): nat
    requires off + INODE_SIZE <= |b|
  {
    Get32(b, off + 12)
  }

  /** How far the parser moves on from off. */
  function SpanAt(g: Geometry, b: seq<byte>, off: nat): (n: nat)
    requires g.Valid() && off + INODE_SIZE <= |b|
    ensures n >= INODE_SIZE
  {
    INODE_SIZE + DataLen(g, SizeAt(b, off), FlagsAt(b, off))
  }

  function DecodeAt(g: Geometry, b: seq<byte>, off: nat): Inode
    requires g.Valid() && off + INODE_SIZE <= |b| && SpanAt(g, b, off) <= g.c && off + SpanAt(g, b, off) <= |b|
  {
    var data := b[off + INODE_SIZE .. off + SpanAt(g, b, off)];
    Inode(SizeAt(b, off), FlagsAt(b, off), NoAt(b, off), Get32(b, off + 16), b[off + 20 .. off + 28],
          Get32(b, off + 28), b[off + 32 .. off + INODE_SIZE], data + Zeros(g.MaxEmb() - |data|))
  }

  /** Bytes lo .. hi of b are a copy of s. */
  predicate Holds(b: seq<byte>, off: nat, s: seq<byte>) {
    off + |s| <= |b| && b[off .. off + |s|] == s
  }

  lemma HoldsPart(b: seq<byte>, off: nat, s: seq<byte>, lo: nat, part: seq<byte>)
    requires Holds(b, off, s) && lo + |part| <= |s| && s[lo .. lo + |part|] == part
    ensures Holds(b, off + lo, part)
  {
    forall x | 0 <= x < |part| ensures b[off + lo + x] == part[x] {
      assert s[lo .. lo + |part|][x] == s[lo + x] == b[off .. off + |s|][lo + x];
    }
  }

  lemma HeaderParts(b: seq<byte>, off: nat, ino: Inode)
    requires ino.size < U64 && ino.flags < U32 && ino.no < U32 && ino.nlink < U32 && ino.mode < U32
    requires |ino.owner| == 8 && |ino.tail| == 96 && Holds(b, off, Header(ino))
    ensures SizeAt(b, off) == ino.size && FlagsAt(b, off) == ino.flags && NoAt(b, off) == ino.no
    ensures Get32(b, off + 16) == ino.nlink && Get32(b, off + 28) == ino.mode
    ensures b[off + 20 .. off + 28] == ino.owner && b[off + 32 .. off + INODE_SIZE] == ino.tail
  {
    var h := Header(ino);
    HoldsPart(b, off, h, 0, Put32(ino.size / U32));
    HoldsPart(b, off, h, 4, Put32(ino.size % U32));
    HoldsPart(b, off, h, 8, Put32(ino.flags));
    HoldsPart(b, off, h, 12, Put32(ino.no));
    HoldsPart(b, off, h, 16, Put32(ino.nlink));
    HoldsPart(b, off, h, 20, ino.owner);
    HoldsPart(b, off, h, 28, Put32(ino.mode));
    HoldsPart(b, off, h, 32, ino.tail);
    Get32At(b, off, ino.size / U32);
    Get32At(b, off + 4, ino.size % U32);
    Get32At(b, off + 8, ino.flags);
    Get32At(b, off + 12, ino.no);
    Get32At(b, off + 16, ino.nlink);
    Get32At(b, off + 28, ino.mode);
  }

  /** One packed inode is parsed back, byte for byte over its get_inode_size bytes. */
  lemma DecodeEncoded(g: Geometry, b: seq<byte>, off: nat, ino: Inode)
    requires g.Valid() && InodeOk(g, ino) && Holds(b, off, Encode(g, ino))
    ensures off + INODE_SIZE <= |b| && NoAt(b, off) == ino.no
    ensures SpanAt(g, b, off) == InodeSize(g, ino) <= g.c && off + SpanAt(g, b, off) <= |b|
    ensures DecodeAt(g, b, off) == Norm(g, ino)
  {
    InodeFitsCluster(g, ino);
    var e := Encode(g, ino);
    assert e[..INODE_SIZE] == Header(ino);
    HoldsPart(b, off, e, 0, Header(ino));
    HeaderParts(b, off, ino);
    HoldsPart(b, off, e, INODE_SIZE, ino.data[..DataLen(g, ino.size, ino.flags)]);
  }

  // ---------------------------------------------------------- a group of inodes in a cluster

  function GroupSize(g: Geometry, group: seq<Inode>): nat
    requires g.Valid()
  {
    if group == [] then 0 else InodeSize(g, group[0]) + GroupSize(g, group[1..])
  }

  predicate AllOk(g: Geometry, group: seq<Inode>)
    requires g.Valid()
  {
    forall i | 0 <= i < |group| :: InodeOk(g, group[i])
  }

  function EncodeGroup(g: Geometry, group: seq<Inode>): (b: seq<byte>)
    requires g.Valid() && AllOk(g, group)
    ensures |b| == GroupSize(g, group)
  {
    if group == [] then [] else Encode(g, group[0]) + EncodeGroup(g, group[1..])
  }

  /** What group_inodes leaves in the cluster buffer. */
  function Packed(g: Geometry, group: seq<Inode>): (b: seq<byte>)
    requires g.Valid() && AllOk(g, group) && GroupSize(g, group) <= g.c
    ensures |b| == g.c
  {
    EncodeGroup(g, group) + Zeros(g.c - GroupSize(g, group))
  }

  /** is_inode_valid */
  predicate PointsTo(inoMap: seq<nat>, no: nat, cl: nat) { no < |inoMap| && inoMap[no] == cl }

  /** What parsing the first clustersize bytes of b from off on yields; None for a copy that overruns its target. */
  function ParseFrom(g: Geometry, inoMap: seq<nat>, cl: nat, b: seq<byte>, off: nat): Option<seq<Inode>>
    requires g.Valid() && g.c + INODE_SIZE <= |b|
    decreases if off < g.c then g.c - off else 0
  {
    if off >= g.c then Some([]) else
      var here := PointsTo(inoMap, NoAt(b, off), cl);
      if here && (SpanAt(g, b, off) > g.c || off + SpanAt(g, b, off) > |b|) then None else
        var rest := ParseFrom(g, inoMap, cl, b, off + SpanAt(g, b, off));
        if rest.None? then None
        else Some((if here then [DecodeAt(g, b, off)] else []) + rest.value)
  }

  /** The inodes of a group that still live in cluster cl. */
  function Current(g: Geometry, inoMap: seq<nat>, cl: nat, group: seq<Inode>): (r: seq<Inode>)
    requires g.Valid() && AllOk(g, group)
    ensures forall i | 0 <= i < |r| :: PointsTo(inoMap, r[i].no, cl) && InodeOk(g, r[i])
  {
    if group == [] then [] else
      (if PointsTo(inoMap, group[0].no, cl) then [Norm(g, group[0])] else []) + Current(g, inoMap, cl, group[1..])
  }

  /**
   * The last header of the zero padding lies partly behind the cluster when fewer than 128 bytes are left,
   * and with fewer than 16 its inode number is not all padding. Then, whatever the buffer holds behind the
   * cluster decides which inode number is read; a phantom inode is found if that number lives in cl.
   */
  predicate Phantom(g: Geometry, inoMap: seq<nat>, cl: nat, b: seq<byte>, total: nat)
    requires g.Valid() && g.c + INODE_SIZE <= |b| && total <= g.c
  {
    var f := (g.c - total) % INODE_SIZE;
    0 < f < 16 && PointsTo(inoMap, NoAt(b, g.c - f), cl)
  }

  lemma ZeroHeader(g: Geometry, b: seq<byte>, off: nat)
    requires g.Valid() && g.c + INODE_SIZE <= |b| && off + 16 <= g.c && AllZero(b[off..g.c])
    ensures NoAt(b, off) == 0 && SpanAt(g, b, off) == INODE_SIZE
  {
    assert forall x | off <= x < off + 16 :: b[x] == 0 by {
      forall x | off <= x < off + 16 ensures b[x] == 0 { assert b[off..g.c][x - off] == 0; }
    }
  }

  /** Parsing the padding finds nothing, or one phantom. */
  lemma {:induction false} ParsePadding(g: Geometry, inoMap: seq<nat>, cl: nat, b: seq<byte>, off: nat)
    requires g.Valid() && g.c + INODE_SIZE <= |b| && off <= g.c && AllZero(b[off..g.c])
    requires !PointsTo(inoMap, 0, cl)
    ensures ParseFrom(g, inoMap, cl, b, off) == Some([]) <==> !Phantom(g, inoMap, cl, b, off)
    decreases g.c - off
  {
    if g.c - off < INODE_SIZE {
      LastPadding(g, inoMap, cl, b, off);
    } else {
      hide NoAt, SpanAt, DecodeAt, PointsTo, Phantom;
      ZeroHeader(g, b, off);
      assert b[off + INODE_SIZE..g.c] == b[off..g.c][INODE_SIZE..];
      ParsePadding(g, inoMap, cl, b, off + INODE_SIZE);
      PhantomFurther(g, inoMap, cl, b, off);
      var rest := ParseFrom(g, inoMap, cl, b, off + INODE_SIZE);
      assert rest.Some? ==> [] + rest.value == rest.value;
      assert ParseFrom(g, inoMap, cl, b, off) == rest;
    }
  }

  lemma PhantomFurther(g: Geometry, inoMap: seq<nat>, cl: nat, b: seq<byte>, off: nat)
    requires g.Valid() && g.c + INODE_SIZE <= |b| && off + INODE_SIZE <= g.c
    ensures Phantom(g, inoMap, cl, b, off + INODE_SIZE) <==> Phantom(g, inoMap, cl, b, off)
  {
    PadMod(g.c - off);
  }

  lemma LastPadding(g: Geometry, inoMap: seq<nat>, cl: nat, b: seq<byte>, off: nat)
    requires g.Valid() && g.c + INODE_SIZE <= |b| && off <= g.c < off + INODE_SIZE && AllZero(b[off..g.c])
    requires !PointsTo(inoMap, 0, cl)
    ensures ParseFrom(g, inoMap, cl, b, off) == Some([]) <==> !Phantom(g, inoMap, cl, b, off)
  {
    hide NoAt, SpanAt, DecodeAt, PointsTo;
    PadMod(g.c - off);
    if off < g.c {
      assert ParseFrom(g, inoMap, cl, b, off + SpanAt(g, b, off)) == Some([]);
      if g.c - off >= 16 { ZeroHeader(g, b, off); }
      var none: seq<Inode> := [];
      assert none + none == none;
    }
  }

  lemma PadMod(n: nat)
    ensures n < INODE_SIZE ==> n % INODE_SIZE == n
    ensures n >= INODE_SIZE ==> n % INODE_SIZE == (n - INODE_SIZE) % INODE_SIZE
  {
  }

  /**
   * Parsing a packed cluster gives back, in order, exactly the inodes that still live there, unless there is a
   * phantom.
   */
  lemma {:induction false} ParseGroup(g: Geometry, inoMap: seq<nat>, cl: nat, b: seq<byte>, off: nat, group: seq<Inode>)
    requires g.Valid() && AllOk(g, group) && g.c + INODE_SIZE <= |b| && off + GroupSize(g, group) <= g.c
    requires Holds(b, off, EncodeGroup(g, group)) && AllZero(b[off + GroupSize(g, group)..g.c])
    requires !PointsTo(inoMap, 0, cl)
    ensures ParseFrom(g, inoMap, cl, b, off) == Some(Current(g, inoMap, cl, group))
            <==> !Phantom(g, inoMap, cl, b, off + GroupSize(g, group))
    decreases |group|
  {
    hide ParseFrom, PointsTo, Phantom, InodeOk, Encode, InodeSize, Norm;
    if group == [] {
      ParsePadding(g, inoMap, cl, b, off);
    } else {
      var e, first := EncodeGroup(g, group), Encode(g, group[0]);
      HoldsPart(b, off, e, 0, first);
      HoldsPart(b, off, e, |first|, EncodeGroup(g, group[1..]));
      ParseGroup(g, inoMap, cl, b, off + |first|, group[1..]);
      ParseFirst(g, inoMap, cl, b, off, group[0]);
      var pre := if PointsTo(inoMap, group[0].no, cl) then [Norm(g, group[0])] else [];
      var rest, cur := ParseFrom(g, inoMap, cl, b, off + |first|), Current(g, inoMap, cl, group[1..]);
      SamePrefix(pre, rest, cur);
      assert Current(g, inoMap, cl, group) == pre + cur;
      assert ParseFrom(g, inoMap, cl, b, off) == if rest.None? then None else Some(pre + rest.value);
      assert off + GroupSize(g, group) == off + |first| + GroupSize(g, group[1..]);
    }
  }

  lemma ParseFirst(g: Geometry, inoMap: seq<nat>, cl: nat, b: seq<byte>, off: nat, ino: Inode)
    requires g.Valid() && InodeOk(g, ino) && g.c + INODE_SIZE <= |b| && off + InodeSize(g, ino) <= g.c
    requires Holds(b, off, Encode(g, ino))
    ensures var rest := ParseFrom(g, inoMap, cl, b, off + InodeSize(g, ino));
      ParseFrom(g, inoMap, cl, b, off)
        == if rest.None? then None else Some((if PointsTo(inoMap, ino.no, cl) then [Norm(g, ino)] else []) + rest.value)
  {
    hide NoAt, SpanAt, DecodeAt, PointsTo, Encode, Norm;
    DecodeEncoded(g, b, off, ino);
    InodeFitsCluster(g, ino);
  }

  lemma SamePrefix(a: seq<Inode>, b: Option<seq<Inode>>, c: seq<Inode>)
    ensures b.Some? ==> (a + b.value == a + c <==> b.value == c)
  {
    if b.Some? && a + b.value == a + c {
      assert b.value == (a + b.value)[|a|..];
      assert c == (a + c)[|a|..];
    }
  }

  /** write_inodes and read_inode_group agree on a cluster. */
  lemma PackParse(g: Geometry, inoMap: seq<nat>, cl: nat, b: seq<byte>, group: seq<Inode>)
    requires g.Valid() && AllOk(g, group) && GroupSize(g, group) <= g.c && g.c + INODE_SIZE <= |b|
    requires b[..g.c] == Packed(g, group) && !PointsTo(inoMap, 0, cl)
    ensures ParseFrom(g, inoMap, cl, b, 0) == Some(Current(g, inoMap, cl, group))
            <==> !Phantom(g, inoMap, cl, b, GroupSize(g, group))
  {
    hide NoAt, SpanAt, ParseFrom, Current, Phantom, InodeOk, Encode, EncodeGroup, GroupSize, PointsTo;
    var n := GroupSize(g, group);
    assert b[..n] == b[..g.c][..n] == EncodeGroup(g, group);
    assert b[0..n] == b[..n];
    assert b[n..g.c] == b[..g.c][n..] == Zeros(g.c - n);
    ParseGroup(g, inoMap, cl, b, 0, group);
  }

  /** Where parsing from off on reads its last header. */
  function LastHeader(g: Geometry, b: seq<byte>, off: nat): (last: nat)
    requires g.Valid() && g.c + INODE_SIZE <= |b| && off < g.c
    ensures off <= last < g.c
    decreases g.c - off
  {
    if off + SpanAt(g, b, off) >= g.c then off else LastHeader(g, b, off + SpanAt(g, b, off))
  }

  /**
   * The same as Phantom, to be seen from the bytes alone: the last header found is cut off, and names an inode of
   * cl.
   */
  predicate PhantomSeen(g: Geometry, inoMap: seq<nat>, cl: nat, b: seq<byte>)
    requires g.Valid() && g.c + INODE_SIZE <= |b|
  {
    var last := LastHeader(g, b, 0);
    g.c - last < 16 && PointsTo(inoMap, NoAt(b, last), cl)
  }

  /** How much of the cluster is behind the last header that the padding is read as. */
  function Cut(n: nat): (f: nat)
    requires n > 0
    ensures 1 <= f <= INODE_SIZE
  {
    if n % INODE_SIZE == 0 then INODE_SIZE else n % INODE_SIZE
  }

  lemma {:induction false} LastInPadding(g: Geometry, b: seq<byte>, off: nat)
    requires g.Valid() && g.c + INODE_SIZE <= |b| && off < g.c && AllZero(b[off..g.c])
    ensures LastHeader(g, b, off) == g.c - Cut(g.c - off)
    decreases g.c - off
  {
    hide SpanAt;
    PadMod(g.c - off);
    if g.c - off >= 16 { ZeroHeader(g, b, off); }
    if g.c - off > INODE_SIZE {
      assert b[off + INODE_SIZE..g.c] == b[off..g.c][INODE_SIZE..];
      LastInPadding(g, b, off + INODE_SIZE);
    }
  }

  /** Behind a packed group the last header lies in the padding; without any padding it is that of the last inode. */
  lemma {:induction false} LastOfGroup(g: Geometry, b: seq<byte>, off: nat, group: seq<Inode>)
    requires g.Valid() && AllOk(g, group) && g.c + INODE_SIZE <= |b| && off < g.c && off + GroupSize(g, group) <= g.c
    requires Holds(b, off, EncodeGroup(g, group)) && AllZero(b[off + GroupSize(g, group)..g.c])
    ensures var total := off + GroupSize(g, group);
      if total < g.c then LastHeader(g, b, off) == g.c - Cut(g.c - total) else LastHeader(g, b, off) + INODE_SIZE <= g.c
    decreases |group|
  {
    hide SpanAt, NoAt, InodeOk, Encode, InodeSize, Cut, DecodeAt, Norm;
    if group == [] {
      LastInPadding(g, b, off);
    } else {
      var e, first := EncodeGroup(g, group), Encode(g, group[0]);
      HoldsPart(b, off, e, 0, first);
      HoldsPart(b, off, e, |first|, EncodeGroup(g, group[1..]));
      DecodeEncoded(g, b, off, group[0]);
      assert off + GroupSize(g, group) == off + |first| + GroupSize(g, group[1..]);
      assert LastHeader(g, b, off) == if off + |first| >= g.c then off else LastHeader(g, b, off + |first|);
      if off + |first| < g.c { LastOfGroup(g, b, off + |first|, group[1..]); }
    }
  }

  lemma PhantomIsSeen(g: Geometry, inoMap: seq<nat>, cl: nat, b: seq<byte>, group: seq<Inode>)
    requires g.Valid() && AllOk(g, group) && GroupSize(g, group) <= g.c && g.c + INODE_SIZE <= |b|
    requires b[..g.c] == Packed(g, group)
    ensures PhantomSeen(g, inoMap, cl, b) <==> Phantom(g, inoMap, cl, b, GroupSize(g, group))
  {
    hide NoAt, SpanAt, LastHeader, InodeOk, Encode, EncodeGroup, GroupSize, PointsTo;
    var n := GroupSize(g, group);
    assert b[..n] == b[..g.c][..n] == EncodeGroup(g, group);
    assert b[0..n] == b[..n];
    assert b[n..g.c] == b[..g.c][n..] == Zeros(g.c - n);
    LastOfGroup(g, b, 0, group);
  }

  /** Every inode parsed carries a number the map points to the cluster, so it has a slot in the cache. */
  lemma {:induction false} ParsedHaveSlots(g: Geometry, inoMap: seq<nat>, cl: nat, b: seq<byte>, off: nat)
    requires g.Valid() && g.c + INODE_SIZE <= |b| && ParseFrom(g, inoMap, cl, b, off).Some?
    ensures forall x | x in ParseFrom(g, inoMap, cl, b, off).value :: PointsTo(inoMap, x.no, cl)
    decreases if off < g.c then g.c - off else 0
  {
    hide SpanAt, NoAt;
    if off < g.c {
      ParsedHaveSlots(g, inoMap, cl, b, off + SpanAt(g, b, off));
    }
  }

  /** Whatever lies behind a packed group, parsing yields its current inodes first. */
  lemma {:induction false} ParseGroupPrefix(g: Geometry, inoMap: seq<nat>, cl: nat, b: seq<byte>, off: nat,
                                            group: seq<Inode>)
    requires g.Valid() && AllOk(g, group) && g.c + INODE_SIZE <= |b| && off + GroupSize(g, group) <= g.c
    requires Holds(b, off, EncodeGroup(g, group))
    ensures ParseFrom(g, inoMap, cl, b, off).Some? ==>
      Current(g, inoMap, cl, group) <= ParseFrom(g, inoMap, cl, b, off).value
    decreases |group|
  {
    hide ParseFrom, PointsTo, InodeOk, Encode, InodeSize, Norm;
    if group != [] {
      var e, first := EncodeGroup(g, group), Encode(g, group[0]);
      HoldsPart(b, off, e, 0, first);
      HoldsPart(b, off, e, |first|, EncodeGroup(g, group[1..]));
      ParseGroupPrefix(g, inoMap, cl, b, off + |first|, group[1..]);
      ParseFirst(g, inoMap, cl, b, off, group[0]);
      var pre := if PointsTo(inoMap, group[0].no, cl) then [Norm(g, group[0])] else [];
      assert Current(g, inoMap, cl, group) == pre + Current(g, inoMap, cl, group[1..]);
    }
  }
}
