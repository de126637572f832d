/** io.cpp: write and truncate on one inode, up to the point where the inode is marked dirty. */
module Io {
  import opened Basics
  import opened Layout
  import opened EraseBlk
  import opened Summaries
  import opened Allocator
  import opened FileData
  import opened IoUnits
  import opened IoRead
  import opened IoClin
  import opened IoEmb
  import opened IoTrunc
  import opened IoConvert
  import opened IoEbin
  import opened WriteSpec

  /** The fields of an inode that data operations leave alone. */
  predicate SameIdentity(a: Inode, b: Inode) {
    && a.no == b.no && a.nlink == b.nlink && a.owner == b.owner && a.mode == b.mode && a.tail == b.tail
    && SameHigh(a.flags, b.flags)
  }

  /** A file that is in order: its layout fits its size, and it owns exactly its pointers. */
  ghost predicate FileOk(g: Geometry, eb: seq<EraseBlock>, ino: Inode, oc: set<nat>, ob: set<nat>, exact: bool)
    requires g.Valid()
  {
    LayoutOk(g, ino) && ino.no < U32 && Owned(g, eb, ino.Type(), Ptrs(g, ino), oc, ob, exact)
  }

  /** The erase blocks a file may have rewritten in place. */
  ghost function OwnBlocks(g: Geometry, ino: Inode): set<nat>
    requires g.Valid() && LayoutOk(g, ino)
  {
    if ino.Type() == Ebin then Nz(Ptrs(g, ino)) else {}
  }

  lemma FileReadable(g: Geometry, eb: seq<EraseBlock>, d: seq<byte>, ino: Inode, oc: set<nat>, ob: set<nat>,
                     exact: bool)
    requires g.Valid() && |eb| == g.blocks && |d| == g.DeviceSize() && FileOk(g, eb, ino, oc, ob, exact)
    ensures Readable(g, d, ino)
  {
    if ino.Type() != Emb { OwnedIn(g, eb, d, ino.Type(), Ptrs(g, ino), oc, ob, exact); }
    else { Sizes(g); }
  }

  /** When the units spell a byte sequence, so does the file. */
  lemma SpelledFile(g: Geometry, d: seq<byte>, ino: Inode, n: nat, bytes: seq<byte>)
    requires g.Valid() && |d| == g.DeviceSize() && |ino.data| == g.MaxEmb() && ino.size == |bytes| <= g.MaxEbin()
    requires ino.Type() == TypeFromSize(g, ino.size) && ino.Type() != Emb
    requires n == Units(ino.size, UnitSize(g, ino.Type())) && n <= |ino.data| / 4
    requires SpellsBelow(d, UnitSize(g, ino.Type()), Front(ino, n), n, bytes)
    ensures Readable(g, d, ino) && Ptrs(g, ino) == Front(ino, n) && Content(g, d, ino) == bytes
  {
    Sizes(g);
    UnitsOk(g, ino);
    SpelledOut(d, UnitSize(g, ino.Type()), Front(ino, n), bytes);
  }

  /** Sizes and pointer counts of a file that is going to have `size` bytes. */
  lemma SizeFits(g: Geometry, size: nat)
    requires g.Valid() && size <= g.MaxEbin()
    ensures 0 < g.c < g.E() <= g.DeviceSize() && g.MaxEmb() < g.c
    ensures TypeFromSize(g, size) != Emb ==>
      && IndSize(g, size) == UnitSize(g, TypeFromSize(g, size)) > 0 && size > 0
      && Units(size, IndSize(g, size)) <= g.MaxPtrs() == g.MaxEmb() / 4
      && InUnits(IndSize(g, size), 0, size, Units(size, IndSize(g, size)))
    ensures TypeFromSize(g, size) == Emb ==> IndSize(g, size) == 0 && size <= g.MaxEmb()
  {
    Sizes(g);
    if TypeFromSize(g, size) != Emb {
      UnitsFit(size, IndSize(g, size), g.MaxPtrs());
    }
  }

  // ---------------------------------------------------------- write, case by case

  /**
   * Why an operation that makes a file `size` bytes long is refused: the allocator has nothing left to write
   * its units to, or did not have enough empty blocks to copy a cluster-indirect file to.
   */
  ghost predicate OutOfSpace(g: Geometry, eb: seq<EraseBlock>, ino: Inode, size: nat)
    requires g.Valid()
  {
    || NoRoom(g, eb, TypeFromSize(g, size), ino.IsDir())
    || (ino.Type() == Clin && TypeFromSize(g, size) == Ebin && ino.size > 0
        && FewEmpty(g, eb, Units(ino.size, g.E()) - 1))
  }

  /** A refusal means that the empty blocks are nearly used up. */
  lemma RefusedWhenFull(g: Geometry, eb: seq<EraseBlock>, ino: Inode, size: nat)
    requires g.Valid() && LayoutOk(g, ino) && OutOfSpace(g, eb, ino, size)
    ensures FewEmpty(g, eb, g.MaxPtrs())
  {
    if NoRoom(g, eb, TypeFromSize(g, size), ino.IsDir()) {
      RoomLeft(g, eb, TypeFromSize(g, size), ino.IsDir());
    } else {
      Sizes(g);
      UnitsOk(g, ino);
      MulMono(g.c, g.E(), Units(ino.size, g.c));
      UnitsFit(ino.size, g.E(), Units(ino.size, g.c));
    }
  }

  /** A file that starts inside its inode: emb to emb, clin or ebin. */
  method WriteFromEmb(fs: FsContext, ctx: WriteContext, ghost oc: set<nat>, ghost ob: set<nat>, ghost exact: bool)
    returns (rc: Rc)
    requires CoreInv(fs) && FileOk(fs.g, fs.eb, ctx.ino, oc, ob, exact) && ctx.ino.Type() == Emb
    requires ctx.oldSize == ctx.ino.size && ctx.oldType == Emb && 0 < |ctx.buf|
    requires ctx.newSize == Max(ctx.oldSize, ctx.offset + |ctx.buf|) <= fs.g.MaxEbin()
    requires ctx.newInd == IndSize(fs.g, ctx.newSize) && ctx.newType == TypeFromSize(fs.g, ctx.newSize)
    modifies fs`eb, fs`gc, fs`sums, fs`disk, fs`writer, fs`buf, ctx`ino, ctx`buf
    ensures CoreInv(fs) && DataStep(fs.g, old(fs.eb), old(fs.disk), fs.eb, fs.disk, {})
    ensures LiveOk(fs.g, fs.eb, oc, false) && EbinLive(fs.eb, ob)
    ensures rc.NoSpc? || rc == Ok(|old(ctx.buf)|)
    ensures rc.NoSpc? ==> OutOfSpace(fs.g, fs.eb, old(ctx.ino), ctx.newSize)
    ensures rc.Ok? ==> var ino := ctx.ino.(size := ctx.newSize);
      && SameIdentity(ino, old(ctx.ino)) && FileOk(fs.g, fs.eb, ino, oc, ob, exact) && Readable(fs.g, fs.disk, ino)
      && Content(fs.g, fs.disk, ino) == Splice(old(ctx.ino).data[..ctx.oldSize], old(ctx.buf), ctx.offset)
    ensures ctx.newType == Emb ==> fs.eb == old(fs.eb) && fs.gc == old(fs.gc) && fs.disk == old(fs.disk)
  {
    hide SumInv, EbInv, Kept, SameInodeBlocks, NoRoom, FewEmpty;
    SizeFits(fs.g, ctx.newSize);
    CoreSizes(fs);
    EmbOwned(fs.g, fs.eb, oc, ob, exact);
    if ctx.newInd == 0 {
      StepRefl(fs.g, fs.eb, fs.disk);
      rc := WriteEmbOnly(ctx);
      LiveSubset(fs.g, fs.eb, oc, oc, exact);
      return;
    }
    var n := Units(ctx.newSize, ctx.newInd);
    ghost var ptrs;
    rc, ptrs := WriteEmbInd(fs, ctx, n, oc, ob, exact);
    OwnedRest(fs.g, fs.eb, ctx.newType, ptrs, oc, ob, exact);
    if rc.Ok? {
      CoreSizes(fs);
      SpelledFile(fs.g, fs.disk, ctx.ino.(size := ctx.newSize), n,
                  Splice(old(ctx.ino).data[..ctx.oldSize], old(ctx.buf), ctx.offset));
    }
  }

  lemma EmbOwned(g: Geometry, eb: seq<EraseBlock>, oc: set<nat>, ob: set<nat>, exact: bool)
    requires g.k > 0
    ensures Owned(g, eb, Emb, [], oc, ob, exact) <==> LiveOk(g, eb, oc, exact) && EbinLive(eb, ob)
  {
    assert Nz([]) == {};
    assert oc + {} == oc;
  }

  /** Whatever one file holds, what the others hold stays allocated and counted. */
  lemma OwnedRest(g: Geometry, eb: seq<EraseBlock>, t: DataType, ptrs: seq<nat>, oc: set<nat>, ob: set<nat>,
                  exact: bool)
    requires g.k > 0 && Owned(g, eb, t, ptrs, oc, ob, exact)
    ensures LiveOk(g, eb, oc, false) && EbinLive(eb, ob)
  {
    if t == Ebin { LiveSubset(g, eb, oc, oc, exact); } else { LiveSubset(g, eb, oc + Nz(ptrs), oc, exact); }
  }

  /** No unit that exists is going to be overwritten as a whole. */
  ghost predicate NoFullOverwrite(g: Geometry, ino: Inode, off: nat, len: nat)
    requires g.Valid() && LayoutOk(g, ino)
  {
    forall j: nat | j < |Ptrs(g, ino)| && Covers(g.c, j, off, len) :: Ptrs(g, ino)[j] == 0
  }

  /** From rewritten units to file contents, for a file that keeps its indirect layout. */
  lemma SameLayoutMeans(g: Geometry, d0: seq<byte>, ino: Inode, d: seq<byte>, ino': Inode, p: seq<nat>,
                        off: nat, user: seq<byte>, stale: seq<byte>)
    requires g.Valid() && |d0| == |d| == g.DeviceSize() && Readable(g, d0, ino) && ino.Type() != Emb && |user| > 0
    requires ino'.size == Max(ino.size, off + |user|) <= g.MaxEbin()
    requires TypeFromSize(g, ino'.size) == ino.Type() == ino'.Type()
    requires |ino'.data| == g.MaxEmb() && UnitSize(g, ino.Type()) > 0
    requires Units(ino.size, UnitSize(g, ino.Type())) <= Units(ino'.size, UnitSize(g, ino.Type())) <= |ino'.data| / 4
    requires p == Front(ino', Units(ino'.size, UnitSize(g, ino.Type())))
    requires |Ptrs(g, ino)| <= |p|
    requires Rewrote(UnitSize(g, ino.Type()), d0, Extended(Ptrs(g, ino), |p|), d, p, off, user, stale)
    requires UnitSize(g, ino.Type()) <= |stale| && PtrsIn(d0, UnitSize(g, ino.Type()), Extended(Ptrs(g, ino), |p|))
    ensures Readable(g, d, ino') && Ptrs(g, ino') == p
    ensures Content(g, d, ino') == Splice(Content(g, d0, ino), user, off)
            <==> (GapClean(UnitSize(g, ino.Type()), d0, Extended(Ptrs(g, ino), |p|), ino.size, off)
                  && TailClean(UnitSize(g, ino.Type()), Extended(Ptrs(g, ino), |p|), ino.size, off, |user|, stale))
  {
    var s, p0 := UnitSize(g, ino.Type()), Extended(Ptrs(g, ino), |p|);
    Sizes(g);
    UnitsOk(g, ino);
    assert InUnits(s, 0, ino'.size, |p|);
    UnitsMono(ino.size, ino'.size, s);
    RewriteIsSplice(s, d0, p0, d, p, ino.size, off, user, stale);
    ExtendedBytes(d0, s, Ptrs(g, ino), |p|, ino.size);
  }

  /** Holes behind the old table do not change the old bytes. */
  lemma ExtendedBytes(d: seq<byte>, s: nat, ptrs: seq<nat>, n: nat, size: nat)
    requires s > 0 && |ptrs| <= n && PtrsIn(d, s, ptrs) && size <= |ptrs| * s
    ensures PtrsIn(d, s, Extended(ptrs, n)) && size <= n * s
    ensures TableBytes(d, s, Extended(ptrs, n), size) == TableBytes(d, s, ptrs, size)
  {
    MulMono(|ptrs|, n, s);
    var a, b := TableBytes(d, s, Extended(ptrs, n), size), TableBytes(d, s, ptrs, size);
    forall i | 0 <= i < size ensures a[i] == b[i] { DivBelow(i, |ptrs|, s); }
  }

  lemma WroteUnits(s: nat, n: nat, size: nat, off: nat, len: nat)
    requires s > 0 && n == Units(size, s) && off + len <= size
    ensures InUnits(s, off, len, n)
  {
  }

  /** clin to clin. */
  method WriteClinSame(fs: FsContext, ctx: WriteContext, ghost oc: set<nat>, ghost ob: set<nat>, ghost exact: bool)
    returns (rc: Rc)
    requires CoreInv(fs) && FileOk(fs.g, fs.eb, ctx.ino, oc, ob, exact) && ctx.ino.Type() == Clin
    requires ctx.oldSize == ctx.ino.size && ctx.oldType == Clin && 0 < |ctx.buf|
    requires ctx.newSize == Max(ctx.oldSize, ctx.offset + |ctx.buf|) <= fs.g.MaxEbin()
    requires ctx.newInd == IndSize(fs.g, ctx.newSize) && ctx.newType == TypeFromSize(fs.g, ctx.newSize) == Clin
    requires exact ==> NoFullOverwrite(fs.g, ctx.ino, ctx.offset, |ctx.buf|)
    requires Readable(fs.g, fs.disk, ctx.ino) && ctx.offset + |ctx.buf| <= fs.g.MaxEbin()
    modifies fs`eb, fs`gc, fs`sums, fs`disk, fs`writer, fs`buf, ctx`ino, ctx`buf
    ensures CoreInv(fs) && DataStep(fs.g, old(fs.eb), old(fs.disk), fs.eb, fs.disk, {})
    ensures LiveOk(fs.g, fs.eb, oc, false) && EbinLive(fs.eb, ob)
    ensures rc.NoSpc? || rc == Ok(|old(ctx.buf)|)
    ensures rc.NoSpc? ==> OutOfSpace(fs.g, fs.eb, old(ctx.ino), ctx.newSize)
    ensures |old(fs.buf)| == fs.g.E()
    ensures rc.Ok? ==> var ino := ctx.ino.(size := ctx.newSize);
      && SameIdentity(ino, old(ctx.ino)) && FileOk(fs.g, fs.eb, ino, oc, ob, exact) && Readable(fs.g, fs.disk, ino)
      && (Content(fs.g, fs.disk, ino) == Splice(Content(fs.g, old(fs.disk), old(ctx.ino)), old(ctx.buf), ctx.offset)
          <==> WriteClean(fs.g, old(fs.disk), old(fs.buf), old(ctx.ino), ctx.offset, old(ctx.buf)))
  {
    hide SumInv, EbInv, Kept, SameInodeBlocks, Rewritten, Progress, StaleIs, LiveOk, EbinLive, NoRoom, FewEmpty;
    ghost var ino0, eb0, d0, buf0, user := ctx.ino, fs.eb, fs.disk, fs.buf, ctx.buf;
    SizeFits(fs.g, ctx.newSize);
    CoreSizes(fs);
    UnitsOk(fs.g, ctx.ino);
    UnitsMono(ctx.oldSize, ctx.newSize, fs.g.c);
    ghost var n0 := Units(ctx.oldSize, fs.g.c);
    var n := Units(ctx.newSize, fs.g.c);
    if ctx.newSize > ctx.oldSize { ExtendInd(fs, ctx, Units(ctx.oldSize, ctx.newInd), n, oc, ob, exact); }
    ghost var p0 := Extended(Ptrs(fs.g, ino0), n);
    assert Front(ctx.ino, n) == p0;
    WroteUnits(fs.g.c, n, ctx.newSize, ctx.offset, |user|);
    ghost var p, stale;
    rc, p, stale := WriteClin(fs, ctx, n, p0, oc, ob, exact);
    OwnedRest(fs.g, fs.eb, Clin, p, oc, ob, exact);
    if rc.Ok? {
      CoreSizes(fs);
      ClinMeans(fs.g, eb0, d0, buf0, ino0, fs.eb, fs.disk, ctx.ino.(size := ctx.newSize), p, ctx.offset, user, stale,
                oc, ob, exact);
    }
  }

  lemma ClinMeans(g: Geometry, eb0: seq<EraseBlock>, d0: seq<byte>, buf0: seq<byte>, ino0: Inode, eb: seq<EraseBlock>,
                  d: seq<byte>, ino: Inode, p: seq<nat>, off: nat, user: seq<byte>, stale: seq<byte>, oc: set<nat>,
                  ob: set<nat>, exact: bool)
    requires g.Valid() && |d0| == |d| == g.DeviceSize() && |buf0| == g.E() && DataStep(g, eb0, d0, eb, d, {})
    requires Readable(g, d0, ino0) && ino0.Type() == Clin && |user| > 0 && off + |user| <= g.MaxEbin()
    requires ino.size == Max(ino0.size, off + |user|) && TypeFromSize(g, ino.size) == Clin == ino.Type()
    requires |ino.data| == g.MaxEmb() && Units(ino.size, g.c) <= |ino.data| / 4 && p == Front(ino, Units(ino.size, g.c))
    requires |Ptrs(g, ino0)| <= |p| && Owned(g, eb0, Clin, Extended(Ptrs(g, ino0), |p|), oc, ob, exact)
    requires Rewritten(g.c, d0, Extended(Ptrs(g, ino0), |p|), d, p, off, user, buf0, stale)
    ensures Readable(g, d, ino) && Ptrs(g, ino) == p
    ensures Content(g, d, ino) == Splice(Content(g, d0, ino0), user, off) <==> WriteClean(g, d0, buf0, ino0, off, user)
  {
    var p0 := Extended(Ptrs(g, ino0), |p|);
    Sizes(g);
    UnitsOk(g, ino0);
    UnitsMono(ino0.size, ino.size, g.c);
    WroteUnits(g.c, |p|, ino.size, off, |user|);
    OwnedUnitsKept(g, eb0, d0, eb, d, {}, Clin, p0, oc, ob, exact);
    UnitsInPlace(g.c, d0, p0, d, p, off, user, buf0, stale);
    ClinStaleIs(g.c, d0, p0, d, p, off, user, buf0, stale);
    SameLayoutMeans(g, d0, ino0, d, ino, p, off, user, stale);
    TailCleanPrefix(g.c, p0, ino0.size, off, |user|, stale, ClinStale(g.c, d0, p0, buf0, off, user));
  }

  lemma UnitsInPlace(s: nat, d0: seq<byte>, p0: seq<nat>, d: seq<byte>, p: seq<nat>, off: nat, user: seq<byte>,
                     buf0: seq<byte>, stale: seq<byte>)
    requires Rewritten(s, d0, p0, d, p, off, user, buf0, stale) && PtrsIn(d0, s, p0) && |d| == |d0|
    requires forall j | 0 <= j < |p0| :: UnitAt(d, s, p0[j]) == UnitAt(d0, s, p0[j])
    ensures Rewrote(s, d0, p0, d, p, off, user, stale) && |p| == |p0|
  {
    var f, l := IndFromOffset(s, off), IndFromOffset(s, off + |user| - 1);
    forall j: nat | j < |p| ensures p[j] * s + s <= |d| {
      if f <= j <= l { assert UnitSplice(s, d0, p0[j], d, p[j], j, off, user, stale); } else { assert p[j] == p0[j]; }
    }
  }

  lemma EbinMeans(g: Geometry, d0: seq<byte>, buf0: seq<byte>, ino0: Inode, d: seq<byte>, ino: Inode, p: seq<nat>,
                  off: nat, user: seq<byte>, stale: seq<byte>)
    requires g.Valid() && |d0| == |d| == g.DeviceSize() && |buf0| == g.E()
    requires Readable(g, d0, ino0) && ino0.Type() == Ebin && |user| > 0 && off + |user| <= g.MaxEbin()
    requires ino.size == Max(ino0.size, off + |user|) && TypeFromSize(g, ino.size) == Ebin == ino.Type() && g.E() > 0
    requires |ino.data| == g.MaxEmb() && Units(ino.size, g.E()) <= |ino.data| / 4
    requires p == Front(ino, Units(ino.size, g.E()))
    requires |Ptrs(g, ino0)| <= |p|
    requires EbinRewritten(g.c, g.E(), d0, Extended(Ptrs(g, ino0), |p|), d, p, off, user, buf0, stale)
    ensures Readable(g, d, ino) && Ptrs(g, ino) == p
    ensures Content(g, d, ino) == Splice(Content(g, d0, ino0), user, off) <==> WriteClean(g, d0, buf0, ino0, off, user)
  {
    var p0 := Extended(Ptrs(g, ino0), |p|);
    Sizes(g);
    UnitsOk(g, ino0);
    UnitsMono(ino0.size, ino.size, g.E());
    WroteUnits(g.E(), |p|, ino.size, off, |user|);
    EbinStaleFrom(g.c, g.E(), d0, p0, d, p, off, user, buf0, stale);
    assert Rewrote(g.E(), d0, p0, d, p, off, user, stale);
    SameLayoutMeans(g, d0, ino0, d, ino, p, off, user, stale);
  }

  /** ebin to ebin. */
  method WriteEbinSame(fs: FsContext, ctx: WriteContext, ghost oc: set<nat>, ghost ob: set<nat>, ghost exact: bool)
    returns (rc: Rc)
    requires CoreInv(fs) && FileOk(fs.g, fs.eb, ctx.ino, oc, ob, exact) && ctx.ino.Type() == Ebin
    requires ctx.oldSize == ctx.ino.size && ctx.oldType == Ebin && 0 < |ctx.buf|
    requires ctx.newSize == Max(ctx.oldSize, ctx.offset + |ctx.buf|) <= fs.g.MaxEbin()
    requires ctx.newInd == IndSize(fs.g, ctx.newSize) && ctx.newType == TypeFromSize(fs.g, ctx.newSize) == Ebin
    requires Readable(fs.g, fs.disk, ctx.ino) && ctx.offset + |ctx.buf| <= fs.g.MaxEbin()
    modifies fs`eb, fs`gc, fs`sums, fs`disk, fs`writer, fs`buf, ctx`ino, ctx`buf
    ensures CoreInv(fs) && DataStep(fs.g, old(fs.eb), old(fs.disk), fs.eb, fs.disk, OwnBlocks(fs.g, old(ctx.ino)))
    ensures LiveOk(fs.g, fs.eb, oc, false) && EbinLive(fs.eb, ob)
    ensures rc.NoSpc? || rc == Ok(|old(ctx.buf)|)
    ensures rc.NoSpc? ==> OutOfSpace(fs.g, fs.eb, old(ctx.ino), ctx.newSize)
    ensures |old(fs.buf)| == fs.g.E()
    ensures rc.Ok? ==> var ino := ctx.ino.(size := ctx.newSize);
      && SameIdentity(ino, old(ctx.ino)) && FileOk(fs.g, fs.eb, ino, oc, ob, exact) && Readable(fs.g, fs.disk, ino)
      && (Content(fs.g, fs.disk, ino) == Splice(Content(fs.g, old(fs.disk), old(ctx.ino)), old(ctx.buf), ctx.offset)
          <==> WriteClean(fs.g, old(fs.disk), old(fs.buf), old(ctx.ino), ctx.offset, old(ctx.buf)))
  {
    hide SumInv, EbInv, Kept, SameInodeBlocks, EbinRewritten, Progress, EbinStaleIs, LiveOk, EbinLive, NoRoom, FewEmpty;
    ghost var ino0, d0, buf0, user := ctx.ino, fs.disk, fs.buf, ctx.buf;
    SizeFits(fs.g, ctx.newSize);
    CoreSizes(fs);
    UnitsOk(fs.g, ctx.ino);
    UnitsMono(ctx.oldSize, ctx.newSize, fs.g.E());
    var n := Units(ctx.newSize, fs.g.E());
    if ctx.newSize > ctx.oldSize { ExtendInd(fs, ctx, Units(ctx.oldSize, ctx.newInd), n, oc, ob, exact); }
    ghost var p0 := Extended(Ptrs(fs.g, ino0), n);
    assert Front(ctx.ino, n) == p0;
    NzExtend(Ptrs(fs.g, ino0), p0);
    WroteUnits(fs.g.E(), n, ctx.newSize, ctx.offset, |user|);
    ghost var p, stale;
    rc, p, stale := WriteEbin(fs, ctx, n, p0, oc, ob, exact);
    OwnedRest(fs.g, fs.eb, Ebin, p, oc, ob, exact);
    if rc.Ok? {
      CoreSizes(fs);
      EbinMeans(fs.g, d0, buf0, ino0, fs.disk, ctx.ino.(size := ctx.newSize), p, ctx.offset, user, stale);
    }
  }

  /** A write up to the end of a file whose old bytes, zero-filled to the new size, are in place already. */
  lemma GrownMeans(g: Geometry, d1: seq<byte>, p1: seq<nat>, bytes: seq<byte>, buf1: seq<byte>,
                   d: seq<byte>, ino: Inode, p: seq<nat>, off: nat, user: seq<byte>, stale: seq<byte>)
    requires g.Valid() && |d1| == |d| == g.DeviceSize() && |user| > 0
    requires |bytes| <= off + |user| == ino.size <= g.MaxEbin()
    requires TypeFromSize(g, ino.size) == Ebin == ino.Type() && g.E() > 0
    requires |ino.data| == g.MaxEmb() && Units(ino.size, g.E()) <= |ino.data| / 4
    requires p == Front(ino, Units(ino.size, g.E()))
    requires SpellsBelow(d1, g.E(), p1, |p1|, Splice(bytes, [], ino.size)) && |p1| == |p|
    requires EbinRewritten(g.c, g.E(), d1, p1, d, p, off, user, buf1, stale)
    ensures Readable(g, d, ino) && Ptrs(g, ino) == p && Content(g, d, ino) == Splice(bytes, user, off)
  {
    var s := g.E();
    Sizes(g);
    WroteUnits(s, |p|, ino.size, off, |user|);
    SpelledOut(d1, s, p1, Splice(bytes, [], ino.size));
    assert Rewrote(s, d1, p1, d, p, off, user, stale);
    UnitsOk(g, ino);
    assert PtrsIn(d, s, p) by { NewByte(s, d1, p1, d, p, off, user, stale, off); }
    var a, b := TableBytes(d, s, p, ino.size), Splice(bytes, user, off);
    forall pos | 0 <= pos < ino.size ensures a[pos] == b[pos] {
      NewByte(s, d1, p1, d, p, off, user, stale, pos);
      assert ByteAt(d1, s, p1, pos) == TableBytes(d1, s, p1, ino.size)[pos];
    }
  }

  /**
   * Exactly when the conversion of a file goes wrong instead of being refused: there is not one empty block above
   * the reserve for its first window, and the undo counts that as pointers to take back.
   */
  ghost predicate GoesAstray(g: Geometry, eb: seq<EraseBlock>, d: seq<byte>, ino: Inode, size: nat)
    requires g.Valid() && Readable(g, d, ino)
  {
    && ino.Type() == Clin && TypeFromSize(g, size) == Ebin
    && !UndoClean(g, eb) && !ZeroWindowAt(Content(g, d, ino), g.E(), 0)
  }

  /** clin to ebin: convert the table, then write. */
  method WriteClinGrow(fs: FsContext, ctx: WriteContext, ghost oc: set<nat>, ghost ob: set<nat>, ghost exact: bool)
    returns (rc: Rc)
    requires CoreInv(fs) && FileOk(fs.g, fs.eb, ctx.ino, oc, ob, exact) && ctx.ino.Type() == Clin
    requires ctx.oldSize == ctx.ino.size && ctx.oldType == Clin && 0 < |ctx.buf|
    requires ctx.newSize == ctx.offset + |ctx.buf| <= fs.g.MaxEbin() && ctx.oldSize <= ctx.newSize
    requires ctx.newInd == IndSize(fs.g, ctx.newSize) && ctx.newType == TypeFromSize(fs.g, ctx.newSize) == Ebin
    requires Readable(fs.g, fs.disk, ctx.ino)
    modifies fs`eb, fs`gc, fs`sums, fs`disk, fs`writer, fs`buf, ctx`ino, ctx`buf
    ensures !rc.Astray? ==> CoreInv(fs) && DataStep(fs.g, old(fs.eb), old(fs.disk), fs.eb, fs.disk, {})
    ensures !rc.Stalled? && !rc.Astray? ==> LiveOk(fs.g, fs.eb, oc, false) && EbinLive(fs.eb, ob)
    ensures rc.NoSpc? || rc.Stalled? || rc.Astray? || rc == Ok(|old(ctx.buf)|)
    ensures rc.Astray? <==> GoesAstray(fs.g, old(fs.eb), old(fs.disk), old(ctx.ino), ctx.newSize)
    ensures rc.Astray? ==> fs.disk == old(fs.disk) && fs.eb == Strayed(old(fs.eb), StrayPtrs(fs.g, old(ctx.ino)))
    ensures rc.NoSpc? ==> OutOfSpace(fs.g, fs.eb, old(ctx.ino), ctx.newSize)
    ensures rc.Ok? ==> forall w :: !ZeroWindowAt(Content(fs.g, old(fs.disk), old(ctx.ino)), fs.g.E(), w)
    ensures rc.Stalled? ==> exists w :: ZeroWindowAt(Content(fs.g, old(fs.disk), old(ctx.ino)), fs.g.E(), w)
    ensures rc.Ok? ==> var ino := ctx.ino.(size := ctx.newSize);
      && SameIdentity(ino, old(ctx.ino)) && FileOk(fs.g, fs.eb, ino, oc, ob, exact) && Readable(fs.g, fs.disk, ino)
      && Content(fs.g, fs.disk, ino) == Splice(Content(fs.g, old(fs.disk), old(ctx.ino)), old(ctx.buf), ctx.offset)
  {
    hide SumInv, EbInv, Kept, SameInodeBlocks, EbinRewritten, LiveOk, EbinLive, DataStep, SpellsBelow, ZeroWindowAt,
      Splice, TableBytes, NoRoom, FewEmpty, UndoClean, Strayed, StrayPtrs;
    ghost var ino0, eb0, d0, user := ctx.ino, fs.eb, fs.disk, ctx.buf;
    SizeFits(fs.g, ctx.newSize);
    CoreSizes(fs);
    UnitsOk(fs.g, ctx.ino);
    var n := Units(ctx.newSize, fs.g.E());
    ghost var p1;
    rc, p1 := TruncClin2Ebin(fs, ctx, Units(ctx.oldSize, fs.g.c), n, oc, ob, exact);
    ghost var bytes := Content(fs.g, d0, ino0);
    if rc.NoSpc? { OwnedRest(fs.g, fs.eb, Clin, Ptrs(fs.g, ino0), oc, ob, exact); }
    if !rc.Ok? { return; }
    WroteUnits(fs.g.E(), n, ctx.newSize, ctx.offset, |user|);
    CoreSizes(fs);
    ghost var eb1, d1, buf1 := fs.eb, fs.disk, fs.buf;
    ghost var p, stale;
    rc, p, stale := WriteEbin(fs, ctx, n, p1, oc, ob, exact);
    DataTrans(fs.g, eb0, d0, eb1, d1, fs.eb, fs.disk, {}, Nz(p1));
    OwnedRest(fs.g, fs.eb, Ebin, p, oc, ob, exact);
    if rc.Ok? {
      CoreSizes(fs);
      GrownMeans(fs.g, d1, p1, bytes, buf1, fs.disk, ctx.ino.(size := ctx.newSize), p, ctx.offset, user, stale);
    }
  }

  // ---------------------------------------------------------- write

  /** new_size of a write. */
  function SizeAfter(ino: Inode, off: nat, len: nat): nat { Max(ino.size, off + len) }

  /** What a successful write leaves behind, apart from whether it is a clean splice. */
  ghost predicate Wrote(g: Geometry, eb: seq<EraseBlock>, d: seq<byte>, ino0: Inode, ino: Inode, size: nat,
                        oc: set<nat>, ob: set<nat>, exact: bool)
    requires g.Valid()
  {
    ino.size == size && SameIdentity(ino, ino0) && FileOk(g, eb, ino, oc, ob, exact) && Readable(g, d, ino)
  }

  /**
   * write, up to the update of i_size. The result is the splice of the user's bytes into the file exactly
   * when WriteClean holds; the step touches no cluster in use except the file's own erase blocks, and what
   * all other files hold stays allocated and counted.
   */
  method WriteData(fs: FsContext, ino: Inode, user: seq<byte>, offset: nat,
                   ghost oc: set<nat>, ghost ob: set<nat>, ghost exact: bool) returns (rc: Rc, ino': Inode)
    requires CoreInv(fs) && FileOk(fs.g, fs.eb, ino, oc, ob, exact)
    requires exact && ino.Type() == Clin ==> NoFullOverwrite(fs.g, ino, offset, |user|)
    modifies fs`eb, fs`gc, fs`sums, fs`disk, fs`writer, fs`buf
    ensures !rc.Astray? ==>
      CoreInv(fs) && DataStep(fs.g, old(fs.eb), old(fs.disk), fs.eb, fs.disk, OwnBlocks(fs.g, ino))
    ensures Readable(fs.g, old(fs.disk), ino) && |old(fs.buf)| == fs.g.E()
    ensures !rc.Stalled? && !rc.Astray? ==> LiveOk(fs.g, fs.eb, oc, false) && EbinLive(fs.eb, ob)
    ensures rc.FBig? <==> SizeAfter(ino, offset, |user|) > fs.g.MaxEbin()
    ensures rc.FBig? || |user| == 0 ==> ino' == ino && fs.eb == old(fs.eb) && fs.disk == old(fs.disk)
    ensures rc.FBig? || rc.NoSpc? || rc.Stalled? || rc.Astray? || rc == Ok(|user|)
    ensures rc.Astray? <==>
      |user| > 0 && !rc.FBig? && GoesAstray(fs.g, old(fs.eb), old(fs.disk), ino, SizeAfter(ino, offset, |user|))
    ensures rc.Astray? ==> fs.disk == old(fs.disk) && fs.eb == Strayed(old(fs.eb), StrayPtrs(fs.g, ino))
    ensures rc.NoSpc? ==> OutOfSpace(fs.g, fs.eb, ino, SizeAfter(ino, offset, |user|))
    ensures |user| == 0 && !rc.FBig? ==> rc == Ok(0)
    ensures rc.Stalled? ==> ino.Type() == Clin && SizeAfter(ino, offset, |user|) > fs.g.MaxClin()
                            && exists w :: ZeroWindowAt(Content(fs.g, old(fs.disk), ino), fs.g.E(), w)
    ensures rc.Ok? && |user| > 0 && ino.Type() == Clin && SizeAfter(ino, offset, |user|) > fs.g.MaxClin() ==>
              forall w :: !ZeroWindowAt(Content(fs.g, old(fs.disk), ino), fs.g.E(), w)
    ensures rc.Ok? && |user| > 0 ==>
      && Wrote(fs.g, fs.eb, fs.disk, ino, ino', SizeAfter(ino, offset, |user|), oc, ob, exact)
      && (Content(fs.g, fs.disk, ino') == Splice(Content(fs.g, old(fs.disk), ino), user, offset)
          <==> WriteClean(fs.g, old(fs.disk), old(fs.buf), ino, offset, user))
    ensures ino.Type() == Emb && TypeFromSize(fs.g, SizeAfter(ino, offset, |user|)) == Emb ==>
      fs.eb == old(fs.eb) && fs.gc == old(fs.gc) && fs.disk == old(fs.disk)
  {
    hide SumInv, EbInv, Kept, SameInodeBlocks, LiveOk, EbinLive, ZeroWindowAt, Splice, TableBytes, GapClean, TailClean,
      Owned, ClinStale, EbinStale, TailClean, OutOfSpace, UndoClean, Strayed, StrayPtrs;
    CoreSizes(fs);
    FileReadable(fs.g, fs.eb, fs.disk, ino, oc, ob, exact);
    StepReflOwn(fs.g, fs.eb, fs.disk, OwnBlocks(fs.g, ino));
    OwnedRest(fs.g, fs.eb, ino.Type(), Ptrs(fs.g, ino), oc, ob, exact);
    ino' := ino;
    var newSize := Max(ino.size, offset + |user|);
    if newSize > fs.g.MaxEbin() { return FBig, ino; }
    if |user| == 0 { return Ok(0), ino; }
    SizeFits(fs.g, newSize);
    var ctx := new WriteContext(fs.g, ino, user, offset, newSize);
    if ctx.oldType == Emb {
      rc := WriteFromEmb(fs, ctx, oc, ob, exact);
    } else if ctx.oldType == Clin {
      if ctx.newType == Ebin {
        rc := WriteClinGrow(fs, ctx, oc, ob, exact);
      } else {
        TypeStays(fs.g, ino.size, newSize);
        rc := WriteClinSame(fs, ctx, oc, ob, exact);
      }
    } else {
      TypeStays(fs.g, ino.size, newSize);
      rc := WriteEbinSame(fs, ctx, oc, ob, exact);
    }
    ino' := if rc.Ok? then ctx.ino.(size := ctx.newSize) else if rc.Astray? then ino else ctx.ino;
  }

  lemma TypeStays(g: Geometry, size: nat, size': nat)
    requires g.Valid() && size <= size'
    ensures TypeFromSize(g, size) == Clin && TypeFromSize(g, size') != Ebin ==> TypeFromSize(g, size') == Clin
    ensures TypeFromSize(g, size) == Ebin ==> TypeFromSize(g, size') == Ebin
  {
  }

  // ---------------------------------------------------------- truncate

  /** A file's bytes cut off, or filled up with zeros, at `len`. */
  function Resized(bytes: seq<byte>, len: nat): (r: seq<byte>)
    ensures |r| == len && forall i | 0 <= i < len :: r[i] == if i < |bytes| then bytes[i] else 0
  {
    Splice(bytes, [], len)[..len]
  }

  /**
   * Exactly when growing a file is clean. The last unit of a file that keeps an indirect layout must read as
   * zeros behind the old end, and a file that leaves its inode must not need a second unit whose pointer the
   * old embedded bytes would have to spell as zero.
   */
  ghost predicate GrowClean(g: Geometry, d0: seq<byte>, ino: Inode, len: nat)
    requires g.Valid() && Readable(g, d0, ino) && ino.size <= len <= g.MaxEbin()
  {
    SizeFits(g, len);
    if TypeFromSize(g, len) == Emb then true
    else if ino.Type() == Emb then LastPtrClear(g, ino, len)
    else if TypeFromSize(g, len) != ino.Type() then true
    else
      UnitsOk(g, ino);
      GapClean(UnitSize(g, ino.Type()), d0, Ptrs(g, ino), ino.size, len)
  }

  /** The entry trunc_emb2ind does not clear is a hole by luck, or is also the first one. */
  predicate LastPtrClear(g: Geometry, ino: Inode, len: nat)
    requires g.Valid() && LayoutOk(g, ino) && len <= g.MaxEbin() && TypeFromSize(g, len) != Emb
  {
    SizeFits(g, len);
    var n := Units(len, IndSize(g, len));
    n == 1 || Table(ino.data)[n - 1] == 0
  }

  /** The piece of a file that unit j holds, up to `len`, reads as zeros in erase block x. */
  ghost predicate ReadsZero(d: seq<byte>, s: nat, x: nat, j: nat, len: nat) {
    x * s + s <= |d| && forall o: nat | o < s && j * s + o < len :: UnitAt(d, s, x)[o] == 0
  }

  /**
   * The entry trunc_emb2ind does not clear spells an erase block in use that none of the other files has, and
   * that block is zero as far as the file is going to reach into it.
   */
  ghost predicate StrayZeros(g: Geometry, eb: seq<EraseBlock>, d: seq<byte>, ino0: Inode, len: nat, ob: set<nat>)
    requires g.Valid() && LayoutOk(g, ino0) && len <= g.MaxEbin() && TypeFromSize(g, len) == Ebin
  {
    SizeFits(g, len);
    var n := Units(len, g.E());
    var x := Table(ino0.data)[n - 1];
    1 <= x < |eb| && eb[x].etype == EbinBlk && x !in ob && ReadsZero(d, g.E(), x, n - 1, len)
  }

  /** Then, and only then, the file is what it should be in spite of that entry. */
  lemma StrayMeans(g: Geometry, eb0: seq<EraseBlock>, d0: seq<byte>, eb: seq<EraseBlock>, d: seq<byte>, ino0: Inode,
                   ino: Inode, n: nat, ptrs: seq<nat>, oc: set<nat>, ob: set<nat>, exact: bool)
    requires g.Valid() && |eb| == g.blocks && |d| == g.DeviceSize() && LayoutOk(g, ino0) && ino0.Type() == Emb
    requires ino0.size <= ino.size <= g.MaxEbin() && |ino.data| == g.MaxEmb() && ino0.no < U32
    requires SameIdentity(ino, ino0)
    requires ino.Type() == TypeFromSize(g, ino.size) == Ebin && n == Units(ino.size, IndSize(g, ino.size))
    requires |ptrs| == n
    requires 1 <= n <= g.MaxEmb() / 4 && !LastPtrClear(g, ino0, ino.size)
    requires Owned(g, eb, Ebin, ptrs, oc, ob, exact) && (forall j | 1 <= j < n :: ptrs[j] == 0)
    requires SpellsBelow(d, IndSize(g, ino.size), ptrs, n, Splice(ino0.data[..ino0.size], [], ino.size))
    requires n > 1 ==> Front(ino, n) == ptrs[n - 1 := Front(ino0, n)[n - 1]]
    requires DataStep(g, eb0, d0, eb, d, {}) && SameEbin(eb0, eb, ptrs[0])
    ensures Wrote(g, eb, d, ino0, ino, ino.size, oc, ob, exact)
            && Content(g, d, ino) == Resized(ino0.data[..ino0.size], ino.size)
            <==> StrayZeros(g, eb0, d0, ino0, ino.size, ob)
  {
    hide SpellsBelow, Kept, Splice, Content, Units, ReadsZero, Owned, Resized;
    SizeFits(g, ino.size);
    var x := Front(ino0, n)[n - 1];
    assert x == Table(ino0.data)[n - 1];
    if StrayZeros(g, eb0, d0, ino0, ino.size, ob) {
      ZeroKept(g, eb0, d0, eb, d, x, n - 1, ino.size);
      StrayFits(g, eb0, d0, eb, d, ino0, ino, n, ptrs, oc, ob, exact);
    }
    if Wrote(g, eb, d, ino0, ino, ino.size, oc, ob, exact) && Content(g, d, ino)
        == Resized(ino0.data[..ino0.size], ino.size) {
      StrayOwned(g, eb0, eb, ino, n, ptrs, x, oc, ob, exact);
      StrayReads(g, d, ino0, ino, n, x);
      ZeroKept(g, eb0, d0, eb, d, x, n - 1, ino.size);
    }
  }

  lemma ZeroKept(g: Geometry, eb0: seq<EraseBlock>, d0: seq<byte>, eb: seq<EraseBlock>, d: seq<byte>, x: nat, j: nat,
                 len: nat)
    requires g.Valid() && Kept(g, eb0, d0, eb, d, {}) && x < |eb0| == g.blocks && eb0[x].etype == EbinBlk
    requires |d| == g.DeviceSize()
    ensures ReadsZero(d, g.E(), x, j, len) <==> ReadsZero(d0, g.E(), x, j, len)
  {
    KeptEbin(g, eb0, d0, eb, d, {}, x);
    BlockInDevice(g, x);
  }

  lemma StrayOwned(g: Geometry, eb0: seq<EraseBlock>, eb: seq<EraseBlock>, ino: Inode, n: nat, ptrs: seq<nat>, x: nat,
                   oc: set<nat>, ob: set<nat>, exact: bool)
    requires g.Valid() && FileOk(g, eb, ino, oc, ob, exact) && ino.Type() == Ebin && n == Units(ino.size, g.E())
    requires 1 < n <= |ino.data| / 4
    requires |ptrs| == n && Front(ino, n) == ptrs[n - 1 := x] && x != 0 && SameEbin(eb0, eb, ptrs[0])
    ensures 1 <= x < |eb0| && eb0[x].etype == EbinBlk && x !in ob
  {
    var p := Ptrs(g, ino);
    assert p == Front(ino, n);
    assert p[0] == ptrs[0] && p[n - 1] == x && x in Nz(p);
  }

  lemma StrayReads(g: Geometry, d: seq<byte>, ino0: Inode, ino: Inode, n: nat, x: nat)
    requires g.Valid() && Readable(g, d, ino) && ino.Type() != Emb && n == Units(ino.size, UnitSize(g, ino.Type()))
    requires 1 < n <= |ino.data| / 4
    requires LayoutOk(g, ino0) && ino0.Type() == Emb && Front(ino, n)[n - 1] == x
    requires Content(g, d, ino) == Resized(ino0.data[..ino0.size], ino.size)
    ensures ReadsZero(d, UnitSize(g, ino.Type()), x, n - 1, ino.size)
  {
    var s, p := UnitSize(g, ino.Type()), Ptrs(g, ino);
    Sizes(g);
    UnitsOk(g, ino);
    assert p == Front(ino, n) && p[n - 1] == x;
    MulGe(n - 1, s);
    hide UnitAt, UnitSize, Units, LayoutOk;
    forall o: nat | o < s && (n - 1) * s + o < ino.size ensures UnitAt(d, s, x)[o] == 0 {
      UnitByte(d, s, p, ino.size, n - 1, o, (n - 1) * s + o);
    }
  }

  lemma StrayTaken(g: Geometry, eb0: seq<EraseBlock>, eb: seq<EraseBlock>, ptrs: seq<nat>, x: nat,
                   oc: set<nat>, ob: set<nat>, exact: bool)
    requires g.k > 0 && 1 < |ptrs| && Owned(g, eb, Ebin, ptrs, oc, ob, exact) && SameEbin(eb0, eb, ptrs[0])
    requires forall j | 1 <= j < |ptrs| :: ptrs[j] == 0
    requires 1 <= x < |eb0| && eb0[x].etype == EbinBlk && x !in ob
    ensures Owned(g, eb, Ebin, ptrs[|ptrs| - 1 := x], oc, ob, exact)
  {
    hide LiveOk;
    assert x !in Nz(ptrs);
    NzUpdate(ptrs, |ptrs| - 1, x);
  }

  lemma StraySpells(d: seq<byte>, s: nat, ptrs: seq<nat>, x: nat, old0: seq<byte>, size: nat)
    requires s > 0 && 1 < |ptrs| && |old0| <= size && SpellsBelow(d, s, ptrs, |ptrs|, Splice(old0, [], size))
    requires |old0| <= s && (|ptrs| - 1) * s < size
    requires ReadsZero(d, s, x, |ptrs| - 1, size)
    ensures SpellsBelow(d, s, ptrs[|ptrs| - 1 := x], |ptrs|, Splice(old0, [], size))
  {
    MulGe(|ptrs| - 1, s);
  }

  lemma StrayFits(g: Geometry, eb0: seq<EraseBlock>, d0: seq<byte>, eb: seq<EraseBlock>, d: seq<byte>, ino0: Inode,
                  ino: Inode, n: nat, ptrs: seq<nat>, oc: set<nat>, ob: set<nat>, exact: bool)
    requires g.Valid() && |eb| == g.blocks && |d| == g.DeviceSize() && LayoutOk(g, ino0) && ino0.Type() == Emb
    requires ino0.size <= ino.size <= g.MaxEbin() && |ino.data| == g.MaxEmb() && ino0.no < U32
    requires SameIdentity(ino, ino0)
    requires ino.Type() == TypeFromSize(g, ino.size) == Ebin && n == Units(ino.size, g.E()) && 1 < n <= g.MaxEmb() / 4
    requires |ptrs| == n
    requires Owned(g, eb, Ebin, ptrs, oc, ob, exact) && (forall j | 1 <= j < n :: ptrs[j] == 0)
    requires SpellsBelow(d, g.E(), ptrs, n, Splice(ino0.data[..ino0.size], [], ino.size))
    requires Front(ino, n) == ptrs[n - 1 := Front(ino0, n)[n - 1]] && SameEbin(eb0, eb, ptrs[0])
    requires var x := Front(ino0, n)[n - 1];
      1 <= x < |eb0| && eb0[x].etype == EbinBlk && x !in ob && ReadsZero(d, g.E(), x, n - 1, ino.size)
    ensures Wrote(g, eb, d, ino0, ino, ino.size, oc, ob, exact)
    ensures Content(g, d, ino) == Resized(ino0.data[..ino0.size], ino.size)
  {
    hide Content;
    var x, p, bytes := Front(ino0, n)[n - 1], Front(ino, n), Splice(ino0.data[..ino0.size], [], ino.size);
    SizeFits(g, ino.size);
    StrayTaken(g, eb0, eb, ptrs, x, oc, ob, exact);
    StraySpells(d, g.E(), ptrs, x, ino0.data[..ino0.size], ino.size);
    SpelledFile(g, d, ino, n, bytes);
    assert Resized(ino0.data[..ino0.size], ino.size) == bytes;
  }

  /** The same for a cluster: one in use, of no other file, that its block counts without anybody pointing to it. */
  ghost predicate StrayCounted(g: Geometry, eb: seq<EraseBlock>, d: seq<byte>, ino0: Inode, len: nat, oc: set<nat>)
    requires g.Valid() && LayoutOk(g, ino0) && len <= g.MaxEbin() && TypeFromSize(g, len) == Clin
  {
    SizeFits(g, len);
    var n := Units(len, g.c);
    var x := Table(ino0.data)[n - 1];
    Uncounted(g, eb, oc, x) && ReadsZero(d, g.c, x, n - 1, len)
  }

  ghost predicate Uncounted(g: Geometry, eb: seq<EraseBlock>, oc: set<nat>, x: nat)
    requires g.k > 0
  {
    ClinPtrOk(g, eb, x) && x !in oc && |In(g, oc, x / g.k)| < eb[x / g.k].cvalid
  }

  /** One more pointer can be live exactly if its block counts more than lead into it; exact counters never do. */
  lemma LiveOneMore(g: Geometry, eb: seq<EraseBlock>, live: set<nat>, x: nat, exact: bool)
    requires g.k > 0 && LiveOk(g, eb, live, exact) && x !in live
    ensures LiveOk(g, eb, live + {x}, exact) <==> !exact && Uncounted(g, eb, live, x)
  {
    var more, b := live + {x}, x / g.k;
    assert In(g, more, b) == In(g, live, b) + {x};
    forall c | 1 <= c < |eb| && c != b ensures In(g, more, c) == In(g, live, c) { }
    if ClinPtrOk(g, eb, x) { assert Counted(g, eb, live, exact, b); } else { assert x in more; }
    if !exact && Uncounted(g, eb, live, x) {
      forall c | 1 <= c < |eb| && IsClinType(eb[c].etype) ensures Counted(g, eb, more, exact, c) {
        assert Counted(g, eb, live, exact, c);
      }
    }
    if LiveOk(g, eb, more, exact) { assert ClinPtrOk(g, eb, x) && Counted(g, eb, more, exact, b); }
  }

  /** Whether the unit just written counts or not makes no difference to that. */
  lemma UncountedBefore(g: Geometry, eb0: seq<EraseBlock>, eb: seq<EraseBlock>, oc: set<nat>, id: nat, x: nat)
    requires g.k > 0 && OneClinMore(g, eb0, eb, id) && (id != 0 ==> id !in oc) && x != id
    ensures Uncounted(g, eb, oc + (if id == 0 then {} else {id}), x) <==> Uncounted(g, eb0, oc, x)
  {
    var more, b := oc + (if id == 0 then {} else {id}), x / g.k;
    if ClinPtrOk(g, eb0, x) {
      if id != 0 && id / g.k == b {
        assert In(g, more, b) == In(g, oc, b) + {id};
      } else {
        assert In(g, more, b) == In(g, oc, b);
      }
    }
  }

  /** A table of one unit and a stray pointer belongs to one file exactly if that pointer was not counted before. */
  lemma StrayClinOwned(g: Geometry, eb0: seq<EraseBlock>, eb: seq<EraseBlock>, ptrs: seq<nat>, x: nat,
                       oc: set<nat>, ob: set<nat>, exact: bool)
    requires g.k > 0 && 1 < |ptrs| && Owned(g, eb, Clin, ptrs, oc, ob, exact) && OneClinMore(g, eb0, eb, ptrs[0])
    requires (forall j | 1 <= j < |ptrs| :: ptrs[j] == 0) && x != 0
    ensures Owned(g, eb, Clin, ptrs[|ptrs| - 1 := x], oc, ob, exact) <==> !exact && Uncounted(g, eb0, oc, x)
  {
    hide LiveOk, OneClinMore, EbinLive;
    var id, n, p := ptrs[0], |ptrs|, ptrs[|ptrs| - 1 := x];
    OnlyFirstNz(ptrs);
    if x == id {
      assert p[0] == p[n - 1] && !Distinct(p);
      assert !Uncounted(g, eb0, oc, x) by { NotBefore(g, eb0, eb, id); }
    } else {
      NzUpdate(ptrs, n - 1, x);
      assert Nz(p) == Nz(ptrs) + {x};
      assert oc + Nz(p) == oc + Nz(ptrs) + {x};
      UncountedBefore(g, eb0, eb, oc, id, x);
      if x !in oc { LiveOneMore(g, eb, oc + Nz(ptrs), x, exact); }
    }
  }

  lemma NotBefore(g: Geometry, eb0: seq<EraseBlock>, eb: seq<EraseBlock>, id: nat)
    requires g.k > 0 && OneClinMore(g, eb0, eb, id) && id != 0
    ensures !ClinPtrOk(g, eb0, id)
  {
  }

  lemma OnlyFirstNz(ptrs: seq<nat>)
    requires |ptrs| > 0 && forall j | 1 <= j < |ptrs| :: ptrs[j] == 0
    ensures Nz(ptrs) == if ptrs[0] == 0 then {} else {ptrs[0]}
  {
    if ptrs[0] != 0 { assert ptrs[0] in Nz(ptrs); }
  }

  /** Cluster-indirect files: what the file holds with that pointer in its table, decided before the call. */
  lemma StrayClinMeans(g: Geometry, eb0: seq<EraseBlock>, d0: seq<byte>, eb: seq<EraseBlock>, d: seq<byte>, ino0: Inode,
                       ino: Inode, n: nat, ptrs: seq<nat>, oc: set<nat>, ob: set<nat>, exact: bool)
    requires g.Valid() && |eb| == g.blocks && |d| == g.DeviceSize() && LayoutOk(g, ino0) && ino0.Type() == Emb
    requires ino0.size <= ino.size <= g.MaxEbin() && |ino.data| == g.MaxEmb() && ino0.no < U32
    requires SameIdentity(ino, ino0)
    requires ino.Type() == TypeFromSize(g, ino.size) == Clin && n == Units(ino.size, IndSize(g, ino.size))
    requires |ptrs| == n
    requires 1 <= n <= g.MaxEmb() / 4 && !LastPtrClear(g, ino0, ino.size)
    requires Owned(g, eb, Clin, ptrs, oc, ob, exact) && (forall j | 1 <= j < n :: ptrs[j] == 0)
    requires SpellsBelow(d, IndSize(g, ino.size), ptrs, n, Splice(ino0.data[..ino0.size], [], ino.size))
    requires n > 1 ==> Front(ino, n) == ptrs[n - 1 := Front(ino0, n)[n - 1]]
    requires DataStep(g, eb0, d0, eb, d, {}) && OneClinMore(g, eb0, eb, ptrs[0])
    ensures Wrote(g, eb, d, ino0, ino, ino.size, oc, ob, exact)
            && Content(g, d, ino) == Resized(ino0.data[..ino0.size], ino.size)
            <==> !exact && StrayCounted(g, eb0, d0, ino0, ino.size, oc)
  {
    hide SpellsBelow, Kept, Splice, Content, Units, ReadsZero, Owned, Resized, OneClinMore, Uncounted, Readable;
    SizeFits(g, ino.size);
    var x := Front(ino0, n)[n - 1];
    assert x == Table(ino0.data)[n - 1] && n > 1;
    StrayClinOwned(g, eb0, eb, ptrs, x, oc, ob, exact);
    if Uncounted(g, eb0, oc, x) { ClinZeroKept(g, eb0, d0, eb, d, oc, x, n - 1, ino.size); }
    if !exact && StrayCounted(g, eb0, d0, ino0, ino.size, oc) {
      StrayClinFits(g, eb, d, ino0, ino, n, ptrs, x, oc, ob, exact);
    }
    if Wrote(g, eb, d, ino0, ino, ino.size, oc, ob, exact) && Content(g, d, ino)
        == Resized(ino0.data[..ino0.size], ino.size) {
      StrayClinFound(g, eb, d, ino0, ino, n, x, oc, ob, exact);
    }
  }

  lemma StrayClinFits(g: Geometry, eb: seq<EraseBlock>, d: seq<byte>, ino0: Inode, ino: Inode, n: nat, ptrs: seq<nat>,
                      x: nat, oc: set<nat>, ob: set<nat>, exact: bool)
    requires g.Valid() && |eb| == g.blocks && |d| == g.DeviceSize() && LayoutOk(g, ino0) && ino0.Type() == Emb
    requires ino0.size <= ino.size <= g.MaxEbin() && |ino.data| == g.MaxEmb() && ino0.no < U32
    requires SameIdentity(ino, ino0) && ino.Type() == TypeFromSize(g, ino.size) == Clin
    requires n == Units(ino.size, g.c) && 1 < n <= g.MaxEmb() / 4 && |ptrs| == n && Front(ino, n) == ptrs[n - 1 := x]
    requires SpellsBelow(d, g.c, ptrs, n, Splice(ino0.data[..ino0.size], [], ino.size))
    requires Owned(g, eb, Clin, ptrs[n - 1 := x], oc, ob, exact) && ReadsZero(d, g.c, x, n - 1, ino.size)
    ensures Wrote(g, eb, d, ino0, ino, ino.size, oc, ob, exact)
    ensures Content(g, d, ino) == Resized(ino0.data[..ino0.size], ino.size)
  {
    hide SpellsBelow, Splice, Content, Units, ReadsZero, Owned, Resized;
    var bytes := Splice(ino0.data[..ino0.size], [], ino.size);
    SizeFits(g, ino.size);
    UnitsBelow(ino.size, g.c);
    StraySpells(d, g.c, ptrs, x, ino0.data[..ino0.size], ino.size);
    ResizedIsSplice(ino0.data[..ino0.size], ino.size);
    SpelledFile(g, d, ino, n, bytes);
  }

  lemma StrayClinFound(g: Geometry, eb: seq<EraseBlock>, d: seq<byte>, ino0: Inode, ino: Inode, n: nat, x: nat,
                       oc: set<nat>, ob: set<nat>, exact: bool)
    requires g.Valid() && LayoutOk(g, ino0) && ino0.Type() == Emb && ino.Type() == Clin && n == Units(ino.size, g.c)
    requires 1 < n <= |ino.data| / 4 && Front(ino, n)[n - 1] == x
    requires Wrote(g, eb, d, ino0, ino, ino.size, oc, ob, exact)
    requires Content(g, d, ino) == Resized(ino0.data[..ino0.size], ino.size)
    ensures Owned(g, eb, Clin, Front(ino, n), oc, ob, exact) && ReadsZero(d, g.c, x, n - 1, ino.size)
  {
    hide Content, Units, ReadsZero, Owned, Resized, Readable, Front;
    TableFront(g, ino, n);
    StrayReads(g, d, ino0, ino, n, x);
  }

  lemma UnitsBelow(size: nat, s: nat)
    requires s > 0 && size > 0
    ensures Units(size, s) >= 1 && (Units(size, s) - 1) * s < size
  {
  }

  lemma TableFront(g: Geometry, ino: Inode, n: nat)
    requires g.Valid() && LayoutOk(g, ino) && ino.Type() != Emb && n == Units(ino.size, UnitSize(g, ino.Type()))
    requires n <= |ino.data| / 4
    ensures Ptrs(g, ino) == Front(ino, n)
  {
  }

  lemma ClinZeroKept(g: Geometry, eb0: seq<EraseBlock>, d0: seq<byte>, eb: seq<EraseBlock>, d: seq<byte>, oc: set<nat>,
                     x: nat, j: nat, len: nat)
    requires g.Valid() && Kept(g, eb0, d0, eb, d, {}) && Uncounted(g, eb0, oc, x)
    ensures ReadsZero(d, g.c, x, j, len) <==> ReadsZero(d0, g.c, x, j, len)
  {
    KeptClin(g, eb0, d0, eb, d, {}, x);
  }

  lemma ResizedIsSplice(f: seq<byte>, size: nat)
    requires |f| <= size
    ensures Resized(f, size) == Splice(f, [], size)
  {
  }

  /** What a file that has left its inode holds, by whether its last pointer is the one that was meant. */
  lemma EmbGrownMeans(g: Geometry, eb: seq<EraseBlock>, d: seq<byte>, ino0: Inode, ino: Inode, n: nat, ptrs: seq<nat>,
                      oc: set<nat>, ob: set<nat>, exact: bool)
    requires g.Valid() && |eb| == g.blocks && |d| == g.DeviceSize() && LayoutOk(g, ino0) && ino0.Type() == Emb
    requires ino0.size <= ino.size <= g.MaxEbin() && |ino.data| == g.MaxEmb() && ino0.no < U32
    requires ino.Type() == TypeFromSize(g, ino.size) != Emb && SameIdentity(ino, ino0)
    requires n == Units(ino.size, IndSize(g, ino.size)) && 1 <= n <= g.MaxEmb() / 4 && |ptrs| == n
    requires ino0.size <= |ino0.data| && Owned(g, eb, ino.Type(), ptrs, oc, ob, exact)
    requires SpellsBelow(d, IndSize(g, ino.size), ptrs, n, Splice(ino0.data[..ino0.size], [], ino.size))
    requires n == 1 ==> Front(ino, n) == ptrs
    requires n > 1 ==> Front(ino, n) == ptrs[n - 1 := Front(ino0, n)[n - 1]] && ptrs[n - 1] == 0
    ensures LastPtrClear(g, ino0, ino.size) ==>
      && Wrote(g, eb, d, ino0, ino, ino.size, oc, ob, exact)
      && Content(g, d, ino) == Resized(ino0.data[..ino0.size], ino.size)
    ensures exact && ino.Type() == Clin && !LastPtrClear(g, ino0, ino.size) ==>
      !Wrote(g, eb, d, ino0, ino, ino.size, oc, ob, exact)
  {
    hide SpellsBelow, Owned, Splice, Content, Units, Readable;
    SizeFits(g, ino.size);
    var bytes := Splice(ino0.data[..ino0.size], [], ino.size);
    if LastPtrClear(g, ino0, ino.size) {
      assert Front(ino, n) == ptrs;
      SpelledFile(g, d, ino, n, bytes);
      ResizedIsSplice(ino0.data[..ino0.size], ino.size);
    } else if ino.Type() == Clin && exact {
      StrayPointer(g, eb, d, ino0, ino, n, ptrs, oc, ob);
    }
  }

  lemma EmbStaysMeans(g: Geometry, eb: seq<EraseBlock>, d: seq<byte>, ino0: Inode, ino: Inode,
                      oc: set<nat>, ob: set<nat>, exact: bool)
    requires g.Valid() && FileOk(g, eb, ino0, oc, ob, exact) && ino0.Type() == Emb && |ino.data| == g.MaxEmb()
    requires |d| == g.DeviceSize()
    requires ino.Type() == TypeFromSize(g, ino.size) == Emb && SameIdentity(ino, ino0)
    requires ino0.size <= |ino0.data| && ino.size <= |ino.data|
    requires ino.data[..ino.size] == Splice(ino0.data[..ino0.size], [], ino.size)[..ino.size]
    ensures Wrote(g, eb, d, ino0, ino, ino.size, oc, ob, exact)
    ensures Content(g, d, ino) == Resized(ino0.data[..ino0.size], ino.size)
  {
    Sizes(g);
    assert Ptrs(g, ino) == Ptrs(g, ino0);
  }

  /** truncate of a file inside its inode. */
  method TruncFromEmb(fs: FsContext, ctx: WriteContext, ghost oc: set<nat>, ghost ob: set<nat>, ghost exact: bool)
    returns (rc: Rc)
    requires CoreInv(fs) && FileOk(fs.g, fs.eb, ctx.ino, oc, ob, exact) && ctx.ino.Type() == Emb
    requires ctx.oldSize == ctx.ino.size && ctx.oldType == Emb && ctx.buf == []
    requires ctx.offset == ctx.newSize <= fs.g.MaxEbin()
    requires ctx.newInd == IndSize(fs.g, ctx.newSize) && ctx.newType == TypeFromSize(fs.g, ctx.newSize)
    modifies fs`eb, fs`gc, fs`sums, fs`disk, fs`writer, fs`buf, ctx`ino, ctx`buf
    ensures CoreInv(fs) && DataStep(fs.g, old(fs.eb), old(fs.disk), fs.eb, fs.disk, {})
    ensures LiveOk(fs.g, fs.eb, oc, false) && EbinLive(fs.eb, ob)
    ensures rc.NoSpc? || rc == Ok(0)
    ensures rc.NoSpc? ==> OutOfSpace(fs.g, fs.eb, old(ctx.ino), ctx.newSize)
    ensures rc.Ok? ==>
      LayoutOk(fs.g, ctx.ino.(size := ctx.newSize)) && SameIdentity(ctx.ino.(size := ctx.newSize), old(ctx.ino))
    ensures rc.Ok? && (ctx.newType == Emb || LastPtrClear(fs.g, old(ctx.ino), ctx.newSize)) ==>
      && Wrote(fs.g, fs.eb, fs.disk, old(ctx.ino), ctx.ino.(size := ctx.newSize), ctx.newSize, oc, ob, exact)
      && Content(fs.g, fs.disk, ctx.ino.(size := ctx.newSize)) == Resized(old(ctx.ino).data[..ctx.oldSize], ctx.newSize)
    ensures rc.Ok? && exact && ctx.newType == Clin && !LastPtrClear(fs.g, old(ctx.ino), ctx.newSize) ==>
      !Wrote(fs.g, fs.eb, fs.disk, old(ctx.ino), ctx.ino.(size := ctx.newSize), ctx.newSize, oc, ob, exact)
    ensures rc.Ok? && ctx.newType == Ebin && !LastPtrClear(fs.g, old(ctx.ino), ctx.newSize) ==>
      (Wrote(fs.g, fs.eb, fs.disk, old(ctx.ino), ctx.ino.(size := ctx.newSize), ctx.newSize, oc, ob, exact)
        && Content(fs.g, fs.disk, ctx.ino.(size := ctx.newSize))
            == Resized(old(ctx.ino).data[..ctx.oldSize], ctx.newSize)
       <==> StrayZeros(fs.g, old(fs.eb), old(fs.disk), old(ctx.ino), ctx.newSize, ob))
    ensures rc.Ok? && ctx.newType == Clin && !LastPtrClear(fs.g, old(ctx.ino), ctx.newSize) ==>
      (Wrote(fs.g, fs.eb, fs.disk, old(ctx.ino), ctx.ino.(size := ctx.newSize), ctx.newSize, oc, ob, exact)
        && Content(fs.g, fs.disk, ctx.ino.(size := ctx.newSize))
            == Resized(old(ctx.ino).data[..ctx.oldSize], ctx.newSize)
       <==> !exact && StrayCounted(fs.g, old(fs.eb), old(fs.disk), old(ctx.ino), ctx.newSize, oc))
  {
    hide SumInv, EbInv, Kept, SameInodeBlocks, LiveOk, EbinLive, SpellsBelow, DataStep, Owned, Content, Wrote, NoRoom,
      FewEmpty, OneClinMore, StrayZeros, StrayCounted;
    SizeFits(fs.g, ctx.newSize);
    CoreSizes(fs);
    EmbOwned(fs.g, fs.eb, oc, ob, exact);
    if ctx.newInd == 0 {
      StepRefl(fs.g, fs.eb, fs.disk);
      rc := WriteEmbOnly(ctx);
      LiveSubset(fs.g, fs.eb, oc, oc, exact);
      EmbStaysMeans(fs.g, fs.eb, fs.disk, old(ctx.ino), ctx.ino.(size := ctx.newSize), oc, ob, exact);
      return;
    }
    var n := Units(ctx.newSize, ctx.newInd);
    ghost var ptrs;
    rc, ptrs := WriteEmbInd(fs, ctx, n, oc, ob, exact);
    OwnedRest(fs.g, fs.eb, ctx.newType, ptrs, oc, ob, exact);
    if rc.NoSpc? { return; }
    CoreSizes(fs);
    EmbGrownMeans(fs.g, fs.eb, fs.disk, old(ctx.ino), ctx.ino.(size := ctx.newSize), n, ptrs, oc, ob, exact);
    if ctx.newType == Ebin && !LastPtrClear(fs.g, old(ctx.ino), ctx.newSize) {
      StrayMeans(fs.g, old(fs.eb), old(fs.disk), fs.eb, fs.disk, old(ctx.ino), ctx.ino.(size := ctx.newSize), n, ptrs,
                 oc, ob, exact);
    }
    if ctx.newType == Clin && !LastPtrClear(fs.g, old(ctx.ino), ctx.newSize) {
      StrayClinMeans(fs.g, old(fs.eb), old(fs.disk), fs.eb, fs.disk, old(ctx.ino), ctx.ino.(size := ctx.newSize), n,
                     ptrs, oc, ob, exact);
    }
  }

  /** A pointer nobody allocated cannot be owned while every counter is exact. */
  lemma StrayPointer(g: Geometry, eb: seq<EraseBlock>, d: seq<byte>, ino0: Inode, ino: Inode, n: nat, ptrs: seq<nat>,
                     oc: set<nat>, ob: set<nat>)
    requires g.Valid() && |eb| == g.blocks && Owned(g, eb, Clin, ptrs, oc, ob, true) && |ptrs| == n > 1
    requires ptrs[n - 1] == 0
    requires n <= |ino.data| / 4 && Front(ino, n)[n - 1] != 0 && Front(ino, n) == ptrs[n - 1 := Front(ino, n)[n - 1]]
    requires ino.Type() == Clin && n == Units(ino.size, g.c)
    ensures !Wrote(g, eb, d, ino0, ino, ino.size, oc, ob, true)
  {
    var p := Front(ino, n);
    var x := p[n - 1];
    if x in Nz(ptrs) {
      var j :| 0 <= j < n && ptrs[j] != 0 && ptrs[j] == x;
      assert p[j] == p[n - 1] && !Distinct(p);
    } else {
      NzUpdate(ptrs, n - 1, x);
      assert Nz(p) == Nz(ptrs) + {x};
      if x !in oc {
        LiveOneMore(g, eb, oc + Nz(ptrs), x, true);
        assert oc + Nz(p) == oc + Nz(ptrs) + {x};
      }
    }
    assert !Owned(g, eb, Clin, p, oc, ob, true);
  }

  /** Cutting a pointer table off cuts the file off. */
  lemma ShrunkMeans(g: Geometry, d: seq<byte>, ino: Inode, len: nat)
    requires g.Valid() && Readable(g, d, ino) && ino.Type() != Emb && len <= ino.size
    requires TypeFromSize(g, len) == ino.Type()
    ensures Readable(g, d, ino.(size := len))
    ensures Ptrs(g, ino.(size := len)) <= Ptrs(g, ino)
    ensures Content(g, d, ino.(size := len)) == Resized(Content(g, d, ino), len)
  {
    var s := UnitSize(g, ino.Type());
    Sizes(g);
    UnitsOk(g, ino);
    UnitsOk(g, ino.(size := len));
    UnitsMono(len, ino.size, s);
    PrefixBytes(d, s, Ptrs(g, ino.(size := len)), Ptrs(g, ino), len, ino.size);
  }

  lemma PrefixBytes(d: seq<byte>, s: nat, a: seq<nat>, b: seq<nat>, len: nat, size: nat)
    requires s > 0 && a <= b && PtrsIn(d, s, b) && len <= |a| * s && len <= size <= |b| * s
    ensures PtrsIn(d, s, a) && TableBytes(d, s, a, len) == TableBytes(d, s, b, size)[..len]
  {
    hide ByteAt;
    forall i: nat | i < len ensures TableBytes(d, s, a, len)[i] == TableBytes(d, s, b, size)[i] {
      DivBelow(i, |a|, s);
      DivBelow(i, |b|, s);
      SameByte(d, s, a, b, i);
    }
  }

  lemma SameByte(d: seq<byte>, s: nat, a: seq<nat>, b: seq<nat>, i: nat)
    requires s > 0 && a <= b && PtrsIn(d, s, b) && i < |a| * s && i < |b| * s
    ensures PtrsIn(d, s, a) && ByteAt(d, s, a, i) == ByteAt(d, s, b, i)
  {
    DivBelow(i, |a|, s);
  }

  /** A step that touches some of the blocks it may touch. */
  lemma StepOfMore(g: Geometry, eb0: seq<EraseBlock>, d0: seq<byte>, eb1: seq<EraseBlock>, d1: seq<byte>,
                   own: set<nat>, more: set<nat>)
    requires g.Valid() && DataStep(g, eb0, d0, eb1, d1, own) && own <= more
    ensures DataStep(g, eb0, d0, eb1, d1, more)
  {
  }

  /** Growing without rewriting: new units are holes, the rest of the last one shows what it holds. */
  lemma ExtendedMeans(g: Geometry, d: seq<byte>, ino: Inode, ino': Inode, len: nat)
    requires g.Valid() && Readable(g, d, ino) && ino.Type() != Emb && ino.size <= len <= g.MaxEbin()
    requires TypeFromSize(g, len) == ino.Type() == ino'.Type() && ino'.size == len && |ino'.data| == g.MaxEmb()
    requires UnitSize(g, ino.Type()) > 0 && Units(len, UnitSize(g, ino.Type())) <= |ino'.data| / 4
    requires |Ptrs(g, ino)| <= Units(len, UnitSize(g, ino.Type()))
    requires Front(ino', Units(len, UnitSize(g, ino.Type())))
          == Extended(Ptrs(g, ino), Units(len, UnitSize(g, ino.Type())))
    ensures Readable(g, d, ino') && Ptrs(g, ino') == Extended(Ptrs(g, ino), Units(len, UnitSize(g, ino.Type())))
    ensures Content(g, d, ino') == Resized(Content(g, d, ino), len) <==> GrowClean(g, d, ino, len)
  {
    var s := UnitSize(g, ino.Type());
    var n := Units(len, s);
    Sizes(g);
    UnitsOk(g, ino);
    UnitsOk(g, ino');
    var p0, p := Ptrs(g, ino), Ptrs(g, ino');
    ExtendedBytes(d, s, p0, n, ino.size);
    var a, b := Content(g, d, ino'), Resized(Content(g, d, ino), len);
    forall i: nat | i < len
      ensures a[i] == if i < |p0| * s then ByteAt(d, s, p0, i) else 0
      ensures i < ino.size ==> a[i] == b[i]
    {
      DivBelow(i, |p0|, s);
      DivBelow(i, n, s);
    }
    if a == b {
      forall pos: nat | ino.size <= pos < len && pos < |p0| * s
        ensures ByteAt(d, s, p0, pos) == 0
      {
        assert a[pos] == b[pos];
      }
    }
    if GapClean(s, d, p0, ino.size, len) { assert a == b; }
  }

  /** truncate within an indirect layout. */
  method TruncSame(fs: FsContext, ctx: WriteContext, ghost oc: set<nat>, ghost ob: set<nat>, ghost exact: bool)
    returns (rc: Rc)
    requires CoreInv(fs) && FileOk(fs.g, fs.eb, ctx.ino, oc, ob, exact) && Readable(fs.g, fs.disk, ctx.ino)
    requires ctx.oldSize == ctx.ino.size
    requires ctx.oldType == ctx.newType == ctx.ino.Type() == TypeFromSize(fs.g, ctx.newSize)
    requires ctx.newType != Emb && ctx.newSize <= fs.g.MaxEbin() && ctx.newInd == IndSize(fs.g, ctx.newSize)
    modifies fs`eb, ctx`ino
    ensures rc == Ok(0) && CoreInv(fs)
    ensures DataStep(fs.g, old(fs.eb), fs.disk, fs.eb, fs.disk, OwnBlocks(fs.g, old(ctx.ino)))
    ensures LiveOk(fs.g, fs.eb, oc, false) && EbinLive(fs.eb, ob)
    ensures Wrote(fs.g, fs.eb, fs.disk, old(ctx.ino), ctx.ino.(size := ctx.newSize), ctx.newSize, oc, ob, exact)
    ensures (Content(fs.g, fs.disk, ctx.ino.(size := ctx.newSize))
              == Resized(Content(fs.g, fs.disk, old(ctx.ino)), ctx.newSize))
            <==> (ctx.newSize >= ctx.oldSize ==> GrowClean(fs.g, fs.disk, old(ctx.ino), ctx.newSize))
  {
    hide SumInv, EbInv, Kept, SameInodeBlocks, LiveOk, EbinLive, DataStep, GrowClean, Content, Resized;
    ghost var ino0 := ctx.ino;
    SizeFits(fs.g, ctx.newSize);
    SizeFits(fs.g, ctx.oldSize);
    CoreSizes(fs);
    UnitsOk(fs.g, ctx.ino);
    var n0, n := Units(ctx.oldSize, ctx.newInd), Units(ctx.newSize, ctx.newInd);
    if ctx.newSize < ctx.oldSize {
      UnitsMono(ctx.newSize, ctx.oldSize, ctx.newInd);
      ghost var eb0 := fs.eb;
      ShrinkInd(fs, ctx, n0, n, oc, ob, exact);
      StepOfMore(fs.g, eb0, fs.disk, fs.eb, fs.disk,
                 if ctx.oldType == Ebin then Nz(Front(ctx.ino, n0)) - Nz(Front(ctx.ino, n)) else {},
                     OwnBlocks(fs.g, ino0));
      ShrunkMeans(fs.g, fs.disk, ino0, ctx.newSize);
    } else {
      UnitsMono(ctx.oldSize, ctx.newSize, ctx.newInd);
      StepReflOwn(fs.g, fs.eb, fs.disk, OwnBlocks(fs.g, ino0));
      ExtendInd(fs, ctx, n0, n, oc, ob, exact);
      assert Front(ctx.ino, n) == Extended(Ptrs(fs.g, ino0), n);
      ExtendedMeans(fs.g, fs.disk, ino0, ctx.ino.(size := ctx.newSize), ctx.newSize);
    }
    OwnedRest(fs.g, fs.eb, ctx.newType, Ptrs(fs.g, ctx.ino.(size := ctx.newSize)), oc, ob, exact);
    rc := Ok(0);
  }

  /** truncate back into the inode. */
  method TruncToEmb(fs: FsContext, ctx: WriteContext, ghost oc: set<nat>, ghost ob: set<nat>, ghost exact: bool)
    returns (rc: Rc)
    requires CoreInv(fs) && FileOk(fs.g, fs.eb, ctx.ino, oc, ob, exact) && Readable(fs.g, fs.disk, ctx.ino)
    requires ctx.oldSize == ctx.ino.size && ctx.oldType == ctx.ino.Type() != Emb
    requires ctx.oldInd == IndSize(fs.g, ctx.oldSize)
    requires ctx.newType == Emb == TypeFromSize(fs.g, ctx.newSize) && ctx.newSize <= ctx.oldSize
    modifies fs`eb, fs`buf, ctx`ino
    ensures rc == Ok(0) && CoreInv(fs)
    ensures DataStep(fs.g, old(fs.eb), fs.disk, fs.eb, fs.disk, OwnBlocks(fs.g, old(ctx.ino)))
    ensures LiveOk(fs.g, fs.eb, oc, false) && EbinLive(fs.eb, ob)
    ensures Wrote(fs.g, fs.eb, fs.disk, old(ctx.ino), ctx.ino.(size := ctx.newSize), ctx.newSize, oc, ob, exact)
    ensures Content(fs.g, fs.disk, ctx.ino.(size := ctx.newSize))
          == Resized(Content(fs.g, fs.disk, old(ctx.ino)), ctx.newSize)
  {
    hide SumInv, EbInv, Kept, SameInodeBlocks, LiveOk, EbinLive, DataStep;
    SizeFits(fs.g, ctx.newSize);
    SizeFits(fs.g, ctx.oldSize);
    CoreSizes(fs);
    UnitsOk(fs.g, ctx.ino);
    TruncInd2Emb(fs, ctx, Units(ctx.oldSize, ctx.oldInd), oc, ob, exact);
    EmbOwned(fs.g, fs.eb, oc, ob, exact);
    LiveSubset(fs.g, fs.eb, oc, oc, exact);
    rc := Ok(0);
  }

  /** truncate that makes a cluster-indirect file large enough for whole erase blocks. */
  method TruncGrow(fs: FsContext, ctx: WriteContext, ghost oc: set<nat>, ghost ob: set<nat>, ghost exact: bool)
    returns (rc: Rc)
    requires CoreInv(fs) && FileOk(fs.g, fs.eb, ctx.ino, oc, ob, exact) && Readable(fs.g, fs.disk, ctx.ino)
    requires ctx.oldSize == ctx.ino.size <= ctx.newSize <= fs.g.MaxEbin() && ctx.oldType == Clin == ctx.ino.Type()
    requires ctx.newInd == IndSize(fs.g, ctx.newSize) && ctx.newType == TypeFromSize(fs.g, ctx.newSize) == Ebin
    modifies fs`eb, fs`gc, fs`sums, fs`disk, fs`writer, fs`buf, ctx`ino
    ensures !rc.Astray? ==> CoreInv(fs) && DataStep(fs.g, old(fs.eb), old(fs.disk), fs.eb, fs.disk, {})
    ensures !rc.Stalled? && !rc.Astray? ==> LiveOk(fs.g, fs.eb, oc, false) && EbinLive(fs.eb, ob)
    ensures rc.NoSpc? || rc.Stalled? || rc.Astray? || rc == Ok(0)
    ensures rc.Astray? <==> GoesAstray(fs.g, old(fs.eb), old(fs.disk), old(ctx.ino), ctx.newSize)
    ensures rc.Astray? ==> fs.disk == old(fs.disk) && fs.eb == Strayed(old(fs.eb), StrayPtrs(fs.g, old(ctx.ino)))
    ensures rc.NoSpc? ==> OutOfSpace(fs.g, fs.eb, old(ctx.ino), ctx.newSize)
    ensures rc.Ok? ==> forall w :: !ZeroWindowAt(Content(fs.g, old(fs.disk), old(ctx.ino)), fs.g.E(), w)
    ensures rc.Stalled? ==> exists w :: ZeroWindowAt(Content(fs.g, old(fs.disk), old(ctx.ino)), fs.g.E(), w)
    ensures rc.Ok? ==>
      && Wrote(fs.g, fs.eb, fs.disk, old(ctx.ino), ctx.ino.(size := ctx.newSize), ctx.newSize, oc, ob, exact)
      && Content(fs.g, fs.disk, ctx.ino.(size := ctx.newSize))
          == Resized(Content(fs.g, old(fs.disk), old(ctx.ino)), ctx.newSize)
  {
    hide SumInv, EbInv, Kept, SameInodeBlocks, LiveOk, EbinLive, DataStep, SpellsBelow, ZeroWindowAt, TableBytes,
      NoRoom, FewEmpty, UndoClean, Strayed, StrayPtrs;
    ghost var ino0, d0 := ctx.ino, fs.disk;
    SizeFits(fs.g, ctx.newSize);
    CoreSizes(fs);
    UnitsOk(fs.g, ctx.ino);
    var n := Units(ctx.newSize, fs.g.E());
    ghost var ptrs;
    rc, ptrs := TruncClin2Ebin(fs, ctx, Units(ctx.oldSize, fs.g.c), n, oc, ob, exact);
    ghost var bytes := Content(fs.g, d0, ino0);
    if rc.NoSpc? { OwnedRest(fs.g, fs.eb, Clin, Ptrs(fs.g, ino0), oc, ob, exact); }
    if !rc.Ok? { return; }
    OwnedRest(fs.g, fs.eb, Ebin, ptrs, oc, ob, exact);
    CoreSizes(fs);
    SpelledFile(fs.g, fs.disk, ctx.ino.(size := ctx.newSize), n, Splice(bytes, [], ctx.newSize));
    assert Resized(bytes, ctx.newSize) == Splice(bytes, [], ctx.newSize);
    rc := Ok(0);
  }

  /** What trunc_ind would touch when an erase-block file shrinks to cluster size reaches behind the pointer table. */
  lemma EbinToClinLeavesTable(g: Geometry, ino: Inode, len: nat)
    requires g.Valid() && LayoutOk(g, ino) && ino.Type() == Ebin && TypeFromSize(g, len) == Clin
    ensures g.c > 0 && len > 0
    ensures IndFromOffset(g.c, len - 1) + 1 <= g.MaxPtrs() <= IndFromOffset(g.c, ino.size - 1)
    ensures |Table(ino.data)| == g.MaxPtrs()
  {
    DivBelow(ino.size - 1, g.MaxPtrs(), g.c);
    DivBelow(len - 1, g.MaxPtrs(), g.c);
  }

  /** What a truncate that returned success leaves behind. */
  ghost predicate Truncated(g: Geometry, eb: seq<EraseBlock>, d0: seq<byte>, d: seq<byte>, ino0: Inode, ino: Inode,
                            len: nat, oc: set<nat>, ob: set<nat>, exact: bool)
    requires g.Valid() && Readable(g, d0, ino0) && len <= g.MaxEbin()
  {
    if ino0.Type() == Emb && TypeFromSize(g, len) != Emb then
      && LayoutOk(g, ino) && SameIdentity(ino, ino0) && ino.size == len
      && (LastPtrClear(g, ino0, len) ==>
            Wrote(g, eb, d, ino0, ino, len, oc, ob, exact) && Content(g, d, ino) == Resized(Content(g, d0, ino0), len))
      && (exact && TypeFromSize(g, len) == Clin && !LastPtrClear(g, ino0, len) ==>
            !Wrote(g, eb, d, ino0, ino, len, oc, ob, exact))
    else
      && Wrote(g, eb, d, ino0, ino, len, oc, ob, exact)
      && (Content(g, d, ino) == Resized(Content(g, d0, ino0), len)
          <==> (len >= ino0.size ==> GrowClean(g, d0, ino0, len)))
  }

  /** truncate, up to the update of i_size. */
  method TruncData(fs: FsContext, ino: Inode, len: nat, ghost oc: set<nat>, ghost ob: set<nat>, ghost exact: bool)
    returns (rc: Rc, ino': Inode)
    requires CoreInv(fs) && FileOk(fs.g, fs.eb, ino, oc, ob, exact)
    modifies fs`eb, fs`gc, fs`sums, fs`disk, fs`writer, fs`buf
    ensures !rc.Astray? ==>
      CoreInv(fs) && DataStep(fs.g, old(fs.eb), old(fs.disk), fs.eb, fs.disk, OwnBlocks(fs.g, ino))
    ensures Readable(fs.g, old(fs.disk), ino)
    ensures !rc.Stalled? && !rc.Astray? ==> LiveOk(fs.g, fs.eb, oc, false) && EbinLive(fs.eb, ob)
    ensures rc.FBig? <==> len > fs.g.MaxEbin()
    ensures rc.OutOfTable? <==> ino.Type() == Ebin && TypeFromSize(fs.g, len) == Clin
    ensures rc.FBig? || rc.OutOfTable? || len == ino.size ==>
      ino' == ino && fs.eb == old(fs.eb) && fs.disk == old(fs.disk)
    ensures len == ino.size && !rc.FBig? && !rc.OutOfTable? ==> rc == Ok(0)
    ensures rc.FBig? || rc.NoSpc? || rc.Stalled? || rc.OutOfTable? || rc.Astray? || rc == Ok(0)
    ensures rc.Astray? <==> !rc.FBig? && GoesAstray(fs.g, old(fs.eb), old(fs.disk), ino, len)
    ensures rc.Astray? ==> fs.disk == old(fs.disk) && fs.eb == Strayed(old(fs.eb), StrayPtrs(fs.g, ino))
    ensures rc.NoSpc? ==> OutOfSpace(fs.g, fs.eb, ino, len)
    ensures rc.Stalled? ==> ino.Type() == Clin && len > fs.g.MaxClin()
                            && exists w :: ZeroWindowAt(Content(fs.g, old(fs.disk), ino), fs.g.E(), w)
    ensures rc.Ok? && ino.Type() == Clin && len > fs.g.MaxClin() ==>
              forall w :: !ZeroWindowAt(Content(fs.g, old(fs.disk), ino), fs.g.E(), w)
    ensures rc.Ok? && len != ino.size ==> Truncated(fs.g, fs.eb, old(fs.disk), fs.disk, ino, ino', len, oc, ob, exact)
    ensures rc.Ok? && ino.Type() == Emb && TypeFromSize(fs.g, len) == Ebin && !LastPtrClear(fs.g, ino, len) ==>
      (Wrote(fs.g, fs.eb, fs.disk, ino, ino', len, oc, ob, exact)
        && Content(fs.g, fs.disk, ino') == Resized(Content(fs.g, old(fs.disk), ino), len)
       <==> StrayZeros(fs.g, old(fs.eb), old(fs.disk), ino, len, ob))
    ensures rc.Ok? && ino.Type() == Emb && TypeFromSize(fs.g, len) == Clin && !LastPtrClear(fs.g, ino, len) ==>
      (Wrote(fs.g, fs.eb, fs.disk, ino, ino', len, oc, ob, exact)
        && Content(fs.g, fs.disk, ino') == Resized(Content(fs.g, old(fs.disk), ino), len)
       <==> !exact && StrayCounted(fs.g, old(fs.eb), old(fs.disk), ino, len, oc))
  {
    hide SumInv, EbInv, Kept, SameInodeBlocks, LiveOk, EbinLive, ZeroWindowAt, Splice, TableBytes, Owned, Resized,
      GapClean, OutOfSpace, StrayZeros, StrayCounted, UndoClean, Strayed, StrayPtrs;
    CoreSizes(fs);
    FileReadable(fs.g, fs.eb, fs.disk, ino, oc, ob, exact);
    StepReflOwn(fs.g, fs.eb, fs.disk, OwnBlocks(fs.g, ino));
    OwnedRest(fs.g, fs.eb, ino.Type(), Ptrs(fs.g, ino), oc, ob, exact);
    ino' := ino;
    if len > fs.g.MaxEbin() { return FBig, ino; }
    if len == ino.size { return Ok(0), ino; }
    SizeFits(fs.g, len);
    var ctx := new WriteContext(fs.g, ino, [], len, len);
    if ctx.oldType == Emb {
      rc := TruncFromEmb(fs, ctx, oc, ob, exact);
    } else if ctx.newType == Emb {
      rc := TruncToEmb(fs, ctx, oc, ob, exact);
    } else if ctx.oldType == Clin && ctx.newType == Ebin {
      rc := TruncGrow(fs, ctx, oc, ob, exact);
    } else if ctx.oldType == Ebin && ctx.newType == Clin {
      EbinToClinLeavesTable(fs.g, ino, len);
      return OutOfTable, ino;
    } else {
      rc := TruncSame(fs, ctx, oc, ob, exact);
    }
    ino' := if rc.Ok? then ctx.ino.(size := len) else if rc.Astray? then ino else ctx.ino;
  }
}
