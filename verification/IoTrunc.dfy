/** io.cpp and inode.cpp: invalidating pointers, shrinking, extending and converting indirect data. */
module IoTrunc {
  import opened Basics
  import opened Layout
  import opened EraseBlk
  import opened Summaries
  import opened Allocator
  import opened FileData
  import opened IoUnits
  import opened IoRead
  import opened IoEmb

  // ---------------------------------------------------------- invalidate_ind_ptr

  lemma NzSplit(ptrs: seq<nat>, i: nat)
    requires i < |ptrs| && Distinct(ptrs)
    ensures Nz(ptrs[..i + 1]) == if ptrs[i] == 0 then Nz(ptrs[..i]) else Nz(ptrs[..i]) + {ptrs[i]}
    ensures ptrs[i] != 0 ==> ptrs[i] in Nz(ptrs) && ptrs[i] !in Nz(ptrs[..i])
  {
    assert ptrs[..i + 1] == ptrs[..i] + [ptrs[i]];
    NzConcat(ptrs[..i], [ptrs[i]]);
    if ptrs[i] != 0 { assert ptrs[i] in Nz(ptrs); }
  }

  lemma NzConcat(a: seq<nat>, b: seq<nat>)
    ensures Nz(a + b) == Nz(a) + Nz(b)
  {
    forall x ensures x in Nz(a + b) <==> x in Nz(a) + Nz(b) {
      if x in Nz(a) { var j :| 0 <= j < |a| && a[j] != 0 && a[j] == x; assert (a + b)[j] == x; }
      if x in Nz(b) { var j :| 0 <= j < |b| && b[j] != 0 && b[j] == x; assert (a + b)[|a| + j] == x; }
    }
  }

  /** invalidate_ind_ptr on cluster pointers: every one of them is taken off its block's counter. */
  method InvalidateClin(fs: FsContext, ind: seq<nat>, ghost live: set<nat>, ghost blocks: set<nat>, ghost exact: bool)
    requires DataInv(fs, live, blocks, exact) && Distinct(ind) && Nz(ind) <= live
    modifies fs`eb
    ensures DataInv(fs, live - Nz(ind), blocks, exact)
    ensures DataStep(fs.g, old(fs.eb), fs.disk, fs.eb, fs.disk, {})
  {
    hide SumInv, EbInv, LiveOk, EbinLive, DataStep, GcInv;
    ghost var eb0 := fs.eb;
    CoreSizes(fs);
    StepRefl(fs.g, fs.eb, fs.disk);
    assert live - Nz(ind[..0]) == live;
    var i := 0;
    while i < |ind|
      invariant 0 <= i <= |ind|
      invariant DataInv(fs, live - Nz(ind[..i]), blocks, exact)
      invariant DataStep(fs.g, eb0, fs.disk, fs.eb, fs.disk, {})
    {
      NzSplit(ind, i);
      if ind[i] != 0 {
        ghost var eb1 := fs.eb;
        EbDecCvalid(fs, ind[i], live - Nz(ind[..i]), blocks, exact);
        DataTrans(fs.g, eb0, fs.disk, eb1, fs.disk, fs.eb, fs.disk, {}, {});
        assert live - Nz(ind[..i + 1]) == live - Nz(ind[..i]) - {ind[i]};
      }
      i := i + 1;
    }
    assert ind[..i] == ind;
  }

  lemma FreeStep(g: Geometry, eb: seq<EraseBlock>, d: seq<byte>, sums: SummaryCache, writer: seq<seq<nat>>,
                 live: set<nat>, blocks: set<nat>, exact: bool, e: nat, own: set<nat>)
    requires g.Valid() && EbInv(g, eb) && SumInv(g, eb, d, sums, writer) && LiveOk(g, eb, live, exact)
    requires EbinLive(eb, blocks)
    requires e in blocks && e in own
    ensures e < |eb|
    ensures
      var eb' := eb[e := eb[e].(etype := Empty)];
      && EbInv(g, eb') && SumInv(g, eb', d, sums, writer)
      && LiveOk(g, eb', live, exact) && EbinLive(eb', blocks - {e})
      && DataStep(g, eb, d, eb', d, own)
      && CountEmpty(eb', |eb'|) <= CountEmpty(eb, |eb|) + 1
  {
    FreeEbin(g, eb, blocks, e, live, exact);
    var eb' := eb[e := eb[e].(etype := Empty)];
    assert Kept(g, eb, d, eb', d, {e});
    SumKept(g, eb, d, eb', d, {e}, sums, writer);
  }

  /** invalidate_ind_ptr on erase-block pointers: the blocks become empty at once. */
  method InvalidateEbin(fs: FsContext, ind: seq<nat>, ghost live: set<nat>, ghost blocks: set<nat>, ghost exact: bool)
    requires DataInv(fs, live, blocks, exact) && Distinct(ind) && Nz(ind) <= blocks
    modifies fs`eb
    ensures DataInv(fs, live, blocks - Nz(ind), exact)
    ensures DataStep(fs.g, old(fs.eb), fs.disk, fs.eb, fs.disk, Nz(ind))
    ensures CountEmpty(fs.eb, |fs.eb|) <= CountEmpty(old(fs.eb), |old(fs.eb)|) + |ind|
  {
    hide SumInv, EbInv, LiveOk, EbinLive, DataStep, GcInv, CountEmpty;
    ghost var eb0 := fs.eb;
    CoreSizes(fs);
    StepReflOwn(fs.g, fs.eb, fs.disk, Nz(ind));
    assert blocks - Nz(ind[..0]) == blocks;
    var i := 0;
    while i < |ind|
      invariant 0 <= i <= |ind|
      invariant DataInv(fs, live, blocks - Nz(ind[..i]), exact)
      invariant DataStep(fs.g, eb0, fs.disk, fs.eb, fs.disk, Nz(ind))
      invariant CountEmpty(fs.eb, |fs.eb|) <= CountEmpty(eb0, |eb0|) + i
    {
      NzSplit(ind, i);
      if ind[i] != 0 {
        ghost var eb1 := fs.eb;
        FreeStep(fs.g, fs.eb, fs.disk, fs.sums, fs.writer, live, blocks - Nz(ind[..i]), exact, ind[i], Nz(ind));
        fs.eb := fs.eb[ind[i] := fs.eb[ind[i]].(etype := Empty)];
        DataTrans(fs.g, eb0, fs.disk, eb1, fs.disk, fs.eb, fs.disk, Nz(ind), Nz(ind));
        assert blocks - Nz(ind[..i + 1]) == blocks - Nz(ind[..i]) - {ind[i]};
      }
      i := i + 1;
    }
    assert ind[..i] == ind;
  }

  lemma StepReflOwn(g: Geometry, eb: seq<EraseBlock>, d: seq<byte>, own: set<nat>)
    requires g.Valid() && |eb| == g.blocks && |d| == g.DeviceSize()
    ensures DataStep(g, eb, d, eb, d, own)
  {
  }

  // ---------------------------------------------------------- trunc_ind

  /** The entries a pointer table gets when a file of the same layout grows: holes. */
  lemma OwnedExtend(g: Geometry, eb: seq<EraseBlock>, t: DataType, a: seq<nat>, b: seq<nat>,
                    oc: set<nat>, ob: set<nat>, exact: bool)
    requires g.k > 0 && Owned(g, eb, t, a, oc, ob, exact) && a <= b
    requires forall j | |a| <= j < |b| :: b[j] == 0
    ensures Owned(g, eb, t, b, oc, ob, exact)
  {
    NzExtend(a, b);
  }

  lemma NzExtend(a: seq<nat>, b: seq<nat>)
    requires a <= b && forall j | |a| <= j < |b| :: b[j] == 0
    ensures Nz(b) == Nz(a)
    ensures Distinct(a) ==> Distinct(b)
  {
    forall x ensures x in Nz(a) <==> x in Nz(b) {
      if x in Nz(a) { var j :| 0 <= j < |a| && a[j] != 0 && a[j] == x; assert b[j] == x; }
      if x in Nz(b) { var j :| 0 <= j < |b| && b[j] != 0 && b[j] == x; assert a[j] == x; }
    }
  }

  /** trunc_ind when the file grows: new entries become holes, and nothing is rewritten. */
  method ExtendInd(fs: FsContext, ctx: WriteContext, n0: nat, n: nat,
                   ghost oc: set<nat>, ghost ob: set<nat>, ghost exact: bool)
    requires CoreInv(fs) && ctx.newInd > 0 && 0 < ctx.oldSize <= ctx.newSize
    requires n0 == Units(ctx.oldSize, ctx.newInd) && n == Units(ctx.newSize, ctx.newInd)
    requires n0 <= n <= |ctx.ino.data| / 4
    requires Owned(fs.g, fs.eb, ctx.newType, Front(ctx.ino, n0), oc, ob, exact)
    modifies ctx`ino
    ensures |ctx.ino.data| == |old(ctx.ino.data)| && ctx.ino == old(ctx.ino).(data := ctx.ino.data)
    ensures Owned(fs.g, fs.eb, ctx.newType, Front(ctx.ino, n), oc, ob, exact)
    ensures forall j | 0 <= j < n :: Front(ctx.ino, n)[j] == if j < n0 then Front(old(ctx.ino), n0)[j] else 0
  {
    LastOfSize(ctx.oldSize, ctx.newInd);
    LastOfSize(ctx.newSize, ctx.newInd);
    var indFirst := IndFromOffset(ctx.newInd, ctx.oldSize - 1);
    var indLast := IndFromOffset(ctx.newInd, ctx.newSize - 1);
    ZeroPtrs(ctx, indFirst + 1, indLast + 1);
    OwnedExtend(fs.g, fs.eb, ctx.newType, Front(old(ctx.ino), n0), Front(ctx.ino, n), oc, ob, exact);
  }

  lemma NzParts(a: seq<nat>, m: nat)
    requires m <= |a| && Distinct(a)
    ensures Nz(a) == Nz(a[..m]) + Nz(a[m..]) && Nz(a[..m]) !! Nz(a[m..])
    ensures Distinct(a[..m]) && Distinct(a[m..])
  {
    assert a == a[..m] + a[m..];
    NzConcat(a[..m], a[m..]);
  }

  /** invalidate_ind_ptr on the tail of a file's pointers: the file keeps the ones in front. */
  method InvalidateTail(fs: FsContext, t: DataType, ptrs: seq<nat>, m: nat,
                        ghost oc: set<nat>, ghost ob: set<nat>, ghost exact: bool)
    requires CoreInv(fs) && (t == Clin || t == Ebin) && m <= |ptrs|
    requires Owned(fs.g, fs.eb, t, ptrs, oc, ob, exact)
    modifies fs`eb
    ensures CoreInv(fs) && Owned(fs.g, fs.eb, t, ptrs[..m], oc, ob, exact)
    ensures DataStep(fs.g, old(fs.eb), fs.disk, fs.eb, fs.disk, if t == Ebin then Nz(ptrs) - Nz(ptrs[..m]) else {})
  {
    NzParts(ptrs, m);
    if t == Clin {
      InvalidateClin(fs, ptrs[m..], oc + Nz(ptrs), ob, exact);
      assert oc + Nz(ptrs) - Nz(ptrs[m..]) == oc + Nz(ptrs[..m]);
    } else {
      InvalidateEbin(fs, ptrs[m..], oc, ob + Nz(ptrs), exact);
      assert ob + Nz(ptrs) - Nz(ptrs[m..]) == ob + Nz(ptrs[..m]);
      assert Nz(ptrs) - Nz(ptrs[..m]) == Nz(ptrs[m..]);
    }
  }

  /** trunc_ind when the file shrinks within its layout. */
  method ShrinkInd(fs: FsContext, ctx: WriteContext, n0: nat, n: nat,
                   ghost oc: set<nat>, ghost ob: set<nat>, ghost exact: bool)
    requires CoreInv(fs) && ctx.newInd > 0 && 0 < ctx.newSize <= ctx.oldSize
    requires (ctx.oldType == Clin || ctx.oldType == Ebin)
    requires n0 == Units(ctx.oldSize, ctx.newInd) && n == Units(ctx.newSize, ctx.newInd)
    requires n <= n0 <= |ctx.ino.data| / 4
    requires Owned(fs.g, fs.eb, ctx.oldType, Front(ctx.ino, n0), oc, ob, exact)
    modifies fs`eb
    ensures CoreInv(fs) && Owned(fs.g, fs.eb, ctx.oldType, Front(ctx.ino, n), oc, ob, exact)
    ensures DataStep(fs.g, old(fs.eb), fs.disk, fs.eb, fs.disk,
                     if ctx.oldType == Ebin then Nz(Front(ctx.ino, n0)) - Nz(Front(ctx.ino, n)) else {})
  {
    hide SumInv, EbInv, DataStep, GcInv, Owned;
    LastOfSize(ctx.oldSize, ctx.newInd);
    LastOfSize(ctx.newSize, ctx.newInd);
    hide Units, IndFromOffset;
    var indFirst := IndFromOffset(ctx.newInd, ctx.newSize - 1);
    var indLast := IndFromOffset(ctx.newInd, ctx.oldSize - 1);
    assert Front(ctx.ino, n0)[..n] == Front(ctx.ino, n);
    InvalidateTail(fs, ctx.oldType, Table(ctx.ino.data)[..indLast + 1], indFirst + 1, oc, ob, exact);
  }

  // ---------------------------------------------------------- trunc_ind2emb

  /** Shrinking back into the inode: the first bytes move in, every pointer is invalidated. */
  method TruncInd2Emb(fs: FsContext, ctx: WriteContext, n0: nat,
                      ghost oc: set<nat>, ghost ob: set<nat>, ghost exact: bool)
    requires CoreInv(fs) && (ctx.oldType == Clin || ctx.oldType == Ebin) && ctx.newType == Emb
    requires ctx.oldInd == UnitSize(fs.g, ctx.oldType) && ctx.ino.Type() == ctx.oldType
    requires 0 < ctx.oldSize == ctx.ino.size && ctx.newSize <= ctx.oldSize && ctx.newSize <= |ctx.ino.data|
    requires |ctx.ino.data| <= fs.g.c
    requires ctx.oldInd > 0 && n0 == Units(ctx.oldSize, ctx.oldInd) && n0 <= |ctx.ino.data| / 4
    requires Owned(fs.g, fs.eb, ctx.oldType, Front(ctx.ino, n0), oc, ob, exact)
    modifies fs`eb, fs`buf, ctx`ino
    ensures DataInv(fs, oc, ob, exact)
    ensures DataStep(fs.g, old(fs.eb), fs.disk, fs.eb, fs.disk, if ctx.oldType
        == Ebin then Nz(Front(old(ctx.ino), n0)) else {})
    ensures |ctx.ino.data| == |old(ctx.ino.data)| && ctx.ino.Type() == Emb
    ensures ctx.ino == old(ctx.ino).(data := ctx.ino.data, flags := ctx.ino.flags)
    ensures SameHigh(ctx.ino.flags, old(ctx.ino.flags))
    ensures PtrsIn(fs.disk, ctx.oldInd, Front(old(ctx.ino), n0))
    ensures ctx.ino.data[..ctx.newSize]
          == TableBytes(fs.disk, ctx.oldInd, Front(old(ctx.ino), n0), ctx.oldSize)[..ctx.newSize]
  {
    hide SumInv, EbInv, DataStep, GcInv;
    CoreSizes(fs);
    Sizes(fs.g);
    ghost var ptrs := Front(ctx.ino, n0);
    OwnedIn(fs.g, fs.eb, fs.disk, ctx.oldType, ptrs, oc, ob, exact);
    var out := ReadInd(fs, ctx.ino, ctx.newSize, 0, ctx.oldInd, n0);
    fs.buf := Patch(fs.buf, 0, out);
    LastOfSize(ctx.oldSize, ctx.oldInd);
    var indLast := IndFromOffset(ctx.oldInd, ctx.oldSize - 1);
    assert ptrs[..0] == [] && Nz([]) == {} && Nz(ptrs) - Nz(ptrs[..0]) == Nz(ptrs);
    InvalidateTail(fs, ctx.oldType, Table(ctx.ino.data)[..indLast + 1], 0, oc, ob, exact);
    assert oc + {} == oc && ob + {} == ob;
    ctx.ino := ctx.ino.(data := Patch(ctx.ino.data, 0, fs.buf[..ctx.newSize]),
                        flags := SwapType(ctx.ino.flags, ctx.oldType, ctx.newType));
  }
}
