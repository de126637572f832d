/** io.cpp: write_clin, the rewriting of cluster-indirect files. */
module IoClin {
  import opened Basics
  import opened Layout
  import opened EraseBlk
  import opened Summaries
  import opened Allocator
  import opened FileData
  import opened IoUnits
  // ---------------------------------------------------------- one step of write_clin

  /**
   * The unit buffer for bytes o .. o+left of a unit now behind pointer p: what is not written comes from
   * the old unit, except that behind the written bytes of a hole the buffer keeps what it held before.
   */
  ghost predicate ChunkBuf(s: nat, d: seq<byte>, p: nat, buf0: seq<byte>, data: seq<byte>, o: nat, left: nat,
                           buf1: seq<byte>) {
    && s <= |buf1| == |buf0| && p * s + s <= |d| && left <= |data|
    && forall x: nat | x < s ::
         buf1[x] == if o <= x < o + left then data[x - o]
                    else if x < o || p != 0 then UnitAt(d, s, p)[x]
                    else buf0[x]
  }

  /** The buffer one iteration of write_clin hands to write_ind; tells whether an old cluster was read. */
  method ClinFill(fs: FsContext, ctx: WriteContext, p: nat, o: nat, left: nat) returns (clOff: nat, overwrite: bool)
    requires 0 < left <= |ctx.buf| && o + left <= fs.g.c <= |fs.buf| && p * fs.g.c + fs.g.c <= |fs.disk|
    modifies fs`buf
    ensures ChunkBuf(fs.g.c, fs.disk, p, old(fs.buf), ctx.buf, o, left, fs.buf)
    ensures overwrite <==> left < fs.g.c && p != 0
    ensures overwrite ==> clOff == p * fs.g.c
  {
    clOff, overwrite := 0, false;
    if left < fs.g.c && p != 0 {
      clOff := p * fs.g.c;
      overwrite := true;
      fs.buf := Patch(fs.buf, 0, fs.disk[clOff .. clOff + fs.g.c]);
    } else {
      fs.buf := Patch(fs.buf, 0, Zeros(o));
    }
    fs.buf := Overlay(fs.buf, ctx.buf, o, left);
  }

  /** One iteration of write_clin: bytes o .. o+left of unit idx. */
  method ClinChunk(fs: FsContext, ctx: WriteContext, idx: nat, o: nat, left: nat, n: nat,
                   ghost ptrs: seq<nat>, ghost oc: set<nat>, ghost ob: set<nat>, ghost exact: bool)
    returns (rc: Rc, ghost id: nat)
    requires CoreInv(fs) && ctx.newType == Clin && ctx.newInd == fs.g.c && ctx.ino.no < U32
    requires idx < n <= |ctx.ino.data| / 4 && ptrs == Front(ctx.ino, n)
    requires Owned(fs.g, fs.eb, Clin, ptrs, oc, ob, exact)
    requires 0 < left <= |ctx.buf| && o + left <= fs.g.c
    requires exact && left == fs.g.c ==> ptrs[idx] == 0
    modifies fs`eb, fs`gc, fs`sums, fs`disk, fs`writer, fs`buf, ctx`ino
    ensures CoreInv(fs) && DataStep(fs.g, old(fs.eb), old(fs.disk), fs.eb, fs.disk, {})
    ensures |ctx.ino.data| == |old(ctx.ino.data)| && ctx.ino == old(ctx.ino).(data := ctx.ino.data)
    ensures rc.NoSpc? || rc.Ok?
    ensures rc.NoSpc? ==> ctx.ino == old(ctx.ino) && Owned(fs.g, fs.eb, Clin, ptrs, oc, ob, exact)
    ensures rc.NoSpc? ==> NoRoom(fs.g, fs.eb, ctx.newType, ctx.ino.IsDir())
    ensures rc.Ok? ==> Front(ctx.ino, n) == ptrs[idx := id] && Owned(fs.g, fs.eb, Clin, ptrs[idx := id], oc, ob, exact)
    ensures ChunkBuf(fs.g.c, old(fs.disk), ptrs[idx], old(fs.buf), ctx.buf, o, left, fs.buf)
    ensures rc.Ok? ==> UnitIs(fs.disk, fs.g.c, id, fs.buf[..fs.g.c])
  {
    hide SumInv, Kept, LiveOk, EbinLive, SameInodeBlocks, NoRoom;
    Sizes(fs.g);
    OwnedIn(fs.g, fs.eb, fs.disk, Clin, ptrs, oc, ob, exact);
    var p := Table(ctx.ino.data)[idx];
    var clOff, overwrite := ClinFill(fs, ctx, p, o, left);
    ghost var eb0, d0 := fs.eb, fs.disk;
    var ptr;
    rc, ptr := WriteInd(fs, ctx, fs.buf[..fs.g.c], oc + Nz(ptrs), ob, exact);
    id := ptr;
    if rc.NoSpc? { return; }
    ctx.ino := ctx.ino.(data := SetPtr(ctx.ino.data, idx, ptr));
    FrontSet(old(ctx.ino), n, idx, ptr);
    ghost var eb1, d1 := fs.eb, fs.disk;
    assert ptr == 0 ==> oc + Nz(ptrs) + {} == oc + Nz(ptrs);
    ClinRetire(fs, p, clOff, overwrite, ptrs, idx, ptr, oc, ob, exact);
    DataTrans(fs.g, eb0, d0, eb1, d1, fs.eb, fs.disk, {}, {});
  }

  /** The replaced cluster is invalidated if the iteration noticed that it replaces one. */
  method ClinRetire(fs: FsContext, p: nat, clOff: nat, overwrite: bool, ghost ptrs: seq<nat>, ghost idx: nat,
                    ghost id: nat, ghost oc: set<nat>, ghost ob: set<nat>, ghost exact: bool)
    requires DataInv(fs, oc + Nz(ptrs) + (if id == 0 then {} else {id}), ob, exact)
    requires idx < |ptrs| && p == ptrs[idx] && Distinct(ptrs) && Nz(ptrs) !! oc && (id == 0 || id !in oc + Nz(ptrs))
    requires overwrite ==> p != 0 && clOff == p * fs.g.c
    requires exact && !overwrite ==> p == 0
    modifies fs`eb
    ensures CoreInv(fs) && Owned(fs.g, fs.eb, Clin, ptrs[idx := id], oc, ob, exact)
    ensures DataStep(fs.g, old(fs.eb), fs.disk, fs.eb, fs.disk, {})
  {
    ghost var q: set<nat> := if id == 0 then {} else {id};
    ghost var live := oc + Nz(ptrs) + q;
    ZeroNotLive(fs.g, fs.eb, live, exact);
    if p != 0 { assert p in Nz(ptrs); }
    if overwrite {
      assert EbOf(fs.g, p) == clOff / fs.g.E();
      EbDecCvalid(fs, p, live, ob, exact);
      OwnedSwapClin(fs.g, fs.eb, ptrs, idx, id, oc, ob, exact);
    } else if p == 0 {
      assert live - {p} == live;
      OwnedSwapClin(fs.g, fs.eb, ptrs, idx, id, oc, ob, exact);
      StepRefl(fs.g, fs.eb, fs.disk);
    } else {
      LiveSubset(fs.g, fs.eb, live, live - {p}, exact);
      OwnedSwapClin(fs.g, fs.eb, ptrs, idx, id, oc, ob, false);
      StepRefl(fs.g, fs.eb, fs.disk);
    }
  }

  // ---------------------------------------------------------- write_clin

  /** Unit j after a write of `user` at `off`, where the unit was behind p0 and is now behind p1. */
  ghost predicate UnitSplice(s: nat, d0: seq<byte>, p0: nat, d1: seq<byte>, p1: nat, j: nat,
                             off: nat, user: seq<byte>, stale: seq<byte>) {
    && p0 * s + s <= |d0| && p1 * s + s <= |d1| && s <= |stale|
    && forall o: nat | o < s ::
         UnitAt(d1, s, p1)[o] == if off <= j * s + o < off + |user| then user[j * s + o - off]
                                 else if j * s + o < off || p0 != 0 then UnitAt(d0, s, p0)[o]
                                 else stale[o]
  }

  /** The units f .. idx-1 of a file have been rewritten; `stale` is the buffer the last of them started from. */
  ghost predicate Progress(s: nat, d0: seq<byte>, ptrs0: seq<nat>, d: seq<byte>, ptrs: seq<nat>, f: nat, idx: nat,
                           off: nat, user: seq<byte>, stale: seq<byte>) {
    && |ptrs| == |ptrs0| && f <= idx <= |ptrs|
    && (forall j | 0 <= j < |ptrs| && !(f <= j < idx) :: ptrs[j] == ptrs0[j])
    && (forall j: nat | f <= j < idx :: UnitSplice(s, d0, ptrs0[j], d, ptrs[j], j, off, user, stale))
  }

  /** Until the last one, every rewritten unit is filled to its end, so the stale buffer does not show. */
  lemma StaleUnseen(s: nat, d0: seq<byte>, p0: nat, d1: seq<byte>, p1: nat, j: nat,
                    off: nat, user: seq<byte>, stale: seq<byte>, stale': seq<byte>)
    requires UnitSplice(s, d0, p0, d1, p1, j, off, user, stale) && s <= |stale'|
    requires j * s + s <= off + |user|
    ensures UnitSplice(s, d0, p0, d1, p1, j, off, user, stale')
  {
  }

  /** One more unit has been rewritten. */
  lemma ProgressStep(s: nat, d0: seq<byte>, ptrs0: seq<nat>, d: seq<byte>, ptrs: seq<nat>, d': seq<byte>, id: nat,
                     f: nat, idx: nat, off: nat, user: seq<byte>, stale: seq<byte>,
                     buf: seq<byte>, buf': seq<byte>, done: nat, o: nat, left: nat)
    requires Progress(s, d0, ptrs0, d, ptrs, f, idx, off, user, stale) && idx < |ptrs|
    requires forall j: nat | f <= j < idx :: UnitIs(d', s, ptrs[j], UnitOrEmpty(d, s, ptrs[j]))
    requires done < |user| && idx * s + o == off + done && o < s && (done > 0 ==> o == 0)
    requires left == Min(|user| - done, s - o)
    requires ptrs[idx] * s + s <= |d| && ptrs0[idx] * s + s <= |d0|
    requires UnitAt(d, s, ptrs[idx]) == UnitAt(d0, s, ptrs0[idx])
    requires ChunkBuf(s, d, ptrs[idx], buf, user[done..], o, left, buf') && UnitIs(d', s, id, buf'[..s])
    ensures Progress(s, d0, ptrs0, d', ptrs[idx := id], f, idx + 1, off, user, buf)
  {
    forall j: nat | f <= j < idx
      ensures UnitSplice(s, d0, ptrs0[j], d', ptrs[j], j, off, user, buf)
    {
      assert UnitSplice(s, d0, ptrs0[j], d, ptrs[j], j, off, user, stale);
      assert UnitIs(d', s, ptrs[j], UnitOrEmpty(d, s, ptrs[j]));
      MulMono(j, idx, s);
      StaleUnseen(s, d0, ptrs0[j], d', ptrs[j], j, off, user, stale, buf);
    }
    assert UnitSplice(s, d0, ptrs0[idx], d', id, idx, off, user, buf);
  }

  ghost function UnitOrEmpty(d: seq<byte>, s: nat, p: nat): seq<byte> {
    if p * s + s <= |d| then UnitAt(d, s, p) else []
  }

  /** The unit buffer after units f .. idx-1: still the initial one, or the unit written last. */
  ghost predicate BufferIs(s: nat, d: seq<byte>, ptrs: seq<nat>, f: nat, idx: nat, buf0: seq<byte>, buf: seq<byte>) {
    && |buf| == |buf0| >= s && f <= idx <= |ptrs|
    && if idx == f then buf[..s] == buf0[..s] else UnitIs(d, s, ptrs[idx - 1], buf[..s])
  }

  /** `stale` is the unit buffer the rewriting of unit idx-1 started from. */
  ghost predicate StaleIs(s: nat, d: seq<byte>, ptrs: seq<nat>, f: nat, idx: nat, buf0: seq<byte>, stale: seq<byte>) {
    f < idx <= |ptrs| ==> BufferIs(s, d, ptrs, f, idx - 1, buf0, stale)
  }

  /** A write of n bytes at off covers unit j completely. */
  predicate Covers(s: nat, j: nat, off: nat, n: nat) { off <= j * s && j * s + s <= off + n }

  /** Where a write starts, before any unit has been rewritten. */
  lemma ProgressStart(s: nat, d: seq<byte>, ptrs: seq<nat>, off: nat, len: nat, user: seq<byte>, buf: seq<byte>)
    requires s > 0 && 0 < len && InUnits(s, off, len, |ptrs|) && s <= |buf|
    ensures Cursor(s, IndFromOffset(s, off), OffsetInInd(s, off), off, 0, len)
    ensures Progress(s, d, ptrs, d, ptrs, IndFromOffset(s, off), IndFromOffset(s, off), off, user, buf)
    ensures BufferIs(s, d, ptrs, IndFromOffset(s, off), IndFromOffset(s, off), buf, buf)
    ensures StaleIs(s, d, ptrs, IndFromOffset(s, off), IndFromOffset(s, off), buf, buf)
  {
    DivBounds(off, s);
    DivBelow(off, |ptrs|, s);
  }

  /** Rewriting unit idx carries every loop invariant of write_clin one unit further. */
  lemma ClinNext(g: Geometry, eb: seq<EraseBlock>, d: seq<byte>, eb': seq<EraseBlock>, d': seq<byte>, d0: seq<byte>,
                 ptrs0: seq<nat>, ptrs: seq<nat>, id: nat, f: nat, idx: nat, off: nat, user: seq<byte>,
                 stale: seq<byte>, buf: seq<byte>, buf': seq<byte>, buf0: seq<byte>, done: nat, o: nat, left: nat,
                 oc: set<nat>, ob: set<nat>, exact: bool)
    requires g.Valid() && DataStep(g, eb, d, eb', d', {}) && Owned(g, eb, Clin, ptrs, oc, ob, exact)
    requires Progress(g.c, d0, ptrs0, d, ptrs, f, idx, off, user, stale) && idx < |ptrs|
    requires BufferIs(g.c, d, ptrs, f, idx, buf0, buf)
    requires done < |user| && Cursor(g.c, idx, o, off, done, |user|) && left == Min(|user| - done, g.c - o)
    requires ptrs0[idx] * g.c + g.c <= |d0| && PtrsIn(d, g.c, ptrs)
    requires UnitAt(d, g.c, ptrs[idx]) == UnitAt(d0, g.c, ptrs0[idx])
    requires ChunkBuf(g.c, d, ptrs[idx], buf, user[done..], o, left, buf') && UnitIs(d', g.c, id, buf'[..g.c])
    ensures Progress(g.c, d0, ptrs0, d', ptrs[idx := id], f, idx + 1, off, user, buf)
    ensures BufferIs(g.c, d', ptrs[idx := id], f, idx + 1, buf0, buf')
    ensures StaleIs(g.c, d', ptrs[idx := id], f, idx + 1, buf0, buf)
  {
    hide EbInv, LiveOk, EbinLive, Kept, SameInodeBlocks;
    OwnedUnitsKept(g, eb, d, eb', d', {}, Clin, ptrs, oc, ob, exact);
    ProgressStep(g.c, d0, ptrs0, d, ptrs, d', id, f, idx, off, user, stale, buf, buf', done, o, left);
  }

  /** All units from the one with byte `off` to the one with the last byte written have been rewritten. */
  ghost predicate Rewritten(s: nat, d0: seq<byte>, ptrs0: seq<nat>, d: seq<byte>, ptrs: seq<nat>,
                            off: nat, user: seq<byte>, buf0: seq<byte>, stale: seq<byte>) {
    && s > 0 && |user| > 0
    && Progress(s, d0, ptrs0, d, ptrs, IndFromOffset(s, off), IndFromOffset(s, off + |user| - 1) + 1, off, user, stale)
    && StaleIs(s, d, ptrs, IndFromOffset(s, off), IndFromOffset(s, off + |user| - 1) + 1, buf0, stale)
  }

  /** The unit a write ends in. */
  lemma LastUnit(s: nat, off: nat, len: nat, end: nat, idx: nat, o: nat)
    requires s > 0 && off + len == end && 0 < len && Cursor(s, idx, o, off, len, len)
    ensures IndFromOffset(s, end - 1) + 1 == idx
  {
    DivBelow(end - 1, idx, s);
    if idx > 0 { DivBelow(end - 1, idx - 1, s); }
  }

  /** write_clin: rewrites the clusters a write touches, each into a fresh cluster. */
  method WriteClin(fs: FsContext, ctx: WriteContext, n: nat, ghost ptrs0: seq<nat>, ghost oc: set<nat>,
                   ghost ob: set<nat>, ghost exact: bool)
    returns (rc: Rc, ghost ptrs: seq<nat>, ghost stale: seq<byte>)
    requires CoreInv(fs) && ctx.newType == Clin && ctx.newInd == fs.g.c && ctx.ino.no < U32
    requires n <= |ctx.ino.data| / 4 && ptrs0 == Front(ctx.ino, n) && Owned(fs.g, fs.eb, Clin, ptrs0, oc, ob, exact)
    requires 0 < |ctx.buf| && InUnits(fs.g.c, ctx.offset, |ctx.buf|, n)
    requires exact ==> forall j: nat | j < n && Covers(fs.g.c, j, ctx.offset, |ctx.buf|) :: ptrs0[j] == 0
    modifies fs`eb, fs`gc, fs`sums, fs`disk, fs`writer, fs`buf, ctx`ino, ctx`buf
    ensures CoreInv(fs) && DataStep(fs.g, old(fs.eb), old(fs.disk), fs.eb, fs.disk, {})
    ensures |ctx.ino.data| == |old(ctx.ino.data)| && ctx.ino == old(ctx.ino).(data := ctx.ino.data)
    ensures Front(ctx.ino, n) == ptrs && Owned(fs.g, fs.eb, Clin, ptrs, oc, ob, exact)
    ensures rc.NoSpc? || rc == Ok(|old(ctx.buf)|)
    ensures rc.NoSpc? ==> NoRoom(fs.g, fs.eb, ctx.newType, ctx.ino.IsDir())
    ensures rc.Ok? ==>
      Rewritten(fs.g.c, old(fs.disk), ptrs0, fs.disk, ptrs, ctx.offset, old(ctx.buf), old(fs.buf), stale)
  {
    hide SumInv, EbInv, LiveOk, EbinLive, Kept, SameInodeBlocks, Progress, BufferIs, StaleIs, ChunkBuf, Cursor, Owned,
      IndFromOffset, OffsetInInd, InUnits, DataStep, WriterOk, NoRoom;
    var nbyte := |ctx.buf|;
    ghost var user, off, s := ctx.buf, ctx.offset, fs.g.c;
    ghost var eb0, d0, buf0, ino0 := fs.eb, fs.disk, fs.buf, ctx.ino;
    Sizes(fs.g);
    var idx: nat := IndFromOffset(ctx.newInd, ctx.offset);
    var o: nat := OffsetInInd(ctx.newInd, ctx.offset);
    ghost var f: nat, done: nat := idx, 0;
    stale := fs.buf;
    ptrs := ptrs0;
    CoreSizes(fs);
    StepRefl(fs.g, fs.eb, fs.disk);
    OwnedIn(fs.g, fs.eb, fs.disk, Clin, ptrs0, oc, ob, exact);
    ProgressStart(s, fs.disk, ptrs0, off, |user|, user, fs.buf);
    while |ctx.buf| > 0
      invariant CoreInv(fs) && DataStep(fs.g, eb0, d0, fs.eb, fs.disk, {})
      invariant |ctx.ino.data| == |ino0.data| && ctx.ino == ino0.(data := ctx.ino.data)
      invariant Front(ctx.ino, n) == ptrs && Owned(fs.g, fs.eb, Clin, ptrs, oc, ob, exact)
      invariant done <= |user| && ctx.buf == user[done..] && o < s && Cursor(s, idx, o, off, done, |user|)
      invariant Progress(s, d0, ptrs0, fs.disk, ptrs, f, idx, off, user, stale)
      invariant BufferIs(s, fs.disk, ptrs, f, idx, buf0, fs.buf)
      invariant StaleIs(s, fs.disk, ptrs, f, idx, buf0, stale)
      decreases |ctx.buf|
    {
      var left := Min(|ctx.buf|, ctx.newInd - o);
      ghost var d, eb, buf, ptrsB := fs.disk, fs.eb, fs.buf, ptrs;
      CoreSizes(fs);
      ClinBefore(fs.g, eb0, d0, eb, d, ptrs0, ptrs, f, idx, off, user, stale, done, o, left, oc, ob, exact);
      ghost var id;
      rc, id := ClinChunk(fs, ctx, idx, o, left, n, ptrs, oc, ob, exact);
      DataTrans(fs.g, eb0, d0, eb, d, fs.eb, fs.disk, {}, {});
      if rc.NoSpc? { return; }
      ptrs := ptrs[idx := id];
      ClinNext(fs.g, eb, d, fs.eb, fs.disk, d0, ptrs0, ptrsB, id, f, idx, off, user,
               stale, buf, fs.buf, buf0, done, o, left, oc, ob, exact);
      stale := buf;
      done := done + left;
      idx := idx + 1;
      ctx.buf := ctx.buf[left..];
      o := 0;
    }
    LastUnit(s, off, |user|, off + |user|, idx, o);
    rc := Ok(nbyte);
  }

  /**
   * Unit idx has not been touched yet, and if it is going to be covered completely it is a hole when counting is
   * exact.
   */
  lemma ClinBefore(g: Geometry, eb0: seq<EraseBlock>, d0: seq<byte>, eb: seq<EraseBlock>, d: seq<byte>,
                   ptrs0: seq<nat>, ptrs: seq<nat>, f: nat, idx: nat, off: nat, user: seq<byte>,
                   stale: seq<byte>, done: nat, o: nat, left: nat, oc: set<nat>, ob: set<nat>, exact: bool)
    requires g.Valid() && DataStep(g, eb0, d0, eb, d, {}) && Owned(g, eb0, Clin, ptrs0, oc, ob, exact)
    requires Owned(g, eb, Clin, ptrs, oc, ob, exact) && |eb| == g.blocks && |d| == g.DeviceSize()
    requires Progress(g.c, d0, ptrs0, d, ptrs, f, idx, off, user, stale)
    requires done < |user| && Cursor(g.c, idx, o, off, done, |user|)
    requires left == Min(|user| - done, g.c - o) && InUnits(g.c, off, |user|, |ptrs|)
    requires exact ==> forall j: nat | j < |ptrs0| && Covers(g.c, j, off, |user|) :: ptrs0[j] == 0
    ensures idx < |ptrs| && PtrsIn(d, g.c, ptrs) && PtrsIn(d0, g.c, ptrs0)
    ensures UnitAt(d, g.c, ptrs[idx]) == UnitAt(d0, g.c, ptrs0[idx])
    ensures exact && left == g.c ==> ptrs[idx] == 0
    ensures o < g.c && Cursor(g.c, idx + 1, 0, off, done + left, |user|)
  {
    hide Kept, SameInodeBlocks, Owned, Progress, Cursor, InUnits, Covers, UnitAt;
    CursorPlace(g.c, idx, o, off, done, |user|, left, |ptrs|);
    OwnedUnitsKept(g, eb0, d0, eb, d, {}, Clin, ptrs0, oc, ob, exact);
    OwnedIn(g, eb, d, Clin, ptrs, oc, ob, exact);
    ProgressLeaves(g.c, d0, ptrs0, d, ptrs, f, idx, off, user, stale);
  }

  /** The unit the next byte goes to lies in the table, and is covered if it is written as a whole. */
  lemma CursorPlace(s: nat, idx: nat, o: nat, off: nat, done: nat, len: nat, left: nat, n: nat)
    requires s > 0 && done < len && Cursor(s, idx, o, off, done, len) && InUnits(s, off, len, n)
    requires left == Min(len - done, s - o)
    ensures idx < n && o < s && Cursor(s, idx + 1, 0, off, done + left, len)
    ensures left == s ==> Covers(s, idx, off, len)
  {
    DivBelow(off + done, n, s);
    DivMod(idx, s, o);
    CursorNext(s, idx, o, off, done, len, left);
  }

  lemma ProgressLeaves(s: nat, d0: seq<byte>, ptrs0: seq<nat>, d: seq<byte>, ptrs: seq<nat>, f: nat, idx: nat,
                       off: nat, user: seq<byte>, stale: seq<byte>)
    requires Progress(s, d0, ptrs0, d, ptrs, f, idx, off, user, stale)
    ensures |ptrs| == |ptrs0| && forall j | idx <= j < |ptrs| :: ptrs[j] == ptrs0[j]
  {
  }
}
