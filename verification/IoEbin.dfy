/** io.cpp: write_ebin, which rewrites parts of existing erase blocks in place. */
module IoEbin {
  import opened Basics
  import opened Layout
  import opened EraseBlk
  import opened Summaries
  import opened Allocator
  import opened FileData
  import opened IoUnits
  import opened IoClin
  import opened IoTrunc

  // ---------------------------------------------------------- in place, cluster by cluster

  lemma PatchPatch(d: seq<byte>, a: nat, x: seq<byte>, y: seq<byte>)
    requires a + |x| + |y| <= |d|
    ensures Patch(Patch(d, a, x), a + |x|, y) == Patch(d, a, x + y)
  {
  }

  /** Reading a cluster, overlaying part of it and writing it back changes just that part. */
  lemma PatchThrough(d: seq<byte>, at: nat, c: nat, data: seq<byte>, o: nat, left: nat)
    requires at + c <= |d| && o + left <= c && left <= |data|
    ensures Patch(d, at, Overlay(d[at .. at + c], data, o, left)) == Patch(d, at + o, data[..left])
  {
  }

  /** One cluster-sized piece of an in-place write. */
  method InPlacePiece(fs: FsContext, data: seq<byte>, at: nat, o: nat, left: nat)
    requires |fs.buf| >= fs.g.c && at + fs.g.c <= |fs.disk| && o + left <= fs.g.c && 0 < left <= |data|
    modifies fs`disk, fs`buf
    ensures fs.disk == Patch(old(fs.disk), at + o, data[..left])
    ensures |fs.buf| == |old(fs.buf)| && fs.buf[fs.g.c..] == old(fs.buf)[fs.g.c..]
    ensures fs.buf[..fs.g.c] == fs.disk[at .. at + fs.g.c]
  {
    if left < fs.g.c {
      fs.buf := Patch(fs.buf, 0, fs.disk[at .. at + fs.g.c]);
    } else {
      fs.buf := Patch(fs.buf, 0, Zeros(o));
    }
    fs.buf := Overlay(fs.buf, data, o, left);
    assert fs.buf[..fs.g.c] == Overlay(fs.disk[at .. at + fs.g.c], data, o, left);
    PatchThrough(fs.disk, at, fs.g.c, data, o, left);
    fs.disk := Patch(fs.disk, at, fs.buf[..fs.g.c]);
  }

  /** eb_id * erasesize, and cl_index * clustersize behind it */
  function EbOff(g: Geometry, e: nat): nat { e * g.E() }

  function PieceAt(g: Geometry, e: nat, idx: nat): nat { EbOff(g, e) + idx * g.c }

  lemma PieceInBlock(g: Geometry, e: nat, idx: nat, o: nat, off: nat, done: nat, len: nat)
    requires g.c > 0 && e < g.blocks && done < len && off + len <= g.E() && Cursor(g.c, idx, o, off, done, len)
    ensures idx < g.k && PieceAt(g, e, idx) + g.c <= g.DeviceSize()
    ensures PieceAt(g, e, idx) + o == EbOff(g, e) + off + done
    ensures PieceAt(g, e, idx + 1) == PieceAt(g, e, idx) + g.c
  {
    BlockInDevice(g, e);
    DivMod(idx, g.c, o);
    DivBelow(off + done, g.k, g.c);
    MulMono(idx, g.k, g.c);
  }

  lemma LastPiece(g: Geometry, e: nat, idx: nat, o: nat, off: nat, len: nat)
    requires g.c > 0 && 0 < len && off + len == g.E() && Cursor(g.c, idx, o, off, len, len)
    ensures PieceAt(g, e, idx) == EbOff(g, e) + g.E()
  {
    if idx < g.k { MulMono(idx, g.k, g.c); }
    if idx > g.k { MulMono(g.k, idx, g.c); }
  }

  /** The inner loop of write_ebin: bytes o .. o+left of an existing erase block, in cluster-sized pieces. */
  method WriteInPlace(fs: FsContext, data: seq<byte>, e: nat, o: nat, left: nat)
    requires fs.g.Valid() && |fs.disk| == fs.g.DeviceSize() && |fs.buf| == fs.g.E() && e < fs.g.blocks
    requires 0 < left <= |data| && o + left <= fs.g.E()
    modifies fs`disk, fs`buf
    ensures EbOff(fs.g, e) + fs.g.E() <= |old(fs.disk)|
    ensures fs.disk == Patch(old(fs.disk), EbOff(fs.g, e) + o, data[..left])
    ensures |fs.buf| == |old(fs.buf)| && fs.g.c <= fs.g.E() && fs.buf[fs.g.c..] == old(fs.buf)[fs.g.c..]
    ensures o + left == fs.g.E() ==> BufHolds(fs.buf, fs.g.c, fs.disk, EbOff(fs.g, e) + (fs.g.E() - fs.g.c))
  {
    Sizes(fs.g);
    BlockInDevice(fs.g, e);
    CursorBegin(fs.g.c, o, left);
    PatchNothing(fs.disk, EbOff(fs.g, e) + o, data);
    var idx: nat := IndFromOffset(fs.g.c, o);
    var clo: nat := OffsetInInd(fs.g.c, o);
    ghost var lastAt: nat;
    idx, clo, lastAt := WritePieces(fs, data, e, o, left, idx, clo);
    if o + left == fs.g.E() { LastPiece(fs.g, e, idx, clo, o, left); }
  }

  method WritePieces(fs: FsContext, data: seq<byte>, e: nat, o: nat, left: nat, idx0: nat, clo0: nat)
    returns (idx: nat, clo: nat, ghost lastAt: nat)
    requires fs.g.Valid() && |fs.disk| == fs.g.DeviceSize() && fs.g.c <= fs.g.E() == |fs.buf| && e < fs.g.blocks
    requires 0 < left <= |data| && o + left <= fs.g.E() && EbOff(fs.g, e) + fs.g.E() <= |fs.disk|
    requires clo0 < fs.g.c && Cursor(fs.g.c, idx0, clo0, o, 0, left)
    requires Patch(fs.disk, EbOff(fs.g, e) + o, data[..0]) == fs.disk
    modifies fs`disk, fs`buf
    ensures fs.disk == Patch(old(fs.disk), EbOff(fs.g, e) + o, data[..left])
    ensures |fs.buf| == |old(fs.buf)| && fs.buf[fs.g.c..] == old(fs.buf)[fs.g.c..]
    ensures Cursor(fs.g.c, idx, clo, o, left, left)
    ensures BufHolds(fs.buf, fs.g.c, fs.disk, lastAt) && lastAt + fs.g.c == PieceAt(fs.g, e, idx)
  {
    hide Cursor, Patch, PieceAt, EbOff, Geometry.E, Geometry.DeviceSize, Geometry.Valid;
    ghost var d0, b0 := fs.disk, fs.buf;
    idx, clo := idx0, clo0;
    var done: nat := 0;
    lastAt := 0;
    while done < left
      invariant done <= left && clo < fs.g.c && Cursor(fs.g.c, idx, clo, o, done, left)
      invariant |fs.disk| == |d0| && fs.disk == Patch(d0, EbOff(fs.g, e) + o, data[..done])
      invariant |fs.buf| == |b0| && fs.buf[fs.g.c..] == b0[fs.g.c..]
      invariant done > 0 ==> BufHolds(fs.buf, fs.g.c, fs.disk, lastAt) && lastAt + fs.g.c == PieceAt(fs.g, e, idx)
      decreases left - done
    {
      var clLeft := Min(left - done, fs.g.c - clo);
      PieceInBlock(fs.g, e, idx, clo, o, done, left);
      CursorNext(fs.g.c, idx, clo, o, done, left, clLeft);
      PatchMore(d0, EbOff(fs.g, e) + o, data, done, clLeft);
      lastAt := PieceAt(fs.g, e, idx);
      InPlacePiece(fs, data[done..], PieceAt(fs.g, e, idx), clo, clLeft);
      done := done + clLeft;
      idx := idx + 1;
      clo := 0;
    }
  }

  /** The front of the buffer holds the cluster at device offset `at`. */
  ghost predicate BufHolds(buf: seq<byte>, c: nat, d: seq<byte>, at: nat) {
    c <= |buf| && at + c <= |d| && buf[..c] == d[at .. at + c]
  }

  lemma CursorBegin(s: nat, off: nat, len: nat)
    requires s > 0 && 0 < len
    ensures Cursor(s, IndFromOffset(s, off), OffsetInInd(s, off), off, 0, len)
  {
    DivBounds(off, s);
  }

  lemma PatchNothing(d: seq<byte>, at: nat, data: seq<byte>)
    requires at <= |d|
    ensures Patch(d, at, data[..0]) == d
  {
  }

  lemma PatchMore(d: seq<byte>, at: nat, data: seq<byte>, done: nat, more: nat)
    requires done + more <= |data| && at + done + more <= |d|
    ensures |Patch(d, at, data[..done])| == |d|
    ensures Patch(Patch(d, at, data[..done]), at + done, data[done..][..more]) == Patch(d, at, data[..done + more])
    ensures |Patch(Patch(d, at, data[..done]), at + done, data[done..][..more])| == |d|
  {
    assert data[..done + more] == data[..done] + data[done..][..more];
    PatchPatch(d, at, data[..done], data[done..][..more]);
  }

  // ---------------------------------------------------------- one unit

  /** What unit `p` holds once bytes o .. o+left of it have been written; `stale` shows behind them in a hole. */
  function UnitAfter(s: nat, d: seq<byte>, p: nat, stale: seq<byte>, data: seq<byte>, o: nat, left: nat): (u: seq<byte>)
    requires s == |stale| && p * s + s <= |d| && o + left <= s && left <= |data|
    ensures ChunkBuf(s, d, p, stale, data, o, left, u)
  {
    seq(s, x requires 0 <= x < s =>
      if o <= x < o + left then data[x - o]
      else if x < o || p != 0 then UnitAt(d, s, p)[x]
      else stale[x])
  }

  /** How the unit buffer relates to a unit that has just been written. */
  ghost predicate BufAfter(c: nat, s: nat, inPlace: bool, d: seq<byte>, id: nat, buf0: seq<byte>, toEnd: bool,
                           buf1: seq<byte>) {
    && c <= s == |buf0| == |buf1| && id * s + s <= |d|
    && if inPlace then buf1[c..] == buf0[c..] && (toEnd ==> buf1[..c] == UnitAt(d, s, id)[s - c..])
       else buf1 == UnitAt(d, s, id)
  }

  lemma InPlaceStep(g: Geometry, eb: seq<EraseBlock>, d: seq<byte>, sums: SummaryCache, writer: seq<seq<nat>>,
                    e: nat, o: nat, left: nat, data: seq<byte>, stale: seq<byte>)
    requires g.Valid() && EbInv(g, eb) && SumInv(g, eb, d, sums, writer) && 1 <= e < |eb| && eb[e].etype == EbinBlk
    requires 0 < left <= |data| && o + left <= g.E() == |stale|
    ensures e * g.E() + g.E() <= |d| && e * g.E() + o + left <= |d|
    ensures var d' := Patch(d, e * g.E() + o, data[..left]);
      && DataStep(g, eb, d, eb, d', {e}) && SumInv(g, eb, d', sums, writer)
      && UnitAt(d', g.E(), e) == UnitAfter(g.E(), d, e, stale, data, o, left)
  {
    BlockInDevice(g, e);
    KeptInBlock(g, eb, d, e, e * g.E() + o, data[..left]);
    var d' := Patch(d, e * g.E() + o, data[..left]);
    SumKept(g, eb, d, eb, d', {e}, sums, writer);
    UnitPatched(d, g.E(), e, o, left, data, stale);
  }

  lemma UnitPatched(d: seq<byte>, s: nat, e: nat, o: nat, left: nat, data: seq<byte>, stale: seq<byte>)
    requires e > 0 && s == |stale| && e * s + s <= |d| && o + left <= s && left <= |data|
    ensures UnitAt(Patch(d, e * s + o, data[..left]), s, e) == UnitAfter(s, d, e, stale, data, o, left)
  {
    var at := e * s;
    var d' := Patch(d, at + o, data[..left]);
    var u, v := UnitAt(d', s, e), UnitAfter(s, d, e, stale, data, o, left);
    forall x: nat | x < s ensures u[x] == v[x] {
      assert u[x] == d'[at + x];
      assert UnitAt(d, s, e)[x] == d[at + x];
    }
  }

  lemma EbinPointer(g: Geometry, eb: seq<EraseBlock>, ptrs: seq<nat>, idx: nat, oc: set<nat>, ob: set<nat>, exact: bool)
    requires g.k > 0 && Owned(g, eb, Ebin, ptrs, oc, ob, exact) && idx < |ptrs| && ptrs[idx] != 0
    ensures 1 <= ptrs[idx] < |eb| && eb[ptrs[idx]].etype == EbinBlk
  {
    assert ptrs[idx] in Nz(ptrs);
  }

  /** One iteration of write_ebin. */
  method EbinChunk(fs: FsContext, ctx: WriteContext, idx: nat, o: nat, left: nat, n: nat,
                   ghost ptrs: seq<nat>, ghost oc: set<nat>, ghost ob: set<nat>, ghost exact: bool)
    returns (rc: Rc, ghost id: nat, ghost inPlace: bool)
    requires CoreInv(fs) && ctx.newType == Ebin && ctx.newInd == fs.g.E() && ctx.ino.no < U32
    requires idx < n <= |ctx.ino.data| / 4 && ptrs == Front(ctx.ino, n)
    requires Owned(fs.g, fs.eb, Ebin, ptrs, oc, ob, exact)
    requires 0 < left <= |ctx.buf| && o + left <= fs.g.E()
    modifies fs`eb, fs`gc, fs`sums, fs`disk, fs`writer, fs`buf, ctx`ino
    ensures inPlace <==> left < fs.g.E() && ptrs[idx] != 0
    ensures CoreInv(fs) && DataStep(fs.g, old(fs.eb), old(fs.disk), fs.eb, fs.disk, if inPlace then {ptrs[idx]} else {})
    ensures |ctx.ino.data| == |old(ctx.ino.data)| && ctx.ino == old(ctx.ino).(data := ctx.ino.data)
    ensures rc.NoSpc? || rc.Ok?
    ensures rc.NoSpc? ==> ctx.ino == old(ctx.ino)
    ensures rc.NoSpc? ==> NoRoom(fs.g, fs.eb, ctx.newType, ctx.ino.IsDir())
    ensures rc.Ok? ==> Front(ctx.ino, n) == ptrs[idx := id]
    ensures Owned(fs.g, fs.eb, Ebin, if rc.Ok? then ptrs[idx := id] else ptrs[idx := 0], oc, ob, exact)
    ensures PtrsIn(old(fs.disk), fs.g.E(), ptrs) && fs.g.E() == |old(fs.buf)|
    ensures rc.Ok? ==>
      && UnitIs(fs.disk, fs.g.E(), id, UnitAfter(fs.g.E(), old(fs.disk), ptrs[idx], old(fs.buf), ctx.buf, o, left))
      && BufAfter(fs.g.c, fs.g.E(), inPlace, fs.disk, id, old(fs.buf), o + left == fs.g.E(), fs.buf)
  {
    hide SumInv, EbInv, LiveOk, EbinLive, Owned, Kept, SameInodeBlocks, Patch, DataStep, UnitAfter, GcInv, NoRoom;
    Sizes(fs.g);
    CoreSizes(fs);
    OwnedIn(fs.g, fs.eb, fs.disk, Ebin, ptrs, oc, ob, exact);
    var p := Table(ctx.ino.data)[idx];
    inPlace := left < fs.g.E() && p != 0;
    if left < fs.g.E() && p != 0 {
      id := p;
      EbinPointer(fs.g, fs.eb, ptrs, idx, oc, ob, exact);
      InPlaceStep(fs.g, fs.eb, fs.disk, fs.sums, fs.writer, p, o, left, ctx.buf, fs.buf);
      WriteInPlace(fs, ctx.buf, p, o, left);
      assert ptrs[idx := id] == ptrs;
      rc := Ok(0);
    } else {
      rc, id := EbinReplace(fs, ctx, idx, o, left, n, p, ptrs, oc, ob, exact);
    }
  }

  /** The unit is new, or it is replaced as a whole; a replaced erase block is forgotten, not freed. */
  method EbinReplace(fs: FsContext, ctx: WriteContext, idx: nat, o: nat, left: nat, n: nat, p: nat,
                     ghost ptrs: seq<nat>, ghost oc: set<nat>, ghost ob: set<nat>, ghost exact: bool)
    returns (rc: Rc, ghost id: nat)
    requires CoreInv(fs) && ctx.newType == Ebin && ctx.newInd == fs.g.E() && ctx.ino.no < U32
    requires idx < n <= |ctx.ino.data| / 4 && ptrs == Front(ctx.ino, n)
    requires Owned(fs.g, fs.eb, Ebin, ptrs, oc, ob, exact) && PtrsIn(fs.disk, fs.g.E(), ptrs)
    requires 0 < left <= |ctx.buf| && o + left <= fs.g.E() && p == ptrs[idx] && (left == fs.g.E() || p == 0)
    modifies fs`eb, fs`gc, fs`sums, fs`disk, fs`writer, fs`buf, ctx`ino
    ensures CoreInv(fs) && DataStep(fs.g, old(fs.eb), old(fs.disk), fs.eb, fs.disk, {})
    ensures |ctx.ino.data| == |old(ctx.ino.data)| && ctx.ino == old(ctx.ino).(data := ctx.ino.data)
    ensures rc.NoSpc? || rc.Ok?
    ensures rc.NoSpc? ==> ctx.ino == old(ctx.ino)
    ensures rc.NoSpc? ==> NoRoom(fs.g, fs.eb, ctx.newType, ctx.ino.IsDir())
    ensures rc.Ok? ==> Front(ctx.ino, n) == ptrs[idx := id]
    ensures Owned(fs.g, fs.eb, Ebin, if rc.Ok? then ptrs[idx := id] else ptrs[idx := 0], oc, ob, exact)
    ensures fs.g.E() == |old(fs.buf)|
    ensures rc.Ok? ==>
      && UnitIs(fs.disk, fs.g.E(), id, UnitAfter(fs.g.E(), old(fs.disk), p, old(fs.buf), ctx.buf, o, left))
      && BufAfter(fs.g.c, fs.g.E(), false, fs.disk, id, old(fs.buf), o + left == fs.g.E(), fs.buf)
  {
    hide SumInv, LiveOk, Kept, SameInodeBlocks, EbInv, GcInv, EbinLive, DataStep, Owned, NoRoom;
    Sizes(fs.g);
    CoreSizes(fs);
    BufferBuilt(fs.g.E(), fs.disk, p, fs.buf, ctx.buf, o, left);
    fs.buf := Patch(fs.buf, 0, Zeros(o));
    fs.buf := Overlay(fs.buf, ctx.buf, o, left);
    OwnedDrop(fs.g, fs.eb, ptrs, idx, oc, ob, exact);
    var ptr: nat;
    rc, ptr := WriteOwned(fs, ctx, fs.buf, ptrs[idx := 0], idx, oc, ob, exact);
    id := ptr;
    if rc.NoSpc? { return; }
    assert ptrs[idx := 0][idx := id] == ptrs[idx := id];
    FrontSet(ctx.ino, n, idx, ptr);
    ctx.ino := ctx.ino.(data := SetPtr(ctx.ino.data, idx, ptr));
  }

  /** Zeros in front, then the user's bytes: that is the new unit when no old bytes are to be kept. */
  lemma BufferBuilt(s: nat, d: seq<byte>, p: nat, buf: seq<byte>, data: seq<byte>, o: nat, left: nat)
    requires |buf| == s && p * s + s <= |d| && 0 < left <= |data| && o + left <= s && (left == s || p == 0)
    ensures Overlay(Patch(buf, 0, Zeros(o)), data, o, left) == UnitAfter(s, d, p, buf, data, o, left)
  {
  }

  lemma OwnedDrop(g: Geometry, eb: seq<EraseBlock>, ptrs: seq<nat>, j: nat, oc: set<nat>, ob: set<nat>, exact: bool)
    requires g.k > 0 && j < |ptrs| && Owned(g, eb, Ebin, ptrs, oc, ob, exact)
    ensures Owned(g, eb, Ebin, ptrs[j := 0], oc, ob, exact)
  {
    NzUpdate(ptrs, j, 0);
  }

  // ---------------------------------------------------------- write_ebin

  /** The unit buffer after units f .. idx-1, each of them written up to its end. */
  ghost predicate EbinBufferIs(c: nat, s: nat, d: seq<byte>, ptrs0: seq<nat>, ptrs: seq<nat>, f: nat, o0: nat, idx: nat,
                               buf0: seq<byte>, buf: seq<byte>) {
    && |buf| == |buf0| == s && f <= idx <= |ptrs| == |ptrs0|
    && if idx == f then buf == buf0
       else if idx == f + 1 then BufAfter(c, s, o0 > 0 && ptrs0[f] != 0, d, ptrs[f], buf0, true, buf)
       else UnitIs(d, s, ptrs[idx - 1], buf)
  }

  ghost predicate EbinStaleIs(c: nat, s: nat, d: seq<byte>, ptrs0: seq<nat>, ptrs: seq<nat>, f: nat, o0: nat, idx: nat,
                              buf0: seq<byte>, stale: seq<byte>) {
    f < idx <= |ptrs| ==> EbinBufferIs(c, s, d, ptrs0, ptrs, f, o0, idx - 1, buf0, stale)
  }

  /** The units before f and from idx on still hold what they held at the start. */
  ghost predicate Untouched(s: nat, d0: seq<byte>, d: seq<byte>, ptrs0: seq<nat>, ptrs: seq<nat>, f: nat, idx: nat) {
    && |ptrs| == |ptrs0| && PtrsIn(d0, s, ptrs0) && PtrsIn(d, s, ptrs)
    && forall j | 0 <= j < |ptrs| && (j < f || idx <= j) ::
      ptrs[j] == ptrs0[j] && UnitAt(d, s, ptrs[j]) == UnitAt(d0, s, ptrs0[j])
  }

  lemma EbinStart(s: nat, c: nat, d: seq<byte>, ptrs: seq<nat>, off: nat, len: nat, user: seq<byte>, buf: seq<byte>)
    requires s > 0 && 0 < len && InUnits(s, off, len, |ptrs|) && |buf| == s && PtrsIn(d, s, ptrs)
    ensures Cursor(s, IndFromOffset(s, off), OffsetInInd(s, off), off, 0, len)
    ensures Progress(s, d, ptrs, d, ptrs, IndFromOffset(s, off), IndFromOffset(s, off), off, user, buf)
    ensures EbinBufferIs(c, s, d, ptrs, ptrs, IndFromOffset(s, off), OffsetInInd(s, off), IndFromOffset(s, off), buf,
        buf)
    ensures EbinStaleIs(c, s, d, ptrs, ptrs, IndFromOffset(s, off), OffsetInInd(s, off), IndFromOffset(s, off), buf,
        buf)
    ensures Untouched(s, d, d, ptrs, ptrs, IndFromOffset(s, off), IndFromOffset(s, off))
  {
    ProgressStart(s, d, ptrs, off, len, user, buf);
  }

  /** Other units of the file do not notice the rewriting of unit idx. */
  lemma OthersKept(g: Geometry, eb: seq<EraseBlock>, d: seq<byte>, eb': seq<EraseBlock>, d': seq<byte>, inPlace: bool,
                   ptrs: seq<nat>, idx: nat, oc: set<nat>, ob: set<nat>, exact: bool)
    requires g.Valid() && idx < |ptrs| && Owned(g, eb, Ebin, ptrs, oc, ob, exact) && (inPlace ==> ptrs[idx] != 0)
    requires DataStep(g, eb, d, eb', d', if inPlace then {ptrs[idx]} else {})
    ensures PtrsIn(d, g.E(), ptrs) && |d'| == |d|
    ensures forall j | 0 <= j < |ptrs| && j != idx :: UnitAt(d', g.E(), ptrs[j]) == UnitAt(d, g.E(), ptrs[j])
  {
    if inPlace { assert ptrs[idx] in Nz(ptrs); }
    OwnedUnitsKept(g, eb, d, eb', d', if inPlace then {ptrs[idx]} else {}, Ebin, ptrs, oc, ob, exact);
  }

  /** Rewriting unit idx carries every loop invariant of write_ebin one unit further. */
  lemma EbinNext(g: Geometry, eb: seq<EraseBlock>, d: seq<byte>, eb': seq<EraseBlock>, d': seq<byte>, d0: seq<byte>,
                 ptrs0: seq<nat>, ptrs: seq<nat>, id: nat, inPlace: bool, f: nat, o0: nat, idx: nat, off: nat,
                 user: seq<byte>, stale: seq<byte>, buf: seq<byte>, buf': seq<byte>, buf0: seq<byte>,
                 done: nat, o: nat, left: nat, oc: set<nat>, ob: set<nat>, exact: bool)
    requires g.Valid() && idx < |ptrs| && Owned(g, eb, Ebin, ptrs, oc, ob, exact) && g.E() > 0
    requires DataStep(g, eb, d, eb', d', if inPlace then {ptrs[idx]} else {})
    requires Progress(g.E(), d0, ptrs0, d, ptrs, f, idx, off, user, stale)
    requires Untouched(g.E(), d0, d, ptrs0, ptrs, f, idx)
    requires EbinBufferIs(g.c, g.E(), d, ptrs0, ptrs, f, o0, idx, buf0, buf)
    requires done < |user| && Cursor(g.E(), idx, o, off, done, |user|) && left == Min(|user| - done, g.E() - o)
    requires (done == 0 <==> idx == f) && (done == 0 ==> o == o0) && (inPlace <==> left < g.E() && ptrs[idx] != 0)
    requires UnitIs(d', g.E(), id, UnitAfter(g.E(), d, ptrs[idx], buf, user[done..], o, left))
    requires BufAfter(g.c, g.E(), inPlace, d', id, buf, o + left == g.E(), buf')
    requires PtrsIn(d', g.E(), ptrs[idx := id])
    ensures Progress(g.E(), d0, ptrs0, d', ptrs[idx := id], f, idx + 1, off, user, buf)
    ensures EbinStaleIs(g.c, g.E(), d', ptrs0, ptrs[idx := id], f, o0, idx + 1, buf0, buf)
    ensures done + left < |user| ==> EbinBufferIs(g.c, g.E(), d', ptrs0, ptrs[idx := id], f, o0, idx + 1, buf0, buf')
    ensures Untouched(g.E(), d0, d', ptrs0, ptrs[idx := id], f, idx + 1)
  {
    OthersKept(g, eb, d, eb', d', inPlace, ptrs, idx, oc, ob, exact);
    var u := UnitAfter(g.E(), d, ptrs[idx], buf, user[done..], o, left);
    assert u[..g.E()] == u;
    ProgressStep(g.E(), d0, ptrs0, d, ptrs, d', id, f, idx, off, user, stale, buf, u, done, o, left);
  }

  /** All units a write touches have been rewritten, some of them in place. */
  ghost predicate EbinRewritten(c: nat, s: nat, d0: seq<byte>, ptrs0: seq<nat>, d: seq<byte>, ptrs: seq<nat>,
                                off: nat, user: seq<byte>, buf0: seq<byte>, stale: seq<byte>) {
    && s > 0 && |user| > 0
    && Progress(s, d0, ptrs0, d, ptrs, IndFromOffset(s, off), IndFromOffset(s, off + |user| - 1) + 1, off, user, stale)
    && EbinStaleIs(c, s, d, ptrs0, ptrs, IndFromOffset(s, off), OffsetInInd(s, off),
                   IndFromOffset(s, off + |user| - 1) + 1, buf0, stale)
    && Untouched(s, d0, d, ptrs0, ptrs, IndFromOffset(s, off), IndFromOffset(s, off + |user| - 1) + 1)
  }

  lemma EbinBefore(g: Geometry, d0: seq<byte>, d: seq<byte>, ptrs0: seq<nat>, ptrs: seq<nat>, f: nat, idx: nat, o: nat,
                   off: nat, done: nat, len: nat, left: nat)
    requires g.E() > 0 && done < len && Cursor(g.E(), idx, o, off, done, len) && left == Min(len - done, g.E() - o)
    requires InUnits(g.E(), off, len, |ptrs|) && Untouched(g.E(), d0, d, ptrs0, ptrs, f, idx)
    ensures idx < |ptrs| == |ptrs0| && ptrs[idx] == ptrs0[idx]
    ensures ptrs[idx] != 0 ==> ptrs[idx] in Nz(ptrs0)
    ensures Cursor(g.E(), idx + 1, 0, off, done + left, len)
  {
    CursorNext(g.E(), idx, o, off, done, len, left);
    DivMod(idx, g.E(), o);
    DivBelow(off + done, |ptrs|, g.E());
    if ptrs[idx] != 0 { assert ptrs0[idx] in Nz(ptrs0); }
  }

  /** write_ebin: parts of existing erase blocks are rewritten in place, everything else goes to empty ones. */
  method WriteEbin(fs: FsContext, ctx: WriteContext, n: nat, ghost ptrs0: seq<nat>, ghost oc: set<nat>,
                   ghost ob: set<nat>, ghost exact: bool)
    returns (rc: Rc, ghost ptrs: seq<nat>, ghost stale: seq<byte>)
    requires CoreInv(fs) && ctx.newType == Ebin && ctx.newInd == fs.g.E() && ctx.ino.no < U32
    requires n <= |ctx.ino.data| / 4 && ptrs0 == Front(ctx.ino, n) && Owned(fs.g, fs.eb, Ebin, ptrs0, oc, ob, exact)
    requires 0 < |ctx.buf| && InUnits(fs.g.E(), ctx.offset, |ctx.buf|, n)
    modifies fs`eb, fs`gc, fs`sums, fs`disk, fs`writer, fs`buf, ctx`ino, ctx`buf
    ensures CoreInv(fs) && DataStep(fs.g, old(fs.eb), old(fs.disk), fs.eb, fs.disk, Nz(ptrs0))
    ensures |ctx.ino.data| == |old(ctx.ino.data)| && ctx.ino == old(ctx.ino).(data := ctx.ino.data)
    ensures Owned(fs.g, fs.eb, Ebin, ptrs, oc, ob, exact)
    ensures rc.NoSpc? || rc == Ok(|old(ctx.buf)|)
    ensures rc.NoSpc? ==> NoRoom(fs.g, fs.eb, ctx.newType, ctx.ino.IsDir())
    ensures rc.Ok? ==> Front(ctx.ino, n) == ptrs
    ensures rc.Ok? ==>
      EbinRewritten(fs.g.c, fs.g.E(), old(fs.disk), ptrs0, fs.disk, ptrs, ctx.offset, old(ctx.buf), old(fs.buf), stale)
  {
    hide SumInv, EbInv, LiveOk, EbinLive, Kept, SameInodeBlocks, Progress, EbinBufferIs, EbinStaleIs, Untouched,
      BufAfter, ChunkBuf, Cursor, Owned, IndFromOffset, OffsetInInd, InUnits, DataStep, UnitIs, UnitAfter, GcInv,
      NoRoom, Nz, Front;
    var nbyte := |ctx.buf|;
    ghost var user, off, s := ctx.buf, ctx.offset, fs.g.E();
    ghost var eb0, d0, buf0, ino0 := fs.eb, fs.disk, fs.buf, ctx.ino;
    Sizes(fs.g);
    CoreSizes(fs);
    var idx: nat := IndFromOffset(ctx.newInd, ctx.offset);
    var o: nat := OffsetInInd(ctx.newInd, ctx.offset);
    ghost var f: nat, o0: nat, done: nat := idx, o, 0;
    stale := fs.buf;
    ptrs := ptrs0;
    StepReflOwn(fs.g, fs.eb, fs.disk, Nz(ptrs0));
    OwnedIn(fs.g, fs.eb, fs.disk, Ebin, ptrs0, oc, ob, exact);
    EbinStart(s, fs.g.c, fs.disk, ptrs0, off, |user|, user, fs.buf);
    while |ctx.buf| > 0
      invariant CoreInv(fs) && DataStep(fs.g, eb0, d0, fs.eb, fs.disk, Nz(ptrs0))
      invariant |ctx.ino.data| == |ino0.data| && ctx.ino == ino0.(data := ctx.ino.data)
      invariant Front(ctx.ino, n) == ptrs && Owned(fs.g, fs.eb, Ebin, ptrs, oc, ob, exact)
      invariant done <= |user| && ctx.buf == user[done..] && o < s && Cursor(s, idx, o, off, done, |user|)
      invariant f <= idx && (done == 0 <==> idx == f) && (done == 0 ==> o == o0)
      invariant Progress(s, d0, ptrs0, fs.disk, ptrs, f, idx, off, user, stale)
      invariant done < |user| ==> EbinBufferIs(fs.g.c, s, fs.disk, ptrs0, ptrs, f, o0, idx, buf0, fs.buf)
      invariant EbinStaleIs(fs.g.c, s, fs.disk, ptrs0, ptrs, f, o0, idx, buf0, stale)
      invariant Untouched(s, d0, fs.disk, ptrs0, ptrs, f, idx)
      decreases |ctx.buf|
    {
      var left := Min(|ctx.buf|, ctx.newInd - o);
      ghost var d, eb, buf, ptrsB := fs.disk, fs.eb, fs.buf, ptrs;
      CoreSizes(fs);
      EbinBefore(fs.g, d0, d, ptrs0, ptrs, f, idx, o, off, done, |user|, left);
      ghost var id: nat;
      ghost var inPlace;
      rc, id, inPlace := EbinChunk(fs, ctx, idx, o, left, n, ptrs, oc, ob, exact);
      DataTrans(fs.g, eb0, d0, eb, d, fs.eb, fs.disk, Nz(ptrs0), if inPlace then {ptrs[idx]} else {});
      ptrs := if rc.Ok? then ptrs[idx := id] else ptrs[idx := 0];
      if rc.NoSpc? { return; }
      CoreSizes(fs);
      OwnedIn(fs.g, fs.eb, fs.disk, Ebin, ptrs, oc, ob, exact);
      EbinNext(fs.g, eb, d, fs.eb, fs.disk, d0, ptrs0, ptrsB, id, inPlace, f, o0, idx, off, user,
               stale, buf, fs.buf, buf0, done, o, left, oc, ob, exact);
      stale := buf;
      done := done + left;
      idx := idx + 1;
      ctx.buf := ctx.buf[left..];
      o := 0;
    }
    LastUnit(s, off, |user|, off + |user|, idx, o);
    rc := Ok(nbyte);
  }
}
