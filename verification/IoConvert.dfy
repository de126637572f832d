/** io.cpp: trunc_clin2ebin, which rewrites a table of cluster pointers into erase-block pointers in place. */
module IoConvert {
  import opened Basics
  import opened Layout
  import opened EraseBlk
  import opened Summaries
  import opened Allocator
  import opened FileData
  import opened IoUnits
  import opened IoRead
  import opened IoEmb
  import opened IoTrunc

  // ---------------------------------------------------------- erase-block windows of a file

  /** The erase-block sized window w of a byte sequence, zero-filled behind its end. */
  function Window(bytes: seq<byte>, s: nat, w: nat): (r: seq<byte>)
    ensures |r| == s
    ensures forall x: nat | x < s :: r[x] == if w * s + x < |bytes| then bytes[w * s + x] else 0
  {
    seq(s, x requires 0 <= x < s => MulNonneg(w, s); if w * s + x < |bytes| then bytes[w * s + x] else 0)
  }

  /** The first `w` entries of the table are new, the others are still the old ones. */
  ghost predicate Mixed(table: seq<nat>, table0: seq<nat>, newPtrs: seq<nat>, w: nat) {
    && |table| == |table0| && |newPtrs| == w <= |table|
    && forall j | 0 <= j < |table| :: table[j] == if j < w then newPtrs[j] else table0[j]
  }

  /** Unit indices that window w reads through all lie at w or behind it. */
  lemma NeverReplaced(g: Geometry, w: nat, pos: nat)
    requires g.c > 0 && g.k > 0 && w * g.E() <= pos
    ensures w <= pos / g.c
  {
    Associate(w, g.k, g.c);
    DivBelow(pos, w * g.k, g.c);
    assert w <= w * g.k by { MulGe(g.k, w); assert g.k * w == w * g.k; }
  }

  /**
   * In-place soundness: reading window w through the half-converted table gives the bytes the file had
   * before the conversion started, because no entry it reads has been replaced yet.
   */
  lemma MixedWindow(g: Geometry, eb0: seq<EraseBlock>, d0: seq<byte>, eb: seq<EraseBlock>, d: seq<byte>,
                    table: seq<nat>, table0: seq<nat>, newPtrs: seq<nat>, w: nat, n0: nat, size: nat, len: nat,
                    oc: set<nat>, ob: set<nat>, exact: bool)
    requires g.Valid() && DataStep(g, eb0, d0, eb, d, {}) && |eb| == g.blocks && |d| == g.DeviceSize()
    requires n0 <= |table0| && Owned(g, eb0, Clin, table0[..n0], oc, ob, exact)
    requires Mixed(table, table0, newPtrs, w) && EbinLive(eb, Nz(newPtrs))
    requires size <= n0 * g.c && w * g.E() + len <= size
    ensures PtrsIn(d0, g.c, table0[..n0]) && PtrsIn(d, g.c, table[..n0])
    ensures TableBytes(d, g.c, table[..n0], size)[w * g.E() .. w * g.E() + len]
         == TableBytes(d0, g.c, table0[..n0], size)[w * g.E() .. w * g.E() + len]
  {
    OwnedUnitsKept(g, eb0, d0, eb, d, {}, Clin, table0[..n0], oc, ob, exact);
    MixedIn(g, eb, d, table, table0, newPtrs, w, n0);
    var a, b := TableBytes(d, g.c, table[..n0], size), TableBytes(d0, g.c, table0[..n0], size);
    forall x | w * g.E() <= x < w * g.E() + len ensures a[x] == b[x] {
      NeverReplaced(g, w, x);
      DivBelow(x, n0, g.c);
      assert table[..n0][x / g.c] == table0[..n0][x / g.c];
    }
  }

  lemma MixedIn(g: Geometry, eb: seq<EraseBlock>, d: seq<byte>, table: seq<nat>, table0: seq<nat>, newPtrs: seq<nat>,
                w: nat, n0: nat)
    requires g.Valid() && |eb| == g.blocks && |d| == g.DeviceSize() && n0 <= |table0|
    requires Mixed(table, table0, newPtrs, w) && EbinLive(eb, Nz(newPtrs)) && PtrsIn(d, g.c, table0[..n0])
    ensures PtrsIn(d, g.c, table[..n0])
  {
    forall j | 0 <= j < n0 ensures table[j] * g.c + g.c <= |d| {
      if j < w {
        if newPtrs[j] != 0 {
          assert newPtrs[j] in Nz(newPtrs);
          BlockInDevice(g, newPtrs[j]);
          MulMono(newPtrs[j], newPtrs[j] * g.k, g.c)
              by { MulGe(g.k, newPtrs[j]); assert g.k * newPtrs[j] == newPtrs[j] * g.k; }
          Associate(newPtrs[j], g.k, g.c);
          Sizes(g);
        }
      } else {
        assert table0[..n0][j] == table0[j];
      }
    }
  }

  /** The next window of the file's old bytes, zero-filled behind its end, in the unit buffer. */
  method LoadWindow(fs: FsContext, ctx: WriteContext, written: nat, n0: nat, ghost w: nat, ghost table0: seq<nat>,
                    ghost newPtrs: seq<nat>, ghost eb0: seq<EraseBlock>, ghost d0: seq<byte>, ghost oc: set<nat>,
                    ghost ob: set<nat>, ghost exact: bool)
    requires CoreInv(fs) && written == w * fs.g.E() < ctx.ino.size <= n0 * fs.g.c && w < n0 <= |ctx.ino.data| / 4
    requires Mixed(Table(ctx.ino.data), table0, newPtrs, w)
    requires DataStep(fs.g, eb0, d0, fs.eb, fs.disk, {}) && Owned(fs.g, eb0, Clin, table0[..n0], oc, ob, exact)
    requires Owned(fs.g, fs.eb, Ebin, newPtrs, oc + Nz(table0[..n0]), ob, exact)
    requires PtrsIn(d0, fs.g.c, table0[..n0])
    modifies fs`buf
    ensures fs.buf == ConvertWindow(fs.g, d0, table0, n0, ctx.ino.size, w) && |fs.buf| == fs.g.E()
  {
    hide SumInv, EbInv, LiveOk, DataStep, GcInv, TableBytes, Window;
    Sizes(fs.g);
    CoreSizes(fs);
    ghost var size := ctx.ino.size;
    var len := Min(fs.g.E(), ctx.ino.size - written);
    MixedWindow(fs.g, eb0, d0, fs.eb, fs.disk, Table(ctx.ino.data), table0, newPtrs, w, n0, size, len, oc, ob, exact);
    var out := ReadInd(fs, ctx.ino, fs.g.E(), written, fs.g.c, n0);
    fs.buf := Patch(fs.buf, 0, out);
    if |out| < fs.g.E() { fs.buf := Patch(fs.buf, |out|, Zeros(fs.g.E() - |out|)); }
    WindowOf(TableBytes(d0, fs.g.c, table0[..n0], size), fs.g.E(), w, out, fs.buf);
  }

  /** One window: read it, zero its rest, store it, and put the new pointer over an entry already read. */
  method ConvertChunk(fs: FsContext, ctx: WriteContext, written: nat, n0: nat, ghost w: nat, ghost table0: seq<nat>,
                      ghost newPtrs: seq<nat>, ghost eb0: seq<EraseBlock>, ghost d0: seq<byte>, ghost oc: set<nat>,
                      ghost ob: set<nat>, ghost exact: bool) returns (rc: Rc, ghost id: nat)
    requires CoreInv(fs) && ctx.newType == Ebin && ctx.newInd == fs.g.E() && ctx.ino.no < U32
    requires written == w * fs.g.E() < ctx.ino.size <= n0 * fs.g.c && w < n0 <= |ctx.ino.data| / 4
    requires Mixed(Table(ctx.ino.data), table0, newPtrs, w)
    requires DataStep(fs.g, eb0, d0, fs.eb, fs.disk, {}) && Owned(fs.g, eb0, Clin, table0[..n0], oc, ob, exact)
    requires Owned(fs.g, fs.eb, Ebin, newPtrs, oc + Nz(table0[..n0]), ob, exact)
    requires PtrsIn(d0, fs.g.c, table0[..n0])
    modifies fs`eb, fs`gc, fs`sums, fs`disk, fs`writer, fs`buf, ctx`ino
    ensures CoreInv(fs) && DataStep(fs.g, old(fs.eb), old(fs.disk), fs.eb, fs.disk, {})
    ensures |ctx.ino.data| == |old(ctx.ino.data)| && ctx.ino == old(ctx.ino).(data := ctx.ino.data)
    ensures rc.NoSpc? || rc.Ok?
    ensures rc.NoSpc? ==> ctx.ino == old(ctx.ino) && Owned(fs.g, fs.eb, Ebin, newPtrs, oc + Nz(table0[..n0]), ob, exact)
    ensures rc.NoSpc? ==> FewEmpty(fs.g, fs.eb, 0) && fs.eb == old(fs.eb) && fs.disk == old(fs.disk)
    ensures rc.NoSpc? ==> !AllZero(ConvertWindow(fs.g, d0, table0, n0, ctx.ino.size, w))
    ensures rc.Ok? && rc.n != 0 ==> !FewEmpty(fs.g, old(fs.eb), 0)
    ensures rc.Ok? ==>
      && rc.n == (if AllZero(ConvertWindow(fs.g, d0, table0, n0, ctx.ino.size, w)) then 0 else fs.g.E())
      && Mixed(Table(ctx.ino.data), table0, newPtrs + [id], w + 1)
      && Owned(fs.g, fs.eb, Ebin, newPtrs + [id], oc + Nz(table0[..n0]), ob, exact)
      && UnitIs(fs.disk, fs.g.E(), id, ConvertWindow(fs.g, d0, table0, n0, ctx.ino.size, w))
      && (id != 0 ==> WasEmpty(old(fs.eb), id))
  {
    hide SumInv, EbInv, LiveOk, EbinLive, DataStep, GcInv, AllZero, TableBytes, Window, ConvertWindow, NoRoom, FewEmpty,
      OneClinMore, SameEbin;
    Sizes(fs.g);
    CoreSizes(fs);
    LoadWindow(fs, ctx, written, n0, w, table0, newPtrs, eb0, d0, oc, ob, exact);
    OwnedExtend(fs.g, fs.eb, Ebin, newPtrs, newPtrs + [0], oc + Nz(table0[..n0]), ob, exact);
    var ptr: nat;
    rc, ptr := WriteOwned(fs, ctx, fs.buf, newPtrs + [0], w, oc + Nz(table0[..n0]), ob, exact);
    id := ptr;
    if rc.NoSpc? { OwnedPrefix(fs.g, fs.eb, newPtrs, oc + Nz(table0[..n0]), ob, exact); return; }
    assert (newPtrs + [0])[w := id] == newPtrs + [id];
    DivMod(w, fs.g.E(), 0);
    ctx.ino := ctx.ino.(data := SetPtr(ctx.ino.data, written / fs.g.E(), ptr));
  }

  /** The bytes window w of the file had before the conversion. */
  ghost function ConvertWindow(g: Geometry, d0: seq<byte>, table0: seq<nat>, n0: nat, size: nat, w: nat): (r: seq<byte>)
    requires g.c > 0 && n0 <= |table0| && PtrsIn(d0, g.c, table0[..n0]) && size <= n0 * g.c
    ensures |r| == g.E()
  {
    Window(TableBytes(d0, g.c, table0[..n0], size), g.E(), w)
  }

  lemma WindowOf(bytes: seq<byte>, s: nat, w: nat, out: seq<byte>, buf: seq<byte>)
    requires w * s < |bytes| && |out| == Min(s, |bytes| - w * s) && out == bytes[w * s .. w * s + |out|] && |buf| == s
    requires forall x | 0 <= x < s :: buf[x] == if x < |out| then out[x] else 0
    ensures buf == Window(bytes, s, w)
  {
    var win := Window(bytes, s, w);
    forall x: nat | x < s ensures buf[x] == win[x] { }
  }

  lemma OwnedPrefix(g: Geometry, eb: seq<EraseBlock>, a: seq<nat>, oc: set<nat>, ob: set<nat>, exact: bool)
    requires g.k > 0 && Owned(g, eb, Ebin, a + [0], oc, ob, exact)
    ensures Owned(g, eb, Ebin, a, oc, ob, exact)
  {
    NzExtend(a, a + [0]);
    assert forall i | 0 <= i < |a| :: a[i] == (a + [0])[i];
  }

  ghost predicate AllWereEmpty(eb: seq<EraseBlock>, ptrs: seq<nat>) {
    forall b | b in Nz(ptrs) :: WasEmpty(eb, b)
  }

  /** The new erase blocks hold the windows of the old file, none of which is all zeros. */
  ghost predicate Windows(d: seq<byte>, s: nat, newPtrs: seq<nat>, w: nat, bytes: seq<byte>) {
    && |newPtrs| == w
    && forall j: nat | j < w :: UnitIs(d, s, newPtrs[j], Window(bytes, s, j)) && !AllZero(Window(bytes, s, j))
  }

  ghost predicate ZeroWindowAt(bytes: seq<byte>, s: nat, w: nat) {
    w * s < |bytes| && AllZero(Window(bytes, s, w))
  }

  lemma WindowsNext(g: Geometry, eb: seq<EraseBlock>, d: seq<byte>, eb': seq<EraseBlock>, d': seq<byte>,
                    newPtrs: seq<nat>, w: nat, id: nat, bytes: seq<byte>, oc: set<nat>, ob: set<nat>, exact: bool)
    requires g.Valid() && DataStep(g, eb, d, eb', d', {}) && Owned(g, eb, Ebin, newPtrs, oc, ob, exact)
    requires Windows(d, g.E(), newPtrs, w, bytes)
    requires UnitIs(d', g.E(), id, Window(bytes, g.E(), w)) && !AllZero(Window(bytes, g.E(), w))
    ensures Windows(d', g.E(), newPtrs + [id], w + 1, bytes)
  {
    OwnedUnitsKept(g, eb, d, eb', d', {}, Ebin, newPtrs, oc, ob, exact);
    var next := newPtrs + [id];
    forall j: nat | j < w + 1
      ensures UnitIs(d', g.E(), next[j], Window(bytes, g.E(), j)) && !AllZero(Window(bytes, g.E(), j))
    {
      if j < w { assert UnitIs(d, g.E(), newPtrs[j], Window(bytes, g.E(), j)); }
    }
  }

  lemma WereEmptyNext(g: Geometry, eb0: seq<EraseBlock>, d0: seq<byte>, eb: seq<EraseBlock>, d: seq<byte>,
                      newPtrs: seq<nat>, id: nat)
    requires g.Valid() && EbInv(g, eb0) && DataStep(g, eb0, d0, eb, d, {}) && AllWereEmpty(eb0, newPtrs)
    requires id != 0 ==> WasEmpty(eb, id)
    ensures AllWereEmpty(eb0, newPtrs + [id])
  {
    if id != 0 { EmptyBefore(g, eb0, d0, eb, d, {}, id); }
    NzConcat(newPtrs, [id]);
  }

  /** The loop of trunc_clin2ebin. It gives up when space runs out, and spins for ever on a window of zeros. */
  method ConvertLoop(fs: FsContext, ctx: WriteContext, n0: nat,
                     ghost table0: seq<nat>, ghost oc: set<nat>, ghost ob: set<nat>, ghost exact: bool)
    returns (rc: Rc, written: nat, ghost newPtrs: seq<nat>)
    requires CoreInv(fs) && ctx.newType == Ebin && ctx.newInd == fs.g.E() && ctx.ino.no < U32
    requires 0 < ctx.ino.size == ctx.oldSize && n0 == Units(ctx.ino.size, fs.g.c) && n0 <= |ctx.ino.data| / 4
    requires table0 == Table(ctx.ino.data) && Owned(fs.g, fs.eb, Clin, table0[..n0], oc, ob, exact)
    modifies fs`eb, fs`gc, fs`sums, fs`disk, fs`writer, fs`buf, ctx`ino
    ensures CoreInv(fs) && DataStep(fs.g, old(fs.eb), old(fs.disk), fs.eb, fs.disk, {})
    ensures |ctx.ino.data| == |old(ctx.ino.data)| && ctx.ino == old(ctx.ino).(data := ctx.ino.data)
    ensures PtrsIn(old(fs.disk), fs.g.c, table0[..n0]) && old(ctx.ino).size <= n0 * fs.g.c
    ensures AllWereEmpty(old(fs.eb), newPtrs)
    ensures rc.Ok? || rc.NoSpc? || rc.Stalled?
    ensures rc.NoSpc? ==> FewEmpty(fs.g, fs.eb, 0) && |newPtrs| < Units(ctx.oldSize, fs.g.E())
    ensures rc.NoSpc? && newPtrs == [] ==> ctx.ino == old(ctx.ino) && fs.eb == old(fs.eb) && fs.disk == old(fs.disk)
    ensures (rc.NoSpc? && newPtrs != []) || rc.Ok? ==> !FewEmpty(fs.g, old(fs.eb), 0)
    ensures rc.Ok? || rc.NoSpc? ==>
      && Mixed(Table(ctx.ino.data), table0, newPtrs, |newPtrs|)
      && Owned(fs.g, fs.eb, Ebin, newPtrs, oc + Nz(table0[..n0]), ob, exact)
      && written == |newPtrs| * fs.g.E()
    ensures var bytes := TableBytes(old(fs.disk), fs.g.c, table0[..n0], old(ctx.ino).size);
      && (rc.Ok? ==> Windows(fs.disk, fs.g.E(), newPtrs, |newPtrs|, bytes) && |newPtrs| == Units(|bytes|, fs.g.E()))
      && (rc.Stalled? ==> exists w :: ZeroWindowAt(bytes, fs.g.E(), w))
      && (rc.Stalled? ==> ZeroWindowAt(bytes, fs.g.E(), 0) || !FewEmpty(fs.g, old(fs.eb), 0))
      && (rc.NoSpc? && newPtrs == [] ==> !ZeroWindowAt(bytes, fs.g.E(), 0))
  {
    hide SumInv, EbInv, LiveOk, EbinLive, DataStep, GcInv, TableBytes, Window, Windows, Mixed, Owned, AllWereEmpty,
      AllZero, Units, NoRoom, FewEmpty;
    ghost var eb0, d0, ino0, s := fs.eb, fs.disk, ctx.ino, fs.g.E();
    ghost var oldBytes := table0[..n0];
    Sizes(fs.g);
    CoreSizes(fs);
    StepRefl(fs.g, fs.eb, fs.disk);
    OwnedIn(fs.g, fs.eb, fs.disk, Clin, oldBytes, oc, ob, exact);
    UnitsCover(ctx.oldSize, fs.g.c, n0);
    ghost var bytes := TableBytes(d0, fs.g.c, oldBytes, ino0.size);
    written := 0;
    newPtrs := [];
    ghost var w: nat := 0;
    ConvertStart(fs.g, fs.eb, fs.disk, table0, n0, bytes, oc, ob, exact);
    while written < ctx.oldSize
      invariant CoreInv(fs) && DataStep(fs.g, eb0, d0, fs.eb, fs.disk, {})
      invariant |ctx.ino.data| == |ino0.data| && ctx.ino == ino0.(data := ctx.ino.data)
      invariant Mixed(Table(ctx.ino.data), table0, newPtrs, w) && |newPtrs| == w
      invariant Owned(fs.g, fs.eb, Ebin, newPtrs, oc + Nz(oldBytes), ob, exact)
      invariant Windows(fs.disk, s, newPtrs, w, bytes) && AllWereEmpty(eb0, newPtrs)
      invariant WindowCursor(s, w, written, ctx.oldSize)
      invariant if w == 0 then fs.eb == eb0 && fs.disk == d0 && ctx.ino == ino0 else !FewEmpty(fs.g, eb0, 0)
      decreases ctx.oldSize - written
    {
      ghost var eb1, d1, fresh1 := fs.eb, fs.disk, newPtrs;
      WindowCursorIn(fs.g, w, written, ctx.oldSize, n0);
      ghost var id: nat;
      rc, id := ConvertChunk(fs, ctx, written, n0, w, table0, newPtrs, eb0, d0, oc, ob, exact);
      DataTrans(fs.g, eb0, d0, eb1, d1, fs.eb, fs.disk, {}, {});
      if rc.NoSpc? { return; }
      WereEmptyNext(fs.g, eb0, d0, eb1, d1, newPtrs, id);
      newPtrs := newPtrs + [id];
      if rc.n == 0 {
        assert ZeroWindowAt(bytes, s, w);
        return Stalled, written, newPtrs;
      }
      WindowsNext(fs.g, eb1, d1, fs.eb, fs.disk, fresh1, w, id, bytes, oc + Nz(oldBytes), ob, exact);
      written := written + rc.n;
      w := w + 1;
    }
    WindowCursorEnd(s, w, written, ctx.oldSize);
    rc := Ok(0);
  }

  /** After w windows of a file of `size` bytes. */
  ghost predicate WindowCursor(s: nat, w: nat, written: nat, size: nat) {
    written == w * s && s > 0 && (w > 0 ==> (w - 1) * s < size)
  }

  lemma WindowCursorIn(g: Geometry, w: nat, written: nat, size: nat, n0: nat)
    requires g.Valid() && WindowCursor(g.E(), w, written, size) && written < size && n0 == Units(size, g.c)
    ensures written == w * g.E() && w < n0 && size <= n0 * g.c && w < Units(size, g.E())
    ensures WindowCursor(g.E(), w + 1, written + g.E(), size)
  {
    NeverReplaced(g, w, written);
    DivBelow(written, n0, g.c);
    if Units(size, g.E()) <= w { MulMono(Units(size, g.E()), w, g.E()); }
  }

  lemma WindowCursorEnd(s: nat, w: nat, written: nat, size: nat)
    requires WindowCursor(s, w, written, size) && written >= size && size > 0
    ensures w == Units(size, s)
  {
    UnitsFit(size, s, w);
    if Units(size, s) < w { MulMono(Units(size, s), w - 1, s); }
  }

  lemma UnitsCover(size: nat, s: nat, n: nat)
    requires s > 0 && n == Units(size, s)
    ensures size <= n * s
  {
  }

  lemma ConvertStart(g: Geometry, eb: seq<EraseBlock>, d: seq<byte>, table0: seq<nat>, n0: nat, bytes: seq<byte>,
                     oc: set<nat>, ob: set<nat>, exact: bool)
    requires g.Valid() && n0 <= |table0| && Owned(g, eb, Clin, table0[..n0], oc, ob, exact)
    ensures Mixed(table0, table0, [], 0) && Owned(g, eb, Ebin, [], oc + Nz(table0[..n0]), ob, exact)
    ensures Windows(d, g.E(), [], 0, bytes) && AllWereEmpty(eb, []) && g.E() > 0 && WindowCursor(g.E(), 0, 0, |bytes|)
  {
    Sizes(g);
    assert Nz([]) == {};
    assert ob + {} == ob;
  }

  /** Once a window of zeros has been met, the next turn of the loop reads the same window of zeros again. */
  lemma StallRepeats(g: Geometry, d0: seq<byte>, d: seq<byte>, table: seq<nat>, table0: seq<nat>, newPtrs: seq<nat>,
                     w: nat, n0: nat, size: nat, len: nat)
    requires g.Valid() && n0 <= |table0| && Mixed(table, table0, newPtrs + [0], w + 1)
    requires PtrsIn(d0, g.c, table0[..n0]) && PtrsIn(d, g.c, table[..n0]) && size <= n0 * g.c
    requires PtrsIn(d, g.c, table0[..n0])
    requires forall j | w <= j < n0 :: UnitAt(d, g.c, table0[..n0][j]) == UnitAt(d0, g.c, table0[..n0][j])
    requires ZeroWindowAt(TableBytes(d0, g.c, table0[..n0], size), g.E(), w)
    requires len == Min(g.E(), size - w * g.E())
    ensures AllZero(TableBytes(d, g.c, table[..n0], size)[w * g.E() .. w * g.E() + len])
  {
    var a, b := TableBytes(d, g.c, table[..n0], size), TableBytes(d0, g.c, table0[..n0], size);
    forall x | w * g.E() <= x < w * g.E() + len ensures a[x] == 0 {
      NeverReplaced(g, w, x);
      DivBelow(x, n0, g.c);
      var j := x / g.c;
      if j == w {
        assert table[..n0][j] == 0;
      } else {
        assert table[..n0][j] == table0[..n0][j];
        assert b[x] == Window(b, g.E(), w)[x - w * g.E()];
      }
    }
  }

  /** What the file reads as once the new pointers are in place. */
  lemma WindowSpells(d: seq<byte>, s: nat, p: nat, j: nat, bytes: seq<byte>, size: nat)
    requires s > 0 && s <= |d| && UnitIs(d, s, p, Window(bytes, s, j)) && |bytes| <= size
    ensures Spells(d, s, p, j, Splice(bytes, [], size))
  {
  }

  lemma ConvertedSpells(d: seq<byte>, s: nat, newPtrs: seq<nat>, ptrs: seq<nat>, bytes: seq<byte>, size: nat)
    requires s > 0 && s <= |d| && Windows(d, s, newPtrs, |newPtrs|, bytes) && |newPtrs| == Units(|bytes|, s)
    requires |bytes| <= size && newPtrs <= ptrs && forall j | |newPtrs| <= j < |ptrs| :: ptrs[j] == 0
    ensures SpellsBelow(d, s, ptrs, |ptrs|, Splice(bytes, [], size))
  {
    forall j: nat | j < |ptrs| ensures Spells(d, s, ptrs[j], j, Splice(bytes, [], size)) {
      if j < |newPtrs| {
        WindowSpells(d, s, newPtrs[j], j, bytes, size);
      } else {
        MulMono(|newPtrs|, j, s);
        HoleSpells(d, s, j, Splice(bytes, [], size));
      }
    }
  }

  lemma NoZeroWindow(d: seq<byte>, s: nat, newPtrs: seq<nat>, bytes: seq<byte>)
    requires s > 0 && Windows(d, s, newPtrs, |newPtrs|, bytes) && |newPtrs| == Units(|bytes|, s)
    ensures forall w :: !ZeroWindowAt(bytes, s, w)
  {
    forall w: nat | w * s < |bytes| ensures !AllZero(Window(bytes, s, w)) {
      if w >= |newPtrs| { MulMono(|newPtrs|, w, s); }
      assert UnitIs(d, s, newPtrs[w], Window(bytes, s, w));
    }
  }

  /**
   * ind_from_offset(written - 1, erasesize) + 1 with nothing written: the offset wraps around at 64 bits, the
   * quotient is cut to 32, and the sum is handed on as an int.
   */
  function UndoCount(e: nat): int
    requires e > 0
  {
    DivBounds(U64 - 1, e);
    var n := ((U64 - 1) / e % U32 + 1) % U32;
    if n < 0x8000_0000 then n else n - U32
  }

  /** For an erase block size that divides 2^32, which are the powers of two, the count is zero. */
  lemma UndoCountOfPower(e: nat, r: nat)
    requires e > 0 && r > 0 && e * r == U32
    ensures UndoCount(e) == 0
  {
    var q := U32 * r;
    assert e * q == U64 by { assert e * (U32 * r) == U32 * (e * r); }
    assert (q - 1) * e + (e - 1) == U64 - 1 by { assert (q - 1) * e == q * e - e; }
    DivMod(q - 1, e, e - 1);
    assert q - 1 == (r - 1) * U32 + (U32 - 1);
    DivMod(r - 1, U32, U32 - 1);
  }

  /** The undo takes back just what was taken: a block has been, or the count for none is not above zero. */
  ghost predicate UndoClean(g: Geometry, eb: seq<EraseBlock>)
    requires g.Valid()
  {
    Sizes(g);
    !FewEmpty(g, eb, 0) || UndoCount(g.E()) <= 0
  }

  /** The cluster pointers the undo takes for erase blocks before it leaves the table. */
  function StrayPtrs(g: Geometry, ino: Inode): seq<nat>
    requires g.Valid()
  {
    Sizes(g);
    if UndoCount(g.E()) <= 0 then [] else Table(ino.data)[..Min(UndoCount(g.E()), |Table(ino.data)|)]
  }

  /** Every block named is marked as empty. Entries that name no block lie behind the usage records. */
  function Strayed(eb: seq<EraseBlock>, ptrs: seq<nat>): (r: seq<EraseBlock>)
    ensures |r| == |eb|
  {
    seq(|eb|, b requires 0 <= b < |eb| => if b != 0 && b in ptrs then eb[b].(etype := Empty) else eb[b])
  }

  /** That does no harm exactly if every block named is empty already, or holds data of nobody. */
  lemma StrayedHarms(g: Geometry, eb: seq<EraseBlock>, ptrs: seq<nat>, ob: set<nat>)
    requires g.Valid() && EbInv(g, eb) && EbinLive(eb, ob)
    ensures EbInv(g, Strayed(eb, ptrs)) && EbinLive(Strayed(eb, ptrs), ob) <==>
      forall p | p in ptrs && 0 < p < |eb| :: eb[p].etype == Empty || (eb[p].etype == EbinBlk && p !in ob)
  {
    hide EbInv, CountEmpty;
    var eb' := Strayed(eb, ptrs);
    if forall p | p in ptrs && 0 < p < |eb| :: eb[p].etype == Empty || (eb[p].etype == EbinBlk && p !in ob) {
      StrayedKeeps(g, eb, ptrs);
    }
    if EbInv(g, eb') && EbinLive(eb', ob) {
      forall p | p in ptrs && 0 < p < |eb| ensures eb[p].etype == Empty || (eb[p].etype == EbinBlk && p !in ob) {
        StrayedBlock(g, eb, eb', p);
      }
    }
  }

  lemma StrayedBlock(g: Geometry, eb: seq<EraseBlock>, eb': seq<EraseBlock>, p: nat)
    requires EbInv(g, eb) && EbInv(g, eb') && |eb'| == |eb| && 1 <= p < |eb| && eb'[p] == eb[p].(etype := Empty)
    ensures eb[p].etype == Empty || eb[p].etype == EbinBlk
  {
    assert BlockOk(g, eb'[p]) && BlockOk(g, eb[p]);
  }

  lemma StrayedKeeps(g: Geometry, eb: seq<EraseBlock>, ptrs: seq<nat>)
    requires g.Valid() && EbInv(g, eb)
    requires forall p | p in ptrs && 0 < p < |eb| :: eb[p].etype == Empty || eb[p].etype == EbinBlk
    ensures EbInv(g, Strayed(eb, ptrs))
  {
    hide CountEmpty;
    var eb' := Strayed(eb, ptrs);
    forall i | 1 <= i < |eb'| ensures BlockOk(g, eb'[i]) { assert BlockOk(g, eb[i]); }
    StrayedCount(eb, ptrs, |eb|);
    assert OneOpen(g, eb');
  }

  lemma {:induction false} StrayedCount(eb: seq<EraseBlock>, ptrs: seq<nat>, n: nat)
    requires n <= |eb|
    ensures CountEmpty(Strayed(eb, ptrs), n) >= CountEmpty(eb, n)
  {
    if n > 1 { StrayedCount(eb, ptrs, n - 1); }
  }

  /** invalidate_ind_ptr on a table that holds cluster pointers, as if they were erase blocks. */
  method InvalidateStray(fs: FsContext, ptrs: seq<nat>)
    modifies fs`eb
    ensures fs.eb == Strayed(old(fs.eb), ptrs)
  {
    ghost var eb0 := fs.eb;
    var i := 0;
    while i < |ptrs|
      invariant 0 <= i <= |ptrs| && fs.eb == Strayed(eb0, ptrs[..i])
    {
      var p := ptrs[i];
      assert ptrs[..i + 1] == ptrs[..i] + [p];
      if p != 0 && p < |fs.eb| { fs.eb := fs.eb[p := fs.eb[p].(etype := Empty)]; }
      i := i + 1;
    }
    assert ptrs[..i] == ptrs;
  }

  /**
   * Out of space: the new erase blocks are emptied again and the old pointers put back. With nothing written the
   * number of entries to take back has wrapped around, and if it comes out positive they are the old pointers.
   */
  method ConvertUndo(fs: FsContext, ctx: WriteContext, written: nat, oldPtr: seq<byte>, ghost n0: nat,
                     ghost table0: seq<nat>, ghost newPtrs: seq<nat>, ghost eb0: seq<EraseBlock>, ghost d0: seq<byte>,
                     ghost oc: set<nat>, ghost ob: set<nat>, ghost exact: bool) returns (rc: Rc)
    requires CoreInv(fs) && DataStep(fs.g, eb0, d0, fs.eb, fs.disk, {})
    requires n0 <= |table0| && Owned(fs.g, eb0, Clin, table0[..n0], oc, ob, exact)
    requires Mixed(Table(ctx.ino.data), table0, newPtrs, |newPtrs|) && written == |newPtrs| * fs.g.E()
    requires Owned(fs.g, fs.eb, Ebin, newPtrs, oc + Nz(table0[..n0]), ob, exact) && AllWereEmpty(eb0, newPtrs)
    modifies fs`eb, ctx`ino
    ensures fs.g.E() > 0 && rc == (if written == 0 && UndoCount(fs.g.E()) > 0 then Astray else NoSpc)
    ensures rc.NoSpc? ==>
      && CoreInv(fs) && DataStep(fs.g, eb0, d0, fs.eb, fs.disk, {})
      && Owned(fs.g, fs.eb, Clin, table0[..n0], oc, ob, exact)
      && CountEmpty(fs.eb, |fs.eb|) <= CountEmpty(old(fs.eb), |old(fs.eb)|) + |newPtrs|
    ensures ctx.ino == old(ctx.ino).(data := oldPtr)
    ensures rc.Astray? ==> fs.eb == Strayed(old(fs.eb), StrayPtrs(fs.g, old(ctx.ino)))
  {
    hide SumInv, EbInv, LiveOk, EbinLive, DataStep, GcInv, CountEmpty, UndoCount, Strayed;
    Sizes(fs.g);
    ghost var eb1, oldBytes := fs.eb, table0[..n0];
    if written > 0 { LastOfSize(written, fs.g.E()); WrittenUnits(fs.g.E(), |newPtrs|); }
    var cnt := if written == 0 then UndoCount(fs.g.E()) else IndFromOffset(fs.g.E(), written - 1) + 1;
    if written == 0 && |newPtrs| > 0 { MulGe(|newPtrs|, fs.g.E()); }
    if written == 0 && cnt > 0 {
      InvalidateStray(fs, Table(ctx.ino.data)[..Min(cnt, |Table(ctx.ino.data)|)]);
      ctx.ino := ctx.ino.(data := oldPtr);
      return Astray;
    }
    var taken: nat := if cnt < 0 then 0 else cnt;
    assert taken == |newPtrs|;
    assert Table(ctx.ino.data)[..taken] == newPtrs;
    InvalidateEbin(fs, Table(ctx.ino.data)[..taken], oc + Nz(oldBytes), ob + Nz(newPtrs), exact);
    assert ob + Nz(newPtrs) - Nz(newPtrs) == ob;
    DataTrans(fs.g, eb0, d0, eb1, fs.disk, fs.eb, fs.disk, {}, Nz(newPtrs));
    ctx.ino := ctx.ino.(data := oldPtr);
    rc := NoSpc;
  }

  lemma WrittenUnits(s: nat, w: nat)
    requires s > 0
    ensures Units(w * s, s) == w
  {
    UnitsFit(w * s, s, w);
    if Units(w * s, s) < w { MulMono(Units(w * s, s), w, s); }
  }

  /** The old clusters are released, the rest of the new table becomes holes, the type tag changes. */
  method ConvertFinish(fs: FsContext, ctx: WriteContext, oldPtrs: seq<nat>, n: nat, written: nat,
                       ghost table0: seq<nat>, ghost newPtrs: seq<nat>, ghost oc: set<nat>, ghost ob: set<nat>,
                       ghost exact: bool)
    requires CoreInv(fs) && ctx.newInd == fs.g.E() && ctx.ino.Type() == Clin
    requires Distinct(oldPtrs) && Nz(oldPtrs) !! oc
    requires Mixed(Table(ctx.ino.data), table0, newPtrs, |newPtrs|) && written == |newPtrs| * fs.g.E() && written > 0
    requires Owned(fs.g, fs.eb, Ebin, newPtrs, oc + Nz(oldPtrs), ob, exact)
    requires |newPtrs| <= n == Units(ctx.newSize, fs.g.E()) && n <= |ctx.ino.data| / 4
    modifies fs`eb, ctx`ino
    ensures CoreInv(fs) && DataStep(fs.g, old(fs.eb), fs.disk, fs.eb, fs.disk, {})
    ensures |ctx.ino.data| == |old(ctx.ino.data)| && ctx.ino.Type() == Ebin
    ensures ctx.ino == old(ctx.ino).(data := ctx.ino.data, flags := ctx.ino.flags)
    ensures SameHigh(ctx.ino.flags, old(ctx.ino.flags))
    ensures newPtrs <= Front(ctx.ino, n) && forall j | |newPtrs| <= j < n :: Front(ctx.ino, n)[j] == 0
    ensures Owned(fs.g, fs.eb, Ebin, Front(ctx.ino, n), oc, ob, exact)
  {
    hide SumInv, EbInv, LiveOk, EbinLive, DataStep, GcInv;
    Sizes(fs.g);
    InvalidateClin(fs, oldPtrs, oc + Nz(oldPtrs), ob + Nz(newPtrs), exact);
    assert oc + Nz(oldPtrs) - Nz(oldPtrs) == oc;
    WrittenUnits(fs.g.E(), |newPtrs|);
    LastOfSize(written, fs.g.E());
    LastOfSize(ctx.newSize, fs.g.E());
    var indFirst := IndFromOffset(fs.g.E(), written - 1);
    var indLast := IndFromOffset(fs.g.E(), ctx.newSize - 1);
    ZeroPtrs(ctx, indFirst + 1, indLast + 1);
    ctx.ino := ctx.ino.(flags := SwapType(ctx.ino.flags, Clin, Ebin));
    OwnedExtend(fs.g, fs.eb, Ebin, newPtrs, Front(ctx.ino, n), oc, ob, exact);
  }

  lemma ConvertedSize(g: Geometry, newPtrs: seq<nat>, oldSize: nat, newSize: nat)
    requires g.Valid() && |newPtrs| == Units(oldSize, UnitSize(g, Ebin)) && 0 < oldSize <= newSize
    ensures 0 < |newPtrs| <= Units(newSize, g.E()) && |newPtrs| * g.E() > 0
  {
    Sizes(g);
    UnitsMono(oldSize, newSize, g.E());
    MulGe(|newPtrs|, g.E());
  }

  /**
   * trunc_clin2ebin. On success every byte of the file is where it was, new space reads as zeros, and the
   * old clusters are released; without space everything is put back, exactly under UndoClean.
   */
  method TruncClin2Ebin(fs: FsContext, ctx: WriteContext, n0: nat, n: nat,
                        ghost oc: set<nat>, ghost ob: set<nat>, ghost exact: bool)
    returns (rc: Rc, ghost ptrs: seq<nat>)
    requires CoreInv(fs) && ctx.newType == Ebin && ctx.newInd == fs.g.E() && ctx.ino.no < U32
    requires ctx.ino.Type() == ctx.oldType == Clin && 0 < ctx.ino.size == ctx.oldSize <= ctx.newSize
    requires n0 == Units(ctx.oldSize, fs.g.c) && n0 <= |ctx.ino.data| / 4
    requires n == Units(ctx.newSize, fs.g.E()) && n <= |ctx.ino.data| / 4
    requires Owned(fs.g, fs.eb, Clin, Front(ctx.ino, n0), oc, ob, exact)
    modifies fs`eb, fs`gc, fs`sums, fs`disk, fs`writer, fs`buf, ctx`ino
    ensures rc.Ok? || rc.NoSpc? || rc.Stalled? || rc.Astray?
    ensures !rc.Astray? ==> CoreInv(fs) && DataStep(fs.g, old(fs.eb), old(fs.disk), fs.eb, fs.disk, {})
    ensures rc.Astray? ==>
      && ctx.ino == old(ctx.ino) && fs.disk == old(fs.disk)
      && fs.eb == Strayed(old(fs.eb), StrayPtrs(fs.g, old(ctx.ino)))
    ensures rc.NoSpc? ==> ctx.ino == old(ctx.ino) && Owned(fs.g, fs.eb, Clin, Front(ctx.ino, n0), oc, ob, exact)
    ensures rc.NoSpc? ==> FewEmpty(fs.g, fs.eb, Units(ctx.oldSize, fs.g.E()) - 1)
    ensures PtrsIn(old(fs.disk), fs.g.c, Front(old(ctx.ino), n0)) && ctx.oldSize <= n0 * fs.g.c
    ensures rc.Ok? ==>
      && |ctx.ino.data| == |old(ctx.ino.data)| && ctx.ino.Type() == Ebin
      && ctx.ino == old(ctx.ino).(data := ctx.ino.data, flags := ctx.ino.flags)
      && SameHigh(ctx.ino.flags, old(ctx.ino.flags))
      && Front(ctx.ino, n) == ptrs && Owned(fs.g, fs.eb, Ebin, ptrs, oc, ob, exact) && AllWereEmpty(old(fs.eb), ptrs)
    ensures var bytes := TableBytes(old(fs.disk), fs.g.c, Front(old(ctx.ino), n0), ctx.oldSize);
      && (rc.Ok? ==> SpellsBelow(fs.disk, fs.g.E(), ptrs, n, Splice(bytes, [], ctx.newSize)))
      && (rc.Ok? ==> forall w :: !ZeroWindowAt(bytes, fs.g.E(), w))
      && (rc.Stalled? ==> exists w :: ZeroWindowAt(bytes, fs.g.E(), w))
      && (rc.Astray? <==> !UndoClean(fs.g, old(fs.eb)) && !ZeroWindowAt(bytes, fs.g.E(), 0))
  {
    hide SumInv, EbInv, LiveOk, EbinLive, DataStep, GcInv, TableBytes, Windows, Mixed, Units, SpellsBelow, ZeroWindowAt,
      Kept, CountEmpty, UndoCount, StrayPtrs, Strayed;
    Sizes(fs.g);
    CoreSizes(fs);
    ghost var eb0, d0, ino0, table0 := fs.eb, fs.disk, ctx.ino, Table(ctx.ino.data);
    ghost var bytes;
    ptrs := [];
    var oldPtr := ctx.ino.data;
    LastOfSize(ctx.oldSize, fs.g.c);
    var oldPtrCnt := IndFromOffset(fs.g.c, ctx.oldSize - 1) + 1;
    var written: nat;
    ghost var newPtrs: seq<nat>;
    rc, written, newPtrs := ConvertLoop(fs, ctx, n0, table0, oc, ob, exact);
    bytes := TableBytes(d0, fs.g.c, table0[..n0], ctx.oldSize);
    if rc.Stalled? { return; }
    ghost var eb1, d1 := fs.eb, fs.disk;
    if rc.NoSpc? {
      rc := ConvertUndo(fs, ctx, written, oldPtr, n0, table0, newPtrs, eb0, d0, oc, ob, exact);
      return;
    }
    ConvertedSize(fs.g, newPtrs, ctx.oldSize, ctx.newSize);
    ConvertFinish(fs, ctx, Table(oldPtr)[..oldPtrCnt], n, written, table0, newPtrs, oc, ob, exact);
    DataTrans(fs.g, eb0, d0, eb1, d1, fs.eb, fs.disk, {}, {});
    ptrs := Front(ctx.ino, n);
    ConvertedSpells(fs.disk, fs.g.E(), newPtrs, ptrs, bytes, ctx.newSize);
    NoZeroWindow(fs.disk, fs.g.E(), newPtrs, bytes);
    assert AllWereEmpty(eb0, ptrs) by { NzExtend(newPtrs, ptrs); }
  }
}
