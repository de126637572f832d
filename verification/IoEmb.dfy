/** io.cpp: write_emb and trunc_emb2ind, files that start out inside their inode. */
module IoEmb {
  import opened Basics
  import opened Layout
  import opened EraseBlk
  import opened Summaries
  import opened Allocator
  import opened FileData
  import opened IoUnits

  /** Writes hole pointers to the entries from .. to-1 of the pointer table. */
  method ZeroPtrs(ctx: WriteContext, from: nat, to: nat)
    requires to <= |ctx.ino.data| / 4
    modifies ctx`ino
    ensures |ctx.ino.data| == |old(ctx.ino.data)| && ctx.ino == old(ctx.ino).(data := ctx.ino.data)
    ensures forall j | 0 <= j < |Table(ctx.ino.data)| ::
              Table(ctx.ino.data)[j] == if from <= j < to then 0 else old(Table(ctx.ino.data))[j]
  {
    var i := from;
    while i < to
      invariant from <= i && (i <= to || i == from)
      invariant |ctx.ino.data| == |old(ctx.ino.data)| && ctx.ino == old(ctx.ino).(data := ctx.ino.data)
      invariant forall j | 0 <= j < |Table(ctx.ino.data)| ::
                  Table(ctx.ino.data)[j] == if from <= j < i then 0 else old(Table(ctx.ino.data))[j]
    {
      ctx.ino := ctx.ino.(data := SetPtr(ctx.ino.data, i, 0));
      i := i + 1;
    }
  }

  /** The last unit of a file of this size. */
  lemma LastOfSize(size: nat, s: nat)
    requires s > 0 && size > 0
    ensures IndFromOffset(s, size - 1) + 1 == Units(size, s)
  {
  }

  /** A table with one pointer in front and holes behind it. */
  function OnlyFirst(id: nat, n: nat): (r: seq<nat>)
    requires n >= 1
    ensures |r| == n && r[0] == id && forall j | 1 <= j < n :: r[j] == 0
  {
    [id] + seq(n - 1, i => 0)
  }

  lemma NoPtrsOwned(g: Geometry, eb: seq<EraseBlock>, t: DataType, n: nat, oc: set<nat>, ob: set<nat>, exact: bool)
    requires g.k > 0 && n >= 1 && LiveOk(g, eb, oc, exact) && EbinLive(eb, ob)
    ensures Owned(g, eb, t, OnlyFirst(0, n), oc, ob, exact)
  {
    assert Nz(OnlyFirst(0, n)) == {};
    assert oc + {} == oc && ob + {} == ob;
  }

  /**
   * trunc_emb2ind: the first unit goes out, the entries behind it become holes, the type tag changes.
   * The last entry is left as it was, so it still shows embedded bytes unless it is also the first.
   */
  method TruncEmb2Ind(fs: FsContext, ctx: WriteContext, indBuf: seq<byte>, n: nat,
                      ghost oc: set<nat>, ghost ob: set<nat>, ghost exact: bool) returns (rc: Rc, ghost ptrs: seq<nat>)
    requires DataInv(fs, oc, ob, exact) && (ctx.newType == Clin || ctx.newType == Ebin)
    requires ctx.newInd == UnitSize(fs.g, ctx.newType) == |indBuf| && ctx.newInd > 0 && ctx.ino.no < U32
    requires ctx.newSize > 0 && n == Units(ctx.newSize, ctx.newInd) && n <= |ctx.ino.data| / 4
    requires ctx.ino.Type() == ctx.oldType == Emb
    modifies fs`eb, fs`gc, fs`sums, fs`disk, fs`writer, ctx`ino
    ensures CoreInv(fs) && DataStep(fs.g, old(fs.eb), old(fs.disk), fs.eb, fs.disk, {})
    ensures rc.NoSpc? || rc == Ok(0)
    ensures rc.NoSpc? ==> NoRoom(fs.g, fs.eb, ctx.newType, old(ctx.ino).IsDir())
    ensures |ptrs| == n && forall j | 1 <= j < n :: ptrs[j] == 0
    ensures Owned(fs.g, fs.eb, ctx.newType, ptrs, oc, ob, exact)
    ensures rc.Ok? ==>
      && UnitIs(fs.disk, ctx.newInd, ptrs[0], indBuf)
      && |ctx.ino.data| == |old(ctx.ino.data)| && ctx.ino.Type() == ctx.newType
      && ctx.ino == old(ctx.ino).(data := ctx.ino.data, flags := ctx.ino.flags)
      && SameHigh(ctx.ino.flags, old(ctx.ino.flags))
      && forall j | 0 <= j < n && (j == 0 || j < n - 1) :: Front(ctx.ino, n)[j] == ptrs[j]
    ensures rc.Ok? && n > 1 ==> Front(ctx.ino, n)[n - 1] == Front(old(ctx.ino), n)[n - 1]
    ensures rc.Ok? && ctx.newType == Ebin && n > 0 ==> SameEbin(old(fs.eb), fs.eb, ptrs[0])
    ensures rc.Ok? && ctx.newType == Clin && n > 0 ==> OneClinMore(fs.g, old(fs.eb), fs.eb, ptrs[0])
  {
    hide SumInv, EbInv, GcInv, DataStep, Owned, UnitIs, Kept, LiveOk, EbinLive, NoRoom, OneClinMore;
    ptrs := OnlyFirst(0, n);
    NoPtrsOwned(fs.g, fs.eb, ctx.newType, n, oc, ob, exact);
    var id;
    rc, id := WriteOwned(fs, ctx, indBuf, ptrs, 0, oc, ob, exact);
    if rc.NoSpc? { return; }
    ptrs := ptrs[0 := id];
    ctx.ino := ctx.ino.(data := SetPtr(ctx.ino.data, 0, id));
    LastOfSize(ctx.newSize, ctx.newInd);
    var indLast := IndFromOffset(ctx.newInd, ctx.newSize - 1);
    ZeroPtrs(ctx, 1, indLast);
    ctx.ino := ctx.ino.(flags := SwapType(ctx.ino.flags, ctx.oldType, ctx.newType));
    rc := Ok(0);
  }

  // ---------------------------------------------------------- write_emb

  /** The embedded bytes after a write, or a change of size, that stays inside the inode. */
  method WriteEmbOnly(ctx: WriteContext) returns (rc: Rc)
    requires ctx.oldSize <= |ctx.ino.data| && ctx.newSize <= |ctx.ino.data|
    requires |ctx.buf| > 0 ==> ctx.newSize == Max(ctx.oldSize, ctx.offset + |ctx.buf|)
    requires |ctx.buf| == 0 ==> ctx.offset == ctx.newSize
    modifies ctx`ino
    ensures rc == Ok(|ctx.buf|)
    ensures |ctx.ino.data| == |old(ctx.ino.data)| && ctx.ino == old(ctx.ino).(data := ctx.ino.data)
    ensures ctx.ino.data[..ctx.newSize] == Splice(old(ctx.ino.data)[..ctx.oldSize], ctx.buf, ctx.offset)[..ctx.newSize]
  {
    var d := ctx.ino.data;
    if ctx.newSize > ctx.oldSize {
      d := Patch(d, ctx.oldSize, Zeros(ctx.newSize - ctx.oldSize));
    }
    d := Patch(d, ctx.offset, ctx.buf);
    ctx.ino := ctx.ino.(data := d);
    rc := Ok(|ctx.buf|);
  }

  /** The embedded bytes, zeros behind them and the user's first bytes on top: the first unit of the spliced file. */
  lemma FirstBytes(buf0: seq<byte>, oldBytes: seq<byte>, user: seq<byte>, off: nat, s: nat, buf: seq<byte>)
    requires |oldBytes| <= s <= |buf0| && buf == Patch(Patch(buf0, 0, oldBytes), |oldBytes|, Zeros(s - |oldBytes|))
    ensures off >= s ==>
      forall x: nat | x < s && x < |Splice(oldBytes, user, off)| :: buf[x] == Splice(oldBytes, user, off)[x]
    ensures off < s ==> var buf' := Overlay(buf, user, off, Min(|user|, s - off));
      forall x: nat | x < s && x < |Splice(oldBytes, user, off)| :: buf'[x] == Splice(oldBytes, user, off)[x]
  {
  }

  /** The bytes to write do not start before unit m, unless it is the first or the second. */
  predicate StartsBehind(m: nat, s: nat, off: nat) { m > 1 ==> m * s <= off }

  /** The first unit of a file that leaves its inode, before it is stored. */
  method FirstUnit(fs: FsContext, ctx: WriteContext, ghost oc: set<nat>, ghost ob: set<nat>, ghost exact: bool)
    returns (idx: nat, o: nat)
    requires DataInv(fs, oc, ob, exact)
    requires 0 < ctx.newInd <= |fs.buf| && ctx.oldSize <= |ctx.ino.data| && ctx.oldSize <= ctx.newInd
    requires ctx.newSize == ctx.offset + |ctx.buf| && ctx.newSize >= ctx.oldSize && ctx.newSize > 0
    modifies fs`buf, ctx`buf
    ensures |fs.buf| == |old(fs.buf)| && DataInv(fs, oc, ob, exact)
    ensures var bytes := Splice(ctx.ino.data[..ctx.oldSize], old(ctx.buf), ctx.offset);
      forall x: nat | x < ctx.newInd && x < |bytes| :: fs.buf[x] == bytes[x]
    ensures idx >= 1 && o < ctx.newInd && |ctx.buf| <= |old(ctx.buf)|
    ensures ctx.buf == old(ctx.buf)[|old(ctx.buf)| - |ctx.buf|..]
    ensures |old(ctx.buf)| > 0 ==> Cursor(ctx.newInd, idx, o, ctx.offset, |old(ctx.buf)| - |ctx.buf|, |old(ctx.buf)|)
    ensures StartsBehind(idx, ctx.newInd, ctx.offset)
    ensures |ctx.buf| < |old(ctx.buf)| ==> idx == 1
  {
    hide Splice, SumInv, EbInv, LiveOk, EbinLive, GcInv;
    ghost var buf0, user, oldBytes := fs.buf, ctx.buf, ctx.ino.data[..ctx.oldSize];
    fs.buf := Patch(fs.buf, 0, ctx.ino.data[..ctx.oldSize]);
    fs.buf := Patch(fs.buf, ctx.oldSize, Zeros(ctx.newInd - ctx.oldSize));
    FirstBytes(buf0, oldBytes, user, ctx.offset, ctx.newInd, fs.buf);
    FirstCursor(ctx.newInd, ctx.offset, |ctx.buf|);
    hide Patch, Overlay, Cursor, IndFromOffset, OffsetInInd, StartsBehind;
    idx := IndFromOffset(ctx.newInd, ctx.offset);
    o := OffsetInInd(ctx.newInd, ctx.offset);
    if idx == 0 {
      var left := Min(|ctx.buf|, ctx.newInd - o);
      fs.buf := Overlay(fs.buf, ctx.buf, o, left);
      ctx.buf := ctx.buf[left..];
      o := 0;
      idx := 1;
    }
  }

  lemma ValidUnits(fs: FsContext, oc: set<nat>, ob: set<nat>, exact: bool, t: DataType)
    requires DataInv(fs, oc, ob, exact) && (t == Clin || t == Ebin)
    ensures 0 < fs.g.c <= UnitSize(fs.g, t) <= fs.g.E() <= fs.g.DeviceSize()
  {
    UnitRange(fs.g, t);
  }

  lemma BufSizes(fs: FsContext, oc: set<nat>, ob: set<nat>, exact: bool)
    requires DataInv(fs, oc, ob, exact)
    ensures |fs.disk| == fs.g.DeviceSize() && |fs.buf| == fs.g.E()
  {
  }

  lemma UnitRange(g: Geometry, t: DataType)
    requires g.Valid() && (t == Clin || t == Ebin)
    ensures g.c <= UnitSize(g, t) <= g.E() <= g.DeviceSize()
  {
    Sizes(g);
  }

  /** Where the bytes behind the first unit start. */
  lemma FirstCursor(s: nat, off: nat, len: nat)
    requires s > 0
    ensures var idx, o := IndFromOffset(s, off), OffsetInInd(s, off);
      && (idx == 0 <==> off < s) && (idx == 0 ==> o == off) && StartsBehind(idx, s, off) && StartsBehind(1, s, off)
      && (len > 0 && idx == 0 ==> Cursor(s, 1, 0, off, Min(len, s - off), len))
      && (len > 0 && idx > 0 ==> Cursor(s, idx, o, off, 0, len))
  {
    DivBounds(off, s);
    DivBelow(off, 1, s);
  }

  predicate ZeroUpTo(buf: seq<byte>, o: nat) { o <= |buf| && forall x | 0 <= x < o :: buf[x] == 0 }

  lemma HoleSpells(d: seq<byte>, s: nat, j: nat, bytes: seq<byte>)
    requires s <= |d| && forall x | j * s <= x < j * s + s && x < |bytes| :: bytes[x] == 0
    ensures Spells(d, s, 0, j, bytes)
  {
  }

  lemma EmbBytes(s: nat, base: nat, o: nat, off: nat, done: nat, user: seq<byte>, oldBytes: seq<byte>,
                 left: nat, buf: seq<byte>, buf': seq<byte>)
    requires done < |user| && o < s && (done > 0 ==> o == 0) && base + o == off + done
    requires left == Min(|user| - done, s - o)
    requires |oldBytes| <= s <= base && |oldBytes| <= off + |user| && s <= |buf|
    requires ZeroUpTo(buf, o) && buf' == Overlay(buf, user[done..], o, left)
    ensures forall x: nat | x < s && base + x < off + |user| :: buf'[x] == Splice(oldBytes, user, off)[base + x]
  {
  }

  /** The unit write_emb stores at index idx holds its share of the file. */
  lemma EmbUnit(d: seq<byte>, s: nat, id: nat, idx: nat, o: nat, off: nat, done: nat, user: seq<byte>,
                oldBytes: seq<byte>, left: nat, buf: seq<byte>, buf': seq<byte>)
    requires done < |user| && Cursor(s, idx, o, off, done, |user|) && left == Min(|user| - done, s - o)
    requires |oldBytes| <= s && idx >= 1 && |oldBytes| <= off + |user| && s <= |buf|
    requires ZeroUpTo(buf, o) && buf' == Overlay(buf, user[done..], o, left)
    requires UnitIs(d, s, id, buf'[..s])
    ensures Spells(d, s, id, idx, Splice(oldBytes, user, off))
    ensures Cursor(s, idx + 1, 0, off, done + left, |user|)
  {
    MulGe(idx, s);
    EmbBytes(s, idx * s, o, off, done, user, oldBytes, left, buf, buf');
    CursorNext(s, idx, o, off, done, |user|, left);
    assert |Splice(oldBytes, user, off)| == off + |user|;
  }

  /** The units of `ptrs` below `m` spell `bytes`. */
  ghost predicate SpellsBelow(d: seq<byte>, s: nat, ptrs: seq<nat>, m: nat, bytes: seq<byte>) {
    m <= |ptrs| && forall j: nat | j < m :: Spells(d, s, ptrs[j], j, bytes)
  }

  lemma SpellsKept(g: Geometry, eb: seq<EraseBlock>, d: seq<byte>, eb': seq<EraseBlock>, d': seq<byte>,
                   t: DataType, ptrs: seq<nat>, m: nat, bytes: seq<byte>, oc: set<nat>, ob: set<nat>, exact: bool)
    requires g.Valid() && DataStep(g, eb, d, eb', d', {}) && Owned(g, eb, t, ptrs, oc, ob, exact)
    requires SpellsBelow(d, UnitSize(g, t), ptrs, m, bytes)
    ensures SpellsBelow(d', UnitSize(g, t), ptrs, m, bytes)
  {
    OwnedUnitsKept(g, eb, d, eb', d', {}, t, ptrs, oc, ob, exact);
    forall j: nat | j < m ensures Spells(d', UnitSize(g, t), ptrs[j], j, bytes) {
      assert Spells(d, UnitSize(g, t), ptrs[j], j, bytes);
    }
  }

  /** Storing unit idx extends the part of the file that is in place. */
  lemma SpellsNext(g: Geometry, eb: seq<EraseBlock>, d: seq<byte>, eb': seq<EraseBlock>, d': seq<byte>,
                   t: DataType, ptrs: seq<nat>, idx: nat, id: nat, bytes: seq<byte>,
                   oc: set<nat>, ob: set<nat>, exact: bool)
    requires g.Valid() && DataStep(g, eb, d, eb', d', {}) && Owned(g, eb, t, ptrs, oc, ob, exact)
    requires SpellsBelow(d, UnitSize(g, t), ptrs, idx, bytes) && idx < |ptrs|
    requires Spells(d', UnitSize(g, t), id, idx, bytes)
    ensures SpellsBelow(d', UnitSize(g, t), ptrs[idx := id], idx + 1, bytes)
  {
    SpellsKept(g, eb, d, eb', d', t, ptrs, idx, bytes, oc, ob, exact);
    var next := ptrs[idx := id];
    forall j: nat | j < idx + 1 ensures Spells(d', UnitSize(g, t), next[j], j, bytes) {
      if j < idx { assert Spells(d', UnitSize(g, t), ptrs[j], j, bytes); }
    }
  }

  /** Behind the first unit, holes stand for everything up to where the write starts. */
  lemma HolesBelow(d: seq<byte>, s: nat, ptrs: seq<nat>, m: nat, oldBytes: seq<byte>, user: seq<byte>, off: nat,
                   first: seq<byte>)
    requires 1 <= m <= |ptrs| && s <= |d| && |oldBytes| <= s && (forall j | 1 <= j < m :: ptrs[j] == 0)
    requires UnitIs(d, s, ptrs[0], first)
    requires forall x: nat | x < s && x < |Splice(oldBytes, user, off)| :: first[x] == Splice(oldBytes, user, off)[x]
    requires |user| > 0 ==> StartsBehind(m, s, off)
    ensures SpellsBelow(d, s, ptrs, m, Splice(oldBytes, user, off))
  {
    var bytes := Splice(oldBytes, user, off);
    forall j: nat | j < m ensures Spells(d, s, ptrs[j], j, bytes) {
      if j == 0 { assert 0 * s == 0; } else {
        MulGe(j, s);
        MulMono(j + 1, m, s);
        assert (j + 1) * s == j * s + s;
        HoleSpells(d, s, j, bytes);
      }
    }
  }

  /** write_emb for a file that outgrows its inode; also how truncate extends such a file. */
  method WriteEmbInd(fs: FsContext, ctx: WriteContext, n: nat,
                     ghost oc: set<nat>, ghost ob: set<nat>, ghost exact: bool) returns (rc: Rc, ghost ptrs: seq<nat>)
    requires DataInv(fs, oc, ob, exact) && (ctx.newType == Clin || ctx.newType == Ebin)
    requires ctx.newInd == UnitSize(fs.g, ctx.newType) && ctx.ino.no < U32
    requires ctx.oldSize < fs.g.c && ctx.oldSize <= |ctx.ino.data| && ctx.oldSize <= ctx.newSize
    requires 0 < ctx.newSize == ctx.offset + |ctx.buf| && n == Units(ctx.newSize, ctx.newInd) && n <= |ctx.ino.data| / 4
    requires ctx.ino.Type() == ctx.oldType == Emb
    modifies fs`eb, fs`gc, fs`sums, fs`disk, fs`writer, fs`buf, ctx`ino, ctx`buf
    ensures CoreInv(fs) && DataStep(fs.g, old(fs.eb), old(fs.disk), fs.eb, fs.disk, {})
    ensures rc.NoSpc? || rc == Ok(|old(ctx.buf)|)
    ensures rc.NoSpc? ==> NoRoom(fs.g, fs.eb, ctx.newType, old(ctx.ino).IsDir())
    ensures |ptrs| == n && Owned(fs.g, fs.eb, ctx.newType, ptrs, oc, ob, exact)
    ensures rc.Ok? ==>
      && |ctx.ino.data| == |old(ctx.ino.data)| && ctx.ino.Type() == ctx.newType
      && ctx.ino == old(ctx.ino).(data := ctx.ino.data, flags := ctx.ino.flags)
      && SameHigh(ctx.ino.flags, old(ctx.ino.flags))
      && SpellsBelow(fs.disk, ctx.newInd, ptrs, n, Splice(old(ctx.ino.data)[..ctx.oldSize], old(ctx.buf), ctx.offset))
    ensures rc.Ok? && (n == 1 || |old(ctx.buf)| > 0) ==> Front(ctx.ino, n) == ptrs
    ensures rc.Ok? && ctx.newType == Ebin && |old(ctx.buf)| == 0 && n > 0 ==>
      SameEbin(old(fs.eb), fs.eb, ptrs[0]) && forall j | 1 <= j < n :: ptrs[j] == 0
    ensures rc.Ok? && ctx.newType == Clin && |old(ctx.buf)| == 0 && n > 0 ==>
      OneClinMore(fs.g, old(fs.eb), fs.eb, ptrs[0]) && forall j | 1 <= j < n :: ptrs[j] == 0
    ensures rc.Ok? && n > 1 && |old(ctx.buf)| == 0 ==>
      Front(ctx.ino, n) == ptrs[n - 1 := Front(old(ctx.ino), n)[n - 1]] && ptrs[n - 1] == 0
  {
    hide SumInv, EbInv, LiveOk, EbinLive, GcInv, DataStep, Cursor, SpellsBelow, Splice, Kept, Owned, NoRoom, SameEbin,
      Front, Units, SameHigh, TypeOfFlags, ZeroUpTo, OneClinMore;
    Sizes(fs.g);
    var nbyte := |ctx.buf|;
    var idx: nat, o: nat;
    rc, ptrs, idx, o := WriteEmbFirst(fs, ctx, n, oc, ob, exact);
    if rc.NoSpc? { return; }
    if |ctx.buf| == 0 {
      LastKept(Front(ctx.ino, n), Front(old(ctx.ino), n), ptrs, n);
      return Ok(nbyte), ptrs;
    }
    ghost var eb1, d1 := fs.eb, fs.disk;
    rc, ptrs := WriteEmbRest(fs, ctx, nbyte, n, idx, o, ptrs, old(ctx.buf), old(ctx.ino.data)[..ctx.oldSize], oc, ob,
                             exact);
    DataTrans(fs.g, old(fs.eb), old(fs.disk), eb1, d1, fs.eb, fs.disk, {}, {});
  }

  lemma LastKept(a: seq<nat>, a0: seq<nat>, ptrs: seq<nat>, n: nat)
    requires |a| == |a0| == |ptrs| == n && forall j | 0 <= j < n && (j == 0 || j < n - 1) :: a[j] == ptrs[j]
    requires n > 1 ==> a[n - 1] == a0[n - 1]
    ensures n == 1 ==> a == ptrs
    ensures n > 1 ==> a == ptrs[n - 1 := a0[n - 1]]
  {
  }

  /** Up to and including trunc_emb2ind: the first unit is stored, the next byte to write is byte o of unit idx. */
  method WriteEmbFirst(fs: FsContext, ctx: WriteContext, n: nat,
                       ghost oc: set<nat>, ghost ob: set<nat>, ghost exact: bool)
    returns (rc: Rc, ghost ptrs: seq<nat>, idx: nat, o: nat)
    requires DataInv(fs, oc, ob, exact) && (ctx.newType == Clin || ctx.newType == Ebin)
    requires ctx.newInd == UnitSize(fs.g, ctx.newType) && ctx.newInd > 0 && ctx.ino.no < U32
    requires ctx.oldSize < fs.g.c && ctx.oldSize <= |ctx.ino.data| && ctx.oldSize <= ctx.newSize
    requires 0 < ctx.newSize == ctx.offset + |ctx.buf| && n == Units(ctx.newSize, ctx.newInd) && n <= |ctx.ino.data| / 4
    requires ctx.ino.Type() == ctx.oldType == Emb
    modifies fs`eb, fs`gc, fs`sums, fs`disk, fs`writer, fs`buf, ctx`ino, ctx`buf
    ensures CoreInv(fs) && DataStep(fs.g, old(fs.eb), old(fs.disk), fs.eb, fs.disk, {})
    ensures rc.NoSpc? || rc.Ok?
    ensures rc.NoSpc? ==> NoRoom(fs.g, fs.eb, ctx.newType, old(ctx.ino).IsDir())
    ensures |ptrs| == n && Owned(fs.g, fs.eb, ctx.newType, ptrs, oc, ob, exact) && forall j | 1 <= j < n :: ptrs[j] == 0
    ensures rc.Ok? ==>
      && |ctx.ino.data| == |old(ctx.ino.data)| && ctx.ino.Type() == ctx.newType
      && ctx.ino == old(ctx.ino).(data := ctx.ino.data, flags := ctx.ino.flags)
      && SameHigh(ctx.ino.flags, old(ctx.ino.flags))
      && (forall j | 0 <= j < n && (j == 0 || j < n - 1) :: Front(ctx.ino, n)[j] == ptrs[j])
      && (n > 1 ==> Front(ctx.ino, n)[n - 1] == Front(old(ctx.ino), n)[n - 1])
      && |ctx.buf| <= |old(ctx.buf)| && ctx.buf == old(ctx.buf)[|old(ctx.buf)| - |ctx.buf|..]
      && 1 <= idx && o < ctx.newInd && ZeroUpTo(fs.buf, o)
      && SpellsBelow(fs.disk, ctx.newInd, ptrs, if |ctx.buf| == 0 then n else idx,
                     Splice(old(ctx.ino.data)[..ctx.oldSize], old(ctx.buf), ctx.offset))
    ensures rc.Ok? && |ctx.buf| > 0 ==>
      idx < n && Cursor(ctx.newInd, idx, o, ctx.offset, |old(ctx.buf)| - |ctx.buf|, |old(ctx.buf)|)
    ensures rc.Ok? && |ctx.buf| == 0 && |old(ctx.buf)| > 0 ==> n == 1
    ensures rc.Ok? && ctx.newType == Ebin && n > 0 ==> SameEbin(old(fs.eb), fs.eb, ptrs[0])
    ensures rc.Ok? && ctx.newType == Clin && n > 0 ==> OneClinMore(fs.g, old(fs.eb), fs.eb, ptrs[0])
  {
    hide SumInv, EbInv, LiveOk, EbinLive, GcInv, DataStep, Cursor, SpellsBelow, Splice, Kept, Owned, Units, UnitIs,
      NoRoom, DataInv, Front, SameHigh, TypeOfFlags, StartsBehind, Patch, ZeroUpTo, SameEbin, OneClinMore;
    ghost var user, off, s := ctx.buf, ctx.offset, ctx.newInd;
    ghost var oldBytes := ctx.ino.data[..ctx.oldSize];
    ValidUnits(fs, oc, ob, exact, ctx.newType);
    BufSizes(fs, oc, ob, exact);
    hide UnitSize;
    idx, o := FirstUnit(fs, ctx, oc, ob, exact);
    var first := fs.buf[..ctx.newInd];
    assert |first| == s > 0;
    assert ctx.ino.Type() == ctx.oldType == Emb;
    rc, ptrs := TruncEmb2Ind(fs, ctx, first, n, oc, ob, exact);
    if rc.NoSpc? { return; }
    ZeroFront(fs.buf, o);
    fs.buf := Patch(fs.buf, 0, Zeros(o));
    FirstSpelled(fs.disk, s, ptrs, idx, o, off, |user| - |ctx.buf|, user, oldBytes, first, n, ctx.newSize);
  }

  lemma ZeroFront(buf: seq<byte>, o: nat)
    requires o <= |buf|
    ensures ZeroUpTo(Patch(buf, 0, Zeros(o)), o)
  {
  }

  /** What is in place once the first unit is stored, when `done` bytes of the user's have gone into it. */
  lemma FirstSpelled(d: seq<byte>, s: nat, ptrs: seq<nat>, idx: nat, o: nat, off: nat, done: nat, user: seq<byte>,
                     oldBytes: seq<byte>, first: seq<byte>, n: nat, size: nat)
    requires 0 < s <= |d| && |ptrs| == n == Units(size, s) && size == off + |user| > 0 && done <= |user|
    requires |oldBytes| <= s && (forall j | 1 <= j < n :: ptrs[j] == 0) && UnitIs(d, s, ptrs[0], first)
    requires forall x: nat | x < s && x < |Splice(oldBytes, user, off)| :: first[x] == Splice(oldBytes, user, off)[x]
    requires |user| > 0 ==> Cursor(s, idx, o, off, done, |user|)
    requires StartsBehind(idx, s, off) && idx >= 1 && (done > 0 ==> idx == 1)
    ensures done < |user| ==> idx < n
    ensures done == |user| > 0 ==> n == 1
    ensures SpellsBelow(d, s, ptrs, if done == |user| then n else idx, Splice(oldBytes, user, off))
  {
    hide SpellsBelow, Splice, Units, UnitIs, StartsBehind, Cursor;
    if done < |user| {
      CursorIn(s, idx, o, off, done, |user|, n, size);
      HolesBelow(d, s, ptrs, idx, oldBytes, user, off, first);
    } else {
      if |user| > 0 { CursorEnd(s, idx, o, off, |user|, n, size); }
      HolesBelow(d, s, ptrs, n, oldBytes, user, off, first);
    }
  }

  lemma CursorIn(s: nat, idx: nat, o: nat, off: nat, done: nat, len: nat, n: nat, size: nat)
    requires s > 0 && done < len && Cursor(s, idx, o, off, done, len) && size == off + len && n == Units(size, s)
    ensures idx < n
  {
    DivMod(idx, s, o);
    DivBelow(off + done, n, s);
  }

  lemma CursorEnd(s: nat, idx: nat, o: nat, off: nat, len: nat, n: nat, size: nat)
    requires s > 0 && 0 < len && Cursor(s, idx, o, off, len, len) && size == off + len && n == Units(size, s)
    ensures idx == n
  {
    DivBelow(size - 1, idx, s);
    if idx > 0 { DivBelow(size - 1, idx - 1, s); }
  }

  /** One more unit of a file that leaves its inode. */
  method EmbChunk(fs: FsContext, ctx: WriteContext, n: nat, idx: nat, o: nat, left: nat, ghost ptrs: seq<nat>,
                  ghost done: nat, ghost user: seq<byte>, ghost oldBytes: seq<byte>,
                  ghost oc: set<nat>, ghost ob: set<nat>, ghost exact: bool) returns (rc: Rc, ghost id: nat)
    requires CoreInv(fs) && (ctx.newType == Clin || ctx.newType == Ebin)
    requires ctx.newInd == UnitSize(fs.g, ctx.newType) && ctx.ino.no < U32
    requires |oldBytes| <= ctx.newInd && |oldBytes| <= ctx.newSize == ctx.offset + |user|
    requires 1 <= idx < n <= |ctx.ino.data| / 4 && |ptrs| == n && Owned(fs.g, fs.eb, ctx.newType, ptrs, oc, ob, exact)
    requires done < |user| && ctx.buf == user[done..] && Cursor(ctx.newInd, idx, o, ctx.offset, done, |user|)
    requires left == Min(|ctx.buf|, ctx.newInd - o)
    requires ptrs[idx] == 0 && ZeroUpTo(fs.buf, o)
    requires SpellsBelow(fs.disk, ctx.newInd, ptrs, idx, Splice(oldBytes, user, ctx.offset))
    modifies fs`eb, fs`gc, fs`sums, fs`disk, fs`writer, fs`buf, ctx`ino
    ensures CoreInv(fs) && DataStep(fs.g, old(fs.eb), old(fs.disk), fs.eb, fs.disk, {})
    ensures rc.NoSpc? || rc.Ok?
    ensures rc.NoSpc? ==> ctx.ino == old(ctx.ino) && Owned(fs.g, fs.eb, ctx.newType, ptrs, oc, ob, exact)
    ensures rc.NoSpc? ==> NoRoom(fs.g, fs.eb, ctx.newType, ctx.ino.IsDir())
    ensures rc.Ok? ==>
      && Owned(fs.g, fs.eb, ctx.newType, ptrs[idx := id], oc, ob, exact)
      && |ctx.ino.data| == |old(ctx.ino.data)| && ctx.ino == old(ctx.ino).(data := ctx.ino.data)
      && Front(ctx.ino, n) == Front(old(ctx.ino), n)[idx := id]
      && SpellsBelow(fs.disk, ctx.newInd, ptrs[idx := id], idx + 1, Splice(oldBytes, user, ctx.offset))
    ensures Cursor(ctx.newInd, idx + 1, 0, ctx.offset, done + left, |user|)
  {
    hide SumInv, EbInv, LiveOk, EbinLive, GcInv, DataStep, SpellsBelow, Splice, Kept, NoRoom;
    Sizes(fs.g);
    CoreSizes(fs);
    CursorNext(ctx.newInd, idx, o, ctx.offset, done, |user|, left);
    ghost var buf := fs.buf;
    fs.buf := Overlay(fs.buf, ctx.buf, o, left);
    ghost var eb, d := fs.eb, fs.disk;
    var ptr: nat;
    rc, ptr := WriteOwned(fs, ctx, fs.buf[..ctx.newInd], ptrs, idx, oc, ob, exact);
    id := ptr;
    if rc.NoSpc? { return; }
    EmbUnit(fs.disk, ctx.newInd, id, idx, o, ctx.offset, done, user, oldBytes, left, buf, fs.buf);
    SpellsNext(fs.g, eb, d, fs.eb, fs.disk, ctx.newType, ptrs, idx, id, Splice(oldBytes, user, ctx.offset), oc, ob,
               exact);
    FrontSet(ctx.ino, n, idx, ptr);
    ctx.ino := ctx.ino.(data := SetPtr(ctx.ino.data, idx, ptr));
  }

  /** The units behind the first one. */
  method WriteEmbRest(fs: FsContext, ctx: WriteContext, nbyte: nat, n: nat, idx0: nat, o0: nat, ghost ptrs0: seq<nat>,
                      ghost user: seq<byte>, ghost oldBytes: seq<byte>, ghost oc: set<nat>, ghost ob: set<nat>,
                      ghost exact: bool) returns (rc: Rc, ghost ptrs: seq<nat>)
    requires CoreInv(fs) && (ctx.newType == Clin || ctx.newType == Ebin)
    requires ctx.newInd == UnitSize(fs.g, ctx.newType) && ctx.newInd > 0 && ctx.ino.no < U32
    requires |oldBytes| <= ctx.newInd && |oldBytes| <= ctx.newSize == ctx.offset + |user| && 1 <= idx0 < n
    requires o0 < ctx.newInd
    requires |ptrs0| == n && Owned(fs.g, fs.eb, ctx.newType, ptrs0, oc, ob, exact)
    requires n == Units(ctx.newSize, ctx.newInd) && n <= |ctx.ino.data| / 4
    requires 0 < |ctx.buf| <= |user| == nbyte && ctx.buf == user[|user| - |ctx.buf|..]
    requires Cursor(ctx.newInd, idx0, o0, ctx.offset, |user| - |ctx.buf|, |user|)
    requires forall j | 1 <= j < n :: ptrs0[j] == 0
    requires forall j | 0 <= j < n && (j == 0 || j < n - 1) :: Front(ctx.ino, n)[j] == ptrs0[j]
    requires SpellsBelow(fs.disk, ctx.newInd, ptrs0, idx0, Splice(oldBytes, user, ctx.offset))
    requires ZeroUpTo(fs.buf, o0)
    modifies fs`eb, fs`gc, fs`sums, fs`disk, fs`writer, fs`buf, ctx`ino, ctx`buf
    ensures CoreInv(fs) && DataStep(fs.g, old(fs.eb), old(fs.disk), fs.eb, fs.disk, {})
    ensures rc.NoSpc? || rc == Ok(nbyte)
    ensures rc.NoSpc? ==> NoRoom(fs.g, fs.eb, ctx.newType, old(ctx.ino).IsDir())
    ensures |ptrs| == n && Owned(fs.g, fs.eb, ctx.newType, ptrs, oc, ob, exact)
    ensures |ctx.ino.data| == |old(ctx.ino.data)| && ctx.ino == old(ctx.ino).(data := ctx.ino.data)
    ensures rc.Ok? ==>
      SpellsBelow(fs.disk, ctx.newInd, ptrs, n, Splice(oldBytes, user, ctx.offset)) && Front(ctx.ino, n) == ptrs
  {
    hide SumInv, EbInv, LiveOk, EbinLive, GcInv, DataStep, Owned, Cursor, SpellsBelow, Splice, Kept, Units, NoRoom;
    ghost var eb0, d0, ino0, s, off, bytes := fs.eb, fs.disk, ctx.ino, ctx.newInd, ctx.offset,
        Splice(oldBytes, user, ctx.offset);
    var idx: nat, o: nat := idx0, o0;
    ghost var done: nat := |user| - |ctx.buf|;
    ptrs := ptrs0;
    CoreSizes(fs);
    StepRefl(fs.g, fs.eb, fs.disk);
    while |ctx.buf| > 0
      invariant CoreInv(fs) && DataStep(fs.g, eb0, d0, fs.eb, fs.disk, {})
      invariant |ctx.ino.data| == |ino0.data| && ctx.ino == ino0.(data := ctx.ino.data)
      invariant |ptrs| == n && Owned(fs.g, fs.eb, ctx.newType, ptrs, oc, ob, exact)
      invariant done <= |user| && ctx.buf == user[done..] && o < s && idx >= 1 && Cursor(s, idx, o, off, done, |user|)
      invariant forall j | idx <= j < n :: ptrs[j] == 0
      invariant forall j | 0 <= j < n && (j < idx || j < n - 1) :: Front(ctx.ino, n)[j] == ptrs[j]
      invariant idx <= n && SpellsBelow(fs.disk, s, ptrs, idx, bytes)
      invariant ZeroUpTo(fs.buf, o)
      decreases |ctx.buf|
    {
      var left := Min(|ctx.buf|, ctx.newInd - o);
      CursorIn(s, idx, o, off, done, |user|, n, ctx.newSize);
      ghost var eb1, d1 := fs.eb, fs.disk;
      ghost var id: nat;
      rc, id := EmbChunk(fs, ctx, n, idx, o, left, ptrs, done, user, oldBytes, oc, ob, exact);
      DataTrans(fs.g, eb0, d0, eb1, d1, fs.eb, fs.disk, {}, {});
      if rc.NoSpc? { return; }
      ptrs := ptrs[idx := id];
      ctx.buf := ctx.buf[left..];
      done := done + left;
      idx := idx + 1;
      o := 0;
    }
    CursorEnd(s, idx, o, off, |user|, n, ctx.newSize);
    rc := Ok(nbyte);
  }
}
