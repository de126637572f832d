/** io.cpp: the write context, write_ind, and the bookkeeping every data write shares. */
module IoUnits {
  import opened Basics
  import opened Layout
  import opened EraseBlk
  import opened Summaries
  import opened Allocator
  import opened FileData

  /**
   * ssize_t results. Stalled stands for a loop that has stopped making progress and never returns, OutOfTable
   * for an access behind the pointer table of an inode, and Astray for a refusal that has taken cluster pointers
   * for erase blocks while it tidied up.
   */
  datatype Rc = Ok(n: nat) | NoSpc | FBig | Perm | Stalled | OutOfTable | Astray

  /** struct write_context; `buf` is what is left to write. */
  class WriteContext {
    var buf: seq<byte>
    var ino: Inode
    const offset: nat
    const oldSize: nat
    const newSize: nat
    const oldInd: nat
    const newInd: nat
    const oldType: DataType
    const newType: DataType

    constructor (g: Geometry, ino: Inode, buf: seq<byte>, offset: nat, newSize: nat)
      requires g.Valid()
      ensures this.buf == buf && this.ino == ino && this.offset == offset
      ensures oldSize == ino.size && this.newSize == newSize
      ensures oldInd == IndSize(g, ino.size) && newInd == IndSize(g, newSize)
      ensures oldType == ino.Type() && newType == TypeFromSize(g, newSize)
    {
      this.buf, this.ino, this.offset := buf, ino, offset;
      oldSize, this.newSize := ino.size, newSize;
      oldInd, newInd := IndSize(g, ino.size), IndSize(g, newSize);
      oldType, newType := ino.Type(), TypeFromSize(g, newSize);
    }
  }

  /** ind_size_from_size: 0 when a file of this size has no indirect data. */
  function IndSize(g: Geometry, size: nat): nat
    requires g.Valid()
  {
    if size > g.MaxClin() then g.E() else if size > g.MaxEmb() then g.c else 0
  }

  /** ind_from_offset: the indirect unit holding byte `off`. */
  function IndFromOffset(s: nat, off: nat): (f: nat)
    requires s > 0
  {
    DivBounds(off, s);
    off / s
  }

  /** The offset of byte `off` in its unit. */
  function OffsetInInd(s: nat, off: nat): (o: nat)
    requires s > 0
    ensures o < s
  {
    DivBounds(off, s);
    off % s
  }

  /** The bytes [off, off + len) lie in the first n units. */
  predicate InUnits(s: nat, off: nat, len: nat, n: nat) { off + len <= n * s }

  // ---------------------------------------------------------- one indirect unit

  /** Everything a data write may change. */
  ghost predicate DataStep(g: Geometry, eb0: seq<EraseBlock>, d0: seq<byte>, eb1: seq<EraseBlock>, d1: seq<byte>,
                           own: set<nat>)
    requires g.Valid()
  {
    Kept(g, eb0, d0, eb1, d1, own) && SameInodeBlocks(eb0, eb1)
  }

  /** The state invariants a data write needs and keeps, for the live clusters and erase blocks given. */
  ghost predicate DataInv(fs: FsContext, live: set<nat>, blocks: set<nat>, exact: bool)
    reads fs
  {
    CoreInv(fs) && LiveOk(fs.g, fs.eb, live, exact) && EbinLive(fs.eb, blocks)
  }

  /** The allocator has no block to write another unit of this type to. */
  ghost predicate NoRoom(g: Geometry, eb: seq<EraseBlock>, t: DataType, dir: bool) {
    forall e: nat :: !Target(g, eb, EbTypeFor(g, t, dir), e)
  }

  /** The blocks written as a whole are the same ones, apart from block `id`, which was empty. */
  predicate SameEbin(eb0: seq<EraseBlock>, eb: seq<EraseBlock>, id: nat) {
    && |eb| == |eb0| && (id != 0 ==> WasEmpty(eb0, id))
    && forall b: nat | b < |eb| && b != id :: eb[b].etype == EbinBlk <==> eb0[b].etype == EbinBlk
  }

  /** At most n more empty blocks than the reserve. */
  ghost predicate FewEmpty(g: Geometry, eb: seq<EraseBlock>, n: nat) { CountEmpty(eb, |eb|) <= g.nerasereserve + n }

  /** While there are more empty blocks than the reserve there is room for everything. */
  lemma RoomLeft(g: Geometry, eb: seq<EraseBlock>, t: DataType, dir: bool)
    requires g.Valid() && NoRoom(g, eb, t, dir)
    ensures FewEmpty(g, eb, 0)
  {
    CountEmptyPositive(eb, |eb|);
    if !FewEmpty(g, eb, 0) {
      var e: nat :| 1 <= e < |eb| && eb[e].etype == Empty;
      var bt := EbTypeFor(g, t, dir);
      assert !Target(g, eb, bt, e);
      var i: nat :| 1 <= i < |eb| && Open(g, eb[i]) && eb[i].etype == bt;
      assert Target(g, eb, bt, i);
    }
  }

  predicate WasEmpty(eb: seq<EraseBlock>, b: nat) { b < |eb| && eb[b].etype == Empty }

  /** A block that is empty now was empty before: steps like these never empty a block they do not own. */
  lemma EmptyBefore(g: Geometry, eb0: seq<EraseBlock>, d0: seq<byte>, eb1: seq<EraseBlock>, d1: seq<byte>,
                    own: set<nat>, b: nat)
    requires g.Valid() && EbInv(g, eb0) && DataStep(g, eb0, d0, eb1, d1, own) && WasEmpty(eb1, b) && b !in own
    ensures WasEmpty(eb0, b)
  {
    assert b > 0 ==> BlockOk(g, eb0[b]);
    if eb0[b].etype != Empty { assert Used(g, eb0, b, 0); }
  }

  /** write_ind: stores one unit in a fresh cluster or erase block, or as a hole if it is all zeros. */
  method WriteInd(fs: FsContext, ctx: WriteContext, data: seq<byte>,
                  ghost live: set<nat>, ghost blocks: set<nat>, ghost exact: bool) returns (rc: Rc, id: nat)
    requires DataInv(fs, live, blocks, exact)
    requires (ctx.newType == Clin || ctx.newType == Ebin) && |data| == UnitSize(fs.g, ctx.newType) && ctx.ino.no < U32
    modifies fs`eb, fs`gc, fs`sums, fs`disk, fs`writer
    ensures CoreInv(fs) && DataStep(fs.g, old(fs.eb), old(fs.disk), fs.eb, fs.disk, {})
    ensures rc.NoSpc? || rc == Ok(if AllZero(data) then 0 else |data|)
    ensures rc.NoSpc? || id == 0 ==> fs.eb == old(fs.eb) && fs.disk == old(fs.disk) && DataInv(fs, live, blocks, exact)
    ensures rc.NoSpc? ==>
      NoRoom(fs.g, fs.eb, ctx.newType, ctx.ino.IsDir()) && FewEmpty(fs.g, fs.eb, 0) && !AllZero(data)
    ensures rc.Ok? ==> id < U32 && (id == 0 <==> AllZero(data))
    ensures rc.Ok? && ctx.newType == Ebin ==> SameEbin(old(fs.eb), fs.eb, id)
    ensures rc.Ok? && ctx.newType == Clin ==> OneClinMore(fs.g, old(fs.eb), fs.eb, id)
    ensures rc.Ok? ==> id * |data| + |data| <= |fs.disk| && UnitAt(fs.disk, |data|, id) == data
    ensures rc.Ok? && id != 0 && ctx.newType == Clin ==> id !in live && DataInv(fs, live + {id}, blocks, exact)
    ensures rc.Ok? && id != 0 && ctx.newType == Ebin ==> id !in blocks && DataInv(fs, live, blocks + {id}, exact)
    ensures rc.Ok? && id != 0 && ctx.newType == Ebin ==> WasEmpty(old(fs.eb), id) && !FewEmpty(fs.g, old(fs.eb), 0)
  {
    Sizes(fs.g);
    if AllZero(data) {
      AllZeroIsZeros(data);
      return Ok(0), 0;
    }
    var t := EbTypeFor(fs.g, ctx.newType, ctx.ino.IsDir());
    var ok, e, cl := FindWritableCluster(fs, t);
    if !ok { return NoSpc, 0; }
    id := cl;
    if ctx.newType == Clin {
      WriteCluster(fs, t, e, data, ctx.ino.no, live, blocks, exact);
    } else {
      WriteBlock(fs, e, data, ctx.ino.no, live, blocks, exact);
    }
    rc := Ok(|data|);
  }

  method WriteCluster(fs: FsContext, t: EbType, e: nat, data: seq<byte>, no: nat,
                      ghost live: set<nat>, ghost blocks: set<nat>, ghost exact: bool)
    requires DataInv(fs, live, blocks, exact) && Target(fs.g, fs.eb, t, e) && IsClinType(t)
    requires |data| == fs.g.c && no < U32
    modifies fs`eb, fs`gc, fs`sums, fs`disk, fs`writer
    ensures var id := ClOf(fs.g, e, old(fs.eb)[e].writeops);
      && 0 < id < U32 && id !in live
      && DataInv(fs, live + {id}, blocks, exact)
      && DataStep(fs.g, old(fs.eb), old(fs.disk), fs.eb, fs.disk, {})
      && id * fs.g.c + fs.g.c <= |fs.disk| && UnitAt(fs.disk, fs.g.c, id) == data
      && OneClinMore(fs.g, old(fs.eb), fs.eb, id)
  {
    var id := ClOf(fs.g, e, fs.eb[e].writeops);
    FreshCluster(fs.g, fs.eb, fs.disk, fs.sums, fs.writer, t, e, data);
    fs.disk := Patch(fs.disk, id * fs.g.c, data);
    ghost var d1 := fs.disk;
    ghost var time := CommitWriteOperation(fs, t, e, no);
    ClusterStep(fs.g, old(fs.eb), old(fs.disk), d1, fs.disk, t, e, time, data, live, blocks, exact);
    ClinCommitted(fs.g, old(fs.eb), t, e, time);
  }

  /** The cluster a target hands out lies on the device, is not used, and may be written before the commit. */
  lemma FreshCluster(g: Geometry, eb: seq<EraseBlock>, d: seq<byte>, sums: SummaryCache, writer: seq<seq<nat>>,
                     t: EbType, e: nat, data: seq<byte>)
    requires g.Valid() && EbInv(g, eb) && SumInv(g, eb, d, sums, writer) && Target(g, eb, t, e) && t != EbinBlk
    requires |data| == g.c
    ensures eb[e].writeops < g.k && 0 < ClOf(g, e, eb[e].writeops) < U32
    ensures ClOf(g, e, eb[e].writeops) * g.c + g.c <= |d|
    ensures Kept(g, eb, d, eb, Patch(d, ClOf(g, e, eb[e].writeops) * g.c, data), {})
    ensures SumInv(g, eb, Patch(d, ClOf(g, e, eb[e].writeops) * g.c, data), sums, writer)
    ensures Cluster(g, Patch(d, ClOf(g, e, eb[e].writeops) * g.c, data), e, eb[e].writeops) == data
  {
    TargetIdle(g, eb, t, e);
    var i := eb[e].writeops;
    ClInDevice(g, e, i);
    KeptFreshCluster(g, eb, d, e, i, data);
    PatchCluster(g, d, e, i, data);
    SumKept(g, eb, d, eb, Patch(d, ClOf(g, e, i) * g.c, data), {}, sums, writer);
    ClusterIdPositive(g, e, i);
  }

  lemma ClusterIdPositive(g: Geometry, e: nat, i: nat)
    requires g.Valid() && 1 <= e < g.blocks && i < g.k
    ensures 0 < ClOf(g, e, i) < U32
  {
    MulGe(e, g.k);
    ClInDevice(g, e, i);
    MulMono(1, g.c, ClOf(g, e, i));
  }

  lemma ClusterStep(g: Geometry, eb0: seq<EraseBlock>, d0: seq<byte>, d1: seq<byte>, d2: seq<byte>,
                    t: EbType, e: nat, time: nat, data: seq<byte>, live: set<nat>, blocks: set<nat>, exact: bool)
    requires g.Valid() && EbInv(g, eb0) && Target(g, eb0, t, e) && IsClinType(t)
    requires LiveOk(g, eb0, live, exact) && EbinLive(eb0, blocks)
    requires Kept(g, eb0, d0, eb0, d1, {}) && Kept(g, eb0, d1, eb0[e := Written(g, eb0[e], t, time)], d2, {})
    requires eb0[e].writeops < g.k - 1 && Cluster(g, d1, e, eb0[e].writeops) == data
    requires OnlyClusterChanged(g, d1, d2, e, g.k - 1)
    ensures var eb1, id := eb0[e := Written(g, eb0[e], t, time)], ClOf(g, e, eb0[e].writeops);
      && id !in live && LiveOk(g, eb1, live + {id}, exact) && EbinLive(eb1, blocks)
      && DataStep(g, eb0, d0, eb1, d2, {})
      && id * g.c + g.c <= |d2| && (id != 0 ==> UnitAt(d2, g.c, id) == data)
  {
    KeptTrans(g, eb0, d0, eb0, d1, eb0[e := Written(g, eb0[e], t, time)], d2, {}, {});
    LiveAdd(g, eb0, t, e, time, live, exact);
    ClInDevice(g, e, eb0[e].writeops);
  }

  method WriteBlock(fs: FsContext, e: nat, data: seq<byte>, no: nat,
                    ghost live: set<nat>, ghost blocks: set<nat>, ghost exact: bool)
    requires DataInv(fs, live, blocks, exact) && Target(fs.g, fs.eb, EbinBlk, e)
    requires |data| == fs.g.E() && no < U32
    modifies fs`eb, fs`gc, fs`sums, fs`disk, fs`writer
    ensures 0 < e < U32 && e !in blocks
    ensures SameEbin(old(fs.eb), fs.eb, e)
    ensures DataInv(fs, live, blocks + {e}, exact)
    ensures DataStep(fs.g, old(fs.eb), old(fs.disk), fs.eb, fs.disk, {})
    ensures e * fs.g.E() + fs.g.E() <= |fs.disk| && UnitAt(fs.disk, fs.g.E(), e) == data
  {
    FreshBlock(fs.g, fs.eb, fs.disk, fs.sums, fs.writer, e, data);
    fs.disk := Patch(fs.disk, e * fs.g.E(), data);
    ghost var time := CommitWriteOperation(fs, EbinBlk, e, no);
    BlockStep(fs.g, old(fs.eb), old(fs.disk), fs.disk, e, time, data, live, blocks, exact);
  }

  lemma FreshBlock(g: Geometry, eb: seq<EraseBlock>, d: seq<byte>, sums: SummaryCache, writer: seq<seq<nat>>,
                   e: nat, data: seq<byte>)
    requires g.Valid() && EbInv(g, eb) && SumInv(g, eb, d, sums, writer) && Target(g, eb, EbinBlk, e)
    requires |data| == g.E()
    ensures 0 < e < U32 && e * g.E() + g.E() <= |d|
    ensures Kept(g, eb, d, eb, Patch(d, e * g.E(), data), {e})
    ensures SumInv(g, eb, Patch(d, e * g.E(), data), sums, writer)
    ensures Chunk(Patch(d, e * g.E(), data), g.E(), e) == data
  {
    hide Kept, Chunk;
    BlockInDevice(g, e);
    KeptInBlock(g, eb, d, e, e * g.E(), data);
    PatchChunk(d, g.E(), e, data);
    SumKept(g, eb, d, eb, Patch(d, e * g.E(), data), {e}, sums, writer);
    Sizes(g);
    MulMono(1, g.E(), e);
  }

  lemma BlockStep(g: Geometry, eb0: seq<EraseBlock>, d0: seq<byte>, d1: seq<byte>,
                  e: nat, time: nat, data: seq<byte>, live: set<nat>, blocks: set<nat>, exact: bool)
    requires g.Valid() && EbInv(g, eb0) && Target(g, eb0, EbinBlk, e)
    requires LiveOk(g, eb0, live, exact) && EbinLive(eb0, blocks)
    requires Kept(g, eb0, d0, eb0, d1, {e}) && |d1| == g.DeviceSize()
    ensures var eb1 := eb0[e := Written(g, eb0[e], EbinBlk, time)];
      && e !in blocks && LiveOk(g, eb1, live, exact) && EbinLive(eb1, blocks + {e})
      && DataStep(g, eb0, d0, eb1, d1, {})
  {
    KeptCommit(g, eb0, d1, EbinBlk, e, time);
    KeptTrans(g, eb0, d0, eb0, d1, eb0[e := Written(g, eb0[e], EbinBlk, time)], d1, {e}, {});
    LiveKeep(g, eb0, EbinBlk, e, time, live, exact);
  }

  // ---------------------------------------------------------- bookkeeping steps

  lemma DataTrans(g: Geometry, eb0: seq<EraseBlock>, d0: seq<byte>, eb1: seq<EraseBlock>, d1: seq<byte>,
                  eb2: seq<EraseBlock>, d2: seq<byte>, own: set<nat>, own1: set<nat>)
    requires g.Valid() && DataStep(g, eb0, d0, eb1, d1, own) && DataStep(g, eb1, d1, eb2, d2, own1)
    requires forall b | b in own1 && b !in own :: b < |eb0| && eb0[b].etype == Empty
    ensures DataStep(g, eb0, d0, eb2, d2, own)
  {
    KeptTrans(g, eb0, d0, eb1, d1, eb2, d2, own, own1);
  }

  /** eb_dec_cvalid on the block of a live cluster: the counter does not underflow, and nothing else moves. */
  method EbDecCvalid(fs: FsContext, cl: nat, ghost live: set<nat>, ghost blocks: set<nat>, ghost exact: bool)
    requires DataInv(fs, live, blocks, exact) && cl in live
    modifies fs`eb
    ensures DataInv(fs, live - {cl}, blocks, exact)
    ensures DataStep(fs.g, old(fs.eb), fs.disk, fs.eb, fs.disk, {})
    ensures EbOf(fs.g, cl) < |old(fs.eb)| && old(fs.eb)[EbOf(fs.g, cl)].cvalid > 0
    ensures fs.eb == DecCvalid(old(fs.eb), EbOf(fs.g, cl))
  {
    DecStep(fs.g, fs.eb, fs.disk, fs.sums, fs.writer, live, blocks, exact, cl);
    var b := EbOf(fs.g, cl);
    fs.eb := fs.eb[b := fs.eb[b].(cvalid := fs.eb[b].cvalid - 1)];
  }

  lemma DecStep(g: Geometry, eb: seq<EraseBlock>, d: seq<byte>, sums: SummaryCache, writer: seq<seq<nat>>,
                live: set<nat>, blocks: set<nat>, exact: bool, cl: nat)
    requires g.Valid() && EbInv(g, eb) && SumInv(g, eb, d, sums, writer) && LiveOk(g, eb, live, exact)
    requires EbinLive(eb, blocks)
    requires cl in live
    ensures cl / g.k < |eb| && eb[cl / g.k].cvalid > 0
    ensures
      var eb' := DecCvalid(eb, cl / g.k);
      && EbInv(g, eb') && SumInv(g, eb', d, sums, writer)
      && LiveOk(g, eb', live - {cl}, exact) && EbinLive(eb', blocks)
      && DataStep(g, eb, d, eb', d, {})
  {
    LiveDrop(g, eb, live, exact, cl);
    var eb' := DecCvalid(eb, cl / g.k);
    assert Kept(g, eb, d, eb', d, {});
    SumKept(g, eb, d, eb', d, {}, sums, writer);
  }

  lemma OwnedSwapClin(g: Geometry, eb: seq<EraseBlock>, ptrs: seq<nat>, j: nat, q: nat,
                      oc: set<nat>, ob: set<nat>, exact: bool)
    requires g.k > 0 && j < |ptrs| && Distinct(ptrs) && Nz(ptrs) !! oc && (q == 0 || q !in oc + Nz(ptrs))
    requires LiveOk(g, eb, oc + Nz(ptrs) + (if q == 0 then {} else {q}) - {ptrs[j]}, exact) && EbinLive(eb, ob)
    requires 0 !in oc
    ensures Owned(g, eb, Clin, ptrs[j := q], oc, ob, exact)
  {
    NzUpdate(ptrs, j, q);
    if ptrs[j] != 0 { assert ptrs[j] in Nz(ptrs); }
    assert oc + Nz(ptrs[j := q]) == oc + Nz(ptrs) + (if q == 0 then {} else {q}) - {ptrs[j]};
  }

  // ---------------------------------------------------------- buffers and pointer tables

  /** memcpy of the next `left` bytes to write at offset o of the buffer. */
  function Overlay(base: seq<byte>, data: seq<byte>, o: nat, left: nat): (r: seq<byte>)
    requires o + left <= |base| && left <= |data|
    ensures |r| == |base|
    ensures forall x | 0 <= x < |base| :: r[x] == if o <= x < o + left then data[x - o] else base[x]
  {
    Patch(base, o, data[..left])
  }

  /** The first n entries of the inode's pointer table. */
  function Front(ino: Inode, n: nat): (r: seq<nat>)
    requires n <= |ino.data| / 4
    ensures |r| == n
  {
    Table(ino.data)[..n]
  }

  lemma FrontSet(ino: Inode, n: nat, j: nat, q: nat)
    requires j < n <= |ino.data| / 4 && q < U32
    ensures Front(ino.(data := SetPtr(ino.data, j, q)), n) == Front(ino, n)[j := q]
  {
  }

  ghost predicate UnitIs(d: seq<byte>, s: nat, p: nat, data: seq<byte>) {
    p * s + s <= |d| && UnitAt(d, s, p) == data
  }

  lemma ZeroNotLive(g: Geometry, eb: seq<EraseBlock>, live: set<nat>, exact: bool)
    requires g.k > 0 && LiveOk(g, eb, live, exact)
    ensures 0 !in live
  {
    assert !ClinPtrOk(g, eb, 0);
  }

  lemma StepRefl(g: Geometry, eb: seq<EraseBlock>, d: seq<byte>)
    requires g.Valid() && |eb| == g.blocks && |d| == g.DeviceSize()
    ensures DataStep(g, eb, d, eb, d, {})
  {
  }

  /** What an owned unit holds survives a step that keeps the used clusters. */
  lemma OwnedUnitsKept(g: Geometry, eb0: seq<EraseBlock>, d0: seq<byte>, eb1: seq<EraseBlock>, d1: seq<byte>,
                       own: set<nat>, t: DataType, ptrs: seq<nat>, oc: set<nat>, ob: set<nat>, exact: bool)
    requires g.Valid() && Kept(g, eb0, d0, eb1, d1, own) && Owned(g, eb0, t, ptrs, oc, ob, exact)
    requires forall b | b in own :: b < |eb0| && !IsClinType(eb0[b].etype)
    ensures PtrsIn(d0, UnitSize(g, t), ptrs) && |d1| == |d0|
    ensures forall j | 0 <= j < |ptrs| && ptrs[j] !in own ::
              UnitAt(d1, UnitSize(g, t), ptrs[j]) == UnitAt(d0, UnitSize(g, t), ptrs[j])
    ensures t != Ebin ==> forall j | 0 <= j < |ptrs| ::
              UnitAt(d1, UnitSize(g, t), ptrs[j]) == UnitAt(d0, UnitSize(g, t), ptrs[j])
  {
    OwnedIn(g, eb0, d0, t, ptrs, oc, ob, exact);
    forall j | 0 <= j < |ptrs| && ptrs[j] != 0 && (t != Ebin || ptrs[j] !in own)
      ensures UnitAt(d1, UnitSize(g, t), ptrs[j]) == UnitAt(d0, UnitSize(g, t), ptrs[j])
    {
      assert ptrs[j] in Nz(ptrs);
      if t == Ebin { KeptEbin(g, eb0, d0, eb1, d1, own, ptrs[j]); }
      else { KeptClin(g, eb0, d0, eb1, d1, own, ptrs[j]); }
    }
  }

  lemma CoreSizes(fs: FsContext)
    requires CoreInv(fs)
    ensures |fs.eb| == fs.g.blocks && |fs.disk| == fs.g.DeviceSize() && |fs.buf| == fs.g.E()
  {
  }

  /** With `done` of `len` bytes written from `off` on, the next byte is byte o of unit idx. */
  ghost predicate Cursor(s: nat, idx: nat, o: nat, off: nat, done: nat, len: nat) {
    && done <= len && o < s && (done > 0 ==> o == 0)
    && if done < len then idx * s + o == off + done else off + done <= idx * s < off + done + s
  }

  lemma CursorNext(s: nat, idx: nat, o: nat, off: nat, done: nat, len: nat, left: nat)
    requires done < len && Cursor(s, idx, o, off, done, len) && left == Min(len - done, s - o)
    ensures Cursor(s, idx + 1, 0, off, done + left, len)
  {
    assert (idx + 1) * s == idx * s + s;
  }

  // ---------------------------------------------------------- filling an empty slot of a table

  /** All cluster pointers held while a file of type t holds `ptrs`, and all erase-block pointers. */
  function ClinOf(t: DataType, ptrs: seq<nat>, oc: set<nat>): set<nat> { if t == Ebin then oc else oc + Nz(ptrs) }

  function EbinOf(t: DataType, ptrs: seq<nat>, ob: set<nat>): set<nat> { if t == Ebin then ob + Nz(ptrs) else ob }

  lemma OwnedFill(g: Geometry, eb: seq<EraseBlock>, t: DataType, ptrs: seq<nat>, j: nat, id: nat,
                  oc: set<nat>, ob: set<nat>, exact: bool)
    requires g.k > 0 && j < |ptrs| && ptrs[j] == 0 && Distinct(ptrs) && id != 0 && (t == Clin || t == Ebin)
    requires t == Ebin ==>
      Nz(ptrs) !! ob && id !in ob + Nz(ptrs) && LiveOk(g, eb, oc, exact) && EbinLive(eb, ob + Nz(ptrs) + {id})
    requires t == Clin ==>
      Nz(ptrs) !! oc && id !in oc + Nz(ptrs) && LiveOk(g, eb, oc + Nz(ptrs) + {id}, exact) && EbinLive(eb, ob)
    ensures Owned(g, eb, t, ptrs[j := id], oc, ob, exact)
  {
    NzUpdate(ptrs, j, id);
    assert 0 !in Nz(ptrs);
    assert Nz(ptrs[j := id]) == Nz(ptrs) + {id};
    if t == Ebin { assert ob + Nz(ptrs[j := id]) == ob + Nz(ptrs) + {id}; }
    else { assert oc + Nz(ptrs[j := id]) == oc + Nz(ptrs) + {id}; }
  }

  /** write_ind for a slot that holds nothing yet: the new pointer joins the ones the file owns. */
  method WriteOwned(fs: FsContext, ctx: WriteContext, data: seq<byte>, ghost ptrs: seq<nat>, ghost j: nat,
                    ghost oc: set<nat>, ghost ob: set<nat>, ghost exact: bool) returns (rc: Rc, id: nat)
    requires CoreInv(fs) && (ctx.newType == Clin || ctx.newType == Ebin)
    requires |data| == UnitSize(fs.g, ctx.newType) && ctx.ino.no < U32
    requires Owned(fs.g, fs.eb, ctx.newType, ptrs, oc, ob, exact) && j < |ptrs| && ptrs[j] == 0
    modifies fs`eb, fs`gc, fs`sums, fs`disk, fs`writer
    ensures CoreInv(fs) && DataStep(fs.g, old(fs.eb), old(fs.disk), fs.eb, fs.disk, {})
    ensures rc.NoSpc? || (rc.Ok? && (rc.n == |data| || (rc.n == 0 && AllZero(data))))
    ensures rc.NoSpc? ==>
      && Owned(fs.g, fs.eb, ctx.newType, ptrs, oc, ob, exact) && !AllZero(data)
      && fs.eb == old(fs.eb) && fs.disk == old(fs.disk)
    ensures rc.Ok? && rc.n != 0 && ctx.newType == Ebin ==> !FewEmpty(fs.g, old(fs.eb), 0)
    ensures rc.NoSpc? ==> NoRoom(fs.g, fs.eb, ctx.newType, ctx.ino.IsDir()) && FewEmpty(fs.g, fs.eb, 0)
    ensures rc.Ok? ==> id < U32 && UnitIs(fs.disk, |data|, id, data) && (rc.n == 0 <==> AllZero(data))
    ensures rc.Ok? ==> Owned(fs.g, fs.eb, ctx.newType, ptrs[j := id], oc, ob, exact)
    ensures rc.Ok? && id != 0 && ctx.newType == Ebin ==> WasEmpty(old(fs.eb), id)
    ensures rc.Ok? && ctx.newType == Ebin ==> SameEbin(old(fs.eb), fs.eb, id)
    ensures rc.Ok? && ctx.newType == Clin ==> OneClinMore(fs.g, old(fs.eb), fs.eb, id)
  {
    hide SumInv, EbInv, LiveOk, EbinLive, DataStep, GcInv, NoRoom, SameEbin, FewEmpty, OneClinMore;
    Sizes(fs.g);
    rc, id := WriteInd(fs, ctx, data, ClinOf(ctx.newType, ptrs, oc), EbinOf(ctx.newType, ptrs, ob), exact);
    if rc.Ok? {
      if id != 0 {
        OwnedFill(fs.g, fs.eb, ctx.newType, ptrs, j, id, oc, ob, exact);
      } else {
        assert ptrs[j := 0] == ptrs;
      }
    }
  }
}
