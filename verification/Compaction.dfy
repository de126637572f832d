/**
 * Collecting inode blocks as the comments of gc.cpp describe it: move_inodes skips a cluster when no inode in it
 * is valid any more, and find_empty_eraseblk has found a block to fill. Occupancy here is what mount counts.
 */
module Compaction {
  import opened Basics
  import opened Layout
  import opened EraseBlk
  import opened Summaries
  import opened Allocator
  import opened IoUnits
  import opened InodeCodec
  import opened InodeGroups
  import opened InodeLog
  import opened Inodes
  import opened Volume
  import opened Gc

  // ---------------------------------------------------------- occupancy as mount counts it

  /** The inodes the map places in a cluster. */
  function Living(inoMap: seq<nat>, cl: nat): set<nat> {
    set no: nat | 1 <= no < |inoMap| && inoMap[no] == cl
  }

  /** read_cl_occupancy */
  function Recount(inoMap: seq<nat>, n: nat): (r: seq<int>)
    ensures |r| == n && forall cl: nat | cl < n :: r[cl] == if cl == FREE_CL then 0 else |Living(inoMap, cl)|
  {
    seq(n, cl requires 0 <= cl < n => if cl == FREE_CL then 0 else |Living(inoMap, cl)|)
  }

  function Recounted(l: Log): Log { l.(occ := Recount(l.inoMap, |l.occ|)) }

  /** No inode is dirty, and the log is in order for the occupancy a mount would find. */
  ghost predicate Settled(g: Geometry, eb: seq<EraseBlock>, d: seq<byte>, l: Log) {
    l.dirty == {} && LogInv(g, eb, d, Recounted(l))
  }

  lemma CleanIsLiving(g: Geometry, l: Log, cl: nat)
    requires g.Valid() && Shape(g, l) && l.dirty == {} && cl != RESERVED_CL
    ensures Clean(l, cl) == Living(l.inoMap, cl)
  {
  }

  /** With nothing dirty the counters in memory are what a mount would count. */
  lemma SettledOf(g: Geometry, eb: seq<EraseBlock>, d: seq<byte>, l: Log)
    requires LogInv(g, eb, d, l) && l.dirty == {}
    ensures Settled(g, eb, d, l)
    ensures forall cl: nat | 1 <= cl < |l.occ| :: Recount(l.inoMap, |l.occ|)[cl] == l.occ[cl]
  {
    var r := Recounted(l);
    forall cl: nat | 1 <= cl < |l.occ| ensures r.occ[cl] == l.occ[cl] && r.occ[cl] == |Clean(r, cl)| {
      ClusterCount(g, cl);
      CleanIsLiving(g, l, cl);
      CleanIsLiving(g, r, cl);
      assert l.occ[cl] == |Clean(l, cl)|;
    }
    forall no: nat | 1 <= no < g.nino ensures Entry(g, eb, r, no) { assert Entry(g, eb, l, no); }
    forall no: nat | 1 <= no < g.nino && Real(r.inoMap[no]) && no !in r.dirty
      ensures ClusterHolds(g, d, r, r.inoMap[no])
    {
      assert ClusterHolds(g, d, l, l.inoMap[no]);
    }
    forall b: nat | 1 <= b < |eb| && IsInodeType(eb[b].etype) ensures eb[b].cvalid == |Occupied(g, r.occ, b)| {
      MulGe(b, g.k);
      assert Occupied(g, r.occ, b) == Occupied(g, l.occ, b);
      assert eb[b].cvalid == |Occupied(g, l.occ, b)|;
    }
  }

  // ---------------------------------------------------------- moving one cluster, on values

  lemma LivingMoved(inoMap: seq<nat>, r: seq<Inode>, cl: nat, n: nat, x: nat)
    requires Nos(r) == Living(inoMap, cl) && cl != n && Living(inoMap, n) == {}
    ensures Living(Mapped(inoMap, r, n), x)
       == if x == n then Living(inoMap, cl) else if x == cl then {} else Living(inoMap, x)
  {
    var m := Mapped(inoMap, r, n);
    forall no: nat | 1 <= no < |inoMap| ensures no in Nos(r) <==> inoMap[no] == cl { }
    if x == n { assert forall no: nat | 1 <= no < |inoMap| && inoMap[no] == n :: no in Living(inoMap, n); }
  }

  /** The state while the clusters of block s go to block e: e is as good as written up to what has been moved. */
  function MovedLog(l: Log, r: seq<Inode>, cl: nat, n: nat): Log
    requires cl in l.groups
  {
    l.(inoMap := Mapped(l.inoMap, r, n), groups := l.groups[n := l.groups[cl]])
  }

  function MovedEb(eb: seq<EraseBlock>, s: nat, e: nat): seq<EraseBlock>
    requires s < |eb| && e < |eb| && eb[s].cvalid > 0 && s != e
  {
    eb[s := eb[s].(cvalid := eb[s].cvalid - 1)][e := eb[e].(cvalid := eb[e].cvalid + 1, writeops := eb[e].writeops + 1)]
  }

  /** One cluster can move from index i of block s to the next free index of block e. */
  ghost predicate CanMove(g: Geometry, eb: seq<EraseBlock>, d: seq<byte>, l: Log, s: nat, i: nat, e: nat) {
    && Settled(g, eb, d, l) && 1 <= s < |eb| && 1 <= e < |eb| && s != e && i < g.k
    && IsInodeType(eb[s].etype) && IsInodeType(eb[e].etype) && eb[e].writeops < g.k
    && Living(l.inoMap, ClOf(g, s, i)) != {}
  }

  lemma CanMoveFacts(g: Geometry, eb: seq<EraseBlock>, d: seq<byte>, l: Log, s: nat, i: nat, e: nat)
    requires CanMove(g, eb, d, l, s, i, e)
    ensures g.Valid() && |d| == g.DeviceSize() && |eb| == g.blocks && Shape(g, l)
    ensures var cl, n := ClOf(g, s, i), ClOf(g, e, eb[e].writeops);
      && cl in l.groups && ClusterHolds(g, d, l, cl) && eb[s].cvalid > 0
      && i in Occupied(g, Recount(l.inoMap, |l.occ|), s)
      && 1 <= cl < |l.occ| && 1 <= n < |l.occ| && cl != n && Real(cl) && Real(n) && Living(l.inoMap, n) == {}
  {
    var rl := Recounted(l);
    var cl, n := ClOf(g, s, i), ClOf(g, e, eb[e].writeops);
    var no :| no in Living(l.inoMap, cl);
    ClOfSplit(g, s, i);
    ClOfSplit(g, e, eb[e].writeops);
    MulMono(s, g.blocks, g.k);
    MulMono(e, g.blocks, g.k);
    MulGe(s, g.k);
    MulGe(e, g.k);
    ClusterCount(g, cl);
    ClusterCount(g, n);
    assert Entry(g, eb, rl, no) && ClusterHolds(g, d, rl, rl.inoMap[no]);
    CleanHas(g, eb, rl, no);
    forall x: nat | 1 <= x < g.nino ensures l.inoMap[x] != n { assert Entry(g, eb, rl, x); }
    assert rl.occ[cl] == |Living(l.inoMap, cl)|;
  }

  lemma OccupiedMoved(g: Geometry, l: Log, r: seq<Inode>, cl: nat, n: nat, b: nat)
    requires g.Valid() && 1 <= cl < |l.occ| && 1 <= n < |l.occ| && cl != n && Living(l.inoMap, n) == {}
    requires Living(l.inoMap, cl) != {}
    requires Nos(r) == Living(l.inoMap, cl) && BlockOf(g, cl) != BlockOf(g, n) && b >= 1
    ensures var o, o' := Recount(l.inoMap, |l.occ|), Recount(Mapped(l.inoMap, r, n), |l.occ|);
      Occupied(g, o', b) == if b == BlockOf(g, cl) then Occupied(g, o, b) - {IndexOf(g, cl)}
                            else if b == BlockOf(g, n) then Occupied(g, o, b) + {IndexOf(g, n)} else Occupied(g, o, b)
    ensures IndexOf(g, n) !in Occupied(g, Recount(l.inoMap, |l.occ|), BlockOf(g, n))
  {
    var o, o' := Recount(l.inoMap, |l.occ|), Recount(Mapped(l.inoMap, r, n), |l.occ|);
    DivBounds(cl, g.k);
    DivBounds(n, g.k);
    forall i: nat | i < g.k && ClOf(g, b, i) < |l.occ|
      ensures o'[ClOf(g, b, i)] > 0 <==> (if b == BlockOf(g, cl) && i == IndexOf(g, cl) then false
                                          else if b == BlockOf(g, n) && i == IndexOf(g, n) then true
                                              else o[ClOf(g, b, i)] > 0)
    {
      ClOfSplit(g, b, i);
      LivingMoved(l.inoMap, r, cl, n, ClOf(g, b, i));
    }
  }

  lemma MoveCounts(g: Geometry, eb: seq<EraseBlock>, d: seq<byte>, l: Log, s: nat, i: nat, e: nat, r: seq<Inode>)
    requires CanMove(g, eb, d, l, s, i, e) && Nos(r) == Living(l.inoMap, ClOf(g, s, i))
    ensures eb[s].cvalid > 0 && ClOf(g, s, i) in l.groups
    ensures var l' := Recounted(MovedLog(l, r, ClOf(g, s, i), ClOf(g, e, eb[e].writeops)));
      OccOk(l') && CvalidOk(g, MovedEb(eb, s, e), l')
  {
    hide EntriesOk, ClustersOk, Together, InodeOk, OccOk;
    CanMoveFacts(g, eb, d, l, s, i, e);
    var cl, n := ClOf(g, s, i), ClOf(g, e, eb[e].writeops);
    ClOfSplit(g, s, i);
    ClOfSplit(g, e, eb[e].writeops);
    var l', eb' := Recounted(MovedLog(l, r, cl, n)), MovedEb(eb, s, e);
    MoveOcc(g, MovedLog(l, r, cl, n), l, r, n);
    forall b: nat | 1 <= b < |eb'| && IsInodeType(eb'[b].etype) ensures eb'[b].cvalid == |Occupied(g, l'.occ, b)| {
      hide Living, Recount, Occupied;
      OccupiedMoved(g, l, r, cl, n, b);
      assert eb[b].cvalid == |Occupied(g, Recounted(l).occ, b)|;
    }
  }

  lemma MoveOcc(g: Geometry, moved: Log, l: Log, r: seq<Inode>, n: nat)
    requires g.Valid() && Shape(g, l) && moved.inoMap == Mapped(l.inoMap, r, n) && moved.occ == l.occ
    requires moved.dirty == {} && |Mapped(l.inoMap, r, n)| == |l.inoMap|
    requires forall no | no in Nos(r) :: no >= 1
    ensures OccOk(Recounted(moved))
  {
    var l' := Recounted(moved);
    MappedZero(l.inoMap, r, n);
    forall x: nat | 1 <= x < |l'.occ| ensures l'.occ[x] == |Clean(l', x)| {
      ClusterCount(g, x);
      assert Clean(l', x) == Living(l'.inoMap, x);
    }
  }

  lemma MappedZero(inoMap: seq<nat>, r: seq<Inode>, n: nat)
    requires |inoMap| >= 1 && forall no | no in Nos(r) :: no >= 1
    ensures Mapped(inoMap, r, n)[0] == inoMap[0]
  {
  }

  /**
   * The bytes of cluster i of block s have been copied to the next cluster of block e, and nothing else has
   * changed.
   */
  ghost predicate Copied(g: Geometry, d: seq<byte>, d': seq<byte>, s: nat, i: nat, e: nat, m: nat) {
    && g.c > 0 && |d| == |d'| == g.DeviceSize() && s < g.blocks && e < g.blocks && i < g.k && m < g.k
    && Cluster(g, d', e, m) == Cluster(g, d, s, i)
    && OnlyClusterChanged(g, d, d', e, m)
  }

  lemma PatchCopies(g: Geometry, d: seq<byte>, s: nat, i: nat, e: nat, m: nat)
    requires g.c > 0 && |d| == g.DeviceSize() && s < g.blocks && e < g.blocks && i < g.k && m < g.k
    ensures ClOf(g, e, m) * g.c + g.c <= |d|
    ensures Copied(g, d, Patch(d, ClOf(g, e, m) * g.c, Cluster(g, d, s, i)), s, i, e, m)
  {
    hide Cluster, ClOf, Patch;
    PatchCluster(g, d, e, m, Cluster(g, d, s, i));
  }

  /** The disk after that copy. */
  function CopyOf(g: Geometry, d: seq<byte>, s: nat, i: nat, e: nat, m: nat): (r: seq<byte>)
    requires g.c > 0 && |d| == g.DeviceSize() && s < g.blocks && e < g.blocks && i < g.k && m < g.k
    ensures ClOf(g, s, i) * g.c + g.c <= |d| && ClOf(g, e, m) * g.c + g.c <= |d|
    ensures r == Patch(d, ClOf(g, e, m) * g.c, Cluster(g, d, s, i)) && Copied(g, d, r, s, i, e, m)
  {
    ClInDevice(g, s, i);
    ClInDevice(g, e, m);
    PatchCopies(g, d, s, i, e, m);
    Patch(d, ClOf(g, e, m) * g.c, Cluster(g, d, s, i))
  }

  lemma ClusterCopied(g: Geometry, d: seq<byte>, d': seq<byte>, s: nat, i: nat, e: nat, m: nat, x: nat)
    requires Copied(g, d, d', s, i, e, m) && g.k > 0 && x / g.k < g.blocks
    ensures x * g.c + g.c <= |d|
    ensures x != ClOf(g, e, m) ==> Chunk(d', g.c, x) == Chunk(d, g.c, x)
    ensures ClOf(g, s, i) * g.c + g.c <= |d|
    ensures (x == ClOf(g, e, m) ==> Chunk(d', g.c, x) == Chunk(d, g.c, ClOf(g, s, i)))
  {
    DivBounds(x, g.k);
    ClusterInBlock(g, x);
    ClInDevice(g, s, i);
    var b, j := x / g.k, x % g.k;
    assert ClOf(g, b, j) == x;
    ClOfSplit(g, e, m);
    if x != ClOf(g, e, m) { assert Cluster(g, d', b, j) == Cluster(g, d, b, j); }
  }

  lemma MoveEntry(g: Geometry, eb: seq<EraseBlock>, d: seq<byte>, l: Log, s: nat, i: nat, e: nat, r: seq<Inode>,
                  no: nat)
    requires CanMove(g, eb, d, l, s, i, e) && Nos(r) == Living(l.inoMap, ClOf(g, s, i)) && 1 <= no < g.nino
    ensures eb[s].cvalid > 0 && ClOf(g, s, i) in l.groups
    ensures Entry(g, MovedEb(eb, s, e), Recounted(MovedLog(l, r, ClOf(g, s, i), ClOf(g, e, eb[e].writeops))), no)
  {
    hide OccOk, CvalidOk, Together, ClustersOk, InodeOk, Norm;
    CanMoveFacts(g, eb, d, l, s, i, e);
    var n := ClOf(g, e, eb[e].writeops);
    ClOfSplit(g, e, eb[e].writeops);
    assert Entry(g, eb, Recounted(l), no);
    assert no in Nos(r) <==> l.inoMap[no] == ClOf(g, s, i);
    assert l.inoMap[no] != n;
  }

  lemma MoveCluster(g: Geometry, eb: seq<EraseBlock>, d: seq<byte>, d': seq<byte>, l: Log, s: nat, i: nat, e: nat,
                    r: seq<Inode>, no: nat)
    requires CanMove(g, eb, d, l, s, i, e) && Nos(r) == Living(l.inoMap, ClOf(g, s, i)) && 1 <= no < g.nino
    requires Copied(g, d, d', s, i, e, eb[e].writeops)
    ensures ClOf(g, s, i) in l.groups && g.Valid() && Shape(g, l)
    ensures var l' := MovedLog(l, r, ClOf(g, s, i), ClOf(g, e, eb[e].writeops));
      Real(l'.inoMap[no]) ==> ClusterHolds(g, d', Recounted(l'), l'.inoMap[no])
  {
    hide OccOk, CvalidOk, Together, InodeOk, Packed, GroupOk;
    CanMoveFacts(g, eb, d, l, s, i, e);
    var cl, n := ClOf(g, s, i), ClOf(g, e, eb[e].writeops);
    ClOfSplit(g, e, eb[e].writeops);
    var rl := Recounted(l);
    assert Entry(g, eb, rl, no);
    if no in Nos(r) {
      ClusterCopied(g, d, d', s, i, e, eb[e].writeops, n);
    } else if Real(l.inoMap[no]) {
      assert ClusterHolds(g, d, rl, l.inoMap[no]);
      ClusterRange(g, eb, l.inoMap[no]);
      ClusterCopied(g, d, d', s, i, e, eb[e].writeops, l.inoMap[no]);
      assert l.inoMap[no] != n;
    }
  }

  /** Moving one cluster keeps the log in order: every inode is found where it now lives, byte for byte. */
  lemma MoveStep(g: Geometry, eb: seq<EraseBlock>, d: seq<byte>, d': seq<byte>, l: Log, s: nat, i: nat, e: nat,
                 r: seq<Inode>)
    requires CanMove(g, eb, d, l, s, i, e) && Nos(r) == Living(l.inoMap, ClOf(g, s, i))
    requires Copied(g, d, d', s, i, e, eb[e].writeops)
    ensures eb[s].cvalid > 0 && ClOf(g, s, i) in l.groups
    ensures Settled(g, MovedEb(eb, s, e), d', MovedLog(l, r, ClOf(g, s, i), ClOf(g, e, eb[e].writeops)))
  {
    hide OccOk, CvalidOk, InodeOk, Packed, GroupOk, Norm, Recount;
    CanMoveFacts(g, eb, d, l, s, i, e);
    MoveCounts(g, eb, d, l, s, i, e, r);
    var cl, n := ClOf(g, s, i), ClOf(g, e, eb[e].writeops);
    var l', eb' := Recounted(MovedLog(l, r, cl, n)), MovedEb(eb, s, e);
    MappedZero(l.inoMap, r, n);
    assert Shape(g, l');
    forall no: nat | 1 <= no < g.nino ensures Entry(g, eb', l', no) { MoveEntry(g, eb, d, l, s, i, e, r, no); }
    forall no: nat | 1 <= no < g.nino && Real(l'.inoMap[no]) && no !in l'.dirty
      ensures ClusterHolds(g, d', l', l'.inoMap[no])
    {
      MoveCluster(g, eb, d, d', l, s, i, e, r, no);
    }
    assert forall no: nat | 1 <= no < g.nino :: no in Nos(r) <==> l.inoMap[no] == cl;
    assert forall no: nat | 1 <= no < g.nino :: l.inoMap[no] != n;
    assert Together(g, l');
  }

  /** The counters in memory do not follow the move: they are wrong from then on until the next mount counts again. */
  lemma OccLeftBehind(g: Geometry, eb: seq<EraseBlock>, d: seq<byte>, l: Log, s: nat, i: nat, e: nat, r: seq<Inode>)
    requires CanMove(g, eb, d, l, s, i, e) && Nos(r) == Living(l.inoMap, ClOf(g, s, i)) && OccOk(l)
    ensures ClOf(g, s, i) in l.groups
    ensures var l' := MovedLog(l, r, ClOf(g, s, i), ClOf(g, e, eb[e].writeops)); !OccOk(l') && OccOk(Recounted(l'))
  {
    CanMoveFacts(g, eb, d, l, s, i, e);
    MoveCounts(g, eb, d, l, s, i, e, r);
    var cl, n := ClOf(g, s, i), ClOf(g, e, eb[e].writeops);
    var l' := MovedLog(l, r, cl, n);
    CleanIsLiving(g, l, n);
    LivingMoved(l.inoMap, r, cl, n, n);
    var no :| no in Living(l.inoMap, cl);
    assert no in Clean(l', n) && l.occ[n] == |Clean(l, n)|;
    assert l'.occ[n] != |Clean(l', n)|;
  }

  // ---------------------------------------------------------- the allocator's side of one move

  /** Block dest as the allocator sees it until the collection is over: empty. */
  function BaseEb(eb: seq<EraseBlock>, dest: nat): seq<EraseBlock>
    requires dest < |eb|
  {
    eb[dest := EraseBlock(Empty, eb[dest].lastwrite, 0, 0)]
  }

  /** Block dest as the inode log sees it: the first `moved` of its clusters hold inodes. */
  function VirtualEb(eb: seq<EraseBlock>, t: EbType, dest: nat, moved: nat): seq<EraseBlock>
    requires dest < |eb|
  {
    eb[dest := EraseBlock(t, eb[dest].lastwrite, moved, moved)]
  }

  /** Everything but the inode log is in order while block dest fills up. */
  ghost predicate BaseOk(g: Geometry, b: seq<EraseBlock>, d: seq<byte>, sums: SummaryCache, writer: seq<seq<nat>>,
                         dest: nat, live: set<nat>, blocks: set<nat>, exact: bool)
    requires g.Valid()
  {
    && EbInv(g, b) && SumInv(g, b, d, sums, writer) && LiveOk(g, b, live, exact) && EbinLive(b, blocks)
    && 1 <= dest < |b| && b[dest].etype == Empty && CountEmpty(b, |b|) > g.nerasereserve
  }

  lemma BaseStep(g: Geometry, b: seq<EraseBlock>, d: seq<byte>, d': seq<byte>, sums: SummaryCache,
                 writer: seq<seq<nat>>, dest: nat, live: set<nat>, blocks: set<nat>, exact: bool, s: nat, i: nat,
                 m: nat)
    requires g.Valid() && BaseOk(g, b, d, sums, writer, dest, live, blocks, exact)
    requires 1 <= s < |b| && s != dest && IsInodeType(b[s].etype) && b[s].cvalid > 0 && Copied(g, d, d', s, i, dest, m)
    ensures BaseOk(g, DecCvalid(b, s), d', sums, writer, dest, live, blocks, exact)
    ensures Kept(g, b, d, DecCvalid(b, s), d', {})
  {
    var b' := DecCvalid(b, s);
    DecInodeBlock(g, b, s, live, exact, blocks);
    CountEmptyUpdate(b, |b|, s, b'[s]);
    assert Kept(g, b, d, b', d', {});
    SumKept(g, b, d, b', d', {}, sums, writer);
  }

  // ---------------------------------------------------------- valid clusters of one type

  function SumCvalid(eb: seq<EraseBlock>, t: EbType, n: nat): nat
    requires n <= |eb|
  {
    if n == 0 then 0 else SumCvalid(eb, t, n - 1) + if eb[n - 1].etype == t then eb[n - 1].cvalid else 0
  }

  lemma {:induction false} SumUpdate(eb: seq<EraseBlock>, t: EbType, n: nat, i: nat, b: EraseBlock)
    requires n <= |eb| && i < |eb|
    ensures SumCvalid(eb[i := b], t, n) == SumCvalid(eb, t, n)
              - (if i < n && eb[i].etype == t then eb[i].cvalid else 0) + (if i < n && b.etype == t then b.cvalid
                  else 0)
  {
    if n > 0 { SumUpdate(eb, t, n - 1, i, b); }
  }

  lemma SumMoved(eb: seq<EraseBlock>, t: EbType, s: nat, e: nat)
    requires s < |eb| && e < |eb| && s != e && eb[s].cvalid > 0 && eb[s].etype == t && eb[e].etype == t
    ensures SumCvalid(MovedEb(eb, s, e), t, |eb|) == SumCvalid(eb, t, |eb|)
  {
    var x := eb[s].(cvalid := eb[s].cvalid - 1);
    SumUpdate(eb, t, |eb|, s, x);
    SumUpdate(eb[s := x], t, |eb|, e, eb[e].(cvalid := eb[e].cvalid + 1, writeops := eb[e].writeops + 1));
  }

  // ---------------------------------------------------------- move_inodes, as it is meant

  /** The state between two clusters of a collection that has filled `moved` clusters of block dest. */
  ghost predicate Moving(fs: FsContext, t: EbType, dest: nat, moved: nat, live: set<nat>, blocks: set<nat>, exact: bool)
    reads fs
  {
    && fs.g.Valid() && IsInodeType(t) && t in GcTypes(fs.g) && 1 <= dest < |fs.eb| && |fs.buf| == fs.g.E()
    && GcInv(fs.g, fs.gc)
    && fs.eb[dest].etype == Empty && fs.eb[dest].writeops == 0 && fs.eb[dest].cvalid == moved <= fs.g.k
    && BaseOk(fs.g, BaseEb(fs.eb, dest), fs.disk, fs.sums, fs.writer, dest, live, blocks, exact)
    && Settled(fs.g, VirtualEb(fs.eb, t, dest, moved), fs.disk, LogOf(fs))
  }

  /** The inodes found in a cluster are exactly the ones the map places there. */
  lemma FoundIsLiving(g: Geometry, eb: seq<EraseBlock>, d: seq<byte>, l: Log, cl: nat, b: seq<byte>)
    requires Settled(g, eb, d, l) && 1 <= cl < |l.occ| && g.c + INODE_SIZE <= |b| && cl * g.c + g.c <= |d|
    requires b[..g.c] == Chunk(d, g.c, cl) && ParseFrom(g, l.inoMap, cl, b, 0).Some?
    ensures Nos(ParseFrom(g, l.inoMap, cl, b, 0).value) == Living(l.inoMap, cl)
  {
    hide OccOk, CvalidOk, Together, InodeOk, ParseFrom, Norm;
    var found, rl := ParseFrom(g, l.inoMap, cl, b, 0).value, Recounted(l);
    ClusterCount(g, cl);
    ParsedHaveSlots(g, l.inoMap, cl, b, 0);
    forall no | no in Nos(found) ensures no in Living(l.inoMap, cl) {
      var i :| 0 <= i < |found| && found[i].no == no;
      assert found[i] in found;
    }
    forall no | no in Living(l.inoMap, cl) ensures no in Nos(found) {
      assert Entry(g, eb, rl, no) && ClusterHolds(g, d, rl, cl);
      FoundMember(g, d, rl, cl, b, no);
    }
  }

  lemma FoundMember(g: Geometry, d: seq<byte>, l: Log, cl: nat, b: seq<byte>, no: nat)
    requires g.Valid() && ClusterHolds(g, d, l, cl) && g.c + INODE_SIZE <= |b| && b[..g.c] == Chunk(d, g.c, cl)
    requires ParseFrom(g, l.inoMap, cl, b, 0).Some? && PointsTo(l.inoMap, no, cl)
    requires exists i :: 0 <= i < |l.groups[cl]| && l.groups[cl][i].no == no
    ensures no in Nos(ParseFrom(g, l.inoMap, cl, b, 0).value)
  {
    hide ParseFrom, InodeOk;
    var group, found := l.groups[cl], ParseFrom(g, l.inoMap, cl, b, 0).value;
    var n := GroupSize(g, group);
    assert b[..n] == b[..g.c][..n] == EncodeGroup(g, group);
    assert b[0..n] == b[..n];
    ParseGroupPrefix(g, l.inoMap, cl, b, 0, group);
    CurrentMembers(g, l.inoMap, cl, group);
    var i :| 0 <= i < |group| && group[i].no == no;
    var x := Norm(g, group[i]);
    var j :| 0 <= j < |Current(g, l.inoMap, cl, group)| && Current(g, l.inoMap, cl, group)[j] == x;
    assert found[j] == x && x.no == no;
  }

  lemma {:induction false} OverrunPoints(g: Geometry, inoMap: seq<nat>, cl: nat, b: seq<byte>, off: nat)
    returns (no: nat)
    requires g.Valid() && g.c + INODE_SIZE <= |b| && ParseFrom(g, inoMap, cl, b, off).None?
    ensures PointsTo(inoMap, no, cl)
    decreases if off < g.c then g.c - off else 0
  {
    hide SpanAt, NoAt, DecodeAt;
    no := NoAt(b, off);
    if !PointsTo(inoMap, no, cl) { no := OverrunPoints(g, inoMap, cl, b, off + SpanAt(g, b, off)); }
  }

  /** Only a phantom is ever copied behind its target. */
  lemma OverrunIsPhantom(g: Geometry, eb: seq<EraseBlock>, d: seq<byte>, l: Log, cl: nat, b: seq<byte>)
    requires Settled(g, eb, d, l) && 1 <= cl < |l.occ| && g.c + INODE_SIZE <= |b| && cl * g.c + g.c <= |d|
    requires b[..g.c] == Chunk(d, g.c, cl) && ParseFrom(g, l.inoMap, cl, b, 0).None?
    ensures PhantomSeen(g, l.inoMap, cl, b)
  {
    hide OccOk, CvalidOk, Together, InodeOk, ParseFrom, Norm, PhantomSeen, Phantom, Packed;
    var rl := Recounted(l);
    ClusterCount(g, cl);
    var no := OverrunPoints(g, l.inoMap, cl, b, 0);
    assert Entry(g, eb, rl, no) && ClusterHolds(g, d, rl, cl);
    PackParse(g, l.inoMap, cl, b, l.groups[cl]);
    PhantomIsSeen(g, l.inoMap, cl, b, l.groups[cl]);
  }

  /** The cluster read last ends in a phantom. */
  ghost predicate MetPhantom(fs: FsContext)
    reads fs
  {
    fs.g.Valid() && fs.g.c + INODE_SIZE <= |fs.buf| && exists cl: nat :: PhantomSeen(fs.g, fs.inoMap, cl, fs.buf)
  }

  /** The map entries of the inodes of a moved cluster. */
  method Remap(fs: FsContext, inodes: seq<Inode>, cl: nat)
    requires forall i | 0 <= i < |inodes| :: inodes[i].no < |fs.inoMap|
    modifies fs`inoMap
    ensures fs.inoMap == Mapped(old(fs.inoMap), inodes, cl)
  {
    var i: nat := 0;
    while i < |inodes|
      invariant i <= |inodes| && fs.inoMap == Mapped(old(fs.inoMap), inodes[..i], cl)
    {
      NosMore(inodes, i);
      fs.inoMap := fs.inoMap[inodes[i].no := cl];
      i := i + 1;
    }
    assert inodes[..i] == inodes;
  }

  /** From one cluster to the next: nothing changes but the map, the two counters, and one cluster of block dest. */
  ghost predicate MovedOn(g: Geometry, t: EbType, eb0: seq<EraseBlock>, d0: seq<byte>, eb: seq<EraseBlock>,
                          d: seq<byte>, src: nat, dest: nat, moved0: nat, moved: nat)
    requires g.c > 0
  {
    && |eb| == |eb0| && 1 <= src < |eb| && 1 <= dest < |eb| && src != dest && moved0 <= moved
    && eb[src].cvalid + moved == eb0[src].cvalid + moved0 && eb[src] == eb0[src].(cvalid := eb[src].cvalid)
    && (forall b | 0 <= b < |eb| && b != src && b != dest :: eb[b] == eb0[b])
    && Kept(g, BaseEb(eb0, dest), d0, BaseEb(eb, dest), d, {})
    && SumCvalid(VirtualEb(eb, t, dest, moved), t, |eb|) == SumCvalid(VirtualEb(eb0, t, dest, moved0), t, |eb0|)
  }

  /** Copying the cluster found in the buffer, and counting it from one block to the other. */
  method MoveOne(fs: FsContext, t: EbType, src: nat, i: nat, dest: nat, moved: nat, inodes: seq<Inode>,
                 ghost live: set<nat>, ghost blocks: set<nat>, ghost exact: bool)
    requires Moving(fs, t, dest, moved, live, blocks, exact) && moved < fs.g.k && i < fs.g.k
    requires 1 <= src < |fs.eb| && src != dest && fs.eb[src].etype == t
    requires Living(fs.inoMap, ClOf(fs.g, src, i)) != {} && Nos(inodes) == Living(fs.inoMap, ClOf(fs.g, src, i))
    modifies fs`buf, fs`disk, fs`inoMap, fs`eb, fs`groups
    ensures Moving(fs, t, dest, moved + 1, live, blocks, exact)
    ensures MovedOn(fs.g, t, old(fs.eb), old(fs.disk), fs.eb, fs.disk, src, dest, moved, moved + 1)
    ensures fs.inoMap == Mapped(old(fs.inoMap), inodes, ClOf(fs.g, dest, moved))
  {
    hide Moving, MovedOn, Settled, BaseOk, Kept, Mapped, Living, SumCvalid, Cluster, MovedEb;
    ghost var eb0, d0, l := fs.eb, fs.disk, LogOf(fs);
    MoveOneFacts(fs, t, src, i, dest, moved, inodes, live, blocks, exact);
    ghost var d1 := CopyOf(fs.g, fs.disk, src, i, dest, moved);
    var clOff := ClOf(fs.g, src, i) * fs.g.c;
    fs.buf := Patch(fs.buf, 0, fs.disk[clOff..clOff + fs.g.c]);
    BufferHolds(fs.g, d0, src, i, fs.buf);
    fs.disk := Patch(fs.disk, ClOf(fs.g, dest, moved) * fs.g.c, fs.buf[..fs.g.c]);
    Remap(fs, inodes, ClOf(fs.g, dest, moved));
    fs.groups := fs.groups[ClOf(fs.g, dest, moved) := fs.groups[ClOf(fs.g, src, i)]];
    fs.eb := fs.eb[dest := fs.eb[dest].(cvalid := fs.eb[dest].cvalid + 1)];
    fs.eb := fs.eb[src := fs.eb[src].(cvalid := fs.eb[src].cvalid - 1)];
    assert LogOf(fs) == MovedLog(l, inodes, ClOf(fs.g, src, i), ClOf(fs.g, dest, moved));
    AfterMove(fs, t, eb0, d0, src, dest, moved, live, blocks, exact);
  }

  lemma BufferHolds(g: Geometry, d: seq<byte>, b: nat, i: nat, buf: seq<byte>)
    requires g.c > 0 && b < g.blocks && i < g.k && |d| == g.DeviceSize() && g.c <= |buf|
    requires ClOf(g, b, i) * g.c + g.c <= |d| && buf[..g.c] == d[ClOf(g, b, i) * g.c..ClOf(g, b, i) * g.c + g.c]
    ensures buf[..g.c] == Cluster(g, d, b, i)
  {
  }

  lemma AfterMove(fs: FsContext, t: EbType, eb0: seq<EraseBlock>, d0: seq<byte>, src: nat, dest: nat, moved: nat,
                  live: set<nat>, blocks: set<nat>, exact: bool)
    requires fs.g.Valid() && IsInodeType(t) && t in GcTypes(fs.g) && |fs.buf| == fs.g.E() && GcInv(fs.g, fs.gc)
    requires moved < fs.g.k
    requires 1 <= src < |eb0| && 1 <= dest < |eb0| && src != dest && eb0[src].cvalid > 0
    requires eb0[dest].etype == Empty && eb0[dest].writeops == 0 && eb0[dest].cvalid == moved
    requires fs.eb == eb0[dest := eb0[dest].(cvalid := moved + 1)][src := eb0[src].(cvalid := eb0[src].cvalid - 1)]
    requires var v, b := VirtualEb(eb0, t, dest, moved), BaseEb(eb0, dest);
      && Settled(fs.g, MovedEb(v, src, dest), fs.disk, LogOf(fs))
      && BaseOk(fs.g, DecCvalid(b, src), fs.disk, fs.sums, fs.writer, dest, live, blocks, exact)
      && Kept(fs.g, b, d0, DecCvalid(b, src), fs.disk, {})
      && SumCvalid(MovedEb(v, src, dest), t, |v|) == SumCvalid(v, t, |v|)
    ensures Moving(fs, t, dest, moved + 1, live, blocks, exact)
    ensures MovedOn(fs.g, t, eb0, d0, fs.eb, fs.disk, src, dest, moved, moved + 1)
  {
    hide Settled, BaseOk, Kept, SumCvalid;
    MoveOneViews(eb0, fs.eb, t, src, dest, moved);
  }

  /** What one move amounts to, seen by the log and by the allocator. */
  lemma MoveOneFacts(fs: FsContext, t: EbType, src: nat, i: nat, dest: nat, moved: nat, inodes: seq<Inode>,
                     live: set<nat>, blocks: set<nat>, exact: bool)
    requires Moving(fs, t, dest, moved, live, blocks, exact) && moved < fs.g.k && i < fs.g.k
    requires 1 <= src < |fs.eb| && src != dest && fs.eb[src].etype == t
    requires Living(fs.inoMap, ClOf(fs.g, src, i)) != {} && Nos(inodes) == Living(fs.inoMap, ClOf(fs.g, src, i))
    ensures |fs.disk| == fs.g.DeviceSize() && fs.g.c <= |fs.buf| && |fs.eb| == fs.g.blocks && dest < |fs.eb|
    ensures fs.eb[dest].etype == Empty && fs.eb[dest].writeops == 0 && fs.eb[dest].cvalid == moved
    ensures fs.g.Valid() && IsInodeType(t) && t in GcTypes(fs.g) && |fs.buf| == fs.g.E() && GcInv(fs.g, fs.gc)
    ensures 1 <= dest < |fs.eb|
    ensures fs.eb[src].cvalid > 0 && ClOf(fs.g, src, i) in fs.groups
    ensures forall x | 0 <= x < |inodes| :: inodes[x].no < |fs.inoMap|
    ensures
      var d' := CopyOf(fs.g, fs.disk, src, i, dest, moved);
      var v, b := VirtualEb(fs.eb, t, dest, moved), BaseEb(fs.eb, dest);
      && Settled(fs.g, MovedEb(v, src, dest), d',
          MovedLog(LogOf(fs), inodes, ClOf(fs.g, src, i), ClOf(fs.g, dest, moved)))
      && BaseOk(fs.g, DecCvalid(b, src), d', fs.sums, fs.writer, dest, live, blocks, exact)
      && Kept(fs.g, b, fs.disk, DecCvalid(b, src), d', {})
      && SumCvalid(MovedEb(v, src, dest), t, |v|) == SumCvalid(v, t, |v|)
  {
    hide SumInv, LogInv, LiveOk, EbinLive, Kept;
    var g, v, b := fs.g, VirtualEb(fs.eb, t, dest, moved), BaseEb(fs.eb, dest);
    assert CanMove(g, v, fs.disk, LogOf(fs), src, i, dest);
    CanMoveFacts(g, v, fs.disk, LogOf(fs), src, i, dest);
    Sizes(g);
    var d' := CopyOf(g, fs.disk, src, i, dest, moved);
    MoveStep(g, v, fs.disk, d', LogOf(fs), src, i, dest, inodes);
    BaseStep(g, b, fs.disk, d', fs.sums, fs.writer, dest, live, blocks, exact, src, i, moved);
    SumMoved(v, t, src, dest);
    forall x | 0 <= x < |inodes| ensures inodes[x].no < |fs.inoMap| { assert inodes[x].no in Nos(inodes); }
  }

  lemma MoveOneViews(eb0: seq<EraseBlock>, eb: seq<EraseBlock>, t: EbType, src: nat, dest: nat, moved: nat)
    requires src < |eb0| && dest < |eb0| && src != dest && eb0[src].cvalid > 0 && |eb| == |eb0|
    requires eb0[dest].cvalid == moved
    requires eb
          == eb0[dest := eb0[dest].(cvalid := eb0[dest].cvalid + 1)][src := eb0[src].(cvalid := eb0[src].cvalid - 1)]
    ensures VirtualEb(eb, t, dest, moved + 1) == MovedEb(VirtualEb(eb0, t, dest, moved), src, dest)
    ensures BaseEb(eb, dest) == DecCvalid(BaseEb(eb0, dest), src)
  {
  }

  /**
   * One cluster of the loop: skipped if no inode in it is valid any more, else moved. None stands for a copy behind
   * its target.
   */
  method MoveNext(fs: FsContext, t: EbType, src: nat, i: nat, dest: nat, moved: nat,
                  ghost live: set<nat>, ghost blocks: set<nat>, ghost exact: bool) returns (moved': Option<nat>)
    requires Moving(fs, t, dest, moved, live, blocks, exact) && moved < fs.g.k && i < fs.g.k
    requires 1 <= src < |fs.eb| && src != dest && fs.eb[src].etype == t
    modifies fs`buf, fs`disk, fs`inoMap, fs`eb, fs`groups
    ensures moved'.Some? ==>
      && Moving(fs, t, dest, moved'.value, live, blocks, exact)
      && MovedOn(fs.g, t, old(fs.eb), old(fs.disk), fs.eb, fs.disk, src, dest, moved, moved'.value)
      && moved'.value <= moved + 1
      && Living(fs.inoMap, ClOf(fs.g, src, i)) == {}
      && forall j: nat | j < fs.g.k && Living(old(fs.inoMap), ClOf(fs.g, src, j)) == {} ::
        Living(fs.inoMap, ClOf(fs.g, src, j)) == {}
    ensures moved'.None? ==> MetPhantom(fs)
  {
    hide SumInv, EbInv, GcInv, LogInv, LiveOk, EbinLive, Kept, Recount, SumCvalid, CountEmpty, Mapped, ParseFrom,
      BaseOk, PhantomSeen;
    ghost var eb0, d0, map0 := fs.eb, fs.disk, fs.inoMap;
    MovingFacts(fs, t, src, i, dest, moved, live, blocks, exact);
    var inodes := ReadInodeGroup(fs, ClOf(fs.g, src, i));
    if inodes.None? {
      OverrunIsPhantom(fs.g, VirtualEb(fs.eb, t, dest, moved), fs.disk, LogOf(fs), ClOf(fs.g, src, i), fs.buf);
      return None;
    }
    FoundIsLiving(fs.g, VirtualEb(fs.eb, t, dest, moved), fs.disk, LogOf(fs), ClOf(fs.g, src, i), fs.buf);
    if inodes.value == [] {
      assert Nos([]) == {};
      return Some(moved);
    }
    assert inodes.value[0].no in Nos(inodes.value);
    MoveOne(fs, t, src, i, dest, moved, inodes.value, live, blocks, exact);
    StillEmpty(fs.g, map0, inodes.value, src, i, dest, moved);
    moved' := Some(moved + 1);
  }

  lemma MovingFacts(fs: FsContext, t: EbType, src: nat, i: nat, dest: nat, moved: nat, live: set<nat>,
                    blocks: set<nat>, exact: bool)
    requires Moving(fs, t, dest, moved, live, blocks, exact) && i < fs.g.k
    requires 1 <= src < |fs.eb| && src != dest && fs.eb[src].etype == t
    ensures fs.g.Valid() && ClOf(fs.g, src, i) * fs.g.c + fs.g.c <= |fs.disk| && |fs.eb| == fs.g.blocks
    ensures 1 <= ClOf(fs.g, src, i) < |fs.occ|
    ensures MovedOn(fs.g, t, fs.eb, fs.disk, fs.eb, fs.disk, src, dest, moved, moved)
    ensures Settled(fs.g, VirtualEb(fs.eb, t, dest, moved), fs.disk, LogOf(fs))
  {
    ClInDevice(fs.g, src, i);
    MulMono(src, fs.g.blocks, fs.g.k);
    MulGe(src, fs.g.k);
    var b := BaseEb(fs.eb, dest);
    StepRefl(fs.g, b, fs.disk);
  }

  lemma StillEmpty(g: Geometry, inoMap: seq<nat>, r: seq<Inode>, src: nat, i: nat, dest: nat, m: nat)
    requires g.c > 0 && g.k > 0 && src != dest && i < g.k && m < g.k && Nos(r) == Living(inoMap, ClOf(g, src, i))
    ensures forall j: nat | j < g.k && (j == i || Living(inoMap, ClOf(g, src, j)) == {}) ::
              Living(Mapped(inoMap, r, ClOf(g, dest, m)), ClOf(g, src, j)) == {}
  {
    ClOfSplit(g, dest, m);
    forall j: nat | j < g.k && (j == i || Living(inoMap, ClOf(g, src, j)) == {})
      ensures Living(Mapped(inoMap, r, ClOf(g, dest, m)), ClOf(g, src, j)) == {}
    {
      ClOfSplit(g, src, j);
      var map' := Mapped(inoMap, r, ClOf(g, dest, m));
      forall no: nat | 1 <= no < |inoMap| ensures map'[no] != ClOf(g, src, j) {
        assert no in Nos(r) <==> no in Living(inoMap, ClOf(g, src, i));
        assert no !in Living(inoMap, ClOf(g, src, j)) || j == i;
      }
    }
  }

  lemma MovedOnTrans(g: Geometry, t: EbType, eb0: seq<EraseBlock>, d0: seq<byte>, eb1: seq<EraseBlock>, d1: seq<byte>,
                     eb2: seq<EraseBlock>, d2: seq<byte>, src: nat, dest: nat, m0: nat, m1: nat, m2: nat)
    requires g.c > 0 && MovedOn(g, t, eb0, d0, eb1, d1, src, dest, m0, m1)
    requires MovedOn(g, t, eb1, d1, eb2, d2, src, dest, m1, m2)
    ensures MovedOn(g, t, eb0, d0, eb2, d2, src, dest, m0, m2)
  {
    KeptTrans(g, BaseEb(eb0, dest), d0, BaseEb(eb1, dest), d1, BaseEb(eb2, dest), d2, {}, {});
  }

  /**
   * move_inodes as it is meant: the valid clusters of block src go to block dest from index `moved0` on, until
   * src holds none or dest is full.
   */
  method MoveValid(fs: FsContext, t: EbType, src: nat, dest: nat, moved0: nat,
                   ghost live: set<nat>, ghost blocks: set<nat>, ghost exact: bool) returns (moved: Option<nat>)
    requires Moving(fs, t, dest, moved0, live, blocks, exact) && moved0 < fs.g.k
    requires 1 <= src < |fs.eb| && src != dest && fs.eb[src].etype == t
    modifies fs`buf, fs`disk, fs`inoMap, fs`eb, fs`groups
    ensures moved.Some? ==>
      && Moving(fs, t, dest, moved.value, live, blocks, exact)
      && MovedOn(fs.g, t, old(fs.eb), old(fs.disk), fs.eb, fs.disk, src, dest, moved0, moved.value)
      && (moved.value == fs.g.k || fs.eb[src].cvalid == 0)
    ensures moved.None? ==> MetPhantom(fs)
  {
    hide SumInv, EbInv, GcInv, LogInv, LiveOk, EbinLive, Kept, Recount, SumCvalid, CountEmpty, BaseOk, MovedOn, Moving,
      MetPhantom;
    ghost var eb0, d0 := fs.eb, fs.disk;
    ValidMoving(fs, t, dest, moved0, live, blocks, exact);
    MovingFacts(fs, t, src, 0, dest, moved0, live, blocks, exact);
    var m: nat := moved0;
    var i: nat := 0;
    while i < fs.g.k && m < fs.g.k
      invariant i <= fs.g.k && Moving(fs, t, dest, m, live, blocks, exact) && m <= fs.g.k && |fs.eb| == |eb0|
      invariant MovedOn(fs.g, t, eb0, d0, fs.eb, fs.disk, src, dest, moved0, m) && fs.eb[src].etype == t
      invariant forall j: nat | j < i :: Living(fs.inoMap, ClOf(fs.g, src, j)) == {}
      decreases fs.g.k - i
    {
      ghost var eb1, d1 := fs.eb, fs.disk;
      var next := MoveNext(fs, t, src, i, dest, m, live, blocks, exact);
      if next.None? { return None; }
      MovedOnSame(fs.g, t, eb1, d1, fs.eb, fs.disk, src, dest, m, next.value);
      MovedOnTrans(fs.g, t, eb0, d0, eb1, d1, fs.eb, fs.disk, src, dest, moved0, m, next.value);
      ValidMoving(fs, t, dest, next.value, live, blocks, exact);
      m := next.value;
      i := i + 1;
    }
    if m < fs.g.k { Drained(fs, t, src, dest, m, live, blocks, exact); }
    moved := Some(m);
  }

  lemma ValidMoving(fs: FsContext, t: EbType, dest: nat, moved: nat, live: set<nat>, blocks: set<nat>, exact: bool)
    requires Moving(fs, t, dest, moved, live, blocks, exact)
    ensures fs.g.Valid() && moved <= fs.g.k
  {
  }

  lemma MovedOnSame(g: Geometry, t: EbType, eb0: seq<EraseBlock>, d0: seq<byte>, eb: seq<EraseBlock>, d: seq<byte>,
                    src: nat, dest: nat, moved0: nat, moved: nat)
    requires g.c > 0 && MovedOn(g, t, eb0, d0, eb, d, src, dest, moved0, moved)
    ensures |eb| == |eb0| && src < |eb| && eb[src].etype == eb0[src].etype && moved0 <= moved
  {
  }

  /** A block in whose clusters no inode lives has no valid clusters. */
  lemma Drained(fs: FsContext, t: EbType, src: nat, dest: nat, m: nat, live: set<nat>, blocks: set<nat>, exact: bool)
    requires Moving(fs, t, dest, m, live, blocks, exact) && 1 <= src < |fs.eb| && src != dest && fs.eb[src].etype == t
    requires forall j: nat | j < fs.g.k :: Living(fs.inoMap, ClOf(fs.g, src, j)) == {}
    ensures fs.eb[src].cvalid == 0
  {
    var l := Recounted(LogOf(fs));
    var v := VirtualEb(fs.eb, t, dest, m);
    assert v[src].cvalid == |Occupied(fs.g, l.occ, src)|;
    assert Occupied(fs.g, l.occ, src) == {};
  }

  // ---------------------------------------------------------- collect_inodes, as it is meant

  /** What a collection has done once `moved` clusters of block dest are filled. */
  ghost predicate Collected(g: Geometry, t: EbType, eb0: seq<EraseBlock>, d0: seq<byte>, eb: seq<EraseBlock>,
                            d: seq<byte>, dest: nat, moved: nat)
    requires g.c > 0
  {
    && |eb| == |eb0| && 1 <= dest < |eb|
    && (forall b | 0 <= b < |eb| && b != dest :: eb[b] == eb0[b] || Drawn(t, eb0[b], eb[b]))
    && Kept(g, BaseEb(eb0, dest), d0, BaseEb(eb, dest), d, {})
    && SumCvalid(VirtualEb(eb, t, dest, moved), t, |eb|) == SumCvalid(VirtualEb(eb0, t, dest, 0), t, |eb0|)
    && (moved > 0 ==> exists b: nat :: DrainedBlock(eb0, eb, t, dest, b))
  }

  /** A block of type t that has given valid clusters away. */
  predicate Drawn(t: EbType, b0: EraseBlock, b: EraseBlock) {
    b0.etype == t && b.cvalid < b0.cvalid && b == b0.(cvalid := b.cvalid)
  }

  predicate DrainedBlock(eb0: seq<EraseBlock>, eb: seq<EraseBlock>, t: EbType, dest: nat, b: nat) {
    1 <= b < |eb| == |eb0| && b != dest && eb[b].etype == t && eb[b].cvalid == 0 && eb0[b].cvalid > 0
  }

  /** A round moves something, and the first one drains its block: it holds fewer valid clusters than fit. */
  lemma CollectedNext(g: Geometry, t: EbType, eb0: seq<EraseBlock>, d0: seq<byte>, eb1: seq<EraseBlock>, d1: seq<byte>,
                      eb2: seq<EraseBlock>, d2: seq<byte>, src: nat, dest: nat, m1: nat, m2: nat)
    requires g.c > 0 && Collected(g, t, eb0, d0, eb1, d1, dest, m1)
    requires MovedOn(g, t, eb1, d1, eb2, d2, src, dest, m1, m2)
    requires IsInodeType(t) && CollectableOf(g, eb1, t, src) && m1 < g.k && (m2 == g.k || eb2[src].cvalid == 0)
    ensures Collected(g, t, eb0, d0, eb2, d2, dest, m2) && m1 < m2
  {
    KeptTrans(g, BaseEb(eb0, dest), d0, BaseEb(eb1, dest), d1, BaseEb(eb2, dest), d2, {}, {});
    if m1 == 0 {
      assert DrainedBlock(eb0, eb2, t, dest, src);
    } else {
      var b: nat :| DrainedBlock(eb0, eb1, t, dest, b);
      assert DrainedBlock(eb0, eb2, t, dest, b);
    }
  }

  /** An inode block may count more writes without anybody noticing. */
  lemma LogMoreWrites(g: Geometry, eb: seq<EraseBlock>, d: seq<byte>, l: Log, e: nat, b: EraseBlock)
    requires LogInv(g, eb, d, l) && 1 <= e < |eb| && IsInodeType(eb[e].etype)
    requires b.etype == eb[e].etype && b.cvalid == eb[e].cvalid && b.writeops >= eb[e].writeops
    ensures LogInv(g, eb[e := b], d, l)
  {
    var eb' := eb[e := b];
    forall no: nat | 1 <= no < g.nino ensures Entry(g, eb', l, no) { assert Entry(g, eb, l, no); }
    forall x: nat | 1 <= x < |eb'| && IsInodeType(eb'[x].etype) ensures eb'[x].cvalid == |Occupied(g, l.occ, x)| {
      assert eb[x].cvalid == |Occupied(g, l.occ, x)|;
    }
  }

  /** An empty block is as good as an inode block nothing has been written to. */
  lemma LogEmptyBlock(g: Geometry, eb: seq<EraseBlock>, d: seq<byte>, l: Log, t: EbType, e: nat)
    requires |eb| == g.blocks && 1 <= e < |eb| && eb[e].etype == Empty && eb[e].cvalid == 0 && IsInodeType(t)
    ensures LogInv(g, eb, d, l) <==> LogInv(g, VirtualEb(eb, t, e, 0), d, l)
  {
    var v := VirtualEb(eb, t, e, 0);
    if LogInv(g, eb, d, l) {
      NoneOccupied(g, eb, l, e);
      forall no: nat | 1 <= no < g.nino ensures Entry(g, v, l, no) { assert Entry(g, eb, l, no); }
      forall x: nat | 1 <= x < |v| && IsInodeType(v[x].etype) ensures v[x].cvalid == |Occupied(g, l.occ, x)| {
        assert x == e || eb[x].cvalid == |Occupied(g, l.occ, x)|;
      }
    }
    if LogInv(g, v, d, l) {
      forall no: nat | 1 <= no < g.nino ensures Entry(g, eb, l, no) { assert Entry(g, v, l, no); }
      forall x: nat | 1 <= x < |eb| && IsInodeType(eb[x].etype) ensures eb[x].cvalid == |Occupied(g, l.occ, x)| {
        assert v[x].cvalid == |Occupied(g, l.occ, x)|;
      }
    }
  }

  lemma {:induction false} CountSameTypes(a: seq<EraseBlock>, b: seq<EraseBlock>, n: nat)
    requires |a| == |b| && n <= |a| && forall i | 0 <= i < n :: a[i].etype == b[i].etype
    ensures CountEmpty(a, n) == CountEmpty(b, n)
  {
    if n > 1 { CountSameTypes(a, b, n - 1); }
  }

  /** The filled block enters the books: closed, of the type collected, with what has been moved to it. */
  lemma BaseDone(g: Geometry, b: seq<EraseBlock>, d: seq<byte>, sums: SummaryCache, writer: seq<seq<nat>>,
                 dest: nat, live: set<nat>, blocks: set<nat>, exact: bool, x: EraseBlock)
    requires g.Valid() && BaseOk(g, b, d, sums, writer, dest, live, blocks, exact)
    requires IsInodeType(x.etype) && x.etype in GcTypes(g) && x.writeops == g.k && x.cvalid <= g.k
    requires x.lastwrite < 65536
    ensures EbInv(g, b[dest := x]) && SumInv(g, b[dest := x], d, sums, writer) && LiveOk(g, b[dest := x], live, exact)
    ensures EbinLive(b[dest := x], blocks) && Kept(g, b, d, b[dest := x], d, {})
    ensures CountEmpty(b[dest := x], |b|) == CountEmpty(b, |b|) - 1
  {
    hide LiveOk, SumInv, EbinLive;
    var b' := b[dest := x];
    CountEmptyUpdate(b, |b|, dest, x);
    assert BlockOk(g, b[dest]);
    assert forall i | 1 <= i < |b'| && i != dest :: BlockOk(g, b[i]);
    assert OneOpen(g, b');
    DoneKeepsLive(g, b, dest, live, blocks, exact, x);
    DoneKept(g, b, d, sums, writer, dest, x);
  }

  lemma DoneKeepsLive(g: Geometry, b: seq<EraseBlock>, dest: nat, live: set<nat>, blocks: set<nat>, exact: bool,
                      x: EraseBlock)
    requires g.k > 0 && LiveOk(g, b, live, exact) && EbinLive(b, blocks)
    requires dest < |b| && b[dest].etype == Empty && IsInodeType(x.etype)
    ensures LiveOk(g, b[dest := x], live, exact) && EbinLive(b[dest := x], blocks)
  {
    var b' := b[dest := x];
    forall c | c in live ensures ClinPtrOk(g, b', c) { assert ClinPtrOk(g, b, c); }
    forall y | 1 <= y < |b'| && IsClinType(b'[y].etype)
      ensures Counted(g, b', live, exact, y)
    {
      assert Counted(g, b, live, exact, y);
    }
  }

  lemma DoneKept(g: Geometry, b: seq<EraseBlock>, d: seq<byte>, sums: SummaryCache, writer: seq<seq<nat>>, dest: nat,
                 x: EraseBlock)
    requires g.Valid() && SumInv(g, b, d, sums, writer) && dest < |b| && b[dest].etype == Empty && IsInodeType(x.etype)
    ensures SumInv(g, b[dest := x], d, sums, writer) && Kept(g, b, d, b[dest := x], d, {})
  {
    var b' := b[dest := x];
    assert Kept(g, b, d, b', d, {});
    SumKept(g, b, d, b', d, {}, sums, writer);
  }

  // ---------------------------------------------------------- one collection

  /** Nothing is dirty, and all is in order but the occupancy in memory, which the moving leaves behind. */
  ghost predicate Ready(fs: FsContext, live: set<nat>, blocks: set<nat>, exact: bool)
    reads fs
  {
    DataInv(fs, live, blocks, exact) && Settled(fs.g, fs.eb, fs.disk, LogOf(fs))
  }

  /** Release of all inodes leads here, and counting the occupancy leads back. */
  lemma ReadyCounted(fs: FsContext, live: set<nat>, blocks: set<nat>, exact: bool)
    requires fs.dirty == {}
    ensures StoreInv(fs, live, blocks, exact) ==> Ready(fs, live, blocks, exact)
    ensures Ready(fs, live, blocks, exact) && fs.occ == Recount(fs.inoMap, |fs.occ|) ==>
      StoreInv(fs, live, blocks, exact)
  {
    hide EbInv, SumInv, GcInv, LiveOk, EbinLive, LogInv;
    if StoreInv(fs, live, blocks, exact) { SettledOf(fs.g, fs.eb, fs.disk, LogOf(fs)); }
    if fs.occ == Recount(fs.inoMap, |fs.occ|) { assert Recounted(LogOf(fs)) == LogOf(fs); }
  }

  /** What a collection of type t may change in the usage records: blocks of that type, and one empty block. */
  predicate OnlyType(t: EbType, eb0: seq<EraseBlock>, eb: seq<EraseBlock>) {
    && |eb| == |eb0|
    && forall b | 0 <= b < |eb| :: eb[b] == eb0[b] || (eb[b].etype == t && (eb0[b].etype == t || eb0[b].etype == Empty))
  }

  lemma {:induction false} SumOther(t: EbType, eb0: seq<EraseBlock>, eb: seq<EraseBlock>, other: EbType, n: nat)
    requires OnlyType(t, eb0, eb) && other != t && other != Empty && n <= |eb|
    ensures SumCvalid(eb, other, n) == SumCvalid(eb0, other, n)
  {
    if n > 0 { SumOther(t, eb0, eb, other, n - 1); }
  }

  lemma {:induction false} SumFreed(eb: seq<EraseBlock>, t: EbType, n: nat)
    requires n <= |eb| && t != Empty
    ensures SumCvalid(AllFreed(eb), t, n) == SumCvalid(eb, t, n)
  {
    if n > 0 { SumFreed(eb, t, n - 1); }
  }

  /** The valid clusters of every type. */
  ghost predicate SameSums(eb0: seq<EraseBlock>, eb: seq<EraseBlock>) {
    forall t: EbType | t != Empty :: SumCvalid(eb, t, |eb|) == SumCvalid(eb0, t, |eb0|)
  }

  lemma CollectStart(fs: FsContext, t: EbType, dest: nat, live: set<nat>, blocks: set<nat>, exact: bool)
    requires Ready(fs, live, blocks, exact) && IsInodeType(t) && t in GcTypes(fs.g)
    requires 1 <= dest < |fs.eb| && fs.eb[dest].etype == Empty && CountEmpty(fs.eb, |fs.eb|) > fs.g.nerasereserve
    ensures Moving(fs, t, dest, 0, live, blocks, exact)
    ensures Collected(fs.g, t, fs.eb, fs.disk, fs.eb, fs.disk, dest, 0)
    ensures BaseEb(fs.eb, dest) == fs.eb
  {
    assert BlockOk(fs.g, fs.eb[dest]);
    assert BaseEb(fs.eb, dest) == fs.eb;
    LogEmptyBlock(fs.g, fs.eb, fs.disk, Recounted(LogOf(fs)), t, dest);
    StepRefl(fs.g, fs.eb, fs.disk);
  }

  /** What is left to do when the loop is over, on values. */
  lemma CollectEnd(fs: FsContext, t: EbType, dest: nat, moved: nat, eb0: seq<EraseBlock>, d0: seq<byte>, x: EraseBlock,
                   live: set<nat>, blocks: set<nat>, exact: bool)
    requires Moving(fs, t, dest, moved, live, blocks, exact) && Collected(fs.g, t, eb0, d0, fs.eb, fs.disk, dest, moved)
    requires |eb0| == fs.g.blocks && BaseEb(eb0, dest) == eb0 && moved > 0
    requires x.etype == t && x.writeops == fs.g.k && x.cvalid == moved && x.lastwrite < 65536
    ensures |fs.disk| == fs.g.DeviceSize()
    ensures var eb := fs.eb[dest := x];
      && EbInv(fs.g, eb) && SumInv(fs.g, eb, fs.disk, fs.sums, fs.writer) && LiveOk(fs.g, eb, live, exact)
      && EbinLive(eb, blocks)
      && Settled(fs.g, eb, fs.disk, LogOf(fs)) && Kept(fs.g, eb0, d0, eb, fs.disk, {})
      && CollectedAll(t, eb0, eb) && CountEmpty(eb, |eb|) + 1 == CountEmpty(eb0, |eb0|)
  {
    hide SumInv, LiveOk, EbinLive, LogInv, Kept;
    var eb, b, v := fs.eb[dest := x], BaseEb(fs.eb, dest), VirtualEb(fs.eb, t, dest, moved);
    assert eb == b[dest := x] && eb == v[dest := x];
    BaseDone(fs.g, b, fs.disk, fs.sums, fs.writer, dest, live, blocks, exact, x);
    KeptTrans(fs.g, eb0, d0, b, fs.disk, eb, fs.disk, {}, {});
    LogMoreWrites(fs.g, v, fs.disk, Recounted(LogOf(fs)), dest, x);
    EndCounts(fs.g, t, eb0, d0, fs.eb, fs.disk, dest, moved, x);
  }

  lemma EndCounts(g: Geometry, t: EbType, eb0: seq<EraseBlock>, d0: seq<byte>, eb: seq<EraseBlock>, d: seq<byte>,
                  dest: nat, moved: nat, x: EraseBlock)
    requires g.c > 0 && Collected(g, t, eb0, d0, eb, d, dest, moved) && BaseEb(eb0, dest) == eb0 && moved > 0
    requires IsInodeType(t) && x.etype == t && x.cvalid == moved && eb[dest].etype == Empty
    requires 1 <= dest < |eb| && eb0[dest].cvalid == 0
    ensures CollectedAll(t, eb0, eb[dest := x])
    ensures CountEmpty(eb[dest := x], |eb|) + 1 == CountEmpty(eb0, |eb0|)
  {
    hide SumCvalid, CountEmpty;
    var f := eb[dest := x];
    SumUpdate(VirtualEb(eb, t, dest, moved), t, |eb|, dest, x);
    assert VirtualEb(eb, t, dest, moved)[dest := x] == f;
    SumUpdate(eb0, t, |eb0|, dest, VirtualEb(eb0, t, dest, 0)[dest]);
    CountSameTypes(eb, eb0, |eb|);
    CountEmptyUpdate(eb, |eb|, dest, x);
    forall other: EbType | other != t && other != Empty
      ensures SumCvalid(f, other, |f|) == SumCvalid(eb0, other, |eb0|)
    {
      SumOther(t, eb0, f, other, |f|);
    }
    var b: nat :| DrainedBlock(eb0, eb, t, dest, b);
    DrainedPays(t, eb0, f, dest, b, |f|);
  }

  /**
   * A collection of type t as a whole: nothing is lost, and once drained blocks are freed it has cost no empty
   * block.
   */
  ghost predicate CollectedAll(t: EbType, eb0: seq<EraseBlock>, eb: seq<EraseBlock>) {
    && OnlyType(t, eb0, eb) && SameSums(eb0, eb)
    && CountEmpty(eb, |eb|) + 1 >= CountEmpty(eb0, |eb0|)
    && CountEmpty(AllFreed(eb), |eb|) >= CountEmpty(AllFreed(eb0), |eb0|) >= CountEmpty(eb0, |eb0|)
  }

  /** The block that was filled costs one, the block that was drained gives one back. */
  lemma {:induction false} DrainedPays(t: EbType, eb0: seq<EraseBlock>, eb: seq<EraseBlock>, dest: nat, b: nat, n: nat)
    requires |eb| == |eb0| && n <= |eb| && 1 <= dest < |eb| && IsInodeType(t)
    requires eb0[dest].etype == Empty && eb[dest].etype == t && eb[dest].cvalid > 0
    requires 1 <= b < |eb| && b != dest && eb0[b].etype == t && eb[b].etype == t && eb0[b].cvalid > 0
    requires eb[b].cvalid == 0
    requires forall i | 0 <= i < |eb| && i != dest :: eb[i] == eb0[i] || Drawn(t, eb0[i], eb[i])
    ensures CountEmpty(AllFreed(eb), n) + (if dest < n then 1 else 0)
         >= CountEmpty(AllFreed(eb0), n) + (if b < n then 1 else 0)
    ensures CountEmpty(AllFreed(eb0), n) >= CountEmpty(eb0, n)
  {
    if n > 1 { DrainedPays(t, eb0, eb, dest, b, n - 1); }
  }

  /**
   * collect_inodes as it is meant, from a state without dirty inodes. Every inode is found as before, the number of
   * valid clusters of every type does not change, no data moves, and once the blocks without valid clusters are freed
   * at least as many are empty as before. It returns when the new block is full or nothing is left to collect; a
   * phantom may make it copy behind its target, and without an empty block above the reserve it has nowhere to go.
   */
  method CollectValid(fs: FsContext, t: EbType, ghost live: set<nat>, ghost blocks: set<nat>, ghost exact: bool)
    returns (rc: Rc, dest: nat)
    requires Ready(fs, live, blocks, exact) && IsInodeType(t) && t in GcTypes(fs.g)
    modifies fs`buf, fs`disk, fs`inoMap, fs`eb, fs`groups, fs`gc
    ensures rc == Ok(0) || (rc == OutOfTable && MetPhantom(fs)) || rc == NoSpc
    ensures rc == NoSpc <==> FewEmpty(fs.g, old(fs.eb), 0) && exists b: nat :: CollectableOf(fs.g, old(fs.eb), t, b)
    ensures rc == NoSpc ==> fs.eb == old(fs.eb)
    ensures rc.Ok? ==>
      CountEmpty(fs.eb, |fs.eb|) + (if exists b: nat :: CollectableOf(fs.g, old(fs.eb), t, b) then 1 else 0)
        == CountEmpty(old(fs.eb), |old(fs.eb)|)
    ensures rc.Ok? ==>
      && Ready(fs, live, blocks, exact) && Kept(fs.g, old(fs.eb), old(fs.disk), fs.eb, fs.disk, {})
      && CollectedAll(t, old(fs.eb), fs.eb) && SameCounters(old(fs.gc), fs.gc)
      && dest < |fs.eb|
      && (fs.eb[dest].cvalid == fs.g.k || forall b: nat | b != dest :: !CollectableOf(fs.g, fs.eb, t, b))
  {
    hide SumInv, EbInv, GcInv, LiveOk, EbinLive, LogInv, Kept, Moving, Collected, MovedOn, Settled, BaseOk,
      CollectableOf, SumCvalid, CountEmpty, AllFreed, MetPhantom, CollectedAll, SameCounters;
    ghost var eb0, d0, gc0 := fs.eb, fs.disk, fs.gc;
    CoreSizes(fs);
    SameCountersRefl(fs.gc);
    dest := FindEmptyEraseblk(fs);
    if dest == INVALID_EB {
      var any := FindCollectableEraseblk(fs, t);
      CollectNothing(fs, t, eb0, d0, live, blocks, exact);
      return if any == INVALID_EB then Ok(0) else NoSpc, dest;
    }
    CollectStart(fs, t, dest, live, blocks, exact);
    var moved: nat := 0;
    var more := true;
    while more
      invariant Moving(fs, t, dest, moved, live, blocks, exact)
      invariant Collected(fs.g, t, eb0, d0, fs.eb, fs.disk, dest, moved)
      invariant |fs.eb| == |eb0| && (more ==> moved < fs.g.k) && moved <= fs.g.k
      invariant !more ==> moved == fs.g.k || forall b: nat :: !CollectableOf(fs.g, fs.eb, t, b)
      invariant moved == 0 ==> Ready(fs, live, blocks, exact) && fs.eb == eb0 && fs.disk == d0
      invariant moved > 0 ==> exists b: nat :: CollectableOf(fs.g, eb0, t, b)
      invariant fs.gc == gc0
      decreases fs.g.k - moved, more
    {
      var src := FindCollectableEraseblk(fs, t);
      if src == INVALID_EB {
        more := false;
      } else {
        ghost var eb1, d1 := fs.eb, fs.disk;
        DestIsEmpty(fs, t, dest, moved, live, blocks, exact);
        var next := MoveValid(fs, t, src, dest, moved, live, blocks, exact);
        if next.None? { return OutOfTable, dest; }
        ValidMoving(fs, t, dest, next.value, live, blocks, exact);
        MovedOnSame(fs.g, t, eb1, d1, fs.eb, fs.disk, src, dest, moved, next.value);
        CollectedNext(fs.g, t, eb0, d0, eb1, d1, fs.eb, fs.disk, src, dest, moved, next.value);
        moved := next.value;
        more := moved != fs.g.k;
      }
    }
    if moved > 0 {
      ghost var eb1 := fs.eb;
      FinishCollection(fs, t, dest, moved, eb0, d0, live, blocks, exact);
      NoneLeft(fs.g, t, eb1, fs.eb, dest, moved);
    } else {
      CollectNothing(fs, t, eb0, d0, live, blocks, exact);
    }
    rc := Ok(0);
  }

  lemma NoneLeft(g: Geometry, t: EbType, eb0: seq<EraseBlock>, eb: seq<EraseBlock>, dest: nat, moved: nat)
    requires |eb| == |eb0| && forall b | 0 <= b < |eb| && b != dest :: eb[b] == eb0[b]
    requires moved == g.k || forall b: nat :: !CollectableOf(g, eb0, t, b)
    requires dest < |eb| && eb[dest].cvalid == moved
    ensures eb[dest].cvalid == g.k || forall b: nat | b != dest :: !CollectableOf(g, eb, t, b)
  {
    forall b: nat | b != dest && moved != g.k
      ensures !CollectableOf(g, eb, t, b)
    {
      assert !CollectableOf(g, eb0, t, b);
    }
  }

  lemma DestIsEmpty(fs: FsContext, t: EbType, dest: nat, moved: nat, live: set<nat>, blocks: set<nat>, exact: bool)
    requires Moving(fs, t, dest, moved, live, blocks, exact)
    ensures 1 <= dest < |fs.eb| && fs.eb[dest].etype == Empty
  {
  }

  lemma CollectNothing(fs: FsContext, t: EbType, eb0: seq<EraseBlock>, d0: seq<byte>, live: set<nat>, blocks: set<nat>,
                       exact: bool)
    requires Ready(fs, live, blocks, exact) && fs.eb == eb0 && fs.disk == d0
    ensures Kept(fs.g, eb0, d0, fs.eb, fs.disk, {}) && CollectedAll(t, eb0, fs.eb)
  {
    StepRefl(fs.g, fs.eb, fs.disk);
    CountAfterFree(fs.eb, |fs.eb|);
  }

  /** The write counters that trigger gc are as before. */
  predicate SameCounters(gc0: seq<GcInfo>, gc: seq<GcInfo>) {
    |gc| == |gc0| && forall i | 0 <= i < |gc| :: gc[i].etype == gc0[i].etype && gc[i].cnt == gc0[i].cnt
  }

  lemma SameCountersRefl(gc: seq<GcInfo>)
    ensures SameCounters(gc, gc)
  {
  }

  /** The end of collect_inodes: the filled block is entered as a finished one. */
  method FinishCollection(fs: FsContext, t: EbType, dest: nat, moved: nat, ghost eb0: seq<EraseBlock>,
                          ghost d0: seq<byte>, ghost live: set<nat>, ghost blocks: set<nat>, ghost exact: bool)
    requires Moving(fs, t, dest, moved, live, blocks, exact) && Collected(fs.g, t, eb0, d0, fs.eb, fs.disk, dest, moved)
    requires |eb0| == fs.g.blocks && BaseEb(eb0, dest) == eb0 && moved > 0
    modifies fs`eb, fs`gc
    ensures Ready(fs, live, blocks, exact)
    ensures Kept(fs.g, eb0, d0, fs.eb, fs.disk, {}) && |fs.eb| == |old(fs.eb)|
    ensures CollectedAll(t, eb0, fs.eb) && SameCounters(old(fs.gc), fs.gc)
    ensures CountEmpty(fs.eb, |fs.eb|) + 1 == CountEmpty(eb0, |eb0|)
    ensures 1 <= dest < |fs.eb| && fs.eb[dest].etype == t && fs.eb[dest].cvalid == moved
    ensures forall b | 0 <= b < |fs.eb| && b != dest :: fs.eb[b] == old(fs.eb)[b]
  {
    hide SumInv, EbInv, LiveOk, EbinLive, LogInv, Kept, Collected, Settled, BaseOk, AllFreed, CollectedAll;
    GcHas(fs.g, fs.gc, t);
    var time := GcinfoUpdateWritetime(fs, t);
    ghost var x := EraseBlock(t, time % 65536, moved, fs.g.k);
    CollectEnd(fs, t, dest, moved, eb0, d0, x, live, blocks, exact);
    fs.eb := fs.eb[dest := fs.eb[dest].(etype := t, lastwrite := time % 65536, writeops := fs.g.k)];
  }

  // ---------------------------------------------------------- gc, as it is meant

  /** Blocks of the cluster-indirect types are not touched. */
  predicate SameClin(eb0: seq<EraseBlock>, eb: seq<EraseBlock>) {
    && |eb| == |eb0|
    && forall b | 0 <= b < |eb| && (IsClinType(eb0[b].etype) || IsClinType(eb[b].etype)) :: eb[b] == eb0[b]
  }

  /** A type that is due, and of which there is a block to collect: its round needs a destination. */
  ghost predicate Wants(g: Geometry, eb: seq<EraseBlock>, info: GcInfo) {
    info.cnt >= g.nerasewrites && IsInodeType(info.etype) && exists b: nat :: CollectableOf(g, eb, info.etype, b)
  }

  /** How many destinations a gc is going to need. */
  ghost function Wanting(g: Geometry, eb: seq<EraseBlock>, gc: seq<GcInfo>): nat {
    if gc == [] then 0 else (if Wants(g, eb, gc[0]) then 1 else 0) + Wanting(g, eb, gc[1..])
  }

  lemma {:induction false} WantingSame(g: Geometry, eb1: seq<EraseBlock>, gc1: seq<GcInfo>, eb2: seq<EraseBlock>,
                                       gc2: seq<GcInfo>)
    requires |gc1| == |gc2| && forall j | 0 <= j < |gc1| :: Wants(g, eb1, gc1[j]) <==> Wants(g, eb2, gc2[j])
    ensures Wanting(g, eb2, gc2) == Wanting(g, eb1, gc1)
  {
    if gc1 != [] { WantingSame(g, eb1, gc1[1..], eb2, gc2[1..]); }
  }

  lemma {:induction false} WantingOneLess(g: Geometry, eb1: seq<EraseBlock>, gc1: seq<GcInfo>, eb2: seq<EraseBlock>,
                                          gc2: seq<GcInfo>, i: nat)
    requires |gc1| == |gc2| && i < |gc1| && !Wants(g, eb2, gc2[i])
    requires forall j | 0 <= j < |gc1| && j != i :: Wants(g, eb1, gc1[j]) <==> Wants(g, eb2, gc2[j])
    ensures Wanting(g, eb2, gc2) + (if Wants(g, eb1, gc1[i]) then 1 else 0) == Wanting(g, eb1, gc1)
  {
    if i == 0 {
      WantingSame(g, eb1, gc1[1..], eb2, gc2[1..]);
    } else {
      WantingOneLess(g, eb1, gc1[1..], eb2, gc2[1..], i - 1);
    }
  }

  /** A round makes its own type want nothing, and does not matter to the other types. */
  lemma WantingRound(g: Geometry, t: EbType, i: nat, eb1: seq<EraseBlock>, gc1: seq<GcInfo>, eb2: seq<EraseBlock>,
                     gc2: seq<GcInfo>)
    requires g.Valid() && GcInv(g, gc1) && i < |gc1| && gc1[i].etype == t && OnlyType(t, eb1, eb2)
    requires SameCounters(gc1[i := gc1[i].(cnt := 0)], gc2)
    ensures Wanting(g, eb2, gc2) + (if Wants(g, eb1, gc1[i]) then 1 else 0) == Wanting(g, eb1, gc1)
  {
    hide Collectable;
    forall j | 0 <= j < |gc1| && j != i ensures Wants(g, eb1, gc1[j]) <==> Wants(g, eb2, gc2[j]) {
      assert gc1[j].etype != t by { assert GcTypes(g)[j] != GcTypes(g)[i]; }
      forall b: nat | IsInodeType(gc1[j].etype)
        ensures CollectableOf(g, eb1, gc1[j].etype, b) <==> CollectableOf(g, eb2, gc2[j].etype, b)
      {
      }
    }
    WantingOneLess(g, eb1, gc1, eb2, gc2, i);
  }

  lemma {:induction false} WantingNone(g: Geometry, eb: seq<EraseBlock>, gc: seq<GcInfo>)
    requires forall i | 0 <= i < |gc| :: gc[i].cnt < g.nerasewrites
    ensures Wanting(g, eb, gc) == 0
  {
    if gc != [] { WantingNone(g, eb, gc[1..]); }
  }

  lemma {:induction false} WantingSome(g: Geometry, eb: seq<EraseBlock>, gc: seq<GcInfo>, i: nat)
    requires i < |gc| && Wants(g, eb, gc[i])
    ensures Wanting(g, eb, gc) >= 1
  {
    if i > 0 { WantingSome(g, eb, gc[1..], i - 1); }
  }

  /** Where a gc stands after some of its rounds. */
  ghost predicate RoundsDone(g: Geometry, eb0: seq<EraseBlock>, d0: seq<byte>, gc0: seq<GcInfo>,
                             eb: seq<EraseBlock>, d: seq<byte>, gc: seq<GcInfo>)
    requires g.c > 0
  {
    && Kept(g, eb0, d0, eb, d, {}) && SameSums(eb0, eb) && SameClin(eb0, eb)
    && CountEmpty(AllFreed(eb), |eb|) >= CountEmpty(AllFreed(eb0), |eb0|) >= CountEmpty(eb0, |eb0|)
    && CountEmpty(eb, |eb|) + Wanting(g, eb0, gc0) == CountEmpty(eb0, |eb0|) + Wanting(g, eb, gc)
  }

  lemma {:induction false} DueSame(g: Geometry, gc0: seq<GcInfo>, gc: seq<GcInfo>)
    requires SameCounters(gc0, gc)
    ensures Due(g, gc) == Due(g, gc0)
  {
    if gc != [] { DueSame(g, gc0[1..], gc[1..]); }
  }

  lemma NoRounds(fs: FsContext, live: set<nat>, blocks: set<nat>, exact: bool)
    requires Ready(fs, live, blocks, exact)
    ensures fs.g.Valid() && |fs.eb| == fs.g.blocks && |fs.disk| == fs.g.DeviceSize() && GcInv(fs.g, fs.gc)
    ensures |fs.eb| >= 1
    ensures RoundsDone(fs.g, fs.eb, fs.disk, fs.gc, fs.eb, fs.disk, fs.gc)
  {
    StepRefl(fs.g, fs.eb, fs.disk);
    CountAfterFree(fs.eb, |fs.eb|);
  }

  /** A collection, if there was one, and the reset of the counter that asked for it. */
  lemma RoundDone(g: Geometry, t: EbType, eb0: seq<EraseBlock>, d0: seq<byte>, gc0: seq<GcInfo>,
                  eb1: seq<EraseBlock>, d1: seq<byte>, gc1: seq<GcInfo>, eb2: seq<EraseBlock>, d2: seq<byte>,
                      gc2: seq<GcInfo>)
    requires g.Valid() && RoundsDone(g, eb0, d0, gc0, eb1, d1, gc1) && Kept(g, eb1, d1, eb2, d2, {})
    requires IsInodeType(t) && CollectedAll(t, eb1, eb2)
    requires CountEmpty(eb2, |eb2|) + Wanting(g, eb1, gc1) == CountEmpty(eb1, |eb1|) + Wanting(g, eb2, gc2)
    ensures RoundsDone(g, eb0, d0, gc0, eb2, d2, gc2)
  {
    hide Kept, CountEmpty, SumCvalid, Wanting;
    KeptTrans(g, eb0, d0, eb1, d1, eb2, d2, {}, {});
    forall t: EbType | t != Empty ensures SumCvalid(eb2, t, |eb2|) == SumCvalid(eb0, t, |eb0|) {
      assert SumCvalid(eb2, t, |eb2|) == SumCvalid(eb1, t, |eb1|) == SumCvalid(eb0, t, |eb0|);
    }
  }

  lemma RoundSkipped(g: Geometry, eb0: seq<EraseBlock>, d0: seq<byte>, gc0: seq<GcInfo>,
                     eb: seq<EraseBlock>, d: seq<byte>, gc1: seq<GcInfo>, gc2: seq<GcInfo>)
    requires g.c > 0 && RoundsDone(g, eb0, d0, gc0, eb, d, gc1) && Wanting(g, eb, gc2) == Wanting(g, eb, gc1)
    ensures RoundsDone(g, eb0, d0, gc0, eb, d, gc2)
  {
  }

  /** As Ready, but a summary may be open for a cluster-indirect block that has been freed. */
  ghost predicate Swept(fs: FsContext, live: set<nat>, blocks: set<nat>, exact: bool)
    reads fs
  {
    && EbInv(fs.g, fs.eb) && GcInv(fs.g, fs.gc) && |fs.buf| == fs.g.E() && Settled(fs.g, fs.eb, fs.disk, LogOf(fs))
    && SumInv(fs.g, fs.eb, fs.disk, Pruned(fs.g, fs.eb, fs.sums), fs.writer)
    && LiveOk(fs.g, fs.eb, live, exact) && EbinLive(fs.eb, blocks)
  }

  /** What freeing leaves, on values. */
  lemma SweptAfter(fs: FsContext, eb0: seq<EraseBlock>, d0: seq<byte>, gc0: seq<GcInfo>,
                   live: set<nat>, blocks: set<nat>, exact: bool)
    requires Ready(fs, live, blocks, exact) && RoundsDone(fs.g, eb0, d0, gc0, fs.eb, fs.disk, fs.gc)
    ensures var eb := AllFreed(fs.eb);
      && EbInv(fs.g, eb) && Settled(fs.g, eb, fs.disk, LogOf(fs)) && LiveOk(fs.g, eb, live, exact)
      && EbinLive(eb, blocks)
      && SumInv(fs.g, eb, fs.disk, Pruned(fs.g, eb, fs.sums), fs.writer)
      && ((forall b: nat :: !OpenAndEmpty(fs.g, eb0, b)) ==> SumInv(fs.g, eb, fs.disk, fs.sums, fs.writer))
      && SameSums(eb0, eb) && CountEmpty(eb, |eb|) >= CountEmpty(eb0, |eb0|)
  {
    hide Kept, CountEmpty, SumCvalid, Pruned, SumInv, EbInv, LogInv;
    FreeKeepsEbInv(fs.g, fs.eb);
    FreeKeepsLive(fs.g, fs.eb, live, blocks, exact);
    FreeKeepsLog(fs.g, fs.eb, fs.disk, Recounted(LogOf(fs)));
    FreePrunes(fs.g, fs.eb, fs.disk, fs.sums, fs.writer);
    FreeKeepsSummaries(fs.g, fs.eb, fs.disk, fs.sums, fs.writer);
    forall b: nat ensures OpenAndEmpty(fs.g, fs.eb, b) ==> OpenAndEmpty(fs.g, eb0, b) { }
    forall t: EbType | t != Empty ensures SumCvalid(AllFreed(fs.eb), t, |fs.eb|) == SumCvalid(eb0, t, |eb0|) {
      SumFreed(fs.eb, t, |fs.eb|);
      assert SumCvalid(fs.eb, t, |fs.eb|) == SumCvalid(eb0, t, |eb0|);
    }
  }

  /**
   * gc as it is meant: every round collects one type whose write counter is due and resets that counter, so there is
   * one type fewer to do; then the blocks without valid clusters are freed. Every inode is found as before, whatever
   * was in use keeps its bytes until the freeing (`before`), no valid cluster is lost, and there are at least as many
   * empty blocks as before. A round lacks a destination exactly if there is not one empty block above the reserve for
   * every due type that has a block to collect.
   */
  method RunGcValid(fs: FsContext, ghost live: set<nat>, ghost blocks: set<nat>, ghost exact: bool)
    returns (rc: Rc, ghost before: seq<EraseBlock>)
    requires Ready(fs, live, blocks, exact)
    modifies fs`buf, fs`disk, fs`inoMap, fs`eb, fs`groups, fs`gc
    ensures rc == Ok(0) || (rc == OutOfTable && MetPhantom(fs)) || rc == NoSpc
    ensures rc == NoSpc ==>
      CountEmpty(old(fs.eb), |old(fs.eb)|) < fs.g.nerasereserve + Wanting(fs.g, old(fs.eb), old(fs.gc))
    ensures rc == Ok(0) ==>
      CountEmpty(old(fs.eb), |old(fs.eb)|) >= fs.g.nerasereserve + Wanting(fs.g, old(fs.eb), old(fs.gc))
    ensures rc.Ok? ==>
      && Swept(fs, live, blocks, exact) && (forall i | 0 <= i < |fs.gc| :: fs.gc[i].cnt < fs.g.nerasewrites)
      && Kept(fs.g, old(fs.eb), old(fs.disk), before, fs.disk, {}) && fs.eb == AllFreed(before)
      && SameSums(old(fs.eb), fs.eb) && CountEmpty(fs.eb, |fs.eb|) >= CountEmpty(old(fs.eb), |old(fs.eb)|)
    ensures rc.Ok? && (forall b: nat :: !OpenAndEmpty(fs.g, old(fs.eb), b)) ==> Ready(fs, live, blocks, exact)
  {
    hide EbInv, SumInv, GcInv, LiveOk, EbinLive, Settled, RoundsDone, Due, GcReset, MetPhantom, CollectedAll, Kept,
      SameSums, CountEmpty, AllFreed, Pruned, OpenAndEmpty, CollectableOf, Wanting;
    ghost var eb0, d0, gc0 := fs.eb, fs.disk, fs.gc;
    before := fs.eb;
    NoRounds(fs, live, blocks, exact);
    var t := FindCollectableEbType(fs);
    while t.Some?
      invariant Ready(fs, live, blocks, exact) && |fs.eb| >= 1 && fs.g.c > 0
      invariant RoundsDone(fs.g, eb0, d0, gc0, fs.eb, fs.disk, fs.gc)
      invariant t.None? <==> forall i | 0 <= i < |fs.gc| :: fs.gc[i].cnt < fs.g.nerasewrites
      invariant t.Some? ==>
        exists i :: 0 <= i < |fs.gc| && fs.gc[i].etype == t.value && fs.gc[i].cnt >= fs.g.nerasewrites
      decreases Due(fs.g, fs.gc)
    {
      ghost var i: nat :| i < |fs.gc| && fs.gc[i].etype == t.value && fs.gc[i].cnt >= fs.g.nerasewrites;
      rc := RoundValid(fs, t.value, i, eb0, d0, gc0, live, blocks, exact);
      if !rc.Ok? { return; }
      t := FindCollectableEbType(fs);
    }
    SweptAfter(fs, eb0, d0, gc0, live, blocks, exact);
    EnoughLeft(fs, eb0, d0, gc0, live, blocks, exact);
    before := fs.eb;
    RoundsKept(fs.g, eb0, d0, gc0, fs.eb, fs.disk, fs.gc);
    FreeEmptyEraseblks(fs);
    rc := Ok(0);
  }

  /** One round, for a type that is due. */
  method RoundValid(fs: FsContext, t: EbType, ghost i: nat, ghost eb0: seq<EraseBlock>, ghost d0: seq<byte>,
                    ghost gc0: seq<GcInfo>, ghost live: set<nat>, ghost blocks: set<nat>, ghost exact: bool)
    returns (rc: Rc)
    requires Ready(fs, live, blocks, exact) && RoundsDone(fs.g, eb0, d0, gc0, fs.eb, fs.disk, fs.gc) && |fs.eb| >= 1
    requires i < |fs.gc| && fs.gc[i].etype == t && fs.gc[i].cnt >= fs.g.nerasewrites
    modifies fs`buf, fs`disk, fs`inoMap, fs`eb, fs`groups, fs`gc
    ensures rc == Ok(0) || (rc == OutOfTable && MetPhantom(fs)) || rc == NoSpc
    ensures rc == NoSpc ==> CountEmpty(eb0, |eb0|) < fs.g.nerasereserve + Wanting(fs.g, eb0, gc0)
    ensures rc.Ok? ==>
      && Ready(fs, live, blocks, exact) && |fs.eb| >= 1 && RoundsDone(fs.g, eb0, d0, gc0, fs.eb, fs.disk, fs.gc)
      && Due(fs.g, fs.gc) < Due(fs.g, old(fs.gc))
  {
    hide EbInv, SumInv, GcInv, LiveOk, EbinLive, Settled, RoundsDone, Due, GcReset, MetPhantom, CollectedAll, Kept,
      CountEmpty, CollectableOf, Wanting;
    ghost var eb1, d1, gc1 := fs.eb, fs.disk, fs.gc;
    ListedType(fs.g, gc1, i);
    if IsInodeType(t) {
      var dest;
      rc, dest := CollectValid(fs, t, live, blocks, exact);
      if rc == NoSpc { NoDestination(fs.g, eb0, d0, gc0, eb1, d1, gc1, i); }
      if !rc.Ok? { return; }
      DueSame(fs.g, gc1, fs.gc);
    }
    ResetIsLess(fs.g, fs.gc, t, i);
    fs.gc := GcReset(fs.gc, t);
    OnlyTypeRefl(t, eb1, fs.eb);
    WantingRound(fs.g, t, i, eb1, gc1, fs.eb, fs.gc);
    if IsInodeType(t) {
      RoundDone(fs.g, t, eb0, d0, gc0, eb1, d1, gc1, fs.eb, fs.disk, fs.gc);
    } else {
      RoundSkipped(fs.g, eb0, d0, gc0, fs.eb, fs.disk, gc1, fs.gc);
    }
    rc := Ok(0);
  }

  lemma OnlyTypeRefl(t: EbType, eb0: seq<EraseBlock>, eb: seq<EraseBlock>)
    requires eb == eb0 || CollectedAll(t, eb0, eb)
    ensures OnlyType(t, eb0, eb)
  {
  }

  lemma EnoughLeft(fs: FsContext, eb0: seq<EraseBlock>, d0: seq<byte>, gc0: seq<GcInfo>,
                   live: set<nat>, blocks: set<nat>, exact: bool)
    requires Ready(fs, live, blocks, exact) && RoundsDone(fs.g, eb0, d0, gc0, fs.eb, fs.disk, fs.gc)
    requires forall i | 0 <= i < |fs.gc| :: fs.gc[i].cnt < fs.g.nerasewrites
    ensures CountEmpty(eb0, |eb0|) >= fs.g.nerasereserve + Wanting(fs.g, eb0, gc0)
  {
    hide Kept, SumCvalid, LogInv, SumInv;
    WantingNone(fs.g, fs.eb, fs.gc);
  }

  lemma RoundsKept(g: Geometry, eb0: seq<EraseBlock>, d0: seq<byte>, gc0: seq<GcInfo>,
                   eb: seq<EraseBlock>, d: seq<byte>, gc: seq<GcInfo>)
    requires g.c > 0 && RoundsDone(g, eb0, d0, gc0, eb, d, gc)
    ensures Kept(g, eb0, d0, eb, d, {})
  {
  }

  lemma ListedType(g: Geometry, gc: seq<GcInfo>, i: nat)
    requires GcInv(g, gc) && i < |gc|
    ensures gc[i].etype in GcTypes(g)
  {
  }

  /** No destination means that there was not one empty block above the reserve for every round that needs one. */
  lemma NoDestination(g: Geometry, eb0: seq<EraseBlock>, d0: seq<byte>, gc0: seq<GcInfo>,
                      eb: seq<EraseBlock>, d: seq<byte>, gc: seq<GcInfo>, i: nat)
    requires g.Valid() && RoundsDone(g, eb0, d0, gc0, eb, d, gc) && FewEmpty(g, eb, 0)
    requires i < |gc| && Wants(g, eb, gc[i])
    ensures CountEmpty(eb0, |eb0|) < g.nerasereserve + Wanting(g, eb0, gc0)
  {
    WantingSome(g, eb, gc, i);
  }

  /** Seen from the files: a gc as it is meant changes none of them. */
  method CompactVolume(fs: FsContext, ghost exact: bool) returns (rc: Rc)
    requires Ready(fs, ClinAll(fs.g, fs.table), EbinAll(fs.g, fs.table), exact)
    requires VolumeOk(fs.g, fs.eb, fs.table, exact)
    modifies fs`buf, fs`disk, fs`inoMap, fs`eb, fs`groups, fs`gc
    ensures rc == NoSpc ==>
      CountEmpty(old(fs.eb), |old(fs.eb)|) < fs.g.nerasereserve + Wanting(fs.g, old(fs.eb), old(fs.gc))
    ensures rc == Ok(0) ==>
      CountEmpty(old(fs.eb), |old(fs.eb)|) >= fs.g.nerasereserve + Wanting(fs.g, old(fs.eb), old(fs.gc))
    ensures rc == Ok(0) || (rc == OutOfTable && MetPhantom(fs)) || rc == NoSpc
    ensures rc.Ok? ==>
      && Swept(fs, ClinAll(fs.g, fs.table), EbinAll(fs.g, fs.table), exact) && VolumeOk(fs.g, fs.eb, fs.table, exact)
      && SameContents(fs.g, old(fs.disk), fs.disk, fs.table, fs.table.Keys)
    ensures rc.Ok? && (forall b: nat :: !OpenAndEmpty(fs.g, old(fs.eb), b)) ==>
      Ready(fs, ClinAll(fs.g, fs.table), EbinAll(fs.g, fs.table), exact)
  {
    hide EbInv, SumInv, GcInv, LiveOk, EbinLive, Settled, Due, MetPhantom, Kept, SameSums, CountEmpty, Pruned,
      OpenAndEmpty, Separate, SameContents, Wanting;
    ghost var live, blocks := ClinAll(fs.g, fs.table), EbinAll(fs.g, fs.table);
    ghost var eb0, d0 := fs.eb, fs.disk;
    ghost var table: map<nat, Inode> := fs.table;
    CoreSizes(fs);
    ghost var before;
    rc, before := RunGcValid(fs, live, blocks, exact);
    if rc.Ok? {
      OthersKept(fs.g, eb0, d0, before, fs.disk, {}, table, exact, 0);
    }
  }
}
