/**
 * inode.cpp, inode_group.cpp, inode_cache.cpp: the inode log, its map, its occupancy counters and the cache over
 * it.
 */
module InodeLog {
  import opened Basics
  import opened Layout
  import opened EraseBlk
  import opened InodeCodec

  // ---------------------------------------------------------- the state, as a value

  /** What the log and the cache consist of; `table` is the file system's inodes as its callers see them. */
  datatype Log = Log(inoMap: seq<nat>, occ: seq<int>, cache: seq<Option<Inode>>, dirty: set<nat>,
                     table: map<nat, Inode>, groups: map<nat, seq<Inode>>)

  ghost function LogOf(fs: FsContext): Log
    reads fs
  {
    Log(fs.inoMap, fs.occ, fs.cache, fs.dirty, fs.table, fs.groups)
  }

  predicate Real(cl: nat) { cl != FREE_CL && cl != RESERVED_CL }

  /** The same inode, whatever lies behind its last byte or pointer. */
  predicate Same(g: Geometry, a: Inode, b: Inode)
    requires g.Valid()
  {
    InodeOk(g, a) && InodeOk(g, b) && Norm(g, a) == Norm(g, b)
  }

  predicate InodeCluster(g: Geometry, eb: seq<EraseBlock>, cl: nat)
    requires g.k > 0
  {
    var b := cl / g.k;
    1 <= b < |eb| && IsInodeType(eb[b].etype) && cl % g.k < eb[b].writeops
  }

  predicate GroupOk(g: Geometry, group: seq<Inode>)
    requires g.Valid()
  {
    && AllOk(g, group) && GroupSize(g, group) <= g.c
    && forall i, j | 0 <= i < j < |group| :: group[i].no != group[j].no
  }

  predicate StoredIn(g: Geometry, group: seq<Inode>, ino: Inode)
    requires g.Valid()
  {
    exists i :: 0 <= i < |group| && group[i].no == ino.no && Same(g, group[i], ino)
  }

  /** The erase block of a cluster, and its index in it. */
  function BlockOf(g: Geometry, cl: nat): (b: nat)
    requires g.k > 0
    ensures b == cl / g.k
  {
    DivBounds(cl, g.k);
    cl / g.k
  }

  function IndexOf(g: Geometry, cl: nat): (i: nat)
    requires g.k > 0
    ensures i == cl % g.k && i < g.k
  {
    DivBounds(cl, g.k);
    cl % g.k
  }

  // ---------------------------------------------------------- the invariant

  predicate Shape(g: Geometry, l: Log) {
    && 1 <= |l.inoMap| == |l.cache| == g.nino < U32 && |l.occ| == g.blocks * g.k
    && l.inoMap[0] == RESERVED_CL && l.cache[0] == None
    && (forall no | no in l.dirty :: 1 <= no < g.nino)
    && (forall no | no in l.table :: 1 <= no < g.nino)
  }

  /**
   * One inode number. It is free exactly when no inode has it; a dirty inode is cached; a cached one is the
   * current version; and the current version of a clean one is what its cluster holds. The map entry of a
   * dirty inode is stale, and may even name a cluster that has been given up meanwhile.
   */
  predicate Entry(g: Geometry, eb: seq<EraseBlock>, l: Log, no: nat)
    requires g.Valid() && no < |l.inoMap| && no < |l.cache|
  {
    && (l.inoMap[no] == FREE_CL <==> no !in l.table)
    && (no in l.dirty ==> l.cache[no].Some?)
    && (l.inoMap[no] == RESERVED_CL ==> no in l.dirty)
    && (no in l.table ==> InodeOk(g, l.table[no]) && l.table[no].no == no)
    && (l.cache[no].Some? ==> no in l.table && l.cache[no].value.no == no && Same(g, l.cache[no].value, l.table[no]))
    && (Real(l.inoMap[no]) ==> l.inoMap[no] < |l.occ|)
    && (Real(l.inoMap[no]) && no !in l.dirty ==>
          && InodeCluster(g, eb, l.inoMap[no]) && l.inoMap[no] in l.groups
          && no in l.table && StoredIn(g, l.groups[l.inoMap[no]], l.table[no]))
  }

  predicate EntriesOk(g: Geometry, eb: seq<EraseBlock>, l: Log)
    requires g.Valid() && Shape(g, l)
  {
    forall no: nat | 1 <= no < g.nino :: Entry(g, eb, l, no)
  }

  /** Every cluster a clean inode lives in holds its group, packed. */
  predicate ClusterHolds(g: Geometry, d: seq<byte>, l: Log, cl: nat)
    requires g.Valid()
  {
    && cl in l.groups && GroupOk(g, l.groups[cl]) && cl * g.c + g.c <= |d|
    && Chunk(d, g.c, cl) == Packed(g, l.groups[cl])
  }

  predicate ClustersOk(g: Geometry, d: seq<byte>, l: Log)
    requires g.Valid() && Shape(g, l)
  {
    forall no: nat | 1 <= no < g.nino && Real(l.inoMap[no]) && no !in l.dirty :: ClusterHolds(g, d, l, l.inoMap[no])
  }

  /** All inodes living in one cluster are cached together or not at all. */
  predicate Together(g: Geometry, l: Log)
    requires Shape(g, l)
  {
    forall i: nat, j: nat | 1 <= i < g.nino && 1 <= j < g.nino && Real(l.inoMap[i]) && l.inoMap[i] == l.inoMap[j] ::
      l.cache[i].Some? ==> l.cache[j].Some?
  }

  /** The clean inodes living in a cluster. */
  function Clean(l: Log, cl: nat): set<nat> {
    set no: nat | no < |l.inoMap| && l.inoMap[no] == cl && no !in l.dirty
  }

  /** cl_occupancy counts the clean inodes of every cluster. */
  predicate OccOk(l: Log) {
    forall cl: nat | 1 <= cl < |l.occ| :: l.occ[cl] == |Clean(l, cl)|
  }

  /** The clusters of block b that still hold a clean inode. */
  function Occupied(g: Geometry, occ: seq<int>, b: nat): set<nat>
    requires g.c > 0
  {
    set i: nat | i < g.k && ClOf(g, b, i) < |occ| && occ[ClOf(g, b, i)] > 0
  }

  /** e_cvalid of an inode block counts its occupied clusters. */
  predicate CvalidOk(g: Geometry, eb: seq<EraseBlock>, l: Log)
    requires g.c > 0
  {
    forall b: nat | 1 <= b < |eb| && IsInodeType(eb[b].etype) :: eb[b].cvalid == |Occupied(g, l.occ, b)|
  }

  ghost predicate LogInv(g: Geometry, eb: seq<EraseBlock>, d: seq<byte>, l: Log) {
    && g.Valid() && |eb| == g.blocks && |d| == g.DeviceSize() && Shape(g, l)
    && EntriesOk(g, eb, l) && ClustersOk(g, d, l) && Together(g, l) && OccOk(l) && CvalidOk(g, eb, l)
  }

  // ---------------------------------------------------------- small facts

  lemma ClusterRange(g: Geometry, eb: seq<EraseBlock>, cl: nat)
    requires g.Valid() && |eb| == g.blocks && InodeCluster(g, eb, cl)
    ensures 1 <= cl < g.blocks * g.k && cl * g.c + g.c <= g.DeviceSize() && cl < RESERVED_CL
    ensures cl % g.k < g.k && ClOf(g, cl / g.k, cl % g.k) == cl && Used(g, eb, cl / g.k, cl % g.k)
  {
    DivBounds(cl, g.k);
    ClusterInBlock(g, cl);
    DivBelow(cl, g.blocks, g.k);
    MulMono(1, cl / g.k, g.k);
    MulGe(cl, g.c);
    assert cl * 2 <= cl * g.c by { MulMono(2, g.c, cl); }
  }

  /** A cluster keeps its bytes across a step that keeps every used cluster. */
  lemma InodeClusterKept(g: Geometry, eb0: seq<EraseBlock>, d0: seq<byte>, eb1: seq<EraseBlock>, d1: seq<byte>,
                         own: set<nat>, cl: nat)
    requires g.Valid() && Kept(g, eb0, d0, eb1, d1, own) && InodeCluster(g, eb0, cl)
    requires forall b | b in own :: b < |eb0| && !IsInodeType(eb0[b].etype)
    ensures cl * g.c + g.c <= |d0| == |d1| && Chunk(d1, g.c, cl) == Chunk(d0, g.c, cl)
    ensures InodeCluster(g, eb1, cl)
  {
    ClusterRange(g, eb0, cl);
    var b, i := cl / g.k, cl % g.k;
    assert Used(g, eb0, b, i);
    assert Used(g, eb1, b, i) && Cluster(g, d1, b, i) == Cluster(g, d0, b, i);
  }

  /** Steps of the data layer: they neither touch inode blocks nor the clusters in them. */
  lemma DataStepKeepsLog(g: Geometry, eb0: seq<EraseBlock>, d0: seq<byte>, eb1: seq<EraseBlock>, d1: seq<byte>,
                         own: set<nat>, l: Log)
    requires LogInv(g, eb0, d0, l) && Kept(g, eb0, d0, eb1, d1, own) && SameInodeBlocks(eb0, eb1)
    requires forall b | b in own :: b < |eb0| && !IsInodeType(eb0[b].etype)
    ensures LogInv(g, eb1, d1, l)
  {
    forall no: nat | 1 <= no < g.nino ensures Entry(g, eb1, l, no) {
      assert Entry(g, eb0, l, no);
      if Real(l.inoMap[no]) && no !in l.dirty { InodeClusterKept(g, eb0, d0, eb1, d1, own, l.inoMap[no]); }
    }
    forall no: nat | 1 <= no < g.nino && Real(l.inoMap[no]) && no !in l.dirty
      ensures ClusterHolds(g, d1, l, l.inoMap[no])
    {
      assert Entry(g, eb0, l, no) && ClusterHolds(g, d0, l, l.inoMap[no]);
      InodeClusterKept(g, eb0, d0, eb1, d1, own, l.inoMap[no]);
    }
  }

  // ---------------------------------------------------------- one number leaves the clean inodes of its cluster

  /** The counters after the last change to one clean inode of cluster cl: cl_occupancy, then perhaps e_cvalid. */
  function OccLess(occ: seq<int>, cl: nat): seq<int>
    requires cl < |occ|
  {
    occ[cl := occ[cl] - 1]
  }

  function EbLess(g: Geometry, eb: seq<EraseBlock>, occ: seq<int>, cl: nat): seq<EraseBlock>
    requires g.k > 0 && cl < |occ| && BlockOf(g, cl) < |eb| && (occ[cl] == 1 ==> eb[BlockOf(g, cl)].cvalid > 0)
  {
    if occ[cl] == 1 then DecCvalid(eb, BlockOf(g, cl)) else eb
  }

  lemma CleanHas(g: Geometry, eb: seq<EraseBlock>, l: Log, no: nat)
    requires g.Valid() && |eb| == g.blocks && Shape(g, l) && EntriesOk(g, eb, l) && OccOk(l) && CvalidOk(g, eb, l)
    requires 1 <= no < g.nino && no !in l.dirty && Real(l.inoMap[no])
    ensures 1 <= l.inoMap[no] < |l.occ| && l.occ[l.inoMap[no]] > 0
    ensures BlockOf(g, l.inoMap[no]) < |eb| && eb[BlockOf(g, l.inoMap[no])].cvalid > 0
    ensures IsInodeType(eb[BlockOf(g, l.inoMap[no])].etype)
  {
    var cl := l.inoMap[no];
    assert Entry(g, eb, l, no);
    ClusterRange(g, eb, cl);
    assert no in Clean(l, cl);
    assert IndexOf(g, cl) in Occupied(g, l.occ, BlockOf(g, cl));
  }

  /** Taking one number out of the clean inodes of its cluster, and counting it out, keeps both counters right. */
  lemma CountOut(g: Geometry, eb: seq<EraseBlock>, l: Log, l': Log, no: nat)
    requires g.Valid() && |eb| == g.blocks && Shape(g, l) && EntriesOk(g, eb, l) && OccOk(l) && CvalidOk(g, eb, l)
    requires 1 <= no < g.nino && no !in l.dirty && Real(l.inoMap[no]) && |l'.inoMap| == |l.inoMap|
    requires var cl := l.inoMap[no]; cl < |l.occ| && l'.occ == OccLess(l.occ, cl)
    requires forall cl: nat | cl > 0 :: Clean(l', cl) == Clean(l, cl) - {no}
    ensures BlockOf(g, l.inoMap[no]) < |eb| && (l.occ[l.inoMap[no]] == 1 ==> eb[BlockOf(g, l.inoMap[no])].cvalid > 0)
    ensures OccOk(l') && CvalidOk(g, EbLess(g, eb, l.occ, l.inoMap[no]), l')
  {
    var cl := l.inoMap[no];
    CleanHas(g, eb, l, no);
    forall x: nat | 1 <= x < |l'.occ| ensures l'.occ[x] == |Clean(l', x)| {
      assert l.occ[x] == |Clean(l, x)|;
      if x == cl { assert no in Clean(l, x); } else { assert no !in Clean(l, x); }
    }
    assert Entry(g, eb, l, no);
    ClusterRange(g, eb, cl);
    var eb' := EbLess(g, eb, l.occ, cl);
    forall b: nat | 1 <= b < |eb'| && IsInodeType(eb'[b].etype) ensures eb'[b].cvalid == |Occupied(g, l'.occ, b)| {
      assert eb[b].cvalid == |Occupied(g, l.occ, b)|;
      OccupiedLess(g, l.occ, cl, b);
    }
  }

  lemma OccupiedLess(g: Geometry, occ: seq<int>, cl: nat, b: nat)
    requires g.Valid() && cl < |occ| && occ[cl] > 0
    ensures Occupied(g, OccLess(occ, cl), b) ==
      if occ[cl] == 1 && b == BlockOf(g, cl) then Occupied(g, occ, b) - {IndexOf(g, cl)} else Occupied(g, occ, b)
    ensures IndexOf(g, cl) in Occupied(g, occ, BlockOf(g, cl))
  {
    DivBounds(cl, g.k);
    forall i: nat | i < g.k && ClOf(g, b, i) == cl
      ensures b == BlockOf(g, cl) && i == IndexOf(g, cl)
    {
      ClOfSplit(g, b, i);
    }
  }

  /** Taking a cluster off an inode block's counter disturbs nothing else. */
  lemma DecInodeBlock(g: Geometry, eb: seq<EraseBlock>, b: nat, live: set<nat>, exact: bool, blocks: set<nat>)
    requires g.Valid() && EbInv(g, eb) && 1 <= b < |eb| && IsInodeType(eb[b].etype) && eb[b].cvalid > 0
    requires LiveOk(g, eb, live, exact) && EbinLive(eb, blocks)
    ensures EbInv(g, DecCvalid(eb, b)) && LiveOk(g, DecCvalid(eb, b), live, exact) && EbinLive(DecCvalid(eb, b), blocks)
  {
    var eb' := DecCvalid(eb, b);
    CountEmptyUpdate(eb, |eb|, b, eb'[b]);
    assert BlockOk(g, eb[b]);
    assert forall i | 1 <= i < |eb'| :: BlockOk(g, eb'[i]);
    assert OneOpen(g, eb');
    forall x | 1 <= x < |eb'| && IsClinType(eb'[x].etype) ensures Counted(g, eb', live, exact, x) {
      assert Counted(g, eb, live, exact, x);
    }
    forall x | x in live ensures ClinPtrOk(g, eb', x) { assert ClinPtrOk(g, eb, x); }
  }

  // ---------------------------------------------------------- mark_dirty, on values

  /** A new version of a cached inode, marked as dirty. */
  function Dirtied(l: Log, no: nat, ino: Inode): Log
    requires no < |l.inoMap| && no < |l.cache|
    requires no !in l.dirty && l.inoMap[no] != RESERVED_CL ==> l.inoMap[no] < |l.occ|
  {
    l.(cache := l.cache[no := Some(ino)], table := l.table[no := ino], dirty := l.dirty + {no},
       occ := if no !in l.dirty && l.inoMap[no] != RESERVED_CL then OccLess(l.occ, l.inoMap[no]) else l.occ)
  }

  function EbDirtied(g: Geometry, eb: seq<EraseBlock>, l: Log, no: nat): seq<EraseBlock>
    requires g.k > 0 && no < |l.inoMap|
    requires no !in l.dirty && l.inoMap[no] != RESERVED_CL ==> var cl := l.inoMap[no];
      cl < |l.occ| && BlockOf(g, cl) < |eb| && (l.occ[cl] == 1 ==> eb[BlockOf(g, cl)].cvalid > 0)
  {
    if no !in l.dirty && l.inoMap[no] != RESERVED_CL then EbLess(g, eb, l.occ, l.inoMap[no]) else eb
  }

  /** The usage records after marking inode `no` dirty: its cluster may have lost its last clean inode. */
  predicate Marked(g: Geometry, eb0: seq<EraseBlock>, l: Log, no: nat, eb: seq<EraseBlock>)
    requires g.k > 0
  {
    no < |l.inoMap| &&
    if no !in l.dirty && l.inoMap[no] != RESERVED_CL then
      var cl := l.inoMap[no];
      && cl < |l.occ| && BlockOf(g, cl) < |eb0| && (l.occ[cl] == 1 ==> eb0[BlockOf(g, cl)].cvalid > 0)
      && eb == EbLess(g, eb0, l.occ, cl)
    else eb == eb0
  }

  /** A cached inode that changes and is marked dirty at once: counters, map, cache and disk stay in agreement. */
  lemma DirtyStep(g: Geometry, eb: seq<EraseBlock>, d: seq<byte>, l: Log, no: nat, ino: Inode)
    requires LogInv(g, eb, d, l) && 1 <= no < g.nino && l.cache[no].Some? && InodeOk(g, ino) && ino.no == no
    ensures no !in l.dirty && l.inoMap[no] != RESERVED_CL ==> var cl := l.inoMap[no];
      && Real(cl) && cl < |l.occ| && BlockOf(g, cl) < |eb| && (l.occ[cl] == 1 ==> eb[BlockOf(g, cl)].cvalid > 0)
      && 1 <= BlockOf(g, cl) && IsInodeType(eb[BlockOf(g, cl)].etype)
    ensures LogInv(g, EbDirtied(g, eb, l, no), d, Dirtied(l, no, ino))
  {
    hide OccOk, CvalidOk, ClusterHolds, InodeOk;
    assert Entry(g, eb, l, no);
    if no !in l.dirty && l.inoMap[no] != RESERVED_CL {
      CleanHas(g, eb, l, no);
    }
    var l', eb' := Dirtied(l, no, ino), EbDirtied(g, eb, l, no);
    forall x: nat | 1 <= x < g.nino ensures Entry(g, eb', l', x) { DirtiedEntry(g, eb, eb', l, no, ino, x); }
    forall x: nat | 1 <= x < g.nino && Real(l'.inoMap[x]) && x !in l'.dirty
      ensures ClusterHolds(g, d, l', l'.inoMap[x])
    {
      assert ClusterHolds(g, d, l, l.inoMap[x]);
      HoldsStill(g, d, l, l', l.inoMap[x]);
    }
    DirtyCounts(g, eb, l, no, ino);
  }

  lemma HoldsStill(g: Geometry, d: seq<byte>, l: Log, l': Log, cl: nat)
    requires g.Valid() && ClusterHolds(g, d, l, cl) && l'.groups == l.groups
    ensures ClusterHolds(g, d, l', cl)
  {
  }

  lemma DirtiedEntry(g: Geometry, eb: seq<EraseBlock>, eb': seq<EraseBlock>, l: Log, no: nat, ino: Inode, x: nat)
    requires g.Valid() && Shape(g, l) && 1 <= no < g.nino && 1 <= x < g.nino
    requires Entry(g, eb, l, no) && Entry(g, eb, l, x)
    requires l.cache[no].Some? && InodeOk(g, ino) && ino.no == no
    requires |eb'| == |eb|
    requires forall b | 0 <= b < |eb| :: eb'[b].etype == eb[b].etype && eb'[b].writeops == eb[b].writeops
    requires no !in l.dirty && l.inoMap[no] != RESERVED_CL ==> l.inoMap[no] < |l.occ|
    ensures Entry(g, eb', Dirtied(l, no, ino), x)
  {
    hide StoredIn, InodeOk, Norm;
  }

  lemma DirtyCounts(g: Geometry, eb: seq<EraseBlock>, l: Log, no: nat, ino: Inode)
    requires g.Valid() && |eb| == g.blocks && Shape(g, l) && EntriesOk(g, eb, l) && OccOk(l) && CvalidOk(g, eb, l)
    requires 1 <= no < g.nino && l.cache[no].Some?
    ensures no !in l.dirty && l.inoMap[no] != RESERVED_CL ==> var cl := l.inoMap[no];
      cl < |l.occ| && BlockOf(g, cl) < |eb| && (l.occ[cl] == 1 ==> eb[BlockOf(g, cl)].cvalid > 0)
    ensures OccOk(Dirtied(l, no, ino)) && CvalidOk(g, EbDirtied(g, eb, l, no), Dirtied(l, no, ino))
  {
    assert Entry(g, eb, l, no);
    if no !in l.dirty && l.inoMap[no] != RESERVED_CL {
      CleanHas(g, eb, l, no);
      var l' := Dirtied(l, no, ino);
      forall cl: nat | cl > 0 ensures Clean(l', cl) == Clean(l, cl) - {no} { }
      CountOut(g, eb, l, l', no);
    } else {
      var l' := Dirtied(l, no, ino);
      forall cl: nat | 1 <= cl < |l.occ| ensures l'.occ[cl] == |Clean(l', cl)| {
        assert l.occ[cl] == |Clean(l, cl)|;
        assert cl * 1 == cl;
        CleanSame(g, eb, l, l', no, cl);
      }
    }
  }

  lemma CleanSame(g: Geometry, eb: seq<EraseBlock>, l: Log, l': Log, no: nat, cl: nat)
    requires g.Valid() && |eb| == g.blocks && Shape(g, l) && 1 <= cl < |l.occ| && no < |l.inoMap|
    requires l'.inoMap == l.inoMap && l'.dirty == l.dirty + {no}
    requires no in l.dirty || l.inoMap[no] == RESERVED_CL
    ensures Clean(l', cl) == Clean(l, cl)
  {
    ClusterCount(g, cl);
  }

  /** No cluster of the device has the number that marks a reserved inode. */
  lemma ClusterCount(g: Geometry, cl: nat)
    requires g.Valid() && cl < g.blocks * g.k
    ensures cl < RESERVED_CL
  {
    assert g.blocks * (g.k * g.c) == g.blocks * g.k * g.c;
    MulMono(2, g.c, g.blocks * g.k);
  }

  // ---------------------------------------------------------- freeing a number, on values

  /** unlink and rmdir of the last reference: count the inode out of its cluster, free the number, drop the inode. */
  function Freed(l: Log, no: nat): Log
    requires no < |l.inoMap| && no < |l.cache|
    requires l.inoMap[no] != RESERVED_CL ==> l.inoMap[no] < |l.occ|
  {
    l.(inoMap := l.inoMap[no := FREE_CL], cache := l.cache[no := None], dirty := l.dirty - {no},
        table := l.table - {no},
       occ := if l.inoMap[no] != RESERVED_CL then OccLess(l.occ, l.inoMap[no]) else l.occ)
  }

  function EbFreed(g: Geometry, eb: seq<EraseBlock>, l: Log, no: nat): seq<EraseBlock>
    requires g.k > 0 && no < |l.inoMap|
    requires l.inoMap[no] != RESERVED_CL ==> var cl := l.inoMap[no];
      cl < |l.occ| && BlockOf(g, cl) < |eb| && (l.occ[cl] == 1 ==> eb[BlockOf(g, cl)].cvalid > 0)
  {
    if l.inoMap[no] != RESERVED_CL then EbLess(g, eb, l.occ, l.inoMap[no]) else eb
  }

  /** An inode that is dirty but has been written before; its cluster does not count it any more. */
  predicate StaleOnDisk(l: Log, no: nat)
    requires no < |l.inoMap|
  {
    no in l.dirty && l.inoMap[no] != RESERVED_CL
  }

  /**
   * Where the decrement of a free lands: in a counter that exists, and that takes e_cvalid with it only from above
   * zero.
   */
  lemma FreedRange(g: Geometry, eb: seq<EraseBlock>, d: seq<byte>, l: Log, no: nat)
    requires LogInv(g, eb, d, l) && no in l.table
    ensures 1 <= no < g.nino
    ensures l.inoMap[no] != RESERVED_CL ==> var cl := l.inoMap[no];
      && Real(cl) && cl < |l.occ| && BlockOf(g, cl) < |eb|
      && (l.occ[cl] == 1 ==>
            1 <= BlockOf(g, cl) && IsInodeType(eb[BlockOf(g, cl)].etype) && eb[BlockOf(g, cl)].cvalid > 0)
  {
    assert Entry(g, eb, l, no);
    if l.inoMap[no] != RESERVED_CL {
      var cl := l.inoMap[no];
      DivBelow(cl, g.blocks, g.k);
      if l.occ[cl] == 1 {
        assert |Clean(l, cl)| == 1;
        var m :| m in Clean(l, cl);
        assert m != 0 by { ClusterCount(g, cl); }
        CleanHas(g, eb, l, m);
        assert Entry(g, eb, l, m);
      }
    }
  }

  /** Freeing keeps the log in agreement exactly for an inode that is clean or has never been written. */
  lemma UnlinkStep(g: Geometry, eb: seq<EraseBlock>, d: seq<byte>, l: Log, no: nat)
    requires LogInv(g, eb, d, l) && no in l.table
    ensures 1 <= no < g.nino
    ensures l.inoMap[no] != RESERVED_CL ==> var cl := l.inoMap[no];
      cl < |l.occ| && BlockOf(g, cl) < |eb| && (l.occ[cl] == 1 ==> eb[BlockOf(g, cl)].cvalid > 0)
    ensures LogInv(g, EbFreed(g, eb, l, no), d, Freed(l, no)) <==> !StaleOnDisk(l, no)
    ensures StaleOnDisk(l, no) ==> !OccOk(Freed(l, no))
  {
    FreedRange(g, eb, d, l, no);
    assert Entry(g, eb, l, no);
    var l' := Freed(l, no);
    if StaleOnDisk(l, no) {
      var cl := l.inoMap[no];
      assert Clean(l', cl) == Clean(l, cl);
      assert l.occ[cl] == |Clean(l, cl)| && l'.occ[cl] != |Clean(l', cl)|;
    } else {
      FreeCounts(g, eb, l, no);
      FreeEntries(g, eb, d, l, no);
    }
  }

  lemma FreeCounts(g: Geometry, eb: seq<EraseBlock>, l: Log, no: nat)
    requires g.Valid() && |eb| == g.blocks && Shape(g, l) && EntriesOk(g, eb, l) && OccOk(l) && CvalidOk(g, eb, l)
    requires 1 <= no < g.nino && no in l.table && !StaleOnDisk(l, no)
    ensures l.inoMap[no] != RESERVED_CL ==> var cl := l.inoMap[no];
      cl < |l.occ| && BlockOf(g, cl) < |eb| && (l.occ[cl] == 1 ==> eb[BlockOf(g, cl)].cvalid > 0)
    ensures OccOk(Freed(l, no)) && CvalidOk(g, EbFreed(g, eb, l, no), Freed(l, no))
  {
    assert Entry(g, eb, l, no);
    if l.inoMap[no] != RESERVED_CL { CleanHas(g, eb, l, no); }
    var l' := Freed(l, no);
    if l.inoMap[no] != RESERVED_CL {
      forall cl: nat | cl > 0 ensures Clean(l', cl) == Clean(l, cl) - {no} { }
      CountOut(g, eb, l, l', no);
    } else {
      forall cl: nat | 1 <= cl < |l.occ| ensures l'.occ[cl] == |Clean(l', cl)| {
        ClusterCount(g, cl);
        assert Clean(l', cl) == Clean(l, cl);
      }
    }
  }

  lemma FreeEntries(g: Geometry, eb: seq<EraseBlock>, d: seq<byte>, l: Log, no: nat)
    requires LogInv(g, eb, d, l) && 1 <= no < g.nino && no in l.table && !StaleOnDisk(l, no)
    requires l.inoMap[no] != RESERVED_CL ==> var cl := l.inoMap[no];
      cl < |l.occ| && BlockOf(g, cl) < |eb| && (l.occ[cl] == 1 ==> eb[BlockOf(g, cl)].cvalid > 0)
    ensures Shape(g, Freed(l, no)) && EntriesOk(g, EbFreed(g, eb, l, no), Freed(l, no))
    ensures ClustersOk(g, d, Freed(l, no)) && Together(g, Freed(l, no))
  {
    var l', eb' := Freed(l, no), EbFreed(g, eb, l, no);
    forall x: nat | 1 <= x < g.nino ensures Entry(g, eb', l', x) { assert Entry(g, eb, l, x); }
    forall x: nat | 1 <= x < g.nino && Real(l'.inoMap[x]) && x !in l'.dirty
      ensures ClusterHolds(g, d, l', l'.inoMap[x])
    {
      assert ClusterHolds(g, d, l, l.inoMap[x]);
    }
  }

  // ---------------------------------------------------------- taking a number, on values

  /** create: the number is reserved until the inode is first written. */
  function Created(l: Log, no: nat, ino: Inode): Log
    requires no < |l.inoMap| && no < |l.cache|
  {
    l.(inoMap := l.inoMap[no := RESERVED_CL], cache := l.cache[no := Some(ino)], dirty := l.dirty + {no},
       table := l.table[no := ino])
  }

  lemma CreateStep(g: Geometry, eb: seq<EraseBlock>, d: seq<byte>, l: Log, no: nat, ino: Inode)
    requires LogInv(g, eb, d, l) && 1 <= no < g.nino && l.inoMap[no] == FREE_CL && InodeOk(g, ino) && ino.no == no
    ensures no !in l.table && no !in l.dirty && LogInv(g, eb, d, Created(l, no, ino))
  {
    assert Entry(g, eb, l, no);
    var l' := Created(l, no, ino);
    forall x: nat | 1 <= x < g.nino ensures Entry(g, eb, l', x) { assert Entry(g, eb, l, x); }
    forall x: nat | 1 <= x < g.nino && Real(l'.inoMap[x]) && x !in l'.dirty
      ensures ClusterHolds(g, d, l', l'.inoMap[x])
    {
      assert ClusterHolds(g, d, l, l.inoMap[x]);
    }
    forall cl: nat | 1 <= cl < |l.occ| ensures l'.occ[cl] == |Clean(l', cl)| {
      ClusterCount(g, cl);
      assert Clean(l', cl) == Clean(l, cl);
    }
    assert CvalidOk(g, eb, l') by {
      forall b: nat | 1 <= b < |eb| && IsInodeType(eb[b].etype) ensures eb[b].cvalid == |Occupied(g, l'.occ, b)| {
        assert eb[b].cvalid == |Occupied(g, l.occ, b)|;
      }
    }
  }

  // ---------------------------------------------------------- writing a group, on values

  function Nos(group: seq<Inode>): set<nat> { set i | 0 <= i < |group| :: group[i].no }

  function Mapped(inoMap: seq<nat>, group: seq<Inode>, cl: nat): (r: seq<nat>)
    ensures |r| == |inoMap|
    ensures forall no: nat | no < |inoMap| :: r[no] == if no in Nos(group) then cl else inoMap[no]
  {
    seq(|inoMap|, no requires 0 <= no < |inoMap| => if no in Nos(group) then cl else inoMap[no])
  }

  /** The inodes of a group have gone to cluster cl. */
  function Stored(l: Log, group: seq<Inode>, cl: nat): Log
    requires cl < |l.occ|
  {
    l.(inoMap := Mapped(l.inoMap, group, cl), occ := l.occ[cl := l.occ[cl] + |group|], dirty := l.dirty - Nos(group),
       groups := l.groups[cl := group])
  }

  /** The group is what the cache holds of some dirty inodes. */
  predicate DirtyGroup(g: Geometry, l: Log, group: seq<Inode>)
    requires g.Valid() && Shape(g, l)
  {
    && group != [] && GroupOk(g, group)
    && forall i | 0 <= i < |group| :: group[i].no in l.dirty && l.cache[group[i].no] == Some(group[i])
  }

  lemma {:induction false} NosSize(group: seq<Inode>)
    requires forall i, j | 0 <= i < j < |group| :: group[i].no != group[j].no
    ensures |Nos(group)| == |group|
  {
    if group != [] {
      NosSize(group[1..]);
      assert Nos(group) == {group[0].no} + Nos(group[1..]);
    }
  }

  /** The cluster the allocator hands out holds no inode yet. */
  lemma FreshInodeCluster(g: Geometry, eb: seq<EraseBlock>, l: Log, t: EbType, e: nat)
    requires g.Valid() && |eb| == g.blocks && Shape(g, l) && EntriesOk(g, eb, l) && OccOk(l)
    requires EbInv(g, eb) && Target(g, eb, t, e) && IsInodeType(t)
    ensures var cl := ClOf(g, e, eb[e].writeops);
      && eb[e].writeops < g.k && Real(cl) && 1 <= cl < |l.occ| && l.occ[cl] == 0
      && BlockOf(g, cl) == e && IndexOf(g, cl) == eb[e].writeops
      && Clean(l, cl) == {}
  {
    assert BlockOk(g, eb[e]);
    var w := eb[e].writeops;
    var cl := ClOf(g, e, w);
    ClOfSplit(g, e, w);
    MulMono(e, g.blocks, g.k);
    MulGe(e, g.k);
    ClusterCount(g, cl);
    forall no: nat | 1 <= no < g.nino && l.inoMap[no] == cl ensures no in l.dirty { assert Entry(g, eb, l, no); }
    assert Clean(l, cl) == {};
  }

  /** The blocks' counters after a group has been stored. */
  lemma StoreCounts(g: Geometry, eb: seq<EraseBlock>, l: Log, t: EbType, e: nat, time: nat, group: seq<Inode>)
    requires g.Valid() && |eb| == g.blocks && Shape(g, l) && EntriesOk(g, eb, l) && OccOk(l) && CvalidOk(g, eb, l)
    requires EbInv(g, eb) && Target(g, eb, t, e) && IsInodeType(t) && DirtyGroup(g, l, group)
    ensures eb[e].writeops < g.k && ClOf(g, e, eb[e].writeops) < |l.occ|
    ensures var l' := Stored(l, group, ClOf(g, e, eb[e].writeops));
      OccOk(l') && CvalidOk(g, eb[e := Written(g, eb[e], t, time)], l')
  {
    FreshInodeCluster(g, eb, l, t, e);
    var cl := ClOf(g, e, eb[e].writeops);
    var l', eb' := Stored(l, group, cl), eb[e := Written(g, eb[e], t, time)];
    StoreOcc(g, l, group, cl);
    if !IsInodeType(eb[e].etype) { NoneOccupied(g, eb, l, e); }
    forall b: nat | 1 <= b < |eb'| && IsInodeType(eb'[b].etype) ensures eb'[b].cvalid == |Occupied(g, l'.occ, b)| {
      StoreCvalid(g, eb, l.occ, t, e, time, |group|, b);
    }
  }

  lemma StoreCvalid(g: Geometry, eb: seq<EraseBlock>, occ: seq<int>, t: EbType, e: nat, time: nat, n: nat, b: nat)
    requires g.Valid() && EbInv(g, eb) && Target(g, eb, t, e) && IsInodeType(t) && 1 <= b < |eb| && n > 0
    requires eb[e].writeops < g.k && ClOf(g, e, eb[e].writeops) < |occ| && occ[ClOf(g, e, eb[e].writeops)] == 0
    requires forall b: nat | 1 <= b < |eb| && IsInodeType(eb[b].etype) :: eb[b].cvalid == |Occupied(g, occ, b)|
    requires !IsInodeType(eb[e].etype) ==> Occupied(g, occ, e) == {}
    ensures var eb', cl := eb[e := Written(g, eb[e], t, time)], ClOf(g, e, eb[e].writeops);
      IsInodeType(eb'[b].etype) ==> eb'[b].cvalid == |Occupied(g, occ[cl := occ[cl] + n], b)|
  {
    hide Occupied, CountEmpty, OneOpen, ClOf;
    var cl := ClOf(g, e, eb[e].writeops);
    ClOfSplit(g, e, eb[e].writeops);
    OccupiedMore(g, occ, cl, n, b);
    assert BlockOk(g, eb[e]);
    if b == e {
      assert |Occupied(g, occ, e) + {IndexOf(g, cl)}| == |Occupied(g, occ, e)| + 1;
    }
  }

  lemma StoreOcc(g: Geometry, l: Log, group: seq<Inode>, cl: nat)
    requires g.Valid() && Shape(g, l) && OccOk(l) && DirtyGroup(g, l, group)
    requires Real(cl) && 1 <= cl < |l.occ| && l.occ[cl] == 0 && Clean(l, cl) == {}
    ensures OccOk(Stored(l, group, cl))
  {
    var l' := Stored(l, group, cl);
    NosSize(group);
    forall x: nat | 1 <= x < |l'.occ| ensures l'.occ[x] == |Clean(l', x)| {
      assert l.occ[x] == |Clean(l, x)|;
      if x == cl {
        assert Clean(l', cl) == Nos(group) by {
          forall no | no in Nos(group) ensures no < |l.inoMap| { assert no in l.dirty; }
          forall no | no in Clean(l', cl) ensures no in Nos(group) { assert no in Nos(group) || no in Clean(l, cl); }
        }
      } else {
        ClusterCountAt(g, l, x);
        assert Clean(l', x) == Clean(l, x);
      }
    }
  }

  lemma ClusterCountAt(g: Geometry, l: Log, cl: nat)
    requires g.Valid() && Shape(g, l) && cl < |l.occ|
    ensures cl < RESERVED_CL
  {
    ClusterCount(g, cl);
  }

  lemma OccupiedMore(g: Geometry, occ: seq<int>, cl: nat, n: nat, b: nat)
    requires g.Valid() && cl < |occ| && occ[cl] == 0 && n > 0
    ensures Occupied(g, occ[cl := occ[cl] + n], b) ==
      if b == BlockOf(g, cl) then Occupied(g, occ, b) + {IndexOf(g, cl)} else Occupied(g, occ, b)
    ensures IndexOf(g, cl) !in Occupied(g, occ, BlockOf(g, cl))
  {
    DivBounds(cl, g.k);
    forall i: nat | i < g.k && ClOf(g, b, i) == cl
      ensures b == BlockOf(g, cl) && i == IndexOf(g, cl)
    {
      ClOfSplit(g, b, i);
    }
  }

  /** An empty block holds no clean inode. */
  lemma NoneOccupied(g: Geometry, eb: seq<EraseBlock>, l: Log, e: nat)
    requires g.Valid() && |eb| == g.blocks && Shape(g, l) && EntriesOk(g, eb, l) && OccOk(l)
    requires 1 <= e < |eb| && !IsInodeType(eb[e].etype)
    ensures Occupied(g, l.occ, e) == {}
  {
    forall i: nat | i < g.k && ClOf(g, e, i) < |l.occ| ensures l.occ[ClOf(g, e, i)] == 0 {
      var cl := ClOf(g, e, i);
      ClOfSplit(g, e, i);
      MulGe(e, g.k);
      ClusterCountAt(g, l, cl);
      forall no: nat | 1 <= no < g.nino && l.inoMap[no] == cl ensures no in l.dirty { assert Entry(g, eb, l, no); }
      assert Clean(l, cl) == {};
    }
  }

  lemma StoreEntry(g: Geometry, eb: seq<EraseBlock>, l: Log, t: EbType, e: nat, time: nat, group: seq<Inode>, no: nat)
    requires g.Valid() && |eb| == g.blocks && Shape(g, l) && EntriesOk(g, eb, l) && OccOk(l)
    requires EbInv(g, eb) && Target(g, eb, t, e) && IsInodeType(t) && DirtyGroup(g, l, group) && 1 <= no < g.nino
    ensures eb[e].writeops < g.k && ClOf(g, e, eb[e].writeops) < |l.occ|
    ensures Entry(g, eb[e := Written(g, eb[e], t, time)], Stored(l, group, ClOf(g, e, eb[e].writeops)), no)
  {
    hide InodeOk, Norm, OccOk, EbInv, Open, StoredIn, InodeCluster, EntriesOk, Clean;
    FreshInodeCluster(g, eb, l, t, e);
    StoredCluster(g, eb, t, e, time);
    assert Entry(g, eb, l, no) by { EntryOf(g, eb, l, no); }
    if no in Nos(group) {
      StoredMember(g, eb, l, group, no);
    } else if Real(l.inoMap[no]) && no !in l.dirty {
      assert l.inoMap[no] != ClOf(g, e, eb[e].writeops) by { CleanHere(l, l.inoMap[no], no); }
      OtherCluster(g, eb, t, e, time, l.inoMap[no]);
    }
  }

  lemma EntryOf(g: Geometry, eb: seq<EraseBlock>, l: Log, no: nat)
    requires g.Valid() && Shape(g, l) && EntriesOk(g, eb, l) && 1 <= no < g.nino
    ensures Entry(g, eb, l, no)
  {
  }

  lemma CleanHere(l: Log, cl: nat, no: nat)
    requires no < |l.inoMap| && l.inoMap[no] == cl && no !in l.dirty
    ensures no in Clean(l, cl)
  {
  }

  /** A dirty inode that is in the group is stored in it. */
  lemma StoredMember(g: Geometry, eb: seq<EraseBlock>, l: Log, group: seq<Inode>, no: nat)
    requires g.Valid() && Shape(g, l) && DirtyGroup(g, l, group) && no in Nos(group) && 1 <= no < g.nino
    requires Entry(g, eb, l, no)
    ensures no in l.dirty && no in l.table && StoredIn(g, group, l.table[no])
  {
    hide InodeOk, Norm;
    var i :| 0 <= i < |group| && group[i].no == no;
    assert Same(g, group[i], l.table[no]);
  }

  lemma StoredCluster(g: Geometry, eb: seq<EraseBlock>, t: EbType, e: nat, time: nat)
    requires g.Valid() && 1 <= e < |eb| && IsInodeType(t) && eb[e].writeops < g.k
    ensures InodeCluster(g, eb[e := Written(g, eb[e], t, time)], ClOf(g, e, eb[e].writeops))
  {
    ClOfSplit(g, e, eb[e].writeops);
  }

  /** A cluster that holds inodes goes on doing so when its block, or another one, takes one more write. */
  lemma OtherCluster(g: Geometry, eb: seq<EraseBlock>, t: EbType, e: nat, time: nat, cl: nat)
    requires g.Valid() && Target(g, eb, t, e) && IsInodeType(t) && InodeCluster(g, eb, cl)
    ensures InodeCluster(g, eb[e := Written(g, eb[e], t, time)], cl)
  {
  }

  /** Storing a group of dirty inodes in a fresh cluster keeps everything in agreement, and changes no inode. */
  lemma StoreStep(g: Geometry, eb: seq<EraseBlock>, d: seq<byte>, d': seq<byte>, l: Log, t: EbType, e: nat, time: nat,
                  group: seq<Inode>)
    requires LogInv(g, eb, d, l) && EbInv(g, eb) && Target(g, eb, t, e) && IsInodeType(t) && DirtyGroup(g, l, group)
    requires Kept(g, eb, d, eb, d', {}) && eb[e].writeops < g.k && Cluster(g, d', e, eb[e].writeops) == Packed(g, group)
    ensures ClOf(g, e, eb[e].writeops) < |l.occ|
    ensures LogInv(g, eb[e := Written(g, eb[e], t, time)], d', Stored(l, group, ClOf(g, e, eb[e].writeops)))
  {
    hide InodeOk, Packed, Norm;
    FreshInodeCluster(g, eb, l, t, e);
    var cl := ClOf(g, e, eb[e].writeops);
    var l', eb' := Stored(l, group, cl), eb[e := Written(g, eb[e], t, time)];
    forall no: nat | 1 <= no < g.nino ensures Entry(g, eb', l', no) {
      StoreEntry(g, eb, l, t, e, time, group, no);
    }
    forall no: nat | 1 <= no < g.nino && Real(l'.inoMap[no]) && no !in l'.dirty
      ensures ClusterHolds(g, d', l', l'.inoMap[no])
    {
      if no in Nos(group) {
        ClInDevice(g, e, eb[e].writeops);
      } else {
        assert Entry(g, eb, l, no) && ClusterHolds(g, d, l, l.inoMap[no]);
        InodeClusterKept(g, eb, d, eb, d', {}, l.inoMap[no]);
      }
    }
    StoreTogether(g, eb, l, group, cl);
    StoreCounts(g, eb, l, t, e, time, group);
  }

  lemma StoreTogether(g: Geometry, eb: seq<EraseBlock>, l: Log, group: seq<Inode>, cl: nat)
    requires g.Valid() && |eb| == g.blocks && Shape(g, l) && EntriesOk(g, eb, l) && Together(g, l)
    requires DirtyGroup(g, l, group)
    requires Real(cl) && cl < |l.occ| && Clean(l, cl) == {}
    ensures Shape(g, Stored(l, group, cl)) && Together(g, Stored(l, group, cl))
  {
    forall no: nat | 1 <= no < g.nino && l.inoMap[no] == cl ensures l.cache[no].Some? {
      assert Entry(g, eb, l, no);
      assert no in l.dirty || no in Clean(l, cl);
    }
  }

  // ---------------------------------------------------------- caching a cluster, on values

  lemma NormTwice(g: Geometry, ino: Inode)
    requires g.Valid() && InodeOk(g, ino)
    ensures Norm(g, Norm(g, ino)) == Norm(g, ino)
  {
    InodeFitsCluster(g, ino);
    var len := DataLen(g, ino.size, ino.flags);
    assert Norm(g, ino).data[..len] == ino.data[..len];
  }

  /** The inodes read from a group are its members that still live in the cluster, each once. */
  lemma {:induction false} CurrentMembers(g: Geometry, inoMap: seq<nat>, cl: nat, group: seq<Inode>)
    requires g.Valid() && AllOk(g, group) && forall i, j | 0 <= i < j < |group| :: group[i].no != group[j].no
    ensures forall i, j | 0 <= i < j < |Current(g, inoMap, cl, group)| ::
              Current(g, inoMap, cl, group)[i].no != Current(g, inoMap, cl, group)[j].no
    ensures forall i | 0 <= i < |group| && PointsTo(inoMap, group[i].no, cl) ::
      Norm(g, group[i]) in Current(g, inoMap, cl, group)
    ensures forall x | x in Current(g, inoMap, cl, group) :: exists i :: 0 <= i < |group| && x == Norm(g, group[i])
  {
    if group != [] {
      hide InodeOk, Norm;
      CurrentMembers(g, inoMap, cl, group[1..]);
      var rest := Current(g, inoMap, cl, group[1..]);
      var all := Current(g, inoMap, cl, group);
      forall x | x in all ensures exists i :: 0 <= i < |group| && x == Norm(g, group[i]) {
        if x in rest {
          var i :| 0 <= i < |group[1..]| && x == Norm(g, group[1..][i]);
          assert x == Norm(g, group[i + 1]);
        } else {
          assert x == Norm(g, group[0]);
        }
      }
      forall i | 0 <= i < |group| && PointsTo(inoMap, group[i].no, cl) ensures Norm(g, group[i]) in all {
        if i > 0 { assert group[1..][i - 1] == group[i]; }
      }
      forall x | x in rest ensures x.no != group[0].no {
        var i :| 0 <= i < |group[1..]| && x == Norm(g, group[1..][i]);
        assert group[i + 1].no == x.no;
      }
    }
  }

  /** The cache after inserting the inodes of a list, each into its own slot. */
  ghost predicate Filled(c0: seq<Option<Inode>>, c1: seq<Option<Inode>>, inodes: seq<Inode>) {
    && |c1| == |c0|
    && (forall i | 0 <= i < |inodes| :: inodes[i].no < |c1| && c1[inodes[i].no] == Some(inodes[i]))
    && forall no: nat | no < |c1| && (forall i | 0 <= i < |inodes| :: inodes[i].no != no) :: c1[no] == c0[no]
  }

  /** What lookup_no inserts for a number that is not cached. */
  lemma LookupStep(g: Geometry, eb: seq<EraseBlock>, d: seq<byte>, l: Log, no: nat, c1: seq<Option<Inode>>)
    requires LogInv(g, eb, d, l) && no in l.table && l.cache[no].None?
    ensures 1 <= no < g.nino && Real(l.inoMap[no]) && ClusterHolds(g, d, l, l.inoMap[no])
    ensures Filled(l.cache, c1, Current(g, l.inoMap, l.inoMap[no], l.groups[l.inoMap[no]])) ==>
      && LogInv(g, eb, d, l.(cache := c1))
      && c1[no].Some? && Same(g, c1[no].value, l.table[no])
      && forall x: nat | x < |c1| && l.cache[x].Some? :: c1[x] == l.cache[x]
  {
    assert Entry(g, eb, l, no);
    var cl := l.inoMap[no];
    assert ClusterHolds(g, d, l, cl);
    var found := Current(g, l.inoMap, cl, l.groups[cl]);
    if Filled(l.cache, c1, found) {
      forall x: nat | 1 <= x < g.nino ensures LookedUp(g, eb, l, cl, c1, x) {
        LookupEntry(g, eb, d, l, no, c1, x);
      }
      assert LookedUp(g, eb, l, cl, c1, no);
      LookupCounts(g, eb, d, l, cl, c1);
    }
  }

  ghost predicate LookedUp(g: Geometry, eb: seq<EraseBlock>, l: Log, cl: nat, c1: seq<Option<Inode>>, x: nat)
    requires g.Valid() && x < |l.inoMap| && x < |l.cache| && x < |c1|
  {
    && Entry(g, eb, l.(cache := c1), x)
    && (l.inoMap[x] == cl ==> l.cache[x].None? && c1[x].Some?)
    && (l.inoMap[x] != cl ==> c1[x] == l.cache[x])
  }

  lemma LookupEntry(g: Geometry, eb: seq<EraseBlock>, d: seq<byte>, l: Log, no: nat, c1: seq<Option<Inode>>, x: nat)
    requires LogInv(g, eb, d, l) && no in l.table && l.cache[no].None? && 1 <= x < g.nino
    requires Real(l.inoMap[no]) && ClusterHolds(g, d, l, l.inoMap[no])
    requires Filled(l.cache, c1, Current(g, l.inoMap, l.inoMap[no], l.groups[l.inoMap[no]]))
    ensures LookedUp(g, eb, l, l.inoMap[no], c1, x)
  {
    hide InodeOk, Norm, Packed;
    var cl := l.inoMap[no];
    var group := l.groups[cl];
    var found := Current(g, l.inoMap, cl, group);
    assert Entry(g, eb, l, x) && Entry(g, eb, l, no);
    if l.inoMap[x] == cl {
      CurrentMembers(g, l.inoMap, cl, group);
      var i :| 0 <= i < |group| && group[i].no == x && Same(g, group[i], l.table[x]);
      NormTwice(g, group[i]);
      assert Norm(g, group[i]) in found;
    } else {
      forall i | 0 <= i < |found| ensures found[i].no != x { assert PointsTo(l.inoMap, found[i].no, cl); }
    }
  }

  lemma LookupCounts(g: Geometry, eb: seq<EraseBlock>, d: seq<byte>, l: Log, cl: nat, c1: seq<Option<Inode>>)
    requires LogInv(g, eb, d, l) && |c1| == |l.cache| && c1[0] == None
    requires forall x: nat | 1 <= x < g.nino :: LookedUp(g, eb, l, cl, c1, x)
    ensures LogInv(g, eb, d, l.(cache := c1))
  {
    var l' := l.(cache := c1);
    forall x: nat | 1 <= x < g.nino ensures Entry(g, eb, l', x) { assert LookedUp(g, eb, l, cl, c1, x); }
    forall no: nat | 1 <= no < g.nino && Real(l'.inoMap[no]) && no !in l'.dirty
      ensures ClusterHolds(g, d, l', l'.inoMap[no])
    {
      assert ClusterHolds(g, d, l, l.inoMap[no]);
    }
    forall i: nat, j: nat | 1 <= i < g.nino && 1 <= j < g.nino && Real(l'.inoMap[i]) && l'.inoMap[i] == l'.inoMap[j]
      ensures l'.cache[i].Some? ==> l'.cache[j].Some?
    {
      assert LookedUp(g, eb, l, cl, c1, i) && LookedUp(g, eb, l, cl, c1, j);
    }
    forall x: nat | 1 <= x < |l.occ| ensures l'.occ[x] == |Clean(l', x)| {
      assert l.occ[x] == |Clean(l, x)|;
      assert Clean(l', x) == Clean(l, x);
    }
    forall b: nat | 1 <= b < |eb| && IsInodeType(eb[b].etype) ensures eb[b].cvalid == |Occupied(g, l'.occ, b)| {
      assert eb[b].cvalid == |Occupied(g, l.occ, b)|;
    }
  }

  /** Forgetting clean inodes: the log alone still holds every one of them. */
  lemma ForgetStep(g: Geometry, eb: seq<EraseBlock>, d: seq<byte>, l: Log)
    requires LogInv(g, eb, d, l) && l.dirty == {}
    ensures LogInv(g, eb, d, l.(cache := seq(g.nino, i => None)))
  {
    var l' := l.(cache := seq(g.nino, i => None));
    forall x: nat | 1 <= x < g.nino ensures Entry(g, eb, l', x) { assert Entry(g, eb, l, x); }
    forall no: nat | 1 <= no < g.nino && Real(l'.inoMap[no]) && no !in l'.dirty
      ensures ClusterHolds(g, d, l', l'.inoMap[no])
    {
      assert ClusterHolds(g, d, l, l.inoMap[no]);
    }
    forall x: nat | 1 <= x < |l.occ| ensures l'.occ[x] == |Clean(l', x)| {
      assert l.occ[x] == |Clean(l, x)|;
      assert Clean(l', x) == Clean(l, x);
    }
    forall b: nat | 1 <= b < |eb| && IsInodeType(eb[b].etype) ensures eb[b].cvalid == |Occupied(g, l'.occ, b)| {
      assert eb[b].cvalid == |Occupied(g, l.occ, b)|;
    }
  }

  // ---------------------------------------------------------- one more link, on values

  function OneMoreLink(ino: Inode): Inode { ino.(nlink := (ino.nlink + 1) % U32) }

  /** link: the count goes up in memory, but the inode is not marked dirty. */
  function Linked(l: Log, no: nat): Log
    requires no < |l.cache| && l.cache[no].Some? && no in l.table
  {
    l.(cache := l.cache[no := Some(OneMoreLink(l.cache[no].value))], table := l.table[no := OneMoreLink(l.table[no])])
  }

  lemma LinkSame(g: Geometry, a: Inode, b: Inode)
    requires g.Valid() && Same(g, a, b)
    ensures Same(g, OneMoreLink(a), OneMoreLink(b)) && !Same(g, a, OneMoreLink(b))
  {
    var x, y := OneMoreLink(a), OneMoreLink(b);
    assert InodeOk(g, x) && InodeOk(g, y);
    assert Norm(g, x) == Norm(g, a).(nlink := x.nlink) && Norm(g, y) == Norm(g, b).(nlink := y.nlink);
    assert Norm(g, a).nlink == a.nlink == b.nlink == Norm(g, b).nlink;
    assert y.nlink != b.nlink;
  }

  /** The log still holds the current version of every inode exactly if the linked one was dirty anyway. */
  lemma LinkStep(g: Geometry, eb: seq<EraseBlock>, d: seq<byte>, l: Log, no: nat)
    requires LogInv(g, eb, d, l) && no in l.table && no < |l.cache| && l.cache[no].Some?
    ensures LogInv(g, eb, d, Linked(l, no)) <==> no in l.dirty
  {
    hide InodeOk, Norm, OccOk, CvalidOk, Same;
    var l' := Linked(l, no);
    assert Entry(g, eb, l, no);
    LinkSame(g, l.cache[no].value, l.table[no]);
    if no in l.dirty {
      forall x: nat | 1 <= x < g.nino ensures Entry(g, eb, l', x) { LinkEntry(g, eb, l, no, x); }
      forall x: nat | 1 <= x < g.nino && Real(l'.inoMap[x]) && x !in l'.dirty
        ensures ClusterHolds(g, d, l', l'.inoMap[x])
      {
        assert ClusterHolds(g, d, l, l.inoMap[x]);
      }
      LinkCounts(g, eb, l, no);
    } else {
      LinkMissing(g, eb, d, l, no);
      assert !Entry(g, eb, l', no);
    }
  }

  lemma LinkEntry(g: Geometry, eb: seq<EraseBlock>, l: Log, no: nat, x: nat)
    requires g.Valid() && Shape(g, l) && EntriesOk(g, eb, l) && no in l.table && l.cache[no].Some? && no in l.dirty
    requires 1 <= x < g.nino
    ensures Entry(g, eb, Linked(l, no), x)
  {
    hide Norm, InodeOk;
    assert Entry(g, eb, l, x) && Entry(g, eb, l, no);
    LinkSame(g, l.cache[no].value, l.table[no]);
  }

  lemma LinkCounts(g: Geometry, eb: seq<EraseBlock>, l: Log, no: nat)
    requires g.Valid() && Shape(g, l) && OccOk(l) && no in l.table && l.cache[no].Some?
    ensures OccOk(Linked(l, no)) && (CvalidOk(g, eb, l) ==> CvalidOk(g, eb, Linked(l, no)))
  {
    var l' := Linked(l, no);
    forall x: nat | 1 <= x < |l.occ| ensures l'.occ[x] == |Clean(l', x)| {
      assert l.occ[x] == |Clean(l, x)|;
      assert Clean(l', x) == Clean(l, x);
    }
  }

  /** The cluster of a clean inode holds it with the count it had before. */
  lemma LinkMissing(g: Geometry, eb: seq<EraseBlock>, d: seq<byte>, l: Log, no: nat)
    requires LogInv(g, eb, d, l) && no in l.table && no !in l.dirty
    ensures 1 <= no < g.nino && Real(l.inoMap[no]) && l.inoMap[no] in l.groups
    ensures !StoredIn(g, l.groups[l.inoMap[no]], OneMoreLink(l.table[no]))
  {
    hide InodeOk, Norm, OccOk, CvalidOk, Same;
    assert Entry(g, eb, l, no) && ClusterHolds(g, d, l, l.inoMap[no]);
    var group, ino := l.groups[l.inoMap[no]], l.table[no];
    var i :| 0 <= i < |group| && group[i].no == no && Same(g, group[i], ino);
    LinkSame(g, group[i], ino);
    forall j | 0 <= j < |group| && group[j].no == no ensures !Same(g, group[j], OneMoreLink(ino)) {
      assert j == i;
    }
  }

  /** With nothing dirty the new count is gone once the cache is: the next mount finds the old one. */
  lemma LinkLost(g: Geometry, eb: seq<EraseBlock>, d: seq<byte>, l: Log, no: nat)
    requires LogInv(g, eb, d, l) && l.dirty == {} && no in l.table && no < |l.cache| && l.cache[no].Some?
    ensures var rest := Linked(l, no).(cache := seq(g.nino, i => None));
      LogInv(g, eb, d, rest.(table := l.table)) && !LogInv(g, eb, d, rest)
  {
    hide InodeOk, Norm, OccOk, CvalidOk, Same;
    ForgetStep(g, eb, d, l);
    LinkMissing(g, eb, d, l, no);
    var rest := Linked(l, no).(cache := seq(g.nino, i => None));
    assert rest.(table := l.table) == l.(cache := seq(g.nino, i => None));
    assert !Entry(g, eb, rest, no);
  }
}
