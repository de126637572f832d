/** Concrete states that keep every invariant, and in which the inode log or the collection goes wrong. */
module LogLimits {
  import opened Basics
  import opened Layout
  import opened EraseBlk
  import opened Summaries
  import opened IoUnits
  import opened InodeCodec
  import opened InodeLog
  import opened Gc
  import opened MetaData

  /** Six erase blocks of two clusters, four inode numbers. */
  const TINY := Geometry(136, 2, 6, 4, 8, 5, 3, 4)

  const UNUSED := EraseBlock(Empty, 0, 0, 0)

  /** Block 1 is a finished block of directory inodes, of which one cluster is still valid. */
  const USAGE := [EraseBlock(Super, 0, 0, 0), EraseBlock(DentryInode, 0, 1, 2), UNUSED, UNUSED, UNUSED, UNUSED]

  /** Four blocks of directory inodes have been written since the last collection. */
  const WRITES := [GcInfo(DentryInode, 0, 4), GcInfo(FileInode, 0, 0), GcInfo(DentryClin, 0, 0), GcInfo(FileClin, 0, 0)]

  lemma TinySizes()
    ensures TINY.Valid() && TINY.MaxEmb() == 8 && TINY.E() == 272 && TINY.DeviceSize() == 1632
    ensures EbInv(TINY, USAGE) && GcInv(TINY, WRITES) && CountEmpty(USAGE, 6) == 4
  {
    assert CountEmpty(USAGE, 1) == 0;
    assert CountEmpty(USAGE, 2) == 0;
    assert CountEmpty(USAGE, 3) == 1;
    assert CountEmpty(USAGE, 4) == 2;
    assert CountEmpty(USAGE, 5) == 3;
    assert CountEmpty(USAGE, 6) == 4;
  }

  /** An empty directory inode. */
  function Root(): (ino: Inode)
    ensures TINY.Valid() && InodeOk(TINY, ino) && ino.no == 1 && InodeSize(TINY, ino) == 128 && ino.IsDir()
    ensures AllOk(TINY, [ino]) && GroupSize(TINY, [ino]) == 128
  {
    TinySizes();
    var ino := Inode(0, 1, 1, 2, Zeros(8), 4 * 4096, Zeros(96), Zeros(8));
    assert [ino][1..] == [];
    ino
  }

  /** It lives in cluster 2, the first one of block 1. */
  function Device(): (d: seq<byte>)
    ensures TINY.Valid() && |d| == TINY.DeviceSize() && Chunk(d, 136, 2) == Packed(TINY, [Root()])
  {
    TinySizes();
    assert Root().no == 1;
    var d := Zeros(272) + Packed(TINY, [Root()]) + Zeros(1224);
    assert d[2 * 136..2 * 136 + 136] == Packed(TINY, [Root()]);
    d
  }

  function RootLog(): Log {
    Log([RESERVED_CL, 2, FREE_CL, FREE_CL], [0, 0, 1, 0, 0, 0, 0, 0, 0, 0, 0, 0], [None, Some(Root()), None, None], {},
        map[1 := Root()], map[2 := [Root()]])
  }

  lemma SameAsItself(ino: Inode)
    requires TINY.Valid() && InodeOk(TINY, ino)
    ensures Same(TINY, ino, ino)
  {
  }

  lemma RootEntries()
    ensures TINY.Valid() && Shape(TINY, RootLog()) && EntriesOk(TINY, USAGE, RootLog())
  {
    TinySizes();
    hide InodeOk, Norm, Same, EbInv, CountEmpty;
    var l, root := RootLog(), Root();
    SameAsItself(root);
    assert StoredIn(TINY, [root], root);
    assert InodeCluster(TINY, USAGE, 2);
    assert Entry(TINY, USAGE, l, 1) && Entry(TINY, USAGE, l, 2) && Entry(TINY, USAGE, l, 3);
  }

  lemma RootClusters()
    ensures TINY.Valid() && Shape(TINY, RootLog()) && ClustersOk(TINY, Device(), RootLog())
  {
    TinySizes();
    hide InodeOk, EbInv, CountEmpty, Packed, GroupSize;
    var l, root := RootLog(), Root();
    assert GroupOk(TINY, [root]);
    assert ClusterHolds(TINY, Device(), l, 2);
  }

  lemma RootCounts()
    ensures OccOk(RootLog()) && TINY.c > 0 && CvalidOk(TINY, USAGE, RootLog())
  {
    hide InodeOk, EbInv, CountEmpty;
    var l := RootLog();
    assert Clean(l, 2) == {1};
    forall cl: nat | 1 <= cl < |l.occ| && cl != 2 ensures l.occ[cl] == |Clean(l, cl)| { assert Clean(l, cl) == {}; }
    assert Occupied(TINY, l.occ, 1) == {0};
  }

  lemma RootLogInv()
    ensures LogInv(TINY, USAGE, Device(), RootLog())
  {
    hide EbInv, CountEmpty, EntriesOk, ClustersOk, OccOk, CvalidOk, GcInv;
    TinySizes();
    RootEntries();
    RootClusters();
    RootCounts();
  }

  /** Every writer is 0 and both summaries are closed. */
  const NOBODY := seq(6, b => [0, 0])

  const CLOSED := Summary(false, NoRefs(136))

  /** The next run of gc does not come back. */
  lemma GcStuckHere()
    ensures TINY.Valid() && EbInv(TINY, USAGE) && GcInv(TINY, WRITES) && LogInv(TINY, USAGE, Device(), RootLog())
    ensures SumInv(TINY, USAGE, Device(), SummaryCache(CLOSED, CLOSED), NOBODY) && Stuck(TINY, USAGE, WRITES, 0, 1)
  {
    hide LogInv;
    TinySizes();
    RootLogInv();
  }

  /** The same with one more block taken: only the reserve is left. */
  const SCARCE := USAGE[2 := EraseBlock(EbinBlk, 0, 0, 0)]

  lemma ScarceInv()
    ensures EbInv(TINY, SCARCE) && FewEmpty(TINY, SCARCE, 0)
  {
    TinySizes();
    CountEmptyUpdate(USAGE, 6, 2, SCARCE[2]);
    hide CountEmpty;
  }

  /** A collection is due and there is a block to collect, but none to collect into. */
  lemma NoDestination()
    ensures TINY.Valid() && EbInv(TINY, SCARCE) && LogInv(TINY, SCARCE, Device(), RootLog())
    ensures Stuck(TINY, SCARCE, WRITES, 0, 1) && FewEmpty(TINY, SCARCE, 0)
  {
    TinySizes();
    ScarceInv();
    hide EbInv, FewEmpty, LogInv;
    RootLogInv();
    assert Kept(TINY, USAGE, Device(), SCARCE, Device(), {});
    DataStepKeepsLog(TINY, USAGE, Device(), SCARCE, Device(), {}, RootLog());
  }

  /** The directory is changed: it is dirty, but has been written before. Freeing it now spoils the counters. */
  lemma DirtyOnDisk()
    ensures TINY.Valid() && var l := Dirtied(RootLog(), 1, Root());
      && LogInv(TINY, EbDirtied(TINY, USAGE, RootLog(), 1), Device(), l) && StaleOnDisk(l, 1)
      && 1 in l.table && !OccOk(Freed(l, 1))
  {
    TinySizes();
    RootLogInv();
    var l0, l := RootLog(), Dirtied(RootLog(), 1, Root());
    DirtyStep(TINY, USAGE, Device(), l0, 1, Root());
    UnlinkStep(TINY, EbDirtied(TINY, USAGE, l0, 1), Device(), l, 1);
  }

  /** What the unit buffer holds when the cluster of the root has been read into it. */
  function Buffer(): (b: seq<byte>)
    ensures TINY.Valid() && |b| == TINY.E() && b[..136] == Packed(TINY, [Root()]) && NoAt(b, 128) == 1
  {
    TinySizes();
    assert Root().no == 1;
    var b := Packed(TINY, [Root()]) + Zeros(4) + Put32(1) + Zeros(128);
    assert b[..136] == Packed(TINY, [Root()]);
    assert b[140..144] == Put32(1);
    b
  }

  /** Bytes behind the cluster are read as a second inode 1. */
  lemma PhantomRoot()
    ensures TINY.Valid() && var b, l := Buffer(), RootLog();
      && LogInv(TINY, USAGE, Device(), l) && b[..136] == Chunk(Device(), 136, 2)
      && PhantomSeen(TINY, l.inoMap, 2, b)
      && ParseFrom(TINY, l.inoMap, 2, b, 0) != Some(Current(TINY, l.inoMap, 2, [Root()]))
  {
    TinySizes();
    RootLogInv();
    var b, m := Buffer(), RootLog().inoMap;
    assert Phantom(TINY, m, 2, b, 128);
    PackParse(TINY, m, 2, b, [Root()]);
    PhantomIsSeen(TINY, m, 2, b, [Root()]);
  }

  /** Clusters of 4096 bytes and erase blocks of two: with 513 of them the usage records fill more than the block. */
  const LONG := Geometry(4096, 2, 513, 4294967294, 8, 5, 3, 4)

  lemma MkfsCountWraps()
    ensures LONG.Valid() && SizedByMkfs(LONG) && LONG.c + 8 * LONG.blocks > LONG.E() && !MetaFits(LONG)
  {
    assert LONG.E() == 8192 && LONG.DeviceSize() == 4202496;
  }

  // ---------------------------------------------------------- a block that is open and holds nothing

  /** Block 1 has had one cluster written, which is no longer valid. */
  const EMPTIED := [EraseBlock(Super, 0, 0, 0), EraseBlock(FileClin, 0, 0, 1), UNUSED, UNUSED, UNUSED, UNUSED]

  const G3 := Geometry(136, 3, 6, 4, 8, 5, 3, 4)

  /** Inode 7 has written that cluster. */
  const BYSEVEN := seq(6, b => if b == 1 then [7, 0, 0] else [0, 0, 0])

  const SEVENOPEN := SummaryCache(CLOSED, Summary(true, BlockRefs(G3, [7, 0, 0])))

  lemma EmptiedInv()
    ensures G3.Valid() && EbInv(G3, EMPTIED) && OpenAndEmpty(G3, EMPTIED, 1)
  {
    assert CountEmpty(EMPTIED, 1) == 0;
    assert CountEmpty(EMPTIED, 2) == 0;
    assert CountEmpty(EMPTIED, 3) == 1;
    assert CountEmpty(EMPTIED, 4) == 2;
    assert CountEmpty(EMPTIED, 5) == 3;
    assert CountEmpty(EMPTIED, 6) == 4;
  }

  /** Freeing that block leaves its summary open. */
  lemma SummaryLeftOpen(d: seq<byte>)
    requires |d| == G3.DeviceSize()
    ensures G3.Valid() && EbInv(G3, EMPTIED) && OpenAndEmpty(G3, EMPTIED, 1)
    ensures SumInv(G3, EMPTIED, d, SEVENOPEN, BYSEVEN) && !SumInv(G3, AllFreed(EMPTIED), d, SEVENOPEN, BYSEVEN)
  {
    EmptiedInv();
    hide EbInv, AllFreed;
    assert OpenOfType(G3, EMPTIED, FileClin, 1);
    SevenWrote();
    FreeKeepsSummaries(G3, EMPTIED, d, SEVENOPEN, BYSEVEN);
  }

  lemma SevenWrote()
    ensures G3.Valid() && WriterOk(G3, BYSEVEN)
    ensures SumTypeOk(G3, EMPTIED, SEVENOPEN.dentryClin, DentryClin, BYSEVEN)
    ensures SumTypeOk(G3, EMPTIED, SEVENOPEN.inodeClin, FileClin, BYSEVEN)
  {
    hide BlockRefs, NoRefs;
    assert OpenOfType(G3, EMPTIED, FileClin, 1);
  }
}
