/** mkfs.cpp: the device a freshly formatted file system starts from. */
module Mkfs {
  import opened Basics
  import opened Layout
  import opened EraseBlk
  import opened Summaries
  import opened InodeCodec
  import opened InodeLog
  import opened Volume
  import opened Compaction
  import opened MetaData
  import opened Mount

  /** "." and "..", two directory entries of 256 bytes. */
  const ROOT_SIZE: nat := 512

  function InitialUsage(g: Geometry): (r: seq<EraseBlock>)
    requires g.blocks >= 2
    ensures |r| == g.blocks
  {
    [EraseBlock(Super, 0, 0, 0), EraseBlock(DentryInode, 0, 1, g.k)] + seq(g.blocks - 2,
        i => EraseBlock(Empty, 0, 0, 0))
  }

  /** Number 0 is never used, number 1 is the root directory in the first cluster of block 1. */
  function InitialMap(g: Geometry): (r: seq<nat>)
    requires g.nino >= 2
    ensures |r| == g.nino
  {
    [RESERVED_CL, g.k] + seq(g.nino - 2, i => FREE_CL)
  }

  // ---------------------------------------------------------- the first erase block

  lemma UsageAppend(eb: seq<EraseBlock>, b: EraseBlock)
    requires AllFit16(eb) && Fits16(b)
    ensures AllFit16(eb + [b]) && PutUsage(eb + [b]) == PutUsage(eb) + PutBlock(b)
  {
    var a, c := PutUsage(eb + [b]), PutUsage(eb) + PutBlock(b);
    forall x: nat | x < 8 * |eb| + 8 ensures a[x] == c[x] {
      if x < 8 * |eb| { assert (eb + [b])[x / 8] == eb[x / 8]; } else { assert x / 8 == |eb| && x % 8 == x - 8 * |eb|; }
    }
  }

  lemma MapStart(g: Geometry)
    requires g.nino >= 2 && g.k < U32
    ensures WordMap(g, InitialMap(g))
    ensures PutMap(InitialMap(g)) == Put32(RESERVED_CL) + Put32(g.k) + Zeros(4 * (g.nino - 2))
  {
    var a, c := PutMap(InitialMap(g)), Put32(RESERVED_CL) + Put32(g.k) + Zeros(4 * (g.nino - 2));
    forall x: nat | x < 4 * g.nino ensures a[x] == c[x] {
      if x < 4 { assert x / 4 == 0; } else if x < 8 { assert x / 4 == 1 && x % 4 == x - 4; } else { assert x / 4 >= 2; }
    }
  }

  /** create_super_eb, up to the write: the block is put together from front to back. */
  method SuperEb(g: Geometry) returns (buf: seq<byte>)
    requires g.Valid() && WordSized(g) && g.blocks >= 2 && MetaFits(g)
    ensures |buf| == g.E() && WordMap(g, InitialMap(g)) && AllFit16(InitialUsage(g))
    ensures buf == PutSuper(g) + Zeros(g.c - 128) + PutUsage(InitialUsage(g)) + PutMap(InitialMap(g))
  {
    hide PutSuper, PutUsage, PutMap, PutBlock, WordMap;
    ghost var front := PutSuper(g) + Zeros(g.c - 128);
    ghost var all := InitialUsage(g);
    buf := PutSuper(g);
    buf := buf + Zeros(g.c - |buf|);
    buf := buf + PutBlock(EraseBlock(Super, 0, 0, 0));
    buf := buf + PutBlock(EraseBlock(DentryInode, 0, 1, g.k));
    FirstTwo(g);
    var i: nat := 2;
    while i < g.blocks
      invariant 2 <= i <= g.blocks && AllFit16(all[..i]) && buf == front + PutUsage(all[..i])
    {
      UsageAppend(all[..i], all[i]);
      assert all[..i + 1] == all[..i] + [all[i]];
      buf := buf + PutBlock(EraseBlock(Empty, 0, 0, 0));
      i := i + 1;
    }
    assert all[..i] == all;
    MapStart(g);
    buf := buf + Put32(RESERVED_CL);
    buf := buf + Put32(g.k);
    buf := buf + Zeros(g.E() - |buf|);
  }

  lemma FirstTwo(g: Geometry)
    requires g.Valid() && g.blocks >= 2
    ensures AllFit16(InitialUsage(g)[..2])
    ensures PutUsage(InitialUsage(g)[..2])
          == PutBlock(EraseBlock(Super, 0, 0, 0)) + PutBlock(EraseBlock(DentryInode, 0, 1, g.k))
  {
    var a, b := EraseBlock(Super, 0, 0, 0), EraseBlock(DentryInode, 0, 1, g.k);
    UsageAppend([], a);
    UsageAppend([a], b);
    assert [] + [a] == [a] && [a] + [b] == [a, b] && InitialUsage(g)[..2] == [a, b];
    assert PutUsage([]) == [] && [] + PutBlock(a) == PutBlock(a);
  }

  /** What the first erase block is read as. */
  lemma SuperEbReads(g: Geometry, d0: seq<byte>, buf: seq<byte>)
    requires g.Valid() && WordSized(g) && g.blocks >= 2 && MetaFits(g) && |buf| == g.E() <= |d0|
    requires WordMap(g, InitialMap(g)) && AllFit16(InitialUsage(g))
    requires buf == PutSuper(g) + Zeros(g.c - 128) + PutUsage(InitialUsage(g)) + PutMap(InitialMap(g))
    ensures var d := Patch(d0, 0, buf);
      SuperOn(g, d) && ReadUsage(g, d) == InitialUsage(g) && ReadMap(g, d) == InitialMap(g)
  {
    hide PutSuper, PutUsage, PutMap, ReadUsage, ReadMap, WordMap, AllFit16;
    var d, m := Patch(d0, 0, buf), Patch(d0, 0, PutSuper(g) + Zeros(g.c - 128));
    assert d[..128] == buf[..128] == PutSuper(g);
    assert d == WithMeta(g, m, InitialUsage(g), InitialMap(g));
    UsageRoundTrip(g, m, InitialUsage(g), InitialMap(g));
    MapRoundTrip(g, m, InitialUsage(g), InitialMap(g));
  }

  /** Both arrays and the super block lie in the first erase block. */
  lemma ReadsFirstBlock(g: Geometry, d: seq<byte>, d': seq<byte>)
    requires g.Valid() && MetaFits(g) && g.E() <= |d| == |d'| && d[..g.E()] == d'[..g.E()] && SuperOn(g, d)
    ensures SuperOn(g, d') && ReadUsage(g, d') == ReadUsage(g, d) && ReadMap(g, d') == ReadMap(g, d)
  {
    forall x: nat | x < g.E() ensures d[x] == d'[x] { assert d[..g.E()][x] == d'[..g.E()][x]; }
    assert d[..128] == d'[..128];
  }

  // ---------------------------------------------------------- the second erase block

  /** The root directory's inode. */
  predicate RootOk(g: Geometry, root: Inode)
    requires g.Valid()
  {
    InodeOk(g, root) && root.no == 1 && root.nlink == 2 && root.size == ROOT_SIZE && root.flags == TypeCode(Emb)
  }

  /** The rest of the root directory's cluster. */
  function RootRest(g: Geometry, d: seq<byte>): (r: seq<byte>)
    requires g.Valid() && 640 <= g.c && |d| == g.DeviceSize() && g.blocks >= 2
    ensures |r| == g.c - 640 && g.k * g.c + g.c <= |d| && r == d[g.k * g.c + 640..g.k * g.c + g.c]
  {
    ClInDevice(g, 1, 0);
    d[g.k * g.c + 640..g.k * g.c + g.c]
  }

  lemma RootFits(g: Geometry, root: Inode)
    requires g.Valid() && RootOk(g, root)
    ensures 640 <= g.c
  {
    InodeFitsCluster(g, root);
  }

  /** create_inode_eb writes the inode and its two entries, and leaves the rest of the device as it is. */
  method InodeEb(g: Geometry, disk0: seq<byte>, root: Inode) returns (disk: seq<byte>)
    requires g.Valid() && RootOk(g, root) && |disk0| == g.DeviceSize() && g.blocks >= 2
    ensures |disk| == |disk0| && disk[..g.E()] == disk0[..g.E()]
    ensures g.k * g.c + g.c <= |disk| && 640 <= g.c
    ensures Chunk(disk, g.c, g.k) == Encode(g, root) + RootRest(g, disk0)
  {
    InodeFitsCluster(g, root);
    ClInDevice(g, 1, 0);
    Sizes(g);
    var buf := Header(root);
    buf := buf + root.data[..ROOT_SIZE];
    disk := Patch(disk0, g.E(), buf);
    assert buf == Encode(g, root);
    var a := Chunk(disk, g.c, g.k);
    assert disk[..g.E()] == disk0[..g.E()];
    assert a == buf + RootRest(g, disk0);
  }

  ghost function NoWriters(g: Geometry): seq<seq<nat>> { seq(g.blocks, b => NoRefs(g.k)) }

  lemma {:induction false} CountInitial(g: Geometry, n: nat)
    requires g.blocks >= 2 && 2 <= n <= g.blocks
    ensures CountEmpty(InitialUsage(g), n) == n - 2
  {
    var eb := InitialUsage(g);
    if n == 2 {
      assert CountEmpty(eb, 1) == 0 && eb[1].etype != Empty;
    } else {
      CountInitial(g, n - 1);
    }
  }

  lemma InitialAllocator(g: Geometry, d: seq<byte>)
    requires g.Valid() && g.blocks >= 2 && g.blocks - 2 >= g.nerasereserve && |d| == g.DeviceSize()
    ensures EbInv(g, InitialUsage(g)) && NoneOpen(g, InitialUsage(g))
    ensures SumInv(g, InitialUsage(g), d, ClosedSums(g), NoWriters(g))
  {
    var eb := InitialUsage(g);
    CountInitial(g, g.blocks);
    forall i | 1 <= i < |eb|
      ensures BlockOk(g, eb[i]) && !Open(g, eb[i]) && (Tracked(eb[i].etype) ==> eb[i].etype in GcTypes(g))
    {
    }
    assert OneOpen(g, eb);
    forall t, b: nat | IsClinType(t) ensures !OpenOfType(g, eb, t, b) { }
  }

  lemma InitialVolume(g: Geometry, root: Inode)
    requires g.Valid() && RootOk(g, root) && g.blocks >= 2
    ensures VolumeOk(g, InitialUsage(g), map[1 := root], true)
  {
    var none: map<nat, Inode> := map[];
    var eb := InitialUsage(g);
    assert ClinAll(g, none) == {} && EbinAll(g, none) == {};
    forall b | 1 <= b < |eb| ensures !IsClinType(eb[b].etype) { }
    NewFile(g, eb, none, true, 1, root);
    assert none[1 := root] == map[1 := root];
  }

  lemma InitialLog(g: Geometry, d: seq<byte>, root: Inode)
    requires g.Valid() && RootOk(g, root) && g.blocks >= 2 && |d| == g.DeviceSize() && g.nino < U32
    requires g.k * g.c + g.c <= |d| && GroupSize(g, [root]) <= g.c && Chunk(d, g.c, g.k) == Packed(g, [root])
    ensures LogInv(g, InitialUsage(g), d, RestLog(g, InitialMap(g), map[1 := root], map[g.k := [root]]))
  {
    var eb, l := InitialUsage(g), RestLog(g, InitialMap(g), map[1 := root], map[g.k := [root]]);
    DivMod(1, g.k, 0);
    MulMono(2, g.blocks, g.k);
    ClusterCount(g, g.k);
    assert Same(g, root, root);
    assert StoredIn(g, [root], root) by { assert [root][0] == root; }
    forall no: nat | 1 <= no < g.nino ensures Entry(g, eb, l, no) { }
    forall no: nat | 1 <= no < g.nino && Real(l.inoMap[no]) ensures ClusterHolds(g, d, l, l.inoMap[no]) { }
    forall cl: nat | 1 <= cl < |l.occ| ensures l.occ[cl] == |Clean(l, cl)| {
      ClusterCount(g, cl);
      CleanIsLiving(g, l, cl);
    }
    InitialOccupied(g);
    forall b: nat | 1 <= b < |eb| && IsInodeType(eb[b].etype)
      ensures eb[b].cvalid == |Occupied(g, l.occ, b)|
    {
      assert b == 1;
    }
  }

  lemma InitialOccupied(g: Geometry)
    requires g.Valid() && g.blocks >= 2
    ensures Occupied(g, Recount(InitialMap(g), ClusterCnt(g)), 1) == {0}
  {
    MulMono(2, g.blocks, g.k);
    var occ := Recount(InitialMap(g), ClusterCnt(g));
    forall i: nat | i < g.k ensures Living(InitialMap(g), ClOf(g, 1, i)) == if i == 0 then {1} else {} { }
    forall i: nat | i < g.k ensures occ[ClOf(g, 1, i)] == if i == 0 then 1 else 0 { }
  }

  /**
   * mkfs. The device can be mounted and is a file system with nothing but the root directory exactly if the rest
   * of the root's cluster is blank, because mkfs does not clear it, and the reserve leaves room for the first block.
   */
  method Format(g: Geometry, disk0: seq<byte>, root: Inode) returns (disk: seq<byte>)
    requires g.Valid() && WordSized(g) && RootOk(g, root) && |disk0| == g.DeviceSize() && g.blocks >= 2
    requires SizedByMkfs(g) && g.c + 8 * g.blocks <= g.E()
    ensures |disk| == g.DeviceSize() && g.E() <= |disk| && MetaFits(g) && SuperOn(g, disk)
    ensures ReadUsage(g, disk) == InitialUsage(g) && ReadMap(g, disk) == InitialMap(g)
    ensures 640 <= g.c && (AllZero(RootRest(g, disk0)) && g.blocks - 2 >= g.nerasereserve <==>
      AtRest(g, disk, map[1 := root], map[g.k := [root]], NoWriters(g), true))
  {
    hide ReadUsage, ReadMap, PutUsage, PutMap, PutSuper, SuperOn, EbInv, SumInv, LogInv, VolumeOk, InodeOk, RestLog,
      WordMap, AllFit16;
    MkfsFits(g);
    Sizes(g);
    var buf := SuperEb(g);
    SuperEbReads(g, disk0, buf);
    var disk1 := Patch(disk0, 0, buf);
    disk := InodeEb(g, disk1, root);
    ReadsFirstBlock(g, disk1, disk);
    RootFits(g, root);
    ghost var rest := RootRest(g, disk0);
    assert rest == RootRest(g, disk1) by { MulMono(1, g.k, g.c); }
    if AllZero(rest) && g.blocks - 2 >= g.nerasereserve {
      RootPacked(g, disk, root, rest);
      InitialAllocator(g, disk);
      InitialVolume(g, root);
      InitialLog(g, disk, root);
    }
    if AtRest(g, disk, map[1 := root], map[g.k := [root]], NoWriters(g), true) { RootAlone(g, disk, root, rest); }
  }

  /** A volume at rest whose root cluster holds the root alone has nothing behind it, and its reserve untouched. */
  lemma RootAlone(g: Geometry, d: seq<byte>, root: Inode, rest: seq<byte>)
    requires AtRest(g, d, map[1 := root], map[g.k := [root]], NoWriters(g), true)
    requires RootOk(g, root) && g.blocks >= 2 && ReadUsage(g, d) == InitialUsage(g) && ReadMap(g, d) == InitialMap(g)
    requires g.k * g.c + g.c <= |d| && |rest| == g.c - 640 && Chunk(d, g.c, g.k) == Encode(g, root) + rest
    ensures AllZero(rest) && g.blocks - 2 >= g.nerasereserve
  {
    hide OccOk, CvalidOk, Together, InodeOk, Encode, SumInv;
    var eb, l := InitialUsage(g), RestLog(g, InitialMap(g), map[1 := root], map[g.k := [root]]);
    CountInitial(g, g.blocks);
    MulMono(2, g.blocks, g.k);
    ClusterCount(g, g.k);
    assert Entry(g, eb, l, 1) && ClusterHolds(g, d, l, g.k);
    BehindRoot(g, d, root, rest);
  }

  lemma BehindRoot(g: Geometry, d: seq<byte>, root: Inode, rest: seq<byte>)
    requires g.Valid() && RootOk(g, root) && g.k * g.c + g.c <= |d| && |rest| == g.c - 640
    requires GroupSize(g, [root]) <= g.c && Chunk(d, g.c, g.k) == Encode(g, root) + rest == Packed(g, [root])
    ensures AllZero(rest)
  {
    InodeFitsCluster(g, root);
    assert [root][1..] == [];
    var n := |Encode(g, root)|;
    assert rest == (Encode(g, root) + rest)[n..];
    assert EncodeGroup(g, [root]) == Encode(g, root) + [];
    assert Packed(g, [root])[n..] == Zeros(g.c - n);
  }

  /**
   * What the bytes behind the root may do: a root directory left there by an earlier file system is read after the
   * new one, and is the one that stays in the cache.
   */
  lemma LeftoverWins(g: Geometry, root: Inode, stale: Inode, b: seq<byte>)
    requires g.Valid() && RootOk(g, root) && InodeOk(g, stale) && stale.no == 1 && g.c + INODE_SIZE <= |b|
    requires 640 + InodeSize(g, stale) <= g.c
    requires b[..g.c] == Encode(g, root) + Encode(g, stale) + Zeros(g.c - 640 - InodeSize(g, stale))
    ensures ParseFrom(g, InitialMap(g), g.k, b, 0) == Some([Norm(g, root), Norm(g, stale)])
            <==> !Phantom(g, InitialMap(g), g.k, b, 640 + InodeSize(g, stale))
  {
    hide InodeOk, Encode, InodeSize, Norm, ParseFrom, Phantom, InitialMap;
    RootSize(g, root);
    BothPacked(g, root, stale);
    RootInMap(g);
    PackParse(g, InitialMap(g), g.k, b, [root, stale]);
    CurrentBoth(g, root, stale);
  }

  lemma BothPacked(g: Geometry, root: Inode, stale: Inode)
    requires g.Valid() && InodeOk(g, root) && InodeOk(g, stale) && InodeSize(g, root) + InodeSize(g, stale) <= g.c
    ensures GroupSize(g, [root, stale]) == InodeSize(g, root) + InodeSize(g, stale)
    ensures Packed(g, [root, stale])
         == Encode(g, root) + Encode(g, stale) + Zeros(g.c - InodeSize(g, root) - InodeSize(g, stale))
  {
    hide InodeOk, Encode, InodeSize;
    var both := [root, stale];
    assert both[1..] == [stale] && [stale][1..] == [];
    assert EncodeGroup(g, [stale]) == Encode(g, stale) + [] == Encode(g, stale);
    assert EncodeGroup(g, both) == Encode(g, root) + Encode(g, stale);
  }

  lemma RootSize(g: Geometry, root: Inode)
    requires g.Valid() && RootOk(g, root)
    ensures InodeSize(g, root) == 640
  {
  }

  lemma RootInMap(g: Geometry)
    requires g.Valid()
    ensures !PointsTo(InitialMap(g), 0, g.k) && PointsTo(InitialMap(g), 1, g.k)
  {
  }

  lemma CurrentBoth(g: Geometry, root: Inode, stale: Inode)
    requires g.Valid() && InodeOk(g, root) && InodeOk(g, stale) && root.no == stale.no == 1
    ensures Current(g, InitialMap(g), g.k, [root, stale]) == [Norm(g, root), Norm(g, stale)]
  {
    hide Norm, InodeOk, InitialMap;
    RootInMap(g);
    var m, k, both := InitialMap(g), g.k, [root, stale];
    assert both[0] == root && both[1..] == [stale] && [stale][0] == stale && [stale][1..] == [];
    assert Current(g, m, k, []) == [];
    assert Current(g, m, k, [stale]) == [Norm(g, stale)] + Current(g, m, k, []) == [Norm(g, stale)];
    assert Current(g, m, k, both) == [Norm(g, root)] + Current(g, m, k, [stale]);
  }

  lemma RootPacked(g: Geometry, d: seq<byte>, root: Inode, rest: seq<byte>)
    requires g.Valid() && RootOk(g, root) && g.k * g.c + g.c <= |d| && |rest| == g.c - 640 && AllZero(rest)
    requires Chunk(d, g.c, g.k) == Encode(g, root) + rest
    ensures GroupSize(g, [root]) <= g.c && Chunk(d, g.c, g.k) == Packed(g, [root])
  {
    InodeFitsCluster(g, root);
    AllZeroIsZeros(rest);
    assert [root][1..] == [];
    assert EncodeGroup(g, [root]) == Encode(g, root) + [];
    assert Encode(g, root) + [] == Encode(g, root);
  }
}
