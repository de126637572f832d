/** eraseblk.cpp, mount.cpp and mkfs.cpp: the erase block usage and the inode map in the first erase block. */
module MetaData {
  import opened Basics
  import opened Layout

  // ---------------------------------------------------------- one usage record

  function Put16(v: nat): (b: seq<byte>)
    requires v < 65536
    ensures |b| == 2
  {
    [v / 256, v % 256]
  }

  function Get16(d: seq<byte>, off: nat): nat
    requires off + 2 <= |d|
  {
    var hi: int := d[off];
    hi * 256 + d[off + 1]
  }

  function TypeByte(t: EbType): byte {
    match t case Super => 0 case DentryInode => 1 case DentryClin => 2 case FileInode => 4 case FileClin => 8
            case EbinBlk => 0x10 case Empty => 0x20
  }

  /** The type behind a byte that TypeByte has written. */
  function TypeOfByte(b: byte): (t: EbType)
    ensures TypeByte(t) == b || b !in {0, 1, 2, 4, 8, 0x10, 0x20}
  {
    if b == 0 then Super else if b == 1 then DentryInode else if b == 2 then DentryClin else if b == 4 then FileInode
    else if b == 8 then FileClin else if b == 0x10 then EbinBlk else Empty
  }

  /** The three counters are 16-bit fields. */
  predicate Fits16(b: EraseBlock) { b.lastwrite < 65536 && b.cvalid < 65536 && b.writeops < 65536 }

  predicate AllFit16(eb: seq<EraseBlock>) { forall i | 0 <= i < |eb| :: Fits16(eb[i]) }

  /** struct eraseblock */
  function PutBlock(b: EraseBlock): (r: seq<byte>)
    requires Fits16(b)
    ensures |r| == 8
  {
    [TypeByte(b.etype), 0] + Put16(b.lastwrite) + Put16(b.cvalid) + Put16(b.writeops)
  }

  function GetBlock(d: seq<byte>, off: nat): EraseBlock
    requires off + 8 <= |d|
  {
    EraseBlock(TypeOfByte(d[off]), Get16(d, off + 2), Get16(d, off + 4), Get16(d, off + 6))
  }

  lemma GetPutBlock(d: seq<byte>, off: nat, b: EraseBlock)
    requires off + 8 <= |d| && Fits16(b) && d[off..off + 8] == PutBlock(b)
    ensures GetBlock(d, off) == b
  {
    var r := d[off..off + 8];
    assert forall x | 0 <= x < 8 :: d[off + x] == r[x];
  }

  // ---------------------------------------------------------- the two arrays

  function PutUsage(eb: seq<EraseBlock>): (r: seq<byte>)
    requires AllFit16(eb)
    ensures |r| == 8 * |eb|
  {
    seq(8 * |eb|, x requires 0 <= x < 8 * |eb| => PutBlock(eb[x / 8])[x % 8])
  }

  function PutMap(inoMap: seq<nat>): (r: seq<byte>)
    requires forall i | 0 <= i < |inoMap| :: inoMap[i] < U32
    ensures |r| == 4 * |inoMap|
  {
    seq(4 * |inoMap|, x requires 0 <= x < 4 * |inoMap| => Put32(inoMap[x / 4])[x % 4])
  }

  /** read_eb_usage: behind the super block's cluster. */
  function ReadUsage(g: Geometry, d: seq<byte>): (r: seq<EraseBlock>)
    requires g.c + 8 * g.blocks <= |d|
    ensures |r| == g.blocks
  {
    seq(g.blocks, i requires 0 <= i < g.blocks => GetBlock(d, g.c + 8 * i))
  }

  /** read_ino_map: at the end of the first erase block. */
  function ReadMap(g: Geometry, d: seq<byte>): (r: seq<nat>)
    requires 4 * g.nino <= g.E() <= |d|
    ensures |r| == g.nino && forall i | 0 <= i < g.nino :: r[i] == Get32(d, g.E() - 4 * g.nino + 4 * i) && r[i] < U32
  {
    seq(g.nino, i requires 0 <= i < g.nino => Get32(d, g.E() - 4 * g.nino + 4 * i))
  }

  predicate WordMap(g: Geometry, inoMap: seq<nat>)
    { |inoMap| == g.nino && forall i | 0 <= i < |inoMap| :: inoMap[i] < U32 }

  /** write_meta_data: both arrays in one go, right behind the super block's cluster. */
  function WithMeta(g: Geometry, d: seq<byte>, eb: seq<EraseBlock>, inoMap: seq<nat>): (r: seq<byte>)
    requires |eb| == g.blocks && AllFit16(eb) && WordMap(g, inoMap) && g.c + 8 * g.blocks + 4 * g.nino <= |d|
    ensures |r| == |d|
  {
    Patch(d, g.c, PutUsage(eb) + PutMap(inoMap))
  }

  /** What mkfs sees to: the two arrays fill the first erase block to its end. */
  predicate MetaFits(g: Geometry) { g.c + 8 * g.blocks + 4 * g.nino == g.E() }

  /** The usage records are read back as they were. */
  lemma UsageRoundTrip(g: Geometry, d: seq<byte>, eb: seq<EraseBlock>, inoMap: seq<nat>)
    requires |eb| == g.blocks && AllFit16(eb) && WordMap(g, inoMap) && g.c + 8 * g.blocks + 4 * g.nino <= |d|
    ensures ReadUsage(g, WithMeta(g, d, eb, inoMap)) == eb
  {
    hide WithMeta, GetBlock, AllFit16;
    forall i: nat | i < g.blocks ensures ReadUsage(g, WithMeta(g, d, eb, inoMap))[i] == eb[i] {
      UsageEntry(g, d, eb, inoMap, i);
    }
  }

  lemma PatchSlicePart(d: seq<byte>, off: nat, b: seq<byte>, at: nat, n: nat)
    requires off + |b| <= |d| && at + n <= |b|
    ensures Patch(d, off, b)[off + at..off + at + n] == b[at..at + n]
  {
  }

  lemma UsageSlice(eb: seq<EraseBlock>, i: nat)
    requires AllFit16(eb) && i < |eb|
    ensures PutUsage(eb)[8 * i..8 * i + 8] == PutBlock(eb[i])
  {
    hide PutBlock;
    forall x: nat | x < 8 ensures PutUsage(eb)[8 * i + x] == PutBlock(eb[i])[x] {
      assert (8 * i + x) / 8 == i && (8 * i + x) % 8 == x;
    }
  }

  lemma MapSlice(inoMap: seq<nat>, i: nat)
    requires i < |inoMap| && forall j | 0 <= j < |inoMap| :: inoMap[j] < U32
    ensures PutMap(inoMap)[4 * i..4 * i + 4] == Put32(inoMap[i])
  {
    hide Put32;
    forall x: nat | x < 4 ensures PutMap(inoMap)[4 * i + x] == Put32(inoMap[i])[x] {
      assert (4 * i + x) / 4 == i && (4 * i + x) % 4 == x;
    }
  }

  lemma UsageEntry(g: Geometry, d: seq<byte>, eb: seq<EraseBlock>, inoMap: seq<nat>, i: nat)
    requires |eb| == g.blocks && AllFit16(eb) && WordMap(g, inoMap) && g.c + 8 * g.blocks + 4 * g.nino <= |d|
    requires i < g.blocks
    ensures GetBlock(WithMeta(g, d, eb, inoMap), g.c + 8 * i) == eb[i]
  {
    hide PutUsage, PutMap, PutBlock, GetBlock, Patch;
    var d' := WithMeta(g, d, eb, inoMap);
    var off := g.c + 8 * i;
    assert |d'| == |d| && d'[off..off + 8] == PutBlock(eb[i]) by {
      UsageSlice(eb, i);
      var u, m := PutUsage(eb), PutMap(inoMap);
      PatchSlicePart(d, g.c, u + m, 8 * i, 8);
      assert (u + m)[8 * i..8 * i + 8] == u[8 * i..8 * i + 8];
    }
    GetPutBlock(d', off, eb[i]);
  }

  /** Entry i of the map as it lies on disk. */
  lemma MapEntry(g: Geometry, d: seq<byte>, eb: seq<EraseBlock>, inoMap: seq<nat>, i: nat)
    requires |eb| == g.blocks && AllFit16(eb) && WordMap(g, inoMap) && g.c + 8 * g.blocks + 4 * g.nino <= |d|
    requires i < g.nino
    ensures Get32(WithMeta(g, d, eb, inoMap), g.c + 8 * g.blocks + 4 * i) == inoMap[i]
  {
    hide PutUsage, PutMap, Put32, Get32, Patch;
    var d' := WithMeta(g, d, eb, inoMap);
    var off := g.c + 8 * g.blocks + 4 * i;
    assert |d'| == |d| && d'[off..off + 4] == Put32(inoMap[i]) by {
      MapSlice(inoMap, i);
      var u, m := PutUsage(eb), PutMap(inoMap);
      PatchSlicePart(d, g.c, u + m, |u| + 4 * i, 4);
      assert (u + m)[|u| + 4 * i..|u| + 4 * i + 4] == m[4 * i..4 * i + 4];
    }
    Get32At(d', off, inoMap[i]);
  }

  /** So is the map, where it fills the block to its end. */
  lemma MapRoundTrip(g: Geometry, d: seq<byte>, eb: seq<EraseBlock>, inoMap: seq<nat>)
    requires |eb| == g.blocks && AllFit16(eb) && WordMap(g, inoMap) && MetaFits(g) && g.E() <= |d|
    ensures ReadMap(g, WithMeta(g, d, eb, inoMap)) == inoMap
  {
    hide WithMeta, Get32, AllFit16;
    forall i: nat | i < g.nino ensures ReadMap(g, WithMeta(g, d, eb, inoMap))[i] == inoMap[i] {
      MapEntry(g, d, eb, inoMap, i);
    }
  }

  /** Where it ends before, some map is not read back: its first entry is looked for further behind. */
  lemma MapMisplaced(g: Geometry, d: seq<byte>, eb: seq<EraseBlock>) returns (inoMap: seq<nat>)
    requires g.c % 4 == 0 && g.nino >= 1 && |eb| == g.blocks && AllFit16(eb) && g.E() <= |d| && g.E() % 4 == 0
    requires g.c + 8 * g.blocks + 4 * g.nino < g.E()
    ensures WordMap(g, inoMap) && ReadMap(g, WithMeta(g, d, eb, inoMap)) != inoMap
  {
    hide WithMeta, ReadMap, Get32, AllFit16;
    var s := g.E() / 4 - g.nino - g.c / 4 - 2 * g.blocks;
    if s < g.nino {
      inoMap := seq(g.nino, i => if i == 0 then 1 else 0);
      MapShifted(g, d, eb, inoMap, s);
    } else {
      var v := if Get32(d, g.E() - 4 * g.nino) == 0 then 1 else 0;
      inoMap := seq(g.nino, i => v);
      BehindTheMap(g, d, eb, inoMap);
    }
  }

  /** With room for s entries left, reading starts with entry s. */
  lemma MapShifted(g: Geometry, d: seq<byte>, eb: seq<EraseBlock>, inoMap: seq<nat>, s: nat)
    requires |eb| == g.blocks && AllFit16(eb) && WordMap(g, inoMap) && g.E() <= |d| && s < g.nino
    requires g.c + 8 * g.blocks + 4 * g.nino + 4 * s == g.E()
    ensures ReadMap(g, WithMeta(g, d, eb, inoMap))[0] == inoMap[s]
  {
    hide WithMeta, Get32, AllFit16;
    MapEntry(g, d, eb, inoMap, s);
  }

  lemma BehindTheMap(g: Geometry, d: seq<byte>, eb: seq<EraseBlock>, inoMap: seq<nat>)
    requires g.nino >= 1 && |eb| == g.blocks && AllFit16(eb) && WordMap(g, inoMap) && g.E() <= |d|
    requires g.c + 8 * g.blocks + 8 * g.nino <= g.E()
    ensures ReadMap(g, WithMeta(g, d, eb, inoMap))[0] == Get32(d, g.E() - 4 * g.nino)
  {
    var d', off := WithMeta(g, d, eb, inoMap), g.E() - 4 * g.nino;
    assert d'[off] == d[off] && d'[off + 1] == d[off + 1] && d'[off + 2] == d[off + 2] && d'[off + 3] == d[off + 3];
  }

  // ---------------------------------------------------------- mkfs

  /** get_inode_cnt, with its mixture of 32-bit and 64-bit arithmetic. */
  function InodeCnt(ebSize: nat, clSize: nat, ebCnt: nat): nat
    requires clSize <= ebSize < U32 && ebCnt < U32
  {
    (U32 * U32 + (ebSize - clSize) - 8 * ebCnt) % (U32 * U32) / 4 % U32
  }

  /** The number of inodes is the one mkfs has chosen. */
  predicate SizedByMkfs(g: Geometry)
    requires g.Valid()
  {
    FourDivides(g);
    g.nino == InodeCnt(g.E(), g.c, g.blocks)
  }

  /** The count mkfs chooses fills the first erase block exactly if the usage records leave any room in it. */
  lemma MkfsFits(g: Geometry)
    requires g.Valid() && SizedByMkfs(g)
    ensures MetaFits(g) <==> g.c + 8 * g.blocks <= g.E()
  {
    hide InodeCnt;
    FourDivides(g);
    if g.c + 8 * g.blocks <= g.E() {
      CntOfRoom(g.E(), g.c, g.blocks);
      WholeQuarter(g.E(), g.c, g.blocks);
    }
  }

  lemma WholeQuarter(ebSize: nat, clSize: nat, ebCnt: nat)
    requires ebSize % 4 == 0 && clSize % 4 == 0 && clSize + 8 * ebCnt <= ebSize
    ensures (ebSize - clSize - 8 * ebCnt) / 4 * 4 == ebSize - clSize - 8 * ebCnt
  {
  }

  lemma CntOfRoom(ebSize: nat, clSize: nat, ebCnt: nat)
    requires clSize + 8 * ebCnt <= ebSize < U32 && ebCnt < U32
    ensures InodeCnt(ebSize, clSize, ebCnt) == (ebSize - clSize - 8 * ebCnt) / 4
  {
    var room := ebSize - clSize - 8 * ebCnt;
    assert U32 * U32 + (ebSize - clSize) - 8 * ebCnt == U32 * U32 + room;
    WrapAway(room, U32 * U32);
    WrapAway(room / 4, U32);
  }

  lemma WrapAway(x: nat, n: nat)
    requires x < n
    ensures (n + x) % n == x && x % n == x
  {
    DivMod(1, n, x);
    DivMod(0, n, x);
  }

  lemma FourDivides(g: Geometry)
    requires g.Valid()
    ensures g.c <= g.E() < U32 && g.blocks < U32 && g.E() % 4 == 0
  {
    Sizes(g);
    MulMono(1, g.E(), g.blocks);
    ProductOfFour(g.k, g.c);
  }

  lemma ProductOfFour(k: nat, c: nat)
    requires c % 4 == 0
    ensures k * c % 4 == 0
  {
    var q := c / 4;
    assert k * c == k * q * 4 by { assert c == q * 4; }
    MulNonneg(k, q);
    DivMod(k * q, 4, 0);
  }

  // ---------------------------------------------------------- the super block

  const FSID: nat := 0x46465350

  /** struct superblock, as mkfs fills it. */
  function PutSuper(g: Geometry): (r: seq<byte>)
    requires g.c < U32 && g.E() < U32 && g.blocks < U32 && g.nino < U32 && g.ninoopen < U32
    requires g.neraseopen < U32 && g.nerasereserve < U32 && g.nerasewrites < U32
    ensures |r| == 128
  {
    Put32(FSID) + Put32(0) + Put32(g.blocks) + Put32(g.nino) + Put32(g.c) + Put32(g.c) + Put32(g.E())
      + Put32(g.ninoopen) + Put32(g.neraseopen) + Put32(g.nerasereserve) + Put32(g.nerasewrites) + Zeros(84)
  }

  /** read_super; erase blocks come in whole clusters. */
  function GetSuper(d: seq<byte>): Geometry
    requires |d| >= 128 && Get32(d, 20) > 0
  {
    DivBounds(Get32(d, 24), Get32(d, 20));
    Geometry(Get32(d, 20), Get32(d, 24) / Get32(d, 20), Get32(d, 8), Get32(d, 12),
             Get32(d, 28), Get32(d, 32), Get32(d, 36), Get32(d, 40))
  }

  predicate WordSized(g: Geometry) {
    && g.c < U32 && g.E() < U32 && g.blocks < U32 && g.nino < U32 && g.ninoopen < U32
    && g.neraseopen < U32 && g.nerasereserve < U32 && g.nerasewrites < U32
  }

  /** The device starts with this file system's super block. */
  predicate SuperOn(g: Geometry, d: seq<byte>) { WordSized(g) && |d| >= 128 && d[..128] == PutSuper(g) }

  lemma SuperRoundTrip(g: Geometry, d: seq<byte>)
    requires g.c > 0 && SuperOn(g, d)
    ensures Get32(d, 20) > 0 && GetSuper(d) == g
  {
    SuperField(g, d, 8, g.blocks);
    SuperField(g, d, 12, g.nino);
    SuperField(g, d, 20, g.c);
    SuperField(g, d, 24, g.E());
    SuperField(g, d, 28, g.ninoopen);
    SuperField(g, d, 32, g.neraseopen);
    SuperField(g, d, 36, g.nerasereserve);
    SuperField(g, d, 40, g.nerasewrites);
    DivMod(g.k, g.c, 0);
  }

  lemma SuperField(g: Geometry, d: seq<byte>, off: nat, v: nat)
    requires WordSized(g) && |d| >= 128 && d[..128] == PutSuper(g) && off + 4 <= 128 && v < U32
    requires PutSuper(g)[off..off + 4] == Put32(v)
    ensures Get32(d, off) == v
  {
    assert d[off..off + 4] == d[..128][off..off + 4];
    Get32At(d, off, v);
  }
}
