/** The on-disk and in-memory entities: geometry, erase blocks, inodes and the file-system context. */
module Layout {
  import opened Basics

  // --------------------------------------------------------------- geometry

  const INODE_SIZE: nat := 128
  const RESERVED_CL: nat := 0xffff_ffff
  const FREE_CL: nat := 0
  const INVALID_EB: nat := 0

  /** The parameters of the super block; `c` is the cluster size and `k` the clusters per erase block. */
  datatype Geometry = Geometry(
    c: nat, k: nat, blocks: nat, nino: nat,
    ninoopen: nat, neraseopen: nat, nerasereserve: nat, nerasewrites: nat)
  {
    /** fs.erasesize */
    function E(): nat { k * c }

    /** Room behind the inode header: embedded bytes, and pointers at four bytes each. */
    function MaxEmb(): nat requires Valid() { c - INODE_SIZE }

    function MaxPtrs(): nat requires Valid() { MaxEmb() / 4 }

    function MaxClin(): nat requires Valid() { MaxPtrs() * c }

    function MaxEbin(): nat requires Valid() { MaxPtrs() * E() }

    function DeviceSize(): nat { blocks * E() }

    predicate Valid() {
      && c % 4 == 0 && INODE_SIZE < c
      && 2 <= k <= 65535 && k - 1 <= c / 4
      && 1 <= blocks
      && DeviceSize() < U32
      && 2 <= nino
      && 1 <= ninoopen
      && 3 <= neraseopen <= 5
      && 1 <= nerasewrites
    }
  }

  /** cl_id * clustersize / erasesize, as the source computes an erase block from a cluster. */
  function EbOf(g: Geometry, cl: nat): (eb: nat)
    requires g.c > 0 && g.k > 0
    ensures eb == cl / g.k
    ensures eb * g.k <= cl < eb * g.k + g.k
  {
    EbOfCluster(g, cl);
    cl * g.c / g.E()
  }

  lemma EbOfCluster(g: Geometry, cl: nat)
    requires g.c > 0 && g.k > 0
    ensures g.E() > 0
    ensures cl * g.c / g.E() == cl / g.k
    ensures cl / g.k * g.k <= cl < cl / g.k * g.k + g.k
  {
    MulGe(g.k, g.c);
    DivBounds(cl, g.k);
    var q, r := cl / g.k, cl % g.k;
    assert cl * g.c == q * g.E() + r * g.c by {
      assert (q * g.k + r) * g.c == q * g.k * g.c + r * g.c;
      assert q * g.k * g.c == q * (g.k * g.c);
    }
    MulMono(r, g.k, g.c);
    DivMod(q, g.E(), r * g.c);
  }

  /** eb_id * erasesize / clustersize + idx, the cluster with index `idx` of erase block `eb`. */
  function ClOf(g: Geometry, eb: nat, idx: nat): (cl: nat)
    requires g.c > 0
    ensures cl == eb * g.k + idx
  {
    assert eb * g.E() == eb * g.k * g.c;
    DivMod(eb * g.k, g.c, 0);
    eb * g.E() / g.c + idx
  }

  lemma ClOfSplit(g: Geometry, eb: nat, idx: nat)
    requires g.c > 0 && idx < g.k
    ensures ClOf(g, eb, idx) / g.k == eb && ClOf(g, eb, idx) % g.k == idx
  {
    DivMod(eb, g.k, idx);
  }

  /** A cluster of a block lies inside the bytes of that block. */
  lemma ClusterInBlock(g: Geometry, cl: nat)
    requires g.c > 0 && g.k > 0
    ensures cl / g.k * g.E() <= cl * g.c
    ensures cl * g.c + g.c <= cl / g.k * g.E() + g.E()
    ensures cl / g.k < g.blocks ==> cl * g.c + g.c <= g.DeviceSize()
  {
    DivBounds(cl, g.k);
    var q := cl / g.k;
    assert q * g.E() == q * g.k * g.c;
    MulMono(q * g.k, cl, g.c);
    MulMono(cl, q * g.k + g.k, g.c);
    assert (q * g.k + g.k) * g.c == q * g.k * g.c + g.k * g.c;
    if q < g.blocks { MulMono(q, g.blocks, g.E()); }
  }

  lemma BlockInDevice(g: Geometry, eb: nat)
    requires eb < g.blocks
    ensures eb * g.E() + g.E() <= g.DeviceSize()
  {
    MulMono(eb, g.blocks, g.E());
  }

  // ----------------------------------------------------------- erase blocks

  datatype EbType = Super | DentryInode | DentryClin | FileInode | FileClin | EbinBlk | Empty

  predicate IsInodeType(t: EbType) { t == DentryInode || t == FileInode }

  predicate IsClinType(t: EbType) { t == DentryClin || t == FileClin }

  predicate Tracked(t: EbType) { IsInodeType(t) || IsClinType(t) }

  datatype EraseBlock = EraseBlock(etype: EbType, lastwrite: nat, cvalid: nat, writeops: nat)

  datatype GcInfo = GcInfo(etype: EbType, time: nat, cnt: nat)

  /** An erase block summary: the inode that wrote each cluster of the open block. */
  datatype Summary = Summary(open: bool, refs: seq<nat>)

  datatype SummaryCache = SummaryCache(dentryClin: Summary, inodeClin: Summary)

  // ----------------------------------------------------------------- inodes

  datatype DataType = Emb | Clin | Ebin | Other

  function TypeCode(t: DataType): (v: nat)
    ensures v < 256
  {
    match t case Emb => 1 case Clin => 2 case Ebin => 4 case Other => 0
  }

  /** The low eight bits of i_flags carry the data type. */
  function TypeOfFlags(flags: nat): (t: DataType)
    ensures t != Other ==> flags % 256 == TypeCode(t)
  {
    if flags % 256 == 1 then Emb else if flags % 256 == 2 then Clin else if flags % 256 == 4 then Ebin else Other
  }

  /** All flags but the data type agree. */
  predicate SameHigh(a: nat, b: nat) { a / 256 == b / 256 }

  /** (flags & ~old) | new for a flags word whose low byte is exactly `old`. */
  function SwapType(flags: nat, source: DataType, target: DataType): (r: nat)
    requires TypeOfFlags(flags) == source && source != Other && target != Other
    ensures TypeOfFlags(r) == target && SameHigh(r, flags)
  {
    flags - TypeCode(source) + TypeCode(target)
  }

  /**
   * An inode with the cluster-sized allocation behind it. `data` is the section behind the header;
   * embedded bytes and 32-bit pointers overlay each other in it.
   */
  datatype Inode = Inode(size: nat, flags: nat, no: nat, nlink: nat, owner: seq<byte>, mode: nat,
                         tail: seq<byte>, data: seq<byte>)
  {
    function Type(): DataType { TypeOfFlags(flags) }

    /** S_ISDIR(i_mode) */
    predicate IsDir() { mode / 4096 % 16 == 4 }
  }

  function Table(d: seq<byte>): (t: seq<nat>)
    ensures |t| == |d| / 4
    ensures forall i | 0 <= i < |t| :: t[i] == Get32(d, 4 * i)
  {
    seq(|d| / 4, i requires 0 <= i < |d| / 4 => Get32(d, 4 * i))
  }

  function SetPtr(d: seq<byte>, i: nat, v: nat): (r: seq<byte>)
    requires i < |d| / 4 && v < U32
    ensures |r| == |d|
    ensures Table(r) == Table(d)[i := v]
  {
    var r := Patch(d, 4 * i, Put32(v));
    assert r[4 * i .. 4 * i + 4] == Put32(v);
    Get32At(r, 4 * i, v);
    r
  }

  /** Number of indirect units a file of `size` bytes occupies. */
  function Units(size: nat, s: nat): (n: nat)
    requires s > 0
    ensures size <= n * s
    ensures size > 0 ==> n > 0 && (n - 1) * s < size
    ensures size == 0 ==> n == 0
  {
    if size == 0 then 0 else
      DivBounds(size - 1, s);
      assert ((size - 1) / s + 1) * s == (size - 1) / s * s + s;
      (size - 1) / s + 1
  }

  lemma UnitsFit(size: nat, s: nat, n: nat)
    requires s > 0 && size <= n * s
    ensures Units(size, s) <= n
  {
    if size > 0 { DivBelow(size - 1, n, s); }
  }

  lemma UnitsMono(a: nat, b: nat, s: nat)
    requires s > 0 && a <= b
    ensures Units(a, s) <= Units(b, s)
  {
    UnitsFit(a, s, Units(b, s));
  }

  function UnitSize(g: Geometry, t: DataType): nat { if t == Ebin then g.E() else g.c }

  function TypeFromSize(g: Geometry, size: nat): DataType
    requires g.Valid()
  {
    if size > g.MaxClin() then Ebin else if size > g.MaxEmb() then Clin else Emb
  }

  lemma Sizes(g: Geometry)
    requires g.Valid()
    ensures 0 < g.MaxEmb() < g.c < g.E() && 1 <= g.MaxPtrs()
    ensures g.MaxEmb() < g.MaxClin() < g.MaxEbin()
    ensures 4 * g.MaxPtrs() == g.MaxEmb()
    ensures g.E() <= g.DeviceSize()
  {
    MulMono(2, g.k, g.c);
    MulGe(g.MaxPtrs(), g.c);
    MulLess(g.MaxPtrs(), g.c, g.E());
    MulGe(g.blocks, g.E());
  }

  // ---------------------------------------------------------------- context

  /** struct fs_context; `table` and `groups` are the abstract view the inode log is checked against. */
  class FsContext {
    const g: Geometry
    var disk: seq<byte>
    var eb: seq<EraseBlock>
    var inoMap: seq<nat>
    var occ: seq<int>
    var cache: seq<Option<Inode>>
    var dirty: set<nat>
    var gc: seq<GcInfo>
    var sums: SummaryCache
    var buf: seq<byte>
    ghost var writer: seq<seq<nat>>
    ghost var table: map<nat, Inode>
    ghost var groups: map<nat, seq<Inode>>

    constructor (g: Geometry, disk: seq<byte>)
      ensures this.g == g && this.disk == disk
    {
      this.g := g;
      this.disk := disk;
      eb, inoMap, occ, cache, dirty, gc, buf := [], [], [], [], {}, [], [];
      sums := SummaryCache(Summary(false, []), Summary(false, []));
      writer, table, groups := [], map[], map[];
    }
  }
}
