/** The whole file system over its inode table: every file's data, against every operation on one of them. */
module Volume {
  import opened Basics
  import opened Layout
  import opened EraseBlk
  import opened Summaries
  import opened Allocator
  import opened FileData
  import opened IoUnits
  import opened IoConvert
  import opened WriteSpec
  import opened Io
  import opened InodeCodec
  import opened InodeLog
  import opened Inodes

  // ---------------------------------------------------------- what the files of a table hold

  /** The cluster pointers of one inode. */
  function HeldClin(g: Geometry, ino: Inode): set<nat> {
    if g.Valid() && LayoutOk(g, ino) && ino.Type() != Ebin then Nz(Ptrs(g, ino)) else {}
  }

  /** Its erase-block pointers. */
  function HeldEbin(g: Geometry, ino: Inode): set<nat> {
    if g.Valid() && LayoutOk(g, ino) && ino.Type() == Ebin then Nz(Ptrs(g, ino)) else {}
  }

  function ClinAll(g: Geometry, table: map<nat, Inode>): set<nat> {
    set no, p | no in table && p in HeldClin(g, table[no]) :: p
  }

  function EbinAll(g: Geometry, table: map<nat, Inode>): set<nat> {
    set no, p | no in table && p in HeldEbin(g, table[no]) :: p
  }

  /** Every file is laid out properly, and no two files share a pointer. */
  predicate Separate(g: Geometry, table: map<nat, Inode>)
    requires g.Valid()
  {
    && (forall no | no in table :: LayoutOk(g, table[no]) && table[no].no < U32 && Distinct(Ptrs(g, table[no])))
    && forall a, b | a in table && b in table && a != b ::
         HeldClin(g, table[a]) !! HeldClin(g, table[b]) && HeldEbin(g, table[a]) !! HeldEbin(g, table[b])
  }

  /** All data of all files is allocated, counted and unshared. */
  ghost predicate VolumeOk(g: Geometry, eb: seq<EraseBlock>, table: map<nat, Inode>, exact: bool)
    requires g.Valid()
  {
    Separate(g, table) && LiveOk(g, eb, ClinAll(g, table), exact) && EbinLive(eb, EbinAll(g, table))
  }

  lemma AllWithout(g: Geometry, table: map<nat, Inode>, no: nat)
    requires g.Valid() && Separate(g, table) && no in table
    ensures ClinAll(g, table) == ClinAll(g, table - {no}) + HeldClin(g, table[no])
    ensures EbinAll(g, table) == EbinAll(g, table - {no}) + HeldEbin(g, table[no])
    ensures ClinAll(g, table - {no}) !! HeldClin(g, table[no]) && EbinAll(g, table - {no}) !! HeldEbin(g, table[no])
  {
    assert forall a | a in table - {no} :: table[a] == (table - {no})[a];
  }

  /** One file of an orderly volume owns its data, against all the others. */
  lemma FileOfVolume(g: Geometry, eb: seq<EraseBlock>, table: map<nat, Inode>, exact: bool, no: nat)
    requires g.Valid() && VolumeOk(g, eb, table, exact) && no in table
    ensures FileOk(g, eb, table[no], ClinAll(g, table - {no}), EbinAll(g, table - {no}), exact)
  {
    AllWithout(g, table, no);
    var oc, ob := ClinAll(g, table - {no}), EbinAll(g, table - {no});
    assert oc + {} == oc && ob + {} == ob;
    assert Nz([]) == {};
  }

  /** And a file that owns its data against all the others makes an orderly volume with them. */
  lemma VolumeOfFile(g: Geometry, eb: seq<EraseBlock>, table: map<nat, Inode>, exact: bool, no: nat, ino: Inode)
    requires g.Valid() && Separate(g, table)
    requires FileOk(g, eb, ino, ClinAll(g, table - {no}), EbinAll(g, table - {no}), exact)
    ensures VolumeOk(g, eb, table[no := ino], exact)
  {
    var table' := table[no := ino];
    var oc, ob := ClinAll(g, table - {no}), EbinAll(g, table - {no});
    assert table' - {no} == table - {no};
    assert Nz([]) == {};
    forall a, b | a in table' && b in table' && a != b
      ensures HeldClin(g, table'[a]) !! HeldClin(g, table'[b]) && HeldEbin(g, table'[a]) !! HeldEbin(g, table'[b])
    {
      forall m | m in table && m != no ensures HeldClin(g, table[m]) <= oc && HeldEbin(g, table[m]) <= ob {
        assert (table - {no})[m] == table[m];
      }
      assert HeldClin(g, ino) !! oc && HeldEbin(g, ino) !! ob;
    }
    assert Separate(g, table');
    AllWithout(g, table', no);
    assert oc + {} == oc && ob + {} == ob;
  }

  /** Dropping a file leaves the others in order. */
  lemma VolumeWithout(g: Geometry, eb: seq<EraseBlock>, table: map<nat, Inode>, exact: bool, no: nat)
    requires g.Valid() && Separate(g, table)
    requires LiveOk(g, eb, ClinAll(g, table - {no}), exact) && EbinLive(eb, EbinAll(g, table - {no}))
    ensures VolumeOk(g, eb, table - {no}, exact)
  {
    assert forall a | a in table - {no} :: table[a] == (table - {no})[a];
  }

  // ---------------------------------------------------------- the bytes of the other files

  /** The files in `nos` can be read before and after, and hold the same bytes. */
  ghost predicate SameContents(g: Geometry, d0: seq<byte>, d1: seq<byte>, table: map<nat, Inode>, nos: set<nat>)
    requires g.Valid()
  {
    forall m | m in nos && m in table ::
      Readable(g, d0, table[m]) && Readable(g, d1, table[m]) && Content(g, d1, table[m]) == Content(g, d0, table[m])
  }

  /** A step that rewrites in place at most the erase blocks of one file leaves all other files' bytes alone. */
  lemma OthersKept(g: Geometry, eb0: seq<EraseBlock>, d0: seq<byte>, eb1: seq<EraseBlock>, d1: seq<byte>, own: set<nat>,
                   table: map<nat, Inode>, exact: bool, no: nat)
    requires g.Valid() && VolumeOk(g, eb0, table, exact) && Kept(g, eb0, d0, eb1, d1, own)
    requires own == {} || (no in table && own <= HeldEbin(g, table[no]))
    ensures SameContents(g, d0, d1, table, table.Keys - {no})
    ensures own == {} ==> SameContents(g, d0, d1, table, table.Keys)
  {
    if no in table { AllWithout(g, table, no); }
    forall m | m in table && (m != no || own == {})
      ensures Readable(g, d0, table[m]) && Readable(g, d1, table[m])
      ensures Content(g, d1, table[m]) == Content(g, d0, table[m])
    {
      FileOfVolume(g, eb0, table, exact, m);
      if own != {} { assert HeldEbin(g, table[m]) !! HeldEbin(g, table[no]); }
      FileKept(g, eb0, d0, eb1, d1, own, table[m], ClinAll(g, table - {m}), EbinAll(g, table - {m}), exact);
    }
  }

  lemma FileKept(g: Geometry, eb0: seq<EraseBlock>, d0: seq<byte>, eb1: seq<EraseBlock>, d1: seq<byte>, own: set<nat>,
                 ino: Inode, oc: set<nat>, ob: set<nat>, exact: bool)
    requires g.Valid() && Kept(g, eb0, d0, eb1, d1, own) && FileOk(g, eb0, ino, oc, ob, exact)
    requires own !! HeldEbin(g, ino) && forall b | b in own :: b < |eb0| && !IsClinType(eb0[b].etype)
    ensures Readable(g, d0, ino) && Readable(g, d1, ino) && Content(g, d1, ino) == Content(g, d0, ino)
  {
    FileReadable(g, eb0, d0, ino, oc, ob, exact);
    if ino.Type() != Emb {
      var s, ptrs := UnitSize(g, ino.Type()), Ptrs(g, ino);
      UnitsOk(g, ino);
      OwnedUnitsKept(g, eb0, d0, eb1, d1, own, ino.Type(), ptrs, oc, ob, exact);
      forall j | 0 <= j < |ptrs| ensures UnitAt(d1, s, ptrs[j]) == UnitAt(d0, s, ptrs[j]) {
        if ptrs[j] != 0 { assert ptrs[j] in Nz(ptrs); } else { assert UnitAt(d1, s, 0) == UnitAt(d0, s, 0); }
      }
      SameUnitsSameBytes(d0, d1, s, ptrs, ino.size);
    }
  }

  lemma SameUnitsSameBytes(d0: seq<byte>, d1: seq<byte>, s: nat, ptrs: seq<nat>, size: nat)
    requires s > 0 && PtrsIn(d0, s, ptrs) && |d1| == |d0| && size <= |ptrs| * s
    requires forall j | 0 <= j < |ptrs| :: UnitAt(d1, s, ptrs[j]) == UnitAt(d0, s, ptrs[j])
    ensures TableBytes(d1, s, ptrs, size) == TableBytes(d0, s, ptrs, size)
  {
    assert PtrsIn(d1, s, ptrs);
    forall i: nat | i < size ensures TableBytes(d1, s, ptrs, size)[i] == TableBytes(d0, s, ptrs, size)[i] {
      DivBelow(i, |ptrs|, s);
      DivBounds(i, s);
      MulMono(i / s, |ptrs|, s);
      assert ByteAt(d1, s, ptrs, i) == ByteAt(d0, s, ptrs, i);
    }
  }

  // ---------------------------------------------------------- the state of a mounted file system

  /** Everything at once: the allocator, the summaries, all files' data, the inode log and the cache. */
  ghost predicate VolInv(fs: FsContext, exact: bool)
    reads fs
  {
    && StoreInv(fs, ClinAll(fs.g, fs.table), EbinAll(fs.g, fs.table), exact)
    && VolumeOk(fs.g, fs.eb, fs.table, exact)
  }

  /** A cached inode stands for the current one: it holds the same bytes, through the same pointers. */
  lemma SameFile(g: Geometry, a: Inode, b: Inode)
    requires g.Valid() && Same(g, a, b)
    ensures LayoutOk(g, a) && LayoutOk(g, b) && a.Type() == b.Type() && a.size == b.size && a.no == b.no
    ensures Ptrs(g, a) == Ptrs(g, b)
  {
    InodeFitsCluster(g, a);
    InodeFitsCluster(g, b);
    var n := Norm(g, a);
    NormPtrs(g, a);
    NormPtrs(g, b);
  }

  lemma NormPtrs(g: Geometry, ino: Inode)
    requires g.Valid() && InodeOk(g, ino)
    ensures LayoutOk(g, Norm(g, ino)) && Ptrs(g, Norm(g, ino)) == Ptrs(g, ino)
  {
    var d := Zeros(g.DeviceSize());
    var r := Norm(g, ino);
    InodeFitsCluster(g, ino);
    if ino.Type() != Emb {
      UnitsOk(g, ino);
      forall j | 0 <= j < |Ptrs(g, ino)| ensures Ptrs(g, r)[j] == Ptrs(g, ino)[j] {
        assert forall x | 4 * j <= x < 4 * j + 4 :: r.data[x] == ino.data[x];
      }
    }
  }

  lemma SameContent(g: Geometry, d: seq<byte>, a: Inode, b: Inode)
    requires g.Valid() && Same(g, a, b) && Readable(g, d, b)
    ensures Readable(g, d, a) && Content(g, d, a) == Content(g, d, b)
  {
    SameFile(g, a, b);
    NormKeepsContent(g, d, a);
    NormKeepsContent(g, d, b);
  }

  // ---------------------------------------------------------- one file changes

  /** What `write`, `truncate` and unlink find: the cached inode and the bytes it stands for. */
  lemma FileAtHand(fs: FsContext, exact: bool, no: nat)
    requires VolInv(fs, exact) && no in fs.table
    ensures 1 <= no < fs.g.nino && no < |fs.cache|
    ensures fs.cache[no].Some? ==> var ino := fs.cache[no].value;
      && ino.no == no && Same(fs.g, ino, fs.table[no]) && InodeOk(fs.g, ino)
      && FileOk(fs.g, fs.eb, ino, ClinAll(fs.g, fs.table - {no}), EbinAll(fs.g, fs.table - {no}), exact)
      && Readable(fs.g, fs.disk, ino) && Readable(fs.g, fs.disk, fs.table[no])
      && Content(fs.g, fs.disk, ino) == Content(fs.g, fs.disk, fs.table[no])
      && OwnBlocks(fs.g, ino) == HeldEbin(fs.g, fs.table[no])
  {
    hide EbInv, SumInv, GcInv, ClustersOk, Together, OccOk, CvalidOk;
    LogFacts(fs.g, fs.eb, fs.disk, LogOf(fs));
    assert Entry(fs.g, fs.eb, LogOf(fs), no);
    FileOfVolume(fs.g, fs.eb, fs.table, exact, no);
    if fs.cache[no].Some? {
      var ino := fs.cache[no].value;
      SameFile(fs.g, ino, fs.table[no]);
      CoreSizes(fs);
      FileReadable(fs.g, fs.eb, fs.disk, fs.table[no], ClinAll(fs.g, fs.table - {no}), EbinAll(fs.g, fs.table - {no}),
                   exact);
      SameContent(fs.g, fs.disk, ino, fs.table[no]);
    }
  }

  /** The size bound of a file that fits its pointer table. */
  lemma SizeInRange(g: Geometry)
    requires g.Valid()
    ensures g.MaxEbin() < U64
  {
    Sizes(g);
    assert g.MaxPtrs() <= g.c;
    MulMono(g.MaxPtrs(), U32, g.E());
    MulMono(g.E(), U32, U32);
  }

  /** A data operation's result is again an inode every field of which fits its place. */
  lemma ResultOk(g: Geometry, ino0: Inode, ino: Inode)
    requires g.Valid() && InodeOk(g, ino0) && SameIdentity(ino, ino0) && LayoutOk(g, ino)
    ensures InodeOk(g, ino)
  {
    SizeInRange(g);
    DivBounds(ino.flags, 256);
    DivBounds(ino0.flags, 256);
  }

  /** The super block's cluster is left alone. */
  predicate SameSuper(g: Geometry, d0: seq<byte>, d: seq<byte>) {
    |d| == |d0| && g.c <= |d| && d[..g.c] == d0[..g.c]
  }

  lemma SuperStays(g: Geometry, eb0: seq<EraseBlock>, d0: seq<byte>, eb1: seq<EraseBlock>, d1: seq<byte>, own: set<nat>)
    requires g.Valid() && EbInv(g, eb0) && Kept(g, eb0, d0, eb1, d1, own) && 0 !in own
    requires |d0| == |d1| == g.DeviceSize()
    ensures SameSuper(g, d0, d1)
  {
    Sizes(g);
    assert Used(g, eb0, 0, 0);
    assert Cluster(g, d1, 0, 0) == Cluster(g, d0, 0, 0);
  }

  lemma SuperChain(g: Geometry, d0: seq<byte>, d1: seq<byte>, d2: seq<byte>)
    requires SameSuper(g, d0, d1) && SameSuper(g, d1, d2)
    ensures SameSuper(g, d0, d2)
  {
  }

  lemma SuperRefl(g: Geometry, d: seq<byte>)
    requires g.Valid() && |d| == g.DeviceSize()
    ensures SameSuper(g, d, d)
  {
    Sizes(g);
  }

  /** No file has the super block among its own. */
  lemma OwnNotSuper(g: Geometry, eb: seq<EraseBlock>, ino: Inode, oc: set<nat>, ob: set<nat>, exact: bool)
    requires g.Valid() && FileOk(g, eb, ino, oc, ob, exact)
    ensures 0 !in OwnBlocks(g, ino)
  {
  }

  /** The current version of an inode changes in memory, and is marked dirty. */
  method StoreInode(fs: FsContext, ino: Inode, ghost exact: bool)
    requires CoreInv(fs) && LogInv(fs.g, fs.eb, fs.disk, LogOf(fs)) && Separate(fs.g, fs.table)
    requires 1 <= ino.no < fs.g.nino && fs.cache[ino.no].Some? && InodeOk(fs.g, ino)
    requires FileOk(fs.g, fs.eb, ino, ClinAll(fs.g, fs.table - {ino.no}), EbinAll(fs.g, fs.table - {ino.no}), exact)
    modifies fs`cache, fs`table, fs`dirty, fs`occ, fs`eb
    ensures VolInv(fs, exact) && fs.table == old(fs.table)[ino.no := ino]
    ensures fs.cache == old(fs.cache)[ino.no := Some(ino)]
    ensures fs.dirty == old(fs.dirty) + {ino.no}
    ensures SameClin(old(fs.eb), fs.eb)
    ensures fs.g.k > 0 && Marked(fs.g, old(fs.eb), old(LogOf(fs)), ino.no, fs.eb)
  {
    hide SumInv, EbInv, GcInv, LiveOk, EbinLive, EntriesOk, ClustersOk, Together, OccOk, CvalidOk, Kept, Separate,
      InodeOk;
    VolumeOfFile(fs.g, fs.eb, fs.table, exact, ino.no, ino);
    ghost var table := fs.table[ino.no := ino];
    Update(fs, ino, ClinAll(fs.g, table), EbinAll(fs.g, table), exact);
  }

  /** flush_inodes of a mounted file system: every file keeps its bytes. */
  method FlushVolume(fs: FsContext, ghost exact: bool)
    requires VolInv(fs, exact)
    modifies fs
    ensures VolInv(fs, exact) && fs.table == old(fs.table) && fs.cache == old(fs.cache)
    ensures SameContents(fs.g, old(fs.disk), fs.disk, fs.table, fs.table.Keys)
    ensures SameSuper(fs.g, old(fs.disk), fs.disk)
    ensures fs.sums == old(fs.sums)
    ensures Flushed(fs.g, fs.eb, old(fs.inoMap), old(fs.dirty), fs.inoMap, fs.dirty)
    ensures SameClin(old(fs.eb), fs.eb)
    ensures |old(fs.dirty)| < fs.g.ninoopen ==> fs.eb == old(fs.eb) && fs.gc == old(fs.gc)
  {
    hide SameSuper, SumInv, EbInv, GcInv, LiveOk, EbinLive, EntriesOk, ClustersOk, Together, OccOk, CvalidOk, Kept,
      Separate, InodeOk, SameContents, OnlyWritten, NoRoom, SameClin;
    CoreSizes(fs);
    var rc := FlushInodes(fs, false, ClinAll(fs.g, fs.table), EbinAll(fs.g, fs.table), exact);
    OthersKept(fs.g, old(fs.eb), old(fs.disk), fs.eb, fs.disk, {}, fs.table, exact, 0);
    CoreSizes(fs);
    SuperStays(fs.g, old(fs.eb), old(fs.disk), fs.eb, fs.disk, {});
  }

  /**
   * What flush_inodes makes of the marks and map entries it finds: nothing below ninoopen marks; else no mark is
   * left, or the allocator has no room for one kind of inode, and only the entries of inodes written change.
   */
  ghost predicate Flushed(g: Geometry, eb: seq<EraseBlock>, m0: seq<nat>, dirty0: set<nat>, m: seq<nat>,
                          dirty: set<nat>)
  {
    && OnlyWritten(m0, dirty0, m, dirty)
    && (|dirty0| < g.ninoopen ==> dirty == dirty0 && m == m0)
    && (|dirty0| >= g.ninoopen ==> dirty == {} || NoRoom(g, eb, Emb, true) || NoRoom(g, eb, Emb, false))
  }

  /** i_size and the times are updated, the inode is marked dirty, and dirty inodes are written if there are enough. */
  method PutInode(fs: FsContext, ino: Inode, ghost exact: bool)
    requires CoreInv(fs) && LogInv(fs.g, fs.eb, fs.disk, LogOf(fs)) && Separate(fs.g, fs.table)
    requires 1 <= ino.no < fs.g.nino && fs.cache[ino.no].Some? && InodeOk(fs.g, ino)
    requires FileOk(fs.g, fs.eb, ino, ClinAll(fs.g, fs.table - {ino.no}), EbinAll(fs.g, fs.table - {ino.no}), exact)
    modifies fs
    ensures VolInv(fs, exact) && fs.table == old(fs.table)[ino.no := ino]
    ensures fs.cache == old(fs.cache)[ino.no := Some(ino)]
    ensures SameContents(fs.g, old(fs.disk), fs.disk, fs.table, fs.table.Keys)
    ensures SameSuper(fs.g, old(fs.disk), fs.disk)
    ensures Flushed(fs.g, fs.eb, old(fs.inoMap), old(fs.dirty) + {ino.no}, fs.inoMap, fs.dirty)
    ensures SameClin(old(fs.eb), fs.eb)
    ensures fs.g.k > 0 && (|old(fs.dirty) + {ino.no}| < fs.g.ninoopen ==>
      fs.gc == old(fs.gc) && Marked(fs.g, old(fs.eb), old(LogOf(fs)), ino.no, fs.eb))
  {
    hide CoreInv, LogInv, Separate, InodeOk, FileOk, VolInv, SameSuper, SameContents, Flushed, SameClin, Marked;
    ghost var eb0 := fs.eb;
    StoreInode(fs, ino, exact);
    ghost var eb1 := fs.eb;
    FlushVolume(fs, exact);
    SameClinTrans(eb0, eb1, fs.eb);
  }

  /** After a data operation on file no: its new inode is in order, all else is as it was. */
  ghost predicate Changed(g: Geometry, d0: seq<byte>, d: seq<byte>, table0: map<nat, Inode>, table: map<nat, Inode>,
                          no: nat, size: nat)
    requires g.Valid()
  {
    && no in table0 && no in table && table == table0[no := table[no]]
    && table[no].size == size && SameIdentity(table[no], table0[no])
    && Readable(g, d0, table0[no]) && Readable(g, d, table[no])
    && SameContents(g, d0, d, table0, table0.Keys - {no})
  }

  lemma ChangedOthers(g: Geometry, d0: seq<byte>, d: seq<byte>, table0: map<nat, Inode>, table: map<nat, Inode>,
                      no: nat, size: nat)
    requires g.Valid() && Changed(g, d0, d, table0, table, no, size)
    ensures SameContents(g, d0, d, table0, table0.Keys - {no})
  {
  }

  lemma ChangedAll(g: Geometry, d0: seq<byte>, d1: seq<byte>, d2: seq<byte>, table0: map<nat, Inode>, no: nat,
                   ino: Inode)
    requires g.Valid() && no in table0 && Readable(g, d0, table0[no]) && Readable(g, d1, ino)
    requires SameContents(g, d0, d1, table0, table0.Keys - {no})
    requires SameContents(g, d1, d2, table0[no := ino], table0[no := ino].Keys) && SameIdentity(ino, table0[no])
    ensures Changed(g, d0, d2, table0, table0[no := ino], no, ino.size) && Content(g, d2, ino) == Content(g, d1, ino)
  {
    var table := table0[no := ino];
    assert table[no] == ino && table == table0[no := table[no]];
    forall m | m in table0.Keys - {no} && m in table0
      ensures Readable(g, d0, table0[m]) && Readable(g, d2, table0[m])
      ensures Content(g, d2, table0[m]) == Content(g, d0, table0[m])
    {
      assert table[m] == table0[m];
    }
  }

  /** A data operation on one file that has changed its inode from ino0 to ino. */
  method Finish(fs: FsContext, ino0: Inode, ino: Inode, ghost eb0: seq<EraseBlock>, ghost d0: seq<byte>,
                ghost exact: bool)
    requires CoreInv(fs) && |eb0| == fs.g.blocks && LogInv(fs.g, eb0, d0, LogOf(fs))
    requires VolumeOk(fs.g, eb0, fs.table, exact)
    requires ino0.no in fs.table && 1 <= ino0.no < fs.g.nino && fs.cache[ino0.no].Some?
    requires Same(fs.g, ino0, fs.table[ino0.no])
    requires DataStep(fs.g, eb0, d0, fs.eb, fs.disk, HeldEbin(fs.g, fs.table[ino0.no]))
    requires Readable(fs.g, d0, fs.table[ino0.no])
    requires Wrote(fs.g, fs.eb, fs.disk, ino0, ino, ino.size, ClinAll(fs.g, fs.table - {ino0.no}),
        EbinAll(fs.g, fs.table - {ino0.no}), exact)
    modifies fs
    ensures VolInv(fs, exact) && Changed(fs.g, d0, fs.disk, old(fs.table), fs.table, ino0.no, ino.size)
    ensures fs.table[ino0.no] == ino
    ensures fs.cache == old(fs.cache)[ino0.no := Some(ino)]
    ensures Content(fs.g, fs.disk, ino) == Content(fs.g, old(fs.disk), ino) && SameSuper(fs.g, old(fs.disk), fs.disk)
    ensures Flushed(fs.g, fs.eb, old(fs.inoMap), old(fs.dirty) + {ino0.no}, fs.inoMap, fs.dirty)
    ensures SameClin(old(fs.eb), fs.eb)
    ensures fs.g.k > 0 && (|old(fs.dirty) + {ino0.no}| < fs.g.ninoopen ==>
      fs.gc == old(fs.gc) && Marked(fs.g, old(fs.eb), old(LogOf(fs)), ino0.no, fs.eb))
  {
    hide SumInv, EbInv, GcInv, LiveOk, EbinLive, LogInv, Kept, Separate, InodeOk, SameContents, SameInodeBlocks,
      Flushed, SameClin, Marked;
    ghost var no, table0, d1 := ino0.no, fs.table, fs.disk;
    LogFacts(fs.g, eb0, d0, LogOf(fs));
    FinishFacts(fs, ino0, ino, eb0, d0, exact);
    PutInode(fs, ino, exact);
    ChangedAll(fs.g, d0, d1, fs.disk, table0, no, ino);
  }

  lemma NothingHappened(g: Geometry, eb: seq<EraseBlock>, d: seq<byte>, table: map<nat, Inode>, exact: bool, no: nat)
    requires g.Valid() && |eb| == g.blocks && |d| == g.DeviceSize() && VolumeOk(g, eb, table, exact)
    ensures SameContents(g, d, d, table, table.Keys - {no}) && SameSuper(g, d, d)
  {
    StepRefl(g, eb, d);
    OthersKept(g, eb, d, eb, d, {}, table, exact, no);
    SuperRefl(g, d);
  }

  lemma FinishFacts(fs: FsContext, ino0: Inode, ino: Inode, eb0: seq<EraseBlock>, d0: seq<byte>, exact: bool)
    requires CoreInv(fs) && |eb0| == fs.g.blocks && LogInv(fs.g, eb0, d0, LogOf(fs))
    requires VolumeOk(fs.g, eb0, fs.table, exact)
    requires ino0.no in fs.table && Same(fs.g, ino0, fs.table[ino0.no])
    requires DataStep(fs.g, eb0, d0, fs.eb, fs.disk, HeldEbin(fs.g, fs.table[ino0.no]))
    requires LayoutOk(fs.g, ino) && SameIdentity(ino, ino0)
    ensures LogInv(fs.g, fs.eb, fs.disk, LogOf(fs)) && Separate(fs.g, fs.table) && InodeOk(fs.g, ino)
    ensures ino.no == ino0.no
    ensures SameIdentity(ino, fs.table[ino0.no])
    ensures SameContents(fs.g, d0, fs.disk, fs.table, fs.table.Keys - {ino0.no})
  {
    hide SumInv, EbInv, GcInv, LogInv, Kept, Separate, SameContents, SameInodeBlocks;
    var no := ino0.no;
    var own := HeldEbin(fs.g, fs.table[no]);
    forall b | b in own ensures b < |eb0| && eb0[b].etype == EbinBlk { assert b in EbinAll(fs.g, fs.table); }
    DataStepKeepsLog(fs.g, eb0, d0, fs.eb, fs.disk, own, LogOf(fs));
    OthersKept(fs.g, eb0, d0, fs.eb, fs.disk, own, fs.table, exact, no);
    SameIs(fs.g, ino0, fs.table[no]);
    ResultOk(fs.g, ino0, ino);
  }

  lemma SameIs(g: Geometry, a: Inode, b: Inode)
    requires g.Valid() && Same(g, a, b)
    ensures InodeOk(g, a) && SameIdentity(a, b)
  {
    assert Norm(g, a) == Norm(g, b);
  }

  /**
   * All invariants hold for the files other than `no`, and for `no` would if its cached inode were ino0 again: a
   * refused call has changed pointers and the data type in it, and does not change them back.
   */
  ghost predicate OthersInOrder(fs: FsContext, no: nat, ino0: Inode)
    reads fs
  {
    && fs.g.Valid() && no < |fs.cache|
    && DataInv(fs, ClinAll(fs.g, fs.table - {no}), EbinAll(fs.g, fs.table - {no}), false)
    && LogInv(fs.g, fs.eb, fs.disk, LogOf(fs).(cache := fs.cache[no := Some(ino0)]))
  }

  /** A call that ends in the middle leaves the cached inode as far as it has got with it. */
  method Interrupted(fs: FsContext, ino0: Inode, ino: Inode)
    requires ino0.no < |fs.cache| && fs.cache[ino0.no] == Some(ino0)
    modifies fs`cache
    ensures fs.cache == old(fs.cache)[ino0.no := Some(ino)]
    ensures fs.cache[ino0.no := Some(ino0)] == old(fs.cache)
  {
    fs.cache := fs.cache[ino0.no := Some(ino)];
  }

  /**
   * write() on a file whose inode is at hand, up to the gc at its end. On success the file's bytes are the splice of
   * the user's bytes exactly when WriteClean holds; every other file keeps its bytes, and the whole volume stays in
   * order.
   */
  method WriteFile(fs: FsContext, ino: Inode, user: seq<byte>, offset: nat, ghost exact: bool) returns (rc: Rc)
    requires VolInv(fs, exact) && ino.no in fs.table && ino.no < |fs.cache| && fs.cache[ino.no] == Some(ino)
    requires LayoutOk(fs.g, ino) && (exact && ino.Type() == Clin ==> NoFullOverwrite(fs.g, ino, offset, |user|))
    modifies fs
    ensures rc.FBig? <==> SizeAfter(ino, offset, |user|) > fs.g.MaxEbin()
    ensures rc.FBig? || |user| == 0 ==> VolInv(fs, exact) && fs.table == old(fs.table) && fs.disk == old(fs.disk)
    ensures rc.Ok? ==> rc.n == |user|
    ensures rc.Ok? || rc.FBig? || rc.NoSpc? || rc.Stalled? || rc.Astray?
    ensures rc.FBig? || rc.Astray? || |user| == 0 ==> fs.cache == old(fs.cache)
    ensures ino.no < |fs.cache| && fs.cache == old(fs.cache)[ino.no := fs.cache[ino.no]]
    ensures !rc.Ok? ==> fs.table == old(fs.table)
    ensures SameContents(fs.g, old(fs.disk), fs.disk, old(fs.table), old(fs.table).Keys - {ino.no})
    ensures SameSuper(fs.g, old(fs.disk), fs.disk)
    ensures rc.NoSpc? ==> OutOfSpace(fs.g, fs.eb, ino, SizeAfter(ino, offset, |user|)) && OthersInOrder(fs, ino.no, ino)
    ensures rc.Astray? ==> fs.disk == old(fs.disk) && fs.eb == Strayed(old(fs.eb), StrayPtrs(fs.g, ino))
    ensures rc.Stalled? ==> ino.Type() == Clin && SizeAfter(ino, offset, |user|) > fs.g.MaxClin()
    ensures Readable(fs.g, old(fs.disk), ino) && |old(fs.buf)| == fs.g.E()
    ensures rc.Stalled? ==> exists w :: ZeroWindowAt(Content(fs.g, old(fs.disk), ino), fs.g.E(), w)
    ensures rc.Astray? <==>
      |user| > 0 && !rc.FBig? && GoesAstray(fs.g, old(fs.eb), old(fs.disk), ino, SizeAfter(ino, offset, |user|))
    ensures rc.Ok? && |user| > 0 && ino.Type() == Clin && SizeAfter(ino, offset, |user|) > fs.g.MaxClin() ==>
      forall w :: !ZeroWindowAt(Content(fs.g, old(fs.disk), ino), fs.g.E(), w)
    ensures rc.Ok? && |user| > 0 ==>
      && VolInv(fs, exact)
      && Changed(fs.g, old(fs.disk), fs.disk, old(fs.table), fs.table, ino.no, SizeAfter(ino, offset, |user|))
      && fs.cache == old(fs.cache)[ino.no := Some(fs.table[ino.no])]
      && Flushed(fs.g, fs.eb, old(fs.inoMap), old(fs.dirty) + {ino.no}, fs.inoMap, fs.dirty)
      && (Content(fs.g, fs.disk, fs.table[ino.no])
          == Splice(Content(fs.g, old(fs.disk), old(fs.table)[ino.no]), user, offset)
          <==> WriteClean(fs.g, old(fs.disk), old(fs.buf), ino, offset, user))
    ensures rc.Ok? && |user| > 0 && ino.Type() == Emb && TypeFromSize(fs.g, SizeAfter(ino, offset, |user|)) == Emb ==>
      && SameClin(old(fs.eb), fs.eb) && fs.g.k > 0
      && (|old(fs.dirty) + {ino.no}| < fs.g.ninoopen ==>
            fs.gc == old(fs.gc) && Marked(fs.g, old(fs.eb), old(LogOf(fs)), ino.no, fs.eb))
  {
    hide SameSuper, SumInv, EbInv, GcInv, LiveOk, EbinLive, LogInv, Kept, Separate, InodeOk, SameContents,
      SameInodeBlocks, WriteClean, NoFullOverwrite, OwnBlocks, Content, Splice, ZeroWindowAt, Readable, Changed, FileOk,
      Same, OutOfSpace, GoesAstray, Strayed, StrayPtrs, SameClin, Marked, Flushed;
    ghost var no, eb0, d0 := ino.no, fs.eb, fs.disk;
    CoreSizes(fs);
    FileAtHand(fs, exact, no);
    ghost var oc, ob := ClinAll(fs.g, fs.table - {no}), EbinAll(fs.g, fs.table - {no});
    var ino';
    OwnNotSuper(fs.g, fs.eb, ino, oc, ob, exact);
    NothingHappened(fs.g, eb0, d0, fs.table, exact, no);
    rc, ino' := WriteData(fs, ino, user, offset, oc, ob, exact);
    if rc.Astray? { return; }
    CoreSizes(fs);
    SuperStays(fs.g, eb0, d0, fs.eb, fs.disk, OwnBlocks(fs.g, ino));
    ghost var d1 := fs.disk;
    FinishFacts(fs, ino, ino, eb0, d0, exact);
    if rc.NoSpc? || rc.Stalled? { Interrupted(fs, ino, ino'); return; }
    if rc.Ok? && |user| > 0 {
      Finish(fs, ino, ino', eb0, d0, exact);
      SuperChain(fs.g, d0, d1, fs.disk);
      ChangedOthers(fs.g, d0, fs.disk, old(fs.table), fs.table, no, SizeAfter(ino, offset, |user|));
    }
  }

  /** The file leaves its inode, and keeps a piece of its old bytes as a pointer. */
  predicate LeavesStray(g: Geometry, ino: Inode, len: nat)
    requires g.Valid() && LayoutOk(g, ino)
  {
    len <= g.MaxEbin() && ino.Type() == Emb && TypeFromSize(g, len) != Emb && !LastPtrClear(g, ino, len)
  }

  /** That pointer happens to do no harm, as the state before the call decides. */
  ghost predicate StrayHarmless(g: Geometry, eb: seq<EraseBlock>, d: seq<byte>, table: map<nat, Inode>, ino: Inode,
                                len: nat, exact: bool)
    requires g.Valid() && LayoutOk(g, ino) && LeavesStray(g, ino, len)
  {
    if TypeFromSize(g, len) == Ebin then StrayZeros(g, eb, d, ino, len, EbinAll(g, table - {ino.no}))
    else !exact && StrayCounted(g, eb, d, ino, len, ClinAll(g, table - {ino.no}))
  }

  /**
   * truncate() on a file whose inode is at hand, up to the gc at its end. On success the file is cut off or
   * zero-filled, exactly unless GrowClean fails for a file that grows; every other file keeps its bytes.
   */
  method TruncateFile(fs: FsContext, ino: Inode, len: nat, ghost exact: bool) returns (rc: Rc)
    requires VolInv(fs, exact) && ino.no in fs.table && ino.no < |fs.cache| && fs.cache[ino.no] == Some(ino)
    modifies fs
    ensures LayoutOk(fs.g, ino) && Readable(fs.g, old(fs.disk), ino)
    ensures rc.FBig? <==> len > fs.g.MaxEbin()
    ensures rc.OutOfTable? <==> ino.Type() == Ebin && TypeFromSize(fs.g, len) == Clin
    ensures rc.FBig? || rc.OutOfTable? || len == ino.size ==>
      VolInv(fs, exact) && fs.table == old(fs.table) && fs.disk == old(fs.disk)
    ensures rc.Stalled? ==> ino.Type() == Clin && len > fs.g.MaxClin()
    ensures rc.Stalled? ==> exists w :: ZeroWindowAt(Content(fs.g, old(fs.disk), ino), fs.g.E(), w)
    ensures rc.Ok? && ino.Type() == Clin && len > fs.g.MaxClin() ==>
      forall w :: !ZeroWindowAt(Content(fs.g, old(fs.disk), ino), fs.g.E(), w)
    ensures rc.Ok? || rc.FBig? || rc.OutOfTable? || rc.NoSpc? || rc.Stalled? || rc.Astray?
    ensures !rc.Ok? ==> fs.table == old(fs.table)
    ensures rc.FBig? || rc.Astray? || rc.OutOfTable? ==> fs.cache == old(fs.cache)
    ensures rc.NoSpc? ==> ino.no < |fs.cache| && fs.cache == old(fs.cache)[ino.no := fs.cache[ino.no]]
    ensures rc.Astray? <==> !rc.FBig? && GoesAstray(fs.g, old(fs.eb), old(fs.disk), ino, len)
    ensures rc.Astray? ==> fs.disk == old(fs.disk) && fs.eb == Strayed(old(fs.eb), StrayPtrs(fs.g, ino))
    ensures SameSuper(fs.g, old(fs.disk), fs.disk)
    ensures rc.NoSpc? ==> OutOfSpace(fs.g, fs.eb, ino, len) && OthersInOrder(fs, ino.no, ino)
    ensures SameContents(fs.g, old(fs.disk), fs.disk, old(fs.table), old(fs.table).Keys - {ino.no})
    ensures rc.Ok? && len != ino.size && !LeavesStray(fs.g, ino, len) ==>
      && VolInv(fs, exact)
      && Changed(fs.g, old(fs.disk), fs.disk, old(fs.table), fs.table, ino.no, len)
      && (Content(fs.g, fs.disk, fs.table[ino.no]) == Resized(Content(fs.g, old(fs.disk), old(fs.table)[ino.no]), len)
          <==> (len >= ino.size ==> GrowClean(fs.g, old(fs.disk), ino, len)))
    ensures (rc.Ok? && len != ino.size && LeavesStray(fs.g, ino, len)
             && StrayHarmless(fs.g, old(fs.eb), old(fs.disk), old(fs.table), ino, len, exact)) ==>
      && VolInv(fs, exact)
      && Changed(fs.g, old(fs.disk), fs.disk, old(fs.table), fs.table, ino.no, len)
      && Content(fs.g, fs.disk, fs.table[ino.no]) == Resized(Content(fs.g, old(fs.disk), old(fs.table)[ino.no]), len)
  {
    hide SameSuper, SumInv, EbInv, GcInv, LiveOk, EbinLive, LogInv, Kept, Separate, InodeOk, SameContents,
      SameInodeBlocks, OwnBlocks, Content, Resized, ZeroWindowAt, Readable, FileOk, Same, GapClean, LastPtrClear,
      OutOfSpace, GoesAstray, Strayed, StrayPtrs, StrayZeros, StrayCounted;
    ghost var no, eb0, d0 := ino.no, fs.eb, fs.disk;
    CoreSizes(fs);
    FileAtHand(fs, exact, no);
    ReadableLayout(fs.g, fs.disk, ino);
    ghost var oc, ob := ClinAll(fs.g, fs.table - {no}), EbinAll(fs.g, fs.table - {no});
    var ino';
    OwnNotSuper(fs.g, fs.eb, ino, oc, ob, exact);
    NothingHappened(fs.g, eb0, d0, fs.table, exact, no);
    rc, ino' := TruncData(fs, ino, len, oc, ob, exact);
    if rc.Astray? { return; }
    CoreSizes(fs);
    SuperStays(fs.g, eb0, d0, fs.eb, fs.disk, OwnBlocks(fs.g, ino));
    ghost var d1 := fs.disk;
    FinishFacts(fs, ino, ino, eb0, d0, exact);
    if rc.NoSpc? || rc.Stalled? { Interrupted(fs, ino, ino'); return; }
    if rc.Ok? && len != ino.size {
      if LeavesStray(fs.g, ino, len) {
        PutStray(fs, ino, ino', eb0, d0, exact);
      } else {
        Finish(fs, ino, ino', eb0, d0, exact);
      }
      SuperChain(fs.g, d0, d1, fs.disk);
    }
  }

  /**
   * The same for an inode that has kept bytes of its old data as a pointer: nothing is promised for it, but for all
   * others.
   */
  method PutStray(fs: FsContext, ino0: Inode, ino: Inode, ghost eb0: seq<EraseBlock>, ghost d0: seq<byte>,
                  ghost exact: bool)
    requires CoreInv(fs) && |eb0| == fs.g.blocks && LogInv(fs.g, eb0, d0, LogOf(fs))
    requires VolumeOk(fs.g, eb0, fs.table, exact)
    requires ino0.no in fs.table && 1 <= ino0.no < fs.g.nino && fs.cache[ino0.no].Some?
    requires Same(fs.g, ino0, fs.table[ino0.no])
    requires DataStep(fs.g, eb0, d0, fs.eb, fs.disk, HeldEbin(fs.g, fs.table[ino0.no]))
    requires LayoutOk(fs.g, ino) && SameIdentity(ino, ino0)
    requires LiveOk(fs.g, fs.eb, ClinAll(fs.g, fs.table - {ino0.no}), false)
    requires EbinLive(fs.eb, EbinAll(fs.g, fs.table - {ino0.no}))
    modifies fs
    ensures StoreInv(fs, ClinAll(fs.g, fs.table - {ino0.no}), EbinAll(fs.g, fs.table - {ino0.no}), false)
    ensures fs.table == old(fs.table)[ino0.no := ino]
    ensures SameContents(fs.g, d0, fs.disk, old(fs.table), old(fs.table).Keys - {ino0.no})
    ensures SameSuper(fs.g, old(fs.disk), fs.disk)
    ensures old(Wrote(fs.g, fs.eb, fs.disk, ino0, ino, ino.size, ClinAll(fs.g, fs.table - {ino0.no}),
                      EbinAll(fs.g, fs.table - {ino0.no}), exact)) ==>
      VolInv(fs, exact) && Readable(fs.g, fs.disk, ino)
      && Readable(fs.g, old(fs.disk), ino) && Content(fs.g, fs.disk, ino) == Content(fs.g, old(fs.disk), ino)
  {
    hide SumInv, EbInv, GcInv, LiveOk, EbinLive, LogInv, Kept, Separate, InodeOk, SameContents, SameInodeBlocks,
      SameSuper, Content, FileOk;
    ghost var no, table0 := ino0.no, fs.table;
    LogFacts(fs.g, eb0, d0, LogOf(fs));
    FinishFacts(fs, ino0, ino, eb0, d0, exact);
    ghost var eb1, d1, table1 := fs.eb, fs.disk, table0[no := ino];
    ghost var good := Wrote(fs.g, eb1, d1, ino0, ino, ino.size, ClinAll(fs.g, table0 - {no}),
                            EbinAll(fs.g, table0 - {no}), exact);
    ghost var mine := StrayOrGood(fs.g, eb1, table0, ino, no, exact, good);
    Update(fs, ino, ClinAll(fs.g, mine), EbinAll(fs.g, mine), good && exact);
    assert fs.table - {no} == table0 - {no};
    ghost var eb2 := fs.eb;
    var rc := FlushInodes(fs, false, ClinAll(fs.g, mine), EbinAll(fs.g, mine), good && exact);
    KeptTrans(fs.g, eb1, d1, eb2, d1, fs.eb, fs.disk, {}, {});
    CoreSizes(fs);
    SuperStays(fs.g, eb2, d1, fs.eb, fs.disk, {});
    OthersKept(fs.g, eb1, d1, fs.eb, fs.disk, {}, mine, good && exact, 0);
    if good { GoodStray(fs, d1, table0, ino, no, exact); }
    SameFewer(fs.g, d1, fs.disk, mine, table0 - {no});
    ContentsTrans(fs.g, d0, d1, fs.disk, table0, no);
  }

  /** The inodes whose data is in order: all of them with the new one, or all but that. */
  lemma StrayOrGood(g: Geometry, eb: seq<EraseBlock>, table: map<nat, Inode>, ino: Inode, no: nat, exact: bool,
                    good: bool) returns (mine: map<nat, Inode>)
    requires g.Valid() && Separate(g, table)
    requires LiveOk(g, eb, ClinAll(g, table - {no}), false) && EbinLive(eb, EbinAll(g, table - {no}))
    requires good ==> FileOk(g, eb, ino, ClinAll(g, table - {no}), EbinAll(g, table - {no}), exact)
    ensures mine == if good then table[no := ino] else table - {no}
    ensures VolumeOk(g, eb, mine, good && exact)
  {
    if good {
      VolumeOfFile(g, eb, table, exact, no, ino);
      return table[no := ino];
    }
    VolumeWithout(g, eb, table, false, no);
    return table - {no};
  }

  lemma GoodStray(fs: FsContext, d1: seq<byte>, table0: map<nat, Inode>, ino: Inode, no: nat, exact: bool)
    requires fs.g.Valid() && fs.table == table0[no := ino] && no == ino.no
    requires StoreInv(fs, ClinAll(fs.g, fs.table), EbinAll(fs.g, fs.table), exact) && Separate(fs.g, fs.table)
    requires SameContents(fs.g, d1, fs.disk, fs.table, fs.table.Keys)
    ensures VolInv(fs, exact) && StoreInv(fs, ClinAll(fs.g, table0 - {no}), EbinAll(fs.g, table0 - {no}), false)
    ensures Readable(fs.g, d1, ino) && Readable(fs.g, fs.disk, ino)
    ensures Content(fs.g, fs.disk, ino) == Content(fs.g, d1, ino)
  {
    assert fs.table[no] == ino && table0[no := ino] - {no} == table0 - {no};
    AllWithout(fs.g, fs.table, no);
    LiveSubset(fs.g, fs.eb, ClinAll(fs.g, fs.table), ClinAll(fs.g, fs.table - {no}), exact);
  }

  lemma SameFewer(g: Geometry, d1: seq<byte>, d2: seq<byte>, more: map<nat, Inode>, fewer: map<nat, Inode>)
    requires g.Valid() && SameContents(g, d1, d2, more, more.Keys)
    requires forall m | m in fewer :: m in more && more[m] == fewer[m]
    ensures SameContents(g, d1, d2, fewer, fewer.Keys)
  {
    hide Content, Readable;
  }

  lemma ContentsTrans(g: Geometry, d0: seq<byte>, d1: seq<byte>, d2: seq<byte>, table: map<nat, Inode>, no: nat)
    requires g.Valid() && SameContents(g, d0, d1, table, table.Keys - {no})
    requires SameContents(g, d1, d2, table - {no}, (table - {no}).Keys)
    ensures SameContents(g, d0, d2, table, table.Keys - {no})
  {
    forall m | m in table.Keys - {no} && m in table
      ensures Readable(g, d0, table[m]) && Readable(g, d2, table[m])
      ensures Content(g, d2, table[m]) == Content(g, d0, table[m])
    {
      assert (table - {no})[m] == table[m];
    }
  }

  lemma ReadableLayout(g: Geometry, d: seq<byte>, ino: Inode)
    requires g.Valid() && Readable(g, d, ino)
    ensures LayoutOk(g, ino)
  {
  }

  /**
   * unlink and rmdir of the last reference to a file. Its data is released, all other files keep theirs, and
   * the volume is in order afterwards unless the inode was both dirty and on disk, where the log's occupancy
   * counter has been decremented twice; then the call is cut short here.
   */
  method UnlinkFile(fs: FsContext, no: nat, ghost exact: bool) returns (sound: bool)
    requires VolInv(fs, exact) && no in fs.table && no < |fs.cache| && fs.cache[no].Some?
    modifies fs
    ensures no < |old(fs.inoMap)| && (sound <==> !StaleOnDisk(old(LogOf(fs)), no))
    ensures SameSuper(fs.g, old(fs.disk), fs.disk)
    ensures SameContents(fs.g, old(fs.disk), fs.disk, old(fs.table), old(fs.table).Keys - {no})
    ensures fs.table == old(fs.table) - {no} && VolumeOk(fs.g, fs.eb, fs.table, exact)
    ensures sound <==> VolInv(fs, exact)
    ensures fs.sums == old(fs.sums)
    ensures sound <==> LogInv(fs.g, fs.eb, fs.disk, LogOf(fs))
  {
    hide SameSuper, SumInv, EbInv, GcInv, LiveOk, EbinLive, LogInv, Kept, Separate, InodeOk, SameContents,
      SameInodeBlocks, OwnBlocks, FileOk, Same;
    ghost var table0: map<nat, Inode> := fs.table;
    ghost var eb0, d0 := fs.eb, fs.disk;
    CoreSizes(fs);
    FileAtHand(fs, exact, no);
    LogFacts(fs.g, fs.eb, fs.disk, LogOf(fs));
    sound := !(no in fs.dirty && fs.inoMap[no] != RESERVED_CL);
    ghost var oc, ob := ClinAll(fs.g, table0 - {no}), EbinAll(fs.g, table0 - {no});
    FreeInode(fs, no, oc, ob, exact);
    OthersKept(fs.g, eb0, d0, fs.eb, fs.disk, HeldEbin(fs.g, table0[no]), table0, exact, no);
    VolumeWithout(fs.g, fs.eb, table0, exact, no);
    SuperRefl(fs.g, fs.disk);
    if sound {
      ghost var eb1, d1 := fs.eb, fs.disk;
      var rc := FlushInodes(fs, false, oc, ob, exact);
      OthersKept(fs.g, eb1, d1, fs.eb, fs.disk, {}, fs.table, exact, 0);
      ContentsTrans(fs.g, d0, d1, fs.disk, table0, no);
      CoreSizes(fs);
      SuperStays(fs.g, eb1, d1, fs.eb, fs.disk, {});
    }
  }

  /** create, from the reservation of the number on. */
  method AddInode(fs: FsContext, ino: Inode, ghost exact: bool)
    requires VolInv(fs, exact) && InodeOk(fs.g, ino) && ino.Type() == Emb
    requires 1 <= ino.no < fs.g.nino && ino.no !in fs.table
    modifies fs
    ensures VolInv(fs, exact) && SameContents(fs.g, old(fs.disk), fs.disk, old(fs.table), old(fs.table).Keys)
    ensures SameSuper(fs.g, old(fs.disk), fs.disk)
    ensures fs.table == old(fs.table)[ino.no := ino] && fs.cache == old(fs.cache)[ino.no := Some(ino)]
    ensures fs.sums == old(fs.sums)
  {
    hide SameSuper, SumInv, EbInv, GcInv, LiveOk, EbinLive, ClustersOk, Together, OccOk, CvalidOk, Kept, SameContents;
    ghost var table0: map<nat, Inode> := fs.table;
    ghost var eb0, d0 := fs.eb, fs.disk;
    CoreSizes(fs);
    assert Entry(fs.g, fs.eb, LogOf(fs), ino.no);
    NewFile(fs.g, fs.eb, fs.table, exact, ino.no, ino);
    ghost var live, blocks := ClinAll(fs.g, fs.table), EbinAll(fs.g, fs.table);
    CreateInode(fs, ino, live, blocks, exact);
    var rc := FlushInodes(fs, false, live, blocks, exact);
    OthersKept(fs.g, eb0, d0, fs.eb, fs.disk, {}, table0, exact, 0);
    NewFile(fs.g, fs.eb, table0, exact, ino.no, ino);
    CoreSizes(fs);
    SuperStays(fs.g, eb0, d0, fs.eb, fs.disk, {});
  }

  /** find_free_inode_no of a mounted file system. */
  method FreeNumber(fs: FsContext, ghost exact: bool) returns (no: nat)
    requires VolInv(fs, exact)
    ensures no == 0 ==> forall i | 1 <= i < fs.g.nino :: i in fs.table
    ensures no != 0 ==> no < fs.g.nino && no !in fs.table && forall i | 1 <= i < no :: i in fs.table
  {
    hide SumInv, EbInv, GcInv, LiveOk, EbinLive, ClustersOk, Together, OccOk, CvalidOk, Kept, InodeOk;
    no := FindFreeInodeNo(fs);
    forall i | 1 <= i < fs.g.nino ensures i in fs.table <==> fs.inoMap[i] != FREE_CL {
      assert Entry(fs.g, fs.eb, LogOf(fs), i);
    }
  }

  /** create: a new inode with embedded data under the lowest free number. */
  method CreateFile(fs: FsContext, template: Inode, ghost exact: bool) returns (no: nat)
    requires VolInv(fs, exact) && InodeOk(fs.g, template) && template.Type() == Emb
    modifies fs
    ensures VolInv(fs, exact) && SameContents(fs.g, old(fs.disk), fs.disk, old(fs.table), old(fs.table).Keys)
    ensures SameSuper(fs.g, old(fs.disk), fs.disk)
    ensures no == 0 ==> fs.table == old(fs.table) && forall i | 1 <= i < fs.g.nino :: i in fs.table
    ensures no != 0 ==> no !in old(fs.table) && fs.table == old(fs.table)[no := template.(no := no)]
    ensures no != 0 ==> no < fs.g.nino && forall i | 1 <= i < no :: i in old(fs.table)
  {
    hide SameSuper, SumInv, EbInv, GcInv, LiveOk, EbinLive, EntriesOk, ClustersOk, Together, OccOk, CvalidOk, Kept,
      Separate, InodeOk, SameContents;
    CoreSizes(fs);
    NothingHappened(fs.g, fs.eb, fs.disk, fs.table, exact, 0);
    StepRefl(fs.g, fs.eb, fs.disk);
    OthersKept(fs.g, fs.eb, fs.disk, fs.eb, fs.disk, {}, fs.table, exact, 0);
    no := FreeNumber(fs, exact);
    if no == 0 { return; }
    NumberFits(fs.g, template, no);
    AddInode(fs, template.(no := no), exact);
  }

  lemma NumberFits(g: Geometry, ino: Inode, no: nat)
    requires g.Valid() && InodeOk(g, ino) && no < U32
    ensures InodeOk(g, ino.(no := no)) && ino.(no := no).Type() == ino.Type()
  {
    assert ino.(no := no).Type() == ino.Type();
  }

  /** A file inside its inode adds no pointers. */
  lemma NewFile(g: Geometry, eb: seq<EraseBlock>, table: map<nat, Inode>, exact: bool, no: nat, ino: Inode)
    requires g.Valid() && Separate(g, table) && no !in table && LayoutOk(g, ino) && ino.Type() == Emb && ino.no < U32
    requires LiveOk(g, eb, ClinAll(g, table), exact) && EbinLive(eb, EbinAll(g, table))
    ensures ClinAll(g, table[no := ino]) == ClinAll(g, table) && EbinAll(g, table[no := ino]) == EbinAll(g, table)
    ensures VolumeOk(g, eb, table[no := ino], exact)
  {
    assert table - {no} == table;
    EmbOwned(g, eb, ClinAll(g, table), EbinAll(g, table), exact);
    VolumeOfFile(g, eb, table, exact, no, ino);
    AllWithout(g, table[no := ino], no);
    assert table[no := ino] - {no} == table;
    assert Nz([]) == {};
  }
}
