/**
 * inode.cpp: create, link, unlink and rmdir over the bytes of directory files and the inodes of the table, each
 * against the operation on names that it stands for.
 */
module Directories {
  import opened Basics
  import opened Layout
  import opened FileData
  import opened EraseBlk
  import opened Summaries
  import opened IoUnits
  import opened IoRead
  import opened IoConvert
  import opened WriteSpec
  import opened Io
  import opened InodeCodec
  import opened InodeLog
  import opened Inodes
  import opened Volume
  import opened Gc
  import opened Mount
  import opened Dentries
  import Links

  // ---------------------------------------------------------- the names a file system holds

  /** One inode, as far as names are concerned. */
  ghost function NodeOf(g: Geometry, d: seq<byte>, ino: Inode): Links.Node
    requires g.Valid() && Readable(g, d, ino)
  {
    if ino.IsDir() then Links.Dir(ino.nlink, DentriesOf(Content(g, d, ino))) else Links.File(ino.nlink)
  }

  /** All inode numbers. */
  ghost function NamesOf(g: Geometry, d: seq<byte>, table: map<nat, Inode>): (nodes: seq<Links.Node>)
    requires g.Valid()
    ensures |nodes| == g.nino
  {
    seq(g.nino, no requires 0 <= no < g.nino =>
      if no in table && Readable(g, d, table[no]) then NodeOf(g, d, table[no]) else Links.Free)
  }

  /** Every directory is a whole number of records. */
  predicate WholeDirs(table: map<nat, Inode>) {
    forall no | no in table && table[no].IsDir() :: table[no].size % DENTRY == 0
  }

  ghost predicate DirInv(fs: FsContext)
    reads fs
  {
    VolInv(fs, false) && WholeDirs(fs.table)
  }

  /** An inode that a lookup has brought into the cache. */
  ghost predicate AtHand(fs: FsContext, no: nat)
    reads fs
  {
    no in fs.table && no < |fs.cache| && fs.cache[no].Some?
  }

  lemma HandFacts(fs: FsContext, no: nat)
    requires DirInv(fs) && no in fs.table
    ensures fs.g.Valid() && 1 <= no < fs.g.nino == |fs.cache| && Readable(fs.g, fs.disk, fs.table[no])
    ensures fs.table[no].no == no && NamesOf(fs.g, fs.disk, fs.table)[no] == NodeOf(fs.g, fs.disk, fs.table[no])
    ensures fs.table[no].nlink < U32 && (fs.table[no].IsDir() ==> fs.table[no].size % DENTRY == 0)
    ensures fs.cache[no].Some? ==> var ino := fs.cache[no].value;
      && ino.no == no && SameIdentity(ino, fs.table[no]) && ino.size == fs.table[no].size && LayoutOk(fs.g, ino)
      && Readable(fs.g, fs.disk, ino) && Content(fs.g, fs.disk, ino) == Content(fs.g, fs.disk, fs.table[no])
  {
    FileAtHand(fs, false, no);
    LogFacts(fs.g, fs.eb, fs.disk, LogOf(fs));
    assert Entry(fs.g, fs.eb, LogOf(fs), no);
    AllReadable(fs, no);
    if fs.cache[no].Some? {
      SameIs(fs.g, fs.cache[no].value, fs.table[no]);
      SameFile(fs.g, fs.cache[no].value, fs.table[no]);
    }
  }

  lemma AllReadable(fs: FsContext, no: nat)
    requires VolInv(fs, false) && no in fs.table
    ensures Readable(fs.g, fs.disk, fs.table[no])
  {
    NothingHappened(fs.g, fs.eb, fs.disk, fs.table, false, fs.g.nino);
    LogFacts(fs.g, fs.eb, fs.disk, LogOf(fs));
  }

  /** One file changes, all others keep their bytes: one node changes. */
  lemma OneNodeChanged(g: Geometry, d0: seq<byte>, d: seq<byte>, table0: map<nat, Inode>, table: map<nat, Inode>,
                       no: nat)
    requires g.Valid() && no < g.nino && no in table && table == table0[no := table[no]]
    requires SameContents(g, d0, d, table0, table0.Keys - {no}) && Readable(g, d, table[no])
    ensures NamesOf(g, d, table) == NamesOf(g, d0, table0)[no := NodeOf(g, d, table[no])]
  {
    hide Content, Readable;
  }

  lemma NoNodeChanged(g: Geometry, d0: seq<byte>, d: seq<byte>, table: map<nat, Inode>)
    requires g.Valid() && SameContents(g, d0, d, table, table.Keys)
    ensures NamesOf(g, d, table) == NamesOf(g, d0, table)
  {
    hide Content, Readable;
  }

  lemma OneNodeGone(g: Geometry, d0: seq<byte>, d: seq<byte>, table0: map<nat, Inode>, no: nat)
    requires g.Valid() && no < g.nino && SameContents(g, d0, d, table0, table0.Keys - {no})
    ensures NamesOf(g, d, table0 - {no}) == NamesOf(g, d0, table0)[no := Links.Free]
  {
    hide Content, Readable;
  }

  /** The names a mounted file system holds. */
  ghost function Names(fs: FsContext): (nodes: seq<Links.Node>)
    requires fs.g.Valid()
    reads fs
    ensures |nodes| == fs.g.nino
  {
    NamesOf(fs.g, fs.disk, fs.table)
  }

  /** The inodes are the same ones, all but those two unchanged. */
  predicate OnlyThese(table0: map<nat, Inode>, table: map<nat, Inode>, a: nat, b: nat) {
    table.Keys == table0.Keys && forall m | m in table && m != a && m != b :: table[m] == table0[m]
  }

  /**
   * Every file that is there before and after, other than p, has the same bytes, and the super block is as it was; no
   * file has number 0.
   */
  ghost predicate FilesKept(g: Geometry, d0: seq<byte>, table0: map<nat, Inode>, d: seq<byte>, table: map<nat, Inode>,
                            p: nat)
    requires g.Valid()
  {
    && SameSuper(g, d0, d)
    && forall m | m in table0 && m in table && m != p ::
         && Readable(g, d0, table0[m]) && Readable(g, d, table[m])
         && Content(g, d, table[m]) == Content(g, d0, table0[m])
  }

  lemma FilesTrans(g: Geometry, d0: seq<byte>, table0: map<nat, Inode>, d1: seq<byte>, table1: map<nat, Inode>,
                   d: seq<byte>, table: map<nat, Inode>, p: nat, q: nat)
    requires g.Valid() && FilesKept(g, d0, table0, d1, table1, p) && FilesKept(g, d1, table1, d, table, q)
    requires forall m | m in table0 && m in table :: m in table1
    requires q == p || q !in table1
    ensures FilesKept(g, d0, table0, d, table, p)
  {
    hide Content, Readable;
    SuperChain(g, d0, d1, d);
  }

  lemma FilesOf(g: Geometry, d0: seq<byte>, table0: map<nat, Inode>, d: seq<byte>, table: map<nat, Inode>, p: nat)
    requires g.Valid() && SameContents(g, d0, d, table0, table0.Keys - {p}) && SameSuper(g, d0, d)
    requires forall m | m in table0 && m in table && m != p :: table[m] == table0[m]
    ensures FilesKept(g, d0, table0, d, table, p)
  {
    hide Content, Readable;
  }

  lemma FilesRefl(fs: FsContext, p: nat)
    requires VolInv(fs, false)
    ensures FilesKept(fs.g, fs.disk, fs.table, fs.disk, fs.table, p)
  {
    CoreSizes(fs);
    NothingHappened(fs.g, fs.eb, fs.disk, fs.table, false, p);
    FilesOf(fs.g, fs.disk, fs.table, fs.disk, fs.table, p);
  }

  lemma NoZero(fs: FsContext)
    requires DirInv(fs)
    ensures 0 !in fs.table && fs.table.Keys - {0} == fs.table.Keys
  {
    LogFacts(fs.g, fs.eb, fs.disk, LogOf(fs));
  }

  // ---------------------------------------------------------- link counts

  lemma LinksOnly(g: Geometry, eb: seq<EraseBlock>, d: seq<byte>, ino: Inode, n: nat, oc: set<nat>, ob: set<nat>)
    requires g.Valid() && InodeOk(g, ino) && n < U32 && FileOk(g, eb, ino, oc, ob, false) && Readable(g, d, ino)
    ensures var r := ino.(nlink := n);
      && InodeOk(g, r) && FileOk(g, eb, r, oc, ob, false) && Readable(g, d, r) && r.IsDir() == ino.IsDir()
      && NodeOf(g, d, r) == NodeOf(g, d, ino).(nlink := n) && Content(g, d, r) == Content(g, d, ino)
  {
    var r := ino.(nlink := n);
    assert Ptrs(g, r) == Ptrs(g, ino);
  }

  lemma LinksFiles(g: Geometry, d: seq<byte>, table0: map<nat, Inode>, table: map<nat, Inode>, no: nat)
    requires g.Valid() && no in table0 && no in table && table == table0[no := table[no]]
    requires SameContents(g, d, d, table0, table0.Keys - {no}) && SameSuper(g, d, d)
    requires Readable(g, d, table0[no]) && Readable(g, d, table[no])
    requires Content(g, d, table[no]) == Content(g, d, table0[no])
    ensures FilesKept(g, d, table0, d, table, 0)
  {
    hide Content, Readable;
  }

  /** i_nlink of a cached inode is set, and the inode marked dirty. */
  method SetLinks(fs: FsContext, no: nat, n: nat)
    requires DirInv(fs) && AtHand(fs, no) && n < U32
    modifies fs`cache, fs`table, fs`dirty, fs`occ, fs`eb
    ensures DirInv(fs) && OnlyThese(old(fs.table), fs.table, no, no) && AtHand(fs, no)
    ensures no in old(fs.table) && fs.table[no].IsDir() == old(fs.table)[no].IsDir()
    ensures no < fs.g.nino && fs.cache == old(fs.cache)[no := fs.cache[no]]
    ensures old(Names(fs))[no] != Links.Free && Names(fs) == old(Names(fs))[no := old(Names(fs))[no].(nlink := n)]
    ensures FilesKept(fs.g, fs.disk, old(fs.table), fs.disk, fs.table, 0) && fs.dirty == old(fs.dirty) + {no}
  {
    hide SumInv, EbInv, GcInv, LiveOk, EbinLive, EntriesOk, ClustersOk, Together, OccOk, CvalidOk, Separate, InodeOk,
      FileOk, Readable, Content, SameClin, Marked;
    HandFacts(fs, no);
    FileAtHand(fs, false, no);
    var ino := fs.cache[no].value;
    LinksOnly(fs.g, fs.eb, fs.disk, ino, n, ClinAll(fs.g, fs.table - {no}), EbinAll(fs.g, fs.table - {no}));
    ghost var table0 := fs.table;
    NothingHappened(fs.g, fs.eb, fs.disk, fs.table, false, no);
    StoreInode(fs, ino.(nlink := n), false);
    OneNodeChanged(fs.g, fs.disk, fs.disk, table0, fs.table, no);
    assert NodeOf(fs.g, fs.disk, ino) == NodeOf(fs.g, fs.disk, table0[no]);
    LinksFiles(fs.g, fs.disk, table0, fs.table, no);
  }

  // ---------------------------------------------------------- the entries of a directory

  lemma DiskSize(fs: FsContext)
    requires VolInv(fs, false)
    ensures |fs.disk| == fs.g.DeviceSize() && |fs.buf| == fs.g.E()
  {
  }

  /** Writing a directory again from `off` on never meets what write_clin and write_ebin leave behind. */
  lemma AppendIsClean(g: Geometry, d: seq<byte>, buf: seq<byte>, ino: Inode, user: seq<byte>, off: nat)
    requires g.Valid() && Readable(g, d, ino) && |buf| == g.E() && |user| > 0 && off + |user| <= g.MaxEbin()
    requires off <= ino.size <= off + |user|
    ensures WriteClean(g, d, buf, ino, off, user)
    ensures off == ino.size ==> Splice(Content(g, d, ino), user, off) == Content(g, d, ino) + user
    ensures off == 0 ==> Splice(Content(g, d, ino), user, off) == user
  {
    hide Content;
    WriteCleanSufficient(g, d, buf, ino, off, user);
  }

  // ---------------------------------------------------------- the gc at the end of a write

  /** The state an operation starts from. */
  datatype Before = Before(eb: seq<EraseBlock>, gc: seq<GcInfo>, disk: seq<byte>, log: Log)

  ghost function Snap(fs: FsContext): Before
    reads fs
  {
    Before(fs.eb, fs.gc, fs.disk, LogOf(fs))
  }

  /** What the write of a directory hands to its gc: usage records, gc counters, inode map and marks. */
  datatype Mid = Mid(eb: seq<EraseBlock>, gc: seq<GcInfo>, inoMap: seq<nat>, dirty: set<nat>)

  /** How an operation ends. Endless is a gc that never returns. */
  datatype Outcome = Done | NoEntry | NotEmpty | Full | Failed(rc: Rc) | Endless

  /** A directory that does not leave its inode. */
  predicate StaysSmall(g: Geometry, ino: Inode, size: nat)
    requires g.Valid()
  {
    ino.Type() == Emb && TypeFromSize(g, size) == Emb
  }

  /**
   * How that follows from the state before: directory p is marked, and the marks are flushed if there are enough;
   * and a directory that stays in its inode changes no cluster-indirect block, and without a flush nothing but the
   * counter of the cluster its inode was in.
   */
  ghost predicate WriteLeft(g: Geometry, b: Before, p: nat, small: bool, mid: Mid)
    requires g.Valid()
  {
    && EbInv(g, mid.eb) && Flushed(g, mid.eb, b.log.inoMap, b.log.dirty + {p}, mid.inoMap, mid.dirty)
    && (small ==> SameClin(b.eb, mid.eb))
    && (small && |b.log.dirty + {p}| < g.ninoopen ==> mid.gc == b.gc && Marked(g, b.eb, b.log, p, mid.eb))
  }

  ghost predicate Spins(g: Geometry, eb: seq<EraseBlock>, gc: seq<GcInfo>) {
    exists i: nat, b: nat :: Stuck(g, eb, gc, i, b)
  }

  /** No cluster-indirect block is open without holding anything valid, so gc leaves no summary without its block. */
  ghost predicate NoneLeft(g: Geometry, eb: seq<EraseBlock>) { forall b: nat :: !OpenAndEmpty(g, eb, b) }

  /** The summaries, or some of them closed. */
  predicate ShutFrom(g: Geometry, whole: SummaryCache, shut: SummaryCache) {
    var closed := Summary(false, NoRefs(g.c));
    && (shut.dentryClin == whole.dentryClin || shut.dentryClin == closed)
    && (shut.inodeClin == whole.inodeClin || shut.inodeClin == closed)
  }

  predicate HasOpen(g: Geometry, eb: seq<EraseBlock>, t: EbType) {
    exists b | 0 <= b < |eb| :: OpenOfType(g, eb, t, b)
  }

  /** The summaries that have their block. */
  function WithBlock(g: Geometry, eb: seq<EraseBlock>, sums: SummaryCache): (r: SummaryCache)
    ensures r == Pruned(g, eb, sums) && ShutFrom(g, sums, r)
  {
    var closed := Summary(false, NoRefs(g.c));
    assert forall t | IsClinType(t) :: HasOpen(g, eb, t) <==> exists b: nat :: OpenOfType(g, eb, t, b);
    SummaryCache(if HasOpen(g, eb, DentryClin) then sums.dentryClin else closed,
                 if HasOpen(g, eb, FileClin) then sums.inodeClin else closed)
  }

  /**
   * gc, as it is called at the end of a write. It may leave a summary open whose block it has freed. Such a
   * summary is put aside until the end of the operation: marking, writing and freeing inodes neither reads nor
   * changes the summaries.
   */
  method Tidy(fs: FsContext) returns (stuck: bool, aside: SummaryCache)
    requires DirInv(fs)
    modifies fs`buf, fs`gc, fs`eb, fs`sums
    ensures DirInv(fs) && aside == old(fs.sums)
    ensures stuck <==> Spins(fs.g, old(fs.eb), old(fs.gc))
    ensures stuck ==> fs.eb == old(fs.eb) && Spins(fs.g, fs.eb, fs.gc) && fs.sums == aside
    ensures !stuck ==> fs.eb == AllFreed(old(fs.eb)) && ShutFrom(fs.g, aside, fs.sums)
    ensures !stuck ==> (fs.sums == aside <==> NoneLeft(fs.g, old(fs.eb)))
  {
    hide EbInv, SumInv, GcInv, LiveOk, EbinLive, LogInv, Separate, Stuck, Pruned;
    CoreSizes(fs);
    GcFacts(fs, false);
    FreePrunes(fs.g, fs.eb, fs.disk, fs.sums, fs.writer);
    aside := fs.sums;
    var rc := RunGc(fs);
    stuck := !rc.Ok?;
    if !stuck {
      if SumInv(fs.g, fs.eb, fs.disk, aside, fs.writer) { NothingPruned(fs.g, fs.eb, fs.disk, aside, fs.writer); }
      fs.sums := WithBlock(fs.g, fs.eb, aside);
    }
  }

  /** Everything is in order but for summaries that are open without a block. */
  ghost predicate Orderly(fs: FsContext)
    reads fs
  {
    && fs.g.Valid() && Closing(fs, ClinAll(fs.g, fs.table), EbinAll(fs.g, fs.table), false)
    && VolumeOk(fs.g, fs.eb, fs.table, false) && WholeDirs(fs.table)
  }

  lemma ShutPruned(g: Geometry, eb: seq<EraseBlock>, d: seq<byte>, whole: SummaryCache, shut: SummaryCache,
                   writer: seq<seq<nat>>)
    requires g.Valid() && SumInv(g, eb, d, shut, writer) && ShutFrom(g, whole, shut)
    ensures Pruned(g, eb, whole) == shut
    ensures SumInv(g, eb, d, whole, writer) ==> whole == shut
  {
    assert SumTypeOk(g, eb, shut.dentryClin, DentryClin, writer) && SumTypeOk(g, eb, shut.inodeClin, FileClin, writer);
  }

  /** The end of an operation: the summaries are again what gc has left. */
  method PutBack(fs: FsContext, aside: SummaryCache, sound: bool) returns (ok: bool)
    requires if sound then DirInv(fs) && ShutFrom(fs.g, aside, fs.sums)
             else !LogInv(fs.g, fs.eb, fs.disk, LogOf(fs))
    modifies fs`sums
    ensures fs.sums == aside && (ok <==> sound && old(fs.sums) == aside) && (sound ==> Orderly(fs))
    ensures if ok then DirInv(fs) else !VolInv(fs, false)
  {
    hide EbInv, SumInv, GcInv, LiveOk, EbinLive, LogInv, Separate, Pruned, VolumeOk;
    if sound { ShutPruned(fs.g, fs.eb, fs.disk, aside, fs.sums, fs.writer); }
    ok := sound && fs.sums == aside;
    fs.sums := aside;
  }

  // ---------------------------------------------------------- writing a directory

  /** Why a write of inode ino0 up to `size` is refused, or never ends. */
  ghost predicate Refusal(g: Geometry, b: Before, ino0: Inode, size: nat, eb: seq<EraseBlock>, rc: Rc)
    requires g.Valid()
  {
    && Readable(g, b.disk, ino0) && (rc.FBig? <==> size > g.MaxEbin())
    && (rc.Astray? <==> size <= g.MaxEbin() && GoesAstray(g, b.eb, b.disk, ino0, size))
    && match rc
       case FBig => true
       case Astray => true
       case NoSpc => OutOfSpace(g, eb, ino0, size)
       case Stalled =>
         ino0.Type() == Clin && size > g.MaxClin() && exists w :: ZeroWindowAt(Content(g, b.disk, ino0), g.E(), w)
       case _ => false
  }

  /** What can be said before of one that is not. */
  ghost predicate Accepted(g: Geometry, b: Before, ino0: Inode, size: nat)
    requires g.Valid()
  {
    && Readable(g, b.disk, ino0) && size <= g.MaxEbin() && !GoesAstray(g, b.eb, b.disk, ino0, size)
    && (ino0.Type() == Clin && size > g.MaxClin() ==> forall w :: !ZeroWindowAt(Content(g, b.disk, ino0), g.E(), w))
  }

  /** Directory p has been written: it is at hand, all other inodes are what they were, and so is the cache. */
  ghost predicate Written1(fs: FsContext, b: Before, p: nat, mid: Mid)
    reads fs
  {
    && DirInv(fs) && p < fs.g.nino && AtHand(fs, p) && fs.table[p].IsDir() && OnlyThese(b.log.table, fs.table, p, p)
    && p < |b.log.cache| && fs.cache == b.log.cache[p := fs.cache[p]]
    && fs.inoMap == mid.inoMap && (fs.dirty == mid.dirty || fs.dirty == mid.dirty + {p})
  }

  /** How the write of directory p, up to `size`, has ended. Nothing is written if `wrote` is false. */
  ghost predicate AfterWrite(fs: FsContext, b: Before, p: nat, size: nat, wrote: bool, out: Outcome,
                             aside: SummaryCache, mid: Mid)
    reads fs
  {
    && fs.g.Valid() && p < |b.log.cache| && b.log.cache[p].Some?
    && match out
       case Failed(rc) =>
         fs.table == b.log.table && wrote && Refusal(fs.g, b, b.log.cache[p].value, size, fs.eb, rc)
       case Endless =>
         && wrote && Accepted(fs.g, b, b.log.cache[p].value, size) && Written1(fs, b, p, mid)
         && WriteLeft(fs.g, b, p, StaysSmall(fs.g, b.log.cache[p].value, size), mid)
         && Spins(fs.g, mid.eb, mid.gc) && fs.eb == mid.eb && Spins(fs.g, fs.eb, fs.gc)
       case Done =>
         && Written1(fs, b, p, mid) && ShutFrom(fs.g, aside, fs.sums)
         && if wrote then
              && Accepted(fs.g, b, b.log.cache[p].value, size)
              && WriteLeft(fs.g, b, p, StaysSmall(fs.g, b.log.cache[p].value, size), mid)
              && !Spins(fs.g, mid.eb, mid.gc) && (fs.sums == aside <==> NoneLeft(fs.g, mid.eb))
            else
              mid == Mid(b.eb, b.gc, b.log.inoMap, b.log.dirty) && fs.sums == aside
       case _ => false
  }

  /** The write itself, before its gc. */
  method PutDir(fs: FsContext, p: nat, user: seq<byte>, off: nat) returns (rc: Rc, ghost mid: Mid)
    requires DirInv(fs) && AtHand(fs, p) && |user| > 0 && (off + |user|) % DENTRY == 0
    requires off <= fs.table[p].size <= off + |user| && fs.table[p].IsDir() && (off == 0 || off == fs.table[p].size)
    modifies fs
    ensures fs.g.Valid() && p < fs.g.nino && p in old(fs.table) && p < |old(fs.cache)| && old(fs.cache)[p].Some?
    ensures !rc.Ok? ==>
      fs.table == old(fs.table) && Refusal(fs.g, old(Snap(fs)), old(fs.cache)[p].value, off + |user|, fs.eb, rc)
    ensures rc.Ok? ==>
      && Written1(fs, old(Snap(fs)), p, mid) && mid == Mid(fs.eb, fs.gc, fs.inoMap, fs.dirty)
      && WriteLeft(fs.g, old(Snap(fs)), p, StaysSmall(fs.g, old(fs.cache)[p].value, off + |user|), mid)
      && Accepted(fs.g, old(Snap(fs)), old(fs.cache)[p].value, off + |user|)
    ensures Readable(fs.g, old(fs.disk), old(fs.table)[p])
    ensures rc.Ok? ==> var bytes := Content(fs.g, old(fs.disk), old(fs.table)[p]);
      Names(fs) == old(Names(fs))[p :=
        Links.Dir(old(fs.table)[p].nlink, DentriesOf(if off == |bytes| then bytes + user else user))]
    ensures FilesKept(fs.g, old(fs.disk), old(fs.table), fs.disk, fs.table, p)
  {
    hide VolInv, InodeOk, FileOk, Readable, Content, WriteClean, Splice, SameContents, OutOfSpace, GoesAstray, Strayed,
      StrayPtrs, ZeroWindowAt, NamesOf, DentriesOf, FilesKept, SameClin, Marked, Flushed, Changed, OnlyThese, WholeDirs;
    HandFacts(fs, p);
    DiskSize(fs);
    ghost var table0, d0, buf0 := fs.table, fs.disk, fs.buf;
    var ino := fs.cache[p].value;
    rc := WriteFile(fs, ino, user, off, false);
    mid := Mid(fs.eb, fs.gc, fs.inoMap, fs.dirty);
    if rc.Ok? {
      UsageInOrder(fs);
      DirWritten(fs.g, d0, fs.disk, table0, fs.table, p, ino, user, off, buf0);
    } else {
      FilesOf(fs.g, d0, table0, fs.disk, fs.table, p);
    }
  }

  /** A directory that has been written holds the entries the bytes spell, and nothing else has changed. */
  lemma DirWritten(g: Geometry, d0: seq<byte>, d: seq<byte>, table0: map<nat, Inode>, table: map<nat, Inode>, p: nat,
                   ino: Inode, user: seq<byte>, off: nat, buf0: seq<byte>)
    requires g.Valid() && p < g.nino && p in table0 && table0[p].IsDir() && |buf0| == g.E() && |user| > 0
    requires Readable(g, d0, ino) && Readable(g, d0, table0[p]) && Content(g, d0, ino) == Content(g, d0, table0[p])
    requires off + |user| <= g.MaxEbin() && off <= ino.size <= off + |user| && (off == 0 || off == ino.size)
    requires Changed(g, d0, d, table0, table, p, SizeAfter(ino, off, |user|)) && (off + |user|) % DENTRY == 0
    requires Content(g, d, table[p]) == Splice(Content(g, d0, table0[p]), user, off)
             <==> WriteClean(g, d0, buf0, ino, off, user)
    requires WholeDirs(table0) && SameSuper(g, d0, d)
    ensures p in table && OnlyThese(table0, table, p, p) && table[p].IsDir() && WholeDirs(table)
    ensures var bytes := Content(g, d0, table0[p]);
      NamesOf(g, d, table) == NamesOf(g, d0, table0)[p :=
        Links.Dir(table0[p].nlink, DentriesOf(if off == |bytes| then bytes + user else user))]
    ensures FilesKept(g, d0, table0, d, table, p)
  {
    hide Readable, Content, WriteClean, Splice, SameContents, NamesOf, DentriesOf, FilesKept;
    AppendIsClean(g, d0, buf0, ino, user, off);
    ChangedOthers(g, d0, d, table0, table, p, SizeAfter(ino, off, |user|));
    OneNodeChanged(g, d0, d, table0, table, p);
    FilesOf(g, d0, table0, d, table, p);
  }

  /** write() of a directory's bytes, replaced or continued, up to at least their old end. */
  method RewriteDir(fs: FsContext, p: nat, user: seq<byte>, off: nat)
    returns (out: Outcome, aside: SummaryCache, ghost mid: Mid)
    requires DirInv(fs) && AtHand(fs, p) && |user| > 0 && (off + |user|) % DENTRY == 0
    requires off <= fs.table[p].size <= off + |user| && fs.table[p].IsDir() && (off == 0 || off == fs.table[p].size)
    modifies fs
    ensures AfterWrite(fs, old(Snap(fs)), p, off + |user|, true, out, aside, mid)
    ensures out == Done ==> fs.eb == AllFreed(mid.eb) && fs.dirty == mid.dirty
    ensures p < fs.g.nino && p in old(fs.table) && Readable(fs.g, old(fs.disk), old(fs.table)[p])
    ensures !out.Failed? ==> var bytes := Content(fs.g, old(fs.disk), old(fs.table)[p]);
      Names(fs) == old(Names(fs))[p :=
        Links.Dir(old(fs.table)[p].nlink, DentriesOf(if off == |bytes| then bytes + user else user))]
    ensures FilesKept(fs.g, old(fs.disk), old(fs.table), fs.disk, fs.table, p)
  {
    hide VolInv, Readable, Content, NamesOf, DentriesOf, FilesKept, WriteLeft, ShutFrom, NoneLeft, Spins, Refusal,
      Accepted, AllFreed;
    aside := fs.sums;
    var rc;
    rc, mid := PutDir(fs, p, user, off);
    if !rc.Ok? { return Failed(rc), aside, mid; }
    var stuck;
    stuck, aside := Tidy(fs);
    out := if stuck then Endless else Done;
  }

  lemma UsageInOrder(fs: FsContext)
    requires VolInv(fs, false)
    ensures EbInv(fs.g, fs.eb)
  {
  }

  /** read_dir: all bytes of a directory at hand. */
  method ReadDir(fs: FsContext, p: nat) returns (bytes: seq<byte>)
    requires DirInv(fs) && AtHand(fs, p)
    ensures fs.g.Valid() && Readable(fs.g, fs.disk, fs.table[p]) && bytes == Content(fs.g, fs.disk, fs.table[p])
    ensures |bytes| == fs.table[p].size
  {
    hide SumInv, EbInv, GcInv, LiveOk, EbinLive, LogInv, Separate, InodeOk, FileOk, Content;
    HandFacts(fs, p);
    var ino := fs.cache[p].value;
    var rc;
    rc, bytes := Read(fs, ino, ino.size, 0);
  }

  /** A further entry at the end of a directory. */
  method AppendDentry(fs: FsContext, p: nat, no: nat, name: string)
    returns (out: Outcome, aside: SummaryCache, ghost mid: Mid)
    requires DirInv(fs) && AtHand(fs, p) && fs.table[p].IsDir() && no < U32 && NameFits(name)
    modifies fs
    ensures AfterWrite(fs, old(Snap(fs)), p, old(fs.table)[p].size + DENTRY, true, out, aside, mid)
    ensures p < fs.g.nino && old(Names(fs))[p].Dir?
    ensures !out.Failed? ==> Names(fs) == Links.Added(old(Names(fs)), p, name, no, false)
    ensures FilesKept(fs.g, old(fs.disk), old(fs.table), fs.disk, fs.table, p)
    ensures out == Done ==> fs.dirty == mid.dirty
  {
    hide VolInv, InodeOk, FileOk, Content, Readable, PutDentry, GetDentry, DentriesOf, NamesOf, SameContents, FilesKept,
      AfterWrite;
    HandFacts(fs, p);
    AppendRecord(Content(fs.g, fs.disk, fs.table[p]), PutDentry(no, name));
    DentryReadsBack(no, name);
    out, aside, mid := RewriteDir(fs, p, PutDentry(no, name), fs.cache[p].value.size);
  }

  /** The link count of a directory that has been written follows. */
  method AdjustLinks(fs: FsContext, p: nat, up: bool, ghost b: Before, ghost size: nat, ghost wrote: bool,
                     aside: SummaryCache, ghost mid: Mid)
    requires AfterWrite(fs, b, p, size, wrote, Done, aside, mid)
    requires FilesKept(fs.g, b.disk, b.log.table, fs.disk, fs.table, p)
    modifies fs`cache, fs`table, fs`dirty, fs`occ, fs`eb
    ensures fs.g.Valid() && AfterWrite(fs, b, p, size, wrote, Done, aside, mid) && fs.dirty == old(fs.dirty) + {p}
    ensures p < fs.g.nino && old(Names(fs))[p].Dir? && Names(fs) == old(Names(fs))[p :=
      old(Names(fs))[p].(nlink := (old(Names(fs))[p].nlink + (if up then 1 else U32 - 1)) % U32)]
    ensures FilesKept(fs.g, b.disk, b.log.table, fs.disk, fs.table, p)
  {
    hide DirInv, NamesOf, Readable, Content, FilesKept, WriteLeft, ShutFrom, NoneLeft, Spins;
    ghost var table1, d1 := fs.table, fs.disk;
    HandFacts(fs, p);
    SetLinks(fs, p, (fs.cache[p].value.nlink + (if up then 1 else U32 - 1)) % U32);
    NoZero(fs);
    FilesTrans(fs.g, b.disk, b.log.table, d1, table1, fs.disk, fs.table, p, 0);
  }

  /** add_dentry, once the parent has been looked up. */
  method AddDentry(fs: FsContext, p: nat, no: nat, name: string, dir: bool)
    returns (out: Outcome, aside: SummaryCache, ghost mid: Mid)
    requires DirInv(fs) && AtHand(fs, p) && fs.table[p].IsDir() && no < U32 && NameFits(name)
    modifies fs
    ensures AfterWrite(fs, old(Snap(fs)), p, old(fs.table)[p].size + DENTRY, true, out, aside, mid)
    ensures p < fs.g.nino && old(Names(fs))[p].Dir?
    ensures out == Endless ==> Names(fs) == Links.Added(old(Names(fs)), p, name, no, false)
    ensures out == Done && (dir ==> old(Names(fs))[p].nlink + 1 < U32) ==>
      Names(fs) == Links.Added(old(Names(fs)), p, name, no, dir)
    ensures out == Done ==> fs.dirty == if dir then mid.dirty + {p} else mid.dirty
    ensures FilesKept(fs.g, old(fs.disk), old(fs.table), fs.disk, fs.table, p)
  {
    hide NamesOf, Readable, Content, FilesKept, AfterWrite, VolInv, Links.CountIn, DentriesOf;
    HandFacts(fs, p);
    ghost var b, size := Snap(fs), fs.table[p].size + DENTRY;
    out, aside, mid := AppendDentry(fs, p, no, name);
    if out == Done && dir {
      AdjustLinks(fs, p, true, b, size, true, aside, mid);
    }
  }

  lemma NotEmptyBytes(b: seq<byte>, no: nat)
    requires Links.CountIn(DentriesOf(b), no) > 0
    ensures |b| > 0
  {
  }

  /** The first entry of a number is invalidated, if there is one. */
  method ClearDentry(fs: FsContext, p: nat, no: nat) returns (out: Outcome, aside: SummaryCache, ghost mid: Mid)
    requires DirInv(fs) && AtHand(fs, p) && fs.table[p].IsDir()
    modifies fs
    ensures p < fs.g.nino && fs.g.Valid() && old(Names(fs))[p].Dir?
    ensures AfterWrite(fs, old(Snap(fs)), p, old(fs.table)[p].size,
                       Links.CountIn(old(Names(fs))[p].entries, no) > 0, out, aside, mid)
    ensures !out.Failed? ==> Names(fs) == Links.Dropped(old(Names(fs)), p, no, false)
    ensures FilesKept(fs.g, old(fs.disk), old(fs.table), fs.disk, fs.table, p)
    ensures out == Done ==> fs.dirty == mid.dirty
  {
    hide VolInv, InodeOk, FileOk, Content, Readable, PutDentry, GetDentry, DentriesOf, NamesOf, SameContents, FilesKept,
      WriteLeft, NoneLeft, Spins, Refusal;
    HandFacts(fs, p);
    var bytes := ReadDir(fs, p);
    var kept, hit := ClearFirst(bytes, no);
    FilesRefl(fs, p);
    out, aside, mid := Done, fs.sums, Mid(fs.eb, fs.gc, fs.inoMap, fs.dirty);
    if hit {
      NotEmptyBytes(bytes, no);
      out, aside, mid := RewriteDir(fs, p, kept, 0);
    }
  }

  /** remove_dentry, once the parent has been looked up. */
  method RemoveDentry(fs: FsContext, p: nat, no: nat, dir: bool)
    returns (out: Outcome, aside: SummaryCache, ghost mid: Mid)
    requires DirInv(fs) && AtHand(fs, p) && fs.table[p].IsDir()
    modifies fs
    ensures p < fs.g.nino && fs.g.Valid() && old(Names(fs))[p].Dir?
    ensures AfterWrite(fs, old(Snap(fs)), p, old(fs.table)[p].size,
                       Links.CountIn(old(Names(fs))[p].entries, no) > 0, out, aside, mid)
    ensures out == Endless ==> Names(fs) == Links.Dropped(old(Names(fs)), p, no, false)
    ensures out == Done && (dir ==> old(Names(fs))[p].nlink > 0) ==>
      Names(fs) == Links.Dropped(old(Names(fs)), p, no, dir)
    ensures out == Done ==> fs.dirty == if dir then mid.dirty + {p} else mid.dirty
    ensures FilesKept(fs.g, old(fs.disk), old(fs.table), fs.disk, fs.table, p)
  {
    hide NamesOf, Readable, Content, FilesKept, AfterWrite, VolInv, Links.CountIn, DentriesOf;
    HandFacts(fs, p);
    ghost var b, size, wrote := Snap(fs), fs.table[p].size, Links.CountIn(Names(fs)[p].entries, no) > 0;
    out, aside, mid := ClearDentry(fs, p, no);
    if out == Done && dir {
      AdjustLinks(fs, p, false, b, size, wrote, aside, mid);
    }
  }
}
