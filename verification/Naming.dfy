/**
 * inode.cpp: create, link, unlink and rmdir over the bytes of directory files and the inodes of the table, each
 * against the operation on names that it stands for.
 */
module Naming {
  import opened Basics
  import opened Layout
  import opened EraseBlk
  import opened Summaries
  import opened FileData
  import opened IoUnits
  import opened Io
  import opened InodeCodec
  import opened InodeLog
  import opened Inodes
  import opened Volume
  import opened Gc
  import opened Dentries
  import opened Directories
  import Links

  /** How the write of a directory has ended, and with it the operation unless it is Done. */
  ghost predicate ByWrite(fs: FsContext, b: Before, p: nat, size: nat, out: Outcome, mid: Mid)
    requires fs.g.Valid()
    reads fs
  {
    && p < |b.log.cache| && b.log.cache[p].Some?
    && match out
       case Failed(rc) => fs.table == b.log.table && Refusal(fs.g, b, b.log.cache[p].value, size, fs.eb, rc)
       case Endless =>
         && DirInv(fs) && Accepted(fs.g, b, b.log.cache[p].value, size)
         && WriteLeft(fs.g, b, p, StaysSmall(fs.g, b.log.cache[p].value, size), mid)
         && Spins(fs.g, mid.eb, mid.gc) && fs.eb == mid.eb && Spins(fs.g, fs.eb, fs.gc)
       case Done => DoneBy(fs.g, b, p, size, mid)
       case _ => false
  }

  /** It has gone through, and so has its gc. */
  ghost predicate DoneBy(g: Geometry, b: Before, p: nat, size: nat, mid: Mid)
    requires g.Valid()
  {
    && p < |b.log.cache| && b.log.cache[p].Some? && Accepted(g, b, b.log.cache[p].value, size)
    && WriteLeft(g, b, p, StaysSmall(g, b.log.cache[p].value, size), mid) && !Spins(g, mid.eb, mid.gc)
  }

  lemma NowDone(fs: FsContext, b: Before, p: nat, size: nat, mid: Mid)
    requires fs.g.Valid() && DoneBy(fs.g, b, p, size, mid)
    ensures ByWrite(fs, b, p, size, Done, mid)
  {
    hide WriteLeft, Accepted, Spins, StaysSmall;
  }

  lemma HowWritten(fs: FsContext, b: Before, p: nat, size: nat, out: Outcome, aside: SummaryCache, mid: Mid)
    requires AfterWrite(fs, b, p, size, true, out, aside, mid)
    ensures fs.g.Valid() && ByWrite(fs, b, p, size, out, mid) && (out.Failed? || out == Endless || out == Done)
    ensures out == Done ==>
      Written1(fs, b, p, mid) && ShutFrom(fs.g, aside, fs.sums) && DoneBy(fs.g, b, p, size, mid)
    ensures out == Done ==> (fs.sums == aside <==> NoneLeft(fs.g, mid.eb))
  {
    hide WriteLeft, Refusal, Accepted, Spins, NoneLeft, DirInv, ShutFrom;
  }

  // ---------------------------------------------------------- create

  /** S_ISDIR */
  predicate DirMode(mode: nat) { mode / 4096 % 16 == 4 }

  /** The inode create() sets up, for a directory with mk_directory. */
  function NewInode(g: Geometry, no: nat, p: nat, mode: nat, owner: seq<byte>, tail: seq<byte>): Inode
    requires g.Valid() && no < U32 && p < U32 && (DirMode(mode) ==> 2 * DENTRY <= g.MaxEmb())
  {
    if DirMode(mode) then
      Inode(2 * DENTRY, TypeCode(Emb), no, 2, owner, mode, tail, NewDirBytes(no, p) + Zeros(g.MaxEmb() - 2 * DENTRY))
    else
      Inode(0, TypeCode(Emb), no, 1, owner, mode, tail, Zeros(g.MaxEmb()))
  }

  lemma NewInodeFacts(g: Geometry, d: seq<byte>, no: nat, p: nat, mode: nat, owner: seq<byte>, tail: seq<byte>)
    requires g.Valid() && no < U32 && p < U32 && (DirMode(mode) ==> 2 * DENTRY <= g.MaxEmb())
    requires mode < U32 && |owner| == 8 && |tail| == 96 && |d| == g.DeviceSize()
    ensures var ino := NewInode(g, no, p, mode, owner, tail);
      && InodeOk(g, ino) && ino.Type() == Emb && ino.no == no && ino.IsDir() == DirMode(mode) && ino.size % DENTRY == 0
      && Readable(g, d, ino) && (!DirMode(mode) ==> ino.size == 0)
      && NodeOf(g, d, ino) == if DirMode(mode) then Links.NewDir(no, p) else Links.File(1)
  {
    hide PutDentry, DentriesOf, NewDirBytes, NodeOf, InodeOk;
    if DirMode(mode) {
      NewDirNode(g, d, no, p, mode, owner, tail);
    } else {
      NewFileNode(g, d, no, p, mode, owner, tail);
    }
  }

  lemma Embedded(g: Geometry, d: seq<byte>, ino: Inode)
    requires g.Valid() && ino.flags == TypeCode(Emb) && |ino.data| == g.MaxEmb() && ino.size <= g.MaxEmb()
    requires |d| == g.DeviceSize()
    ensures LayoutOk(g, ino) && Readable(g, d, ino) && Content(g, d, ino) == ino.data[..ino.size]
  {
    EmbeddedLayout(g, ino);
    Sizes(g);
    assert Ptrs(g, ino) == [];
  }

  lemma EmbeddedLayout(g: Geometry, ino: Inode)
    requires g.Valid() && ino.flags == TypeCode(Emb) && |ino.data| == g.MaxEmb() && ino.size <= g.MaxEmb()
    ensures ino.Type() == Emb && LayoutOk(g, ino)
  {
    Sizes(g);
    assert TypeFromSize(g, ino.size) == Emb;
  }

  lemma NewDirNode(g: Geometry, d: seq<byte>, no: nat, p: nat, mode: nat, owner: seq<byte>, tail: seq<byte>)
    requires g.Valid() && no < U32 && p < U32 && DirMode(mode) && 2 * DENTRY <= g.MaxEmb()
    requires mode < U32 && |owner| == 8 && |tail| == 96 && |d| == g.DeviceSize()
    ensures var ino := NewInode(g, no, p, mode, owner, tail);
      && InodeOk(g, ino) && Readable(g, d, ino) && NodeOf(g, d, ino) == Links.NewDir(no, p)
  {
    hide PutDentry, DentriesOf, NewDirBytes, Content, LayoutOk, Readable;
    var ino := NewInode(g, no, p, mode, owner, tail);
    Embedded(g, d, ino);
    NewDirReads(no, p);
    assert ino.data[..2 * DENTRY] == NewDirBytes(no, p);
  }

  lemma NewFileNode(g: Geometry, d: seq<byte>, no: nat, p: nat, mode: nat, owner: seq<byte>, tail: seq<byte>)
    requires g.Valid() && no < U32 && p < U32 && !DirMode(mode) && mode < U32 && |owner| == 8 && |tail| == 96
    requires |d| == g.DeviceSize()
    ensures var ino := NewInode(g, no, p, mode, owner, tail);
      && InodeOk(g, ino) && Readable(g, d, ino) && NodeOf(g, d, ino) == Links.File(1)
  {
    hide NewDirBytes, DentriesOf, Content, LayoutOk, Readable;
    Embedded(g, d, NewInode(g, no, p, mode, owner, tail));
  }

  /** create, once the entry is there: the inode is set up, put into the cache, and marked dirty. */
  method AddNew(fs: FsContext, no: nat, p: nat, mode: nat, owner: seq<byte>, tail: seq<byte>, ghost d0: seq<byte>,
                ghost table0: map<nat, Inode>)
    requires fs.g.Valid() && DirInv(fs) && 1 <= no < fs.g.nino && no !in fs.table && p < fs.g.nino < U32
    requires mode < U32 && |owner| == 8 && |tail| == 96 && (DirMode(mode) ==> 2 * DENTRY <= fs.g.MaxEmb())
    requires FilesKept(fs.g, d0, table0, fs.disk, fs.table, p) && table0.Keys == fs.table.Keys
    modifies fs
    ensures DirInv(fs) && fs.sums == old(fs.sums) && FilesKept(fs.g, d0, table0, fs.disk, fs.table, p)
    ensures Names(fs) == old(Names(fs))[no := if DirMode(mode) then Links.NewDir(no, p) else Links.File(1)]
    ensures no in fs.table && (!DirMode(mode) ==> fs.table[no].size == 0)
  {
    hide VolInv, NamesOf, Readable, Content, NewInode, FilesKept, SameSuper;
    ghost var table1, d1 := fs.table, fs.disk;
    var ino := NewInode(fs.g, no, p, mode, owner, tail);
    NewInodeStays(fs, no, p, mode, owner, tail);
    AddInode(fs, ino, false);
    NewInodeThere(fs, table1, no, p, mode, owner, tail);
    OneNodeChanged(fs.g, d1, fs.disk, table1, fs.table, no);
    FilesOf(fs.g, d1, table1, fs.disk, fs.table, p);
    FilesTrans(fs.g, d0, table0, d1, table1, fs.disk, fs.table, p, p);
  }

  /** create, once the parent has been looked up. */
  method Create(fs: FsContext, p: nat, name: string, mode: nat, owner: seq<byte>, tail: seq<byte>)
    returns (out: Outcome, ok: bool, no: nat, ghost mid: Mid)
    requires DirInv(fs) && AtHand(fs, p) && fs.table[p].IsDir() && NameFits(name)
    requires mode < U32 && |owner| == 8 && |tail| == 96 && (DirMode(mode) ==> 2 * DENTRY <= fs.g.MaxEmb())
    modifies fs
    ensures 1 <= p < fs.g.nino && fs.g.Valid() && old(Names(fs))[p].Dir?
    ensures out == Done || out == Full || out == Endless || out.Failed?
    ensures out == Full <==> forall i | 1 <= i < fs.g.nino :: old(Names(fs))[i] != Links.Free
    ensures out == Full ==> DirInv(fs) && fs.table == old(fs.table) && fs.disk == old(fs.disk)
    ensures out != Full ==>
      && 1 <= no < fs.g.nino && old(Names(fs))[no] == Links.Free
      && forall i | 1 <= i < no :: old(Names(fs))[i] != Links.Free
    ensures out != Full ==> ByWrite(fs, old(Snap(fs)), p, old(fs.table)[p].size + DENTRY, out, mid)
    ensures out == Endless ==> Names(fs) == Links.Added(old(Names(fs)), p, name, no, false)
    ensures out == Done ==> Orderly(fs) && (ok <==> NoneLeft(fs.g, mid.eb))
    ensures out == Done ==> if ok then DirInv(fs) else !VolInv(fs, false)
    ensures out == Done && !DirMode(mode) ==> no in fs.table && fs.table[no].size == 0
    ensures out == Done && !DirMode(mode) ==> Names(fs) == Links.Created(old(Names(fs)), p, name, no)
    ensures out == Done && DirMode(mode) && old(Names(fs))[p].nlink + 1 < U32 ==>
      Names(fs) == Links.Made(old(Names(fs)), p, name, no)
    ensures
      (out == Done && Links.TreeOk(old(Names(fs))) && (DirMode(mode) ==> old(Names(fs))[p].nlink + 1 < U32)) ==>
      (Links.TreeOk(Names(fs)) <==> Links.PlainName(name))
    ensures FilesKept(fs.g, old(fs.disk), old(fs.table), fs.disk, fs.table, p)
  {
    hide VolInv, NamesOf, Readable, Content, Links.TreeOk, Links.PlainName, NewInode, FilesKept, AfterWrite, ByWrite,
      DoneBy, ShutFrom, NoneLeft, Orderly;
    HandFacts(fs, p);
    ghost var nodes, b, size := Names(fs), Snap(fs), fs.table[p].size + DENTRY;
    FilesRefl(fs, p);
    FreeAreFree(fs);
    no := FreeNumber(fs, false);
    var aside := fs.sums;
    mid, ok := Mid(fs.eb, fs.gc, fs.inoMap, fs.dirty), true;
    if no == 0 { return Full, ok, no, mid; }
    NumbersFit(fs);
    out, aside, mid := AddDentry(fs, p, no, name, DirMode(mode));
    HowWritten(fs, b, p, size, out, aside, mid);
    if out != Done { return; }
    AddNew(fs, no, p, mode, owner, tail, b.disk, b.log.table);
    ok := PutBack(fs, aside, true);
    NowDone(fs, b, p, size, mid);
    if Links.TreeOk(nodes) { CreatedTree(nodes, p, name, no, DirMode(mode)); }
  }

  lemma NewInodeStays(fs: FsContext, no: nat, p: nat, mode: nat, owner: seq<byte>, tail: seq<byte>)
    requires fs.g.Valid() && DirInv(fs) && no < U32 && p < U32
    requires mode < U32 && |owner| == 8 && |tail| == 96 && (DirMode(mode) ==> 2 * DENTRY <= fs.g.MaxEmb())
    ensures var ino := NewInode(fs.g, no, p, mode, owner, tail);
      InodeOk(fs.g, ino) && ino.Type() == Emb && ino.no == no
  {
    hide VolInv, NewInode;
    DiskSize(fs);
    NewInodeFacts(fs.g, fs.disk, no, p, mode, owner, tail);
  }

  lemma NewInodeThere(fs: FsContext, table1: map<nat, Inode>, no: nat, p: nat, mode: nat, owner: seq<byte>,
                      tail: seq<byte>)
    requires fs.g.Valid() && VolInv(fs, false) && no < U32 && p < U32 && WholeDirs(table1)
    requires mode < U32 && |owner| == 8 && |tail| == 96 && (DirMode(mode) ==> 2 * DENTRY <= fs.g.MaxEmb())
    requires fs.table == table1[no := NewInode(fs.g, no, p, mode, owner, tail)]
    ensures DirInv(fs) && Readable(fs.g, fs.disk, fs.table[no]) && (!DirMode(mode) ==> fs.table[no].size == 0)
    ensures NodeOf(fs.g, fs.disk, fs.table[no]) == if DirMode(mode) then Links.NewDir(no, p) else Links.File(1)
  {
    hide VolInv, NewInode, Readable, NodeOf;
    DiskSize(fs);
    NewInodeFacts(fs.g, fs.disk, no, p, mode, owner, tail);
  }

  lemma CreatedTree(nodes: seq<Links.Node>, p: nat, name: string, no: nat, dir: bool)
    requires Links.TreeOk(nodes) && 1 <= p < |nodes| && nodes[p].Dir? && 1 <= no < |nodes| && nodes[no] == Links.Free
    ensures Links.TreeOk(if dir then Links.Made(nodes, p, name, no) else Links.Created(nodes, p, name, no))
            <==> Links.PlainName(name)
  {
    if !Links.PlainName(name) {
      Links.AddedDots(nodes, if dir then Links.Made(nodes, p, name, no) else Links.Created(nodes, p, name, no), p, name,
                      no);
    } else if dir {
      Links.MadeOk(nodes, p, name, no);
    } else {
      Links.CreatedOk(nodes, p, name, no);
    }
  }

  lemma NumbersFit(fs: FsContext)
    requires VolInv(fs, false)
    ensures fs.g.nino < U32
  {
  }

  lemma FreeAreFree(fs: FsContext)
    requires DirInv(fs)
    ensures fs.g.Valid() && forall i | 0 <= i < fs.g.nino :: Names(fs)[i] == Links.Free <==> i !in fs.table
  {
    forall i | 0 <= i < fs.g.nino ensures Names(fs)[i] == Links.Free <==> i !in fs.table {
      if i in fs.table { HandFacts(fs, i); }
    }
    LogFacts(fs.g, fs.eb, fs.disk, LogOf(fs));
  }

  // ---------------------------------------------------------- unlink and rmdir

  /** The number a directory has for a name; 0 for none. */
  ghost function Named(fs: FsContext, p: nat, name: string): nat
    requires fs.g.Valid() && p < fs.g.nino
    reads fs
  {
    Links.Find(Links.Entries(Names(fs)[p]), name)
  }

  /** What is found in a directory is an inode of the table. */
  lemma FoundFacts(fs: FsContext, p: nat, name: string)
    requires DirInv(fs) && 1 <= p < fs.g.nino && Links.TreeOk(Names(fs)) && Names(fs)[p].Dir?
    requires Named(fs, p, name) != 0
    ensures var no, nodes := Named(fs, p, name), Names(fs);
      && 1 <= no < fs.g.nino && no in fs.table && nodes[no] != Links.Free && nodes[p].nlink > 0
      && Links.CountIn(nodes[p].entries, no) > 0
      && nodes[no].nlink >= 1 && (nodes[no].Dir? ==> nodes[no].nlink >= 2) && (nodes[no].File? ==> p != no)
  {
    Links.FoundAny(Names(fs), p, name);
    Links.UnlinkedTree(Names(fs), p, name);
  }

  /**
   * Inode `no` is dirty and on disk when it is to be freed: it has been marked before, or as the directory whose
   * link count has changed, and the flush at the end of the write has left it so.
   */
  predicate StaleThen(mid: Mid, p: nat, dir: bool, no: nat) {
    no < |mid.inoMap| && mid.inoMap[no] != RESERVED_CL && (no in mid.dirty || (dir && no == p))
  }

  /**
   * How that follows from the state before: only if it was so before; without a flush always then; and with a flush
   * that finds room never.
   */
  ghost predicate StaleFrom(g: Geometry, b: Before, p: nat, mid: Mid, dir: bool, no: nat)
    requires no < |b.log.inoMap|
  {
    && (StaleThen(mid, p, dir, no) ==> StaleOnDisk(b.log, no))
    && (|b.log.dirty + {p}| < g.ninoopen ==> (StaleThen(mid, p, dir, no) <==> StaleOnDisk(b.log, no)))
    && (|b.log.dirty + {p}| >= g.ninoopen && !NoRoom(g, mid.eb, Emb, true) && !NoRoom(g, mid.eb, Emb, false) ==>
          !StaleThen(mid, p, dir, no))
  }

  lemma StaleBefore(g: Geometry, b: Before, p: nat, size: nat, mid: Mid, dir: bool, no: nat)
    requires g.Valid() && DoneBy(g, b, p, size, mid) && no < |b.log.inoMap| && no != p
    ensures StaleFrom(g, b, p, mid, dir, no)
  {
    hide NoRoom, EbInv, SameClin, Marked, Accepted, Spins;
  }

  /** A directory that stays in its inode has nothing to do with what gc leaves of the summaries. */
  lemma LeftBefore(g: Geometry, b: Before, p: nat, size: nat, mid: Mid)
    requires g.Valid() && DoneBy(g, b, p, size, mid) && StaysSmall(g, b.log.cache[p].value, size)
    ensures NoneLeft(g, mid.eb) <==> NoneLeft(g, b.eb)
  {
    hide Accepted, Spins, Marked, Flushed;
    forall e: nat ensures OpenAndEmpty(g, mid.eb, e) <==> OpenAndEmpty(g, b.eb, e) { }
  }

  /** flush_inodes at the end of an operation on directory p. */
  method Settle(fs: FsContext, ghost d0: seq<byte>, ghost table0: map<nat, Inode>, ghost p: nat)
    requires fs.g.Valid() && DirInv(fs) && FilesKept(fs.g, d0, table0, fs.disk, fs.table, p)
    modifies fs
    ensures DirInv(fs) && Names(fs) == old(Names(fs)) && FilesKept(fs.g, d0, table0, fs.disk, fs.table, p)
    ensures fs.table == old(fs.table) && fs.cache == old(fs.cache) && fs.sums == old(fs.sums)
    ensures fs.dirty <= old(fs.dirty)
  {
    hide VolInv, NamesOf, Readable, Content, FilesKept, SameContents, SameClin, SameSuper;
    ghost var table1, d1 := fs.table, fs.disk;
    NoZero(fs);
    FlushVolume(fs, false);
    NoNodeChanged(fs.g, d1, fs.disk, fs.table);
    FilesOf(fs.g, d1, table1, fs.disk, fs.table, 0);
    FilesTrans(fs.g, d0, table0, d1, table1, fs.disk, fs.table, p, 0);
  }

  lemma GoneToo(g: Geometry, d0: seq<byte>, table0: map<nat, Inode>, d: seq<byte>, table: map<nat, Inode>, no: nat)
    requires g.Valid() && FilesKept(g, d0, table0, d, table, no) && no !in table
    ensures forall p :: FilesKept(g, d0, table0, d, table, p)
  {
    hide Content, Readable;
  }

  /** The inode goes, with its data. */
  method DropInode(fs: FsContext, no: nat) returns (sound: bool)
    requires DirInv(fs) && AtHand(fs, no) && no < fs.g.nino
    modifies fs
    ensures no < |old(fs.inoMap)| && (sound <==> !StaleOnDisk(old(LogOf(fs)), no))
    ensures fs.g.Valid() && Names(fs) == old(Names(fs))[no := Links.Free]
    ensures if sound then DirInv(fs) else !LogInv(fs.g, fs.eb, fs.disk, LogOf(fs))
    ensures forall p :: FilesKept(fs.g, old(fs.disk), old(fs.table), fs.disk, fs.table, p)
    ensures fs.table == old(fs.table) - {no} && fs.sums == old(fs.sums)
  {
    hide VolInv, NamesOf, Readable, Content, VolumeOk, FilesKept, SameContents, StaleOnDisk, LogInv;
    HandFacts(fs, no);
    ghost var table0, d0 := fs.table, fs.disk;
    sound := UnlinkFile(fs, no, false);
    OneNodeGone(fs.g, d0, fs.disk, table0, no);
    FilesOf(fs.g, d0, table0, fs.disk, fs.table, no);
    GoneToo(fs.g, d0, table0, fs.disk, fs.table, no);
  }

  /** The end of unlink: one link fewer, and the inode goes with the last. */
  method DropLink(fs: FsContext, no: nat) returns (sound: bool)
    requires DirInv(fs) && AtHand(fs, no) && no < fs.g.nino && Names(fs)[no] != Links.Free && Names(fs)[no].nlink >= 1
    modifies fs
    ensures var node := old(Names(fs))[no];
      && Names(fs) == old(Names(fs))[no := if node.nlink > 1 then node.(nlink := node.nlink - 1) else Links.Free]
      && no < |old(fs.inoMap)| && (sound <==> node.nlink > 1 || !StaleOnDisk(old(LogOf(fs)), no))
    ensures if sound then DirInv(fs) else !LogInv(fs.g, fs.eb, fs.disk, LogOf(fs))
    ensures FilesKept(fs.g, old(fs.disk), old(fs.table), fs.disk, fs.table, 0) && fs.table.Keys <= old(fs.table).Keys
    ensures fs.sums == old(fs.sums)
  {
    hide VolInv, NamesOf, Readable, Content, FilesKept, StaleOnDisk, LogInv;
    HandFacts(fs, no);
    ghost var table0, d0 := fs.table, fs.disk;
    var n := fs.cache[no].value.nlink;
    if n > 1 {
      MapSize(fs);
      SetLinks(fs, no, n - 1);
      Settle(fs, d0, table0, 0);
      sound := true;
    } else {
      sound := DropInode(fs, no);
    }
  }

  lemma MapSize(fs: FsContext)
    requires VolInv(fs, false)
    ensures |fs.inoMap| == fs.g.nino
  {
  }

  /** unlink, once the directory and the inode have been looked up. */
  method Unlink(fs: FsContext, p: nat, name: string) returns (out: Outcome, ok: bool, ghost mid: Mid)
    requires DirInv(fs) && AtHand(fs, p) && fs.table[p].IsDir() && 1 <= p < fs.g.nino && Links.TreeOk(Names(fs))
    requires Named(fs, p, name) != 0 ==> AtHand(fs, Named(fs, p, name))
    modifies fs
    ensures fs.g.Valid() && old(Names(fs))[p].Dir?
    ensures out == Done || out == NoEntry || out == Endless || out.Failed?
    ensures out == NoEntry <==> old(Named(fs, p, name)) == 0
    ensures out == NoEntry ==> DirInv(fs) && Names(fs) == old(Names(fs))
    ensures out != NoEntry ==> ByWrite(fs, old(Snap(fs)), p, old(fs.table)[p].size, out, mid)
    ensures out == Endless ==> Names(fs) == Links.Dropped(old(Names(fs)), p, old(Named(fs, p, name)), false)
    ensures out == Done ==> var nodes, no := old(Names(fs)), old(Named(fs, p, name));
      && no < |nodes| && nodes[no] != Links.Free && nodes[p].nlink > 0 && Names(fs) == Links.Unlinked(nodes, p, no)
      && (Links.TreeOk(Names(fs)) <==> nodes[no].File?)
    ensures out == Done ==> var nodes, no := old(Names(fs)), old(Named(fs, p, name));
      var stale := Names(fs)[no] == Links.Free && StaleThen(mid, p, nodes[no].Dir?, no);
      (stale || Orderly(fs)) && (ok <==> !stale && NoneLeft(fs.g, mid.eb))
    ensures out == Done ==> if ok then DirInv(fs) else !VolInv(fs, false)
    ensures out == Done ==> var nodes, no := old(Names(fs)), old(Named(fs, p, name));
      no < |old(fs.inoMap)| && (no != p ==> StaleFrom(fs.g, old(Snap(fs)), p, mid, nodes[no].Dir?, no))
    ensures FilesKept(fs.g, old(fs.disk), old(fs.table), fs.disk, fs.table, p)
  {
    hide VolInv, NamesOf, Readable, Content, Links.TreeOk, Links.Find, DentriesOf, Links.CountIn, FilesKept, AfterWrite,
      ByWrite, DoneBy, ShutFrom, NoneLeft, Orderly, LogInv;
    HandFacts(fs, p);
    ghost var nodes, b, size := Names(fs), Snap(fs), fs.table[p].size;
    FilesRefl(fs, p);
    mid, ok := Mid(fs.eb, fs.gc, fs.inoMap, fs.dirty), true;
    var bytes := ReadDir(fs, p);
    var no := FindDentry(bytes, name);
    if no == 0 { return NoEntry, ok, mid; }
    FoundFacts(fs, p, name);
    HandFacts(fs, no);
    MapSize(fs);
    var dir := fs.cache[no].value.IsDir();
    var aside;
    out, aside, mid := RemoveDentry(fs, p, no, dir);
    HowWritten(fs, b, p, size, out, aside, mid);
    if out != Done { return; }
    ghost var table1, d1 := fs.table, fs.disk;
    NoZero(fs);
    var sound := DropLink(fs, no);
    if no != p { StaleBefore(fs.g, b, p, size, mid, dir, no); }
    FilesTrans(fs.g, b.disk, b.log.table, d1, table1, fs.disk, fs.table, p, 0);
    ok := PutBack(fs, aside, sound);
    NowDone(fs, b, p, size, mid);
    Links.UnlinkedTree(nodes, p, name);
  }

  /** Whether dentry_is_empty takes the inode for an empty directory; it reads the bytes of a file as well. */
  ghost predicate Blank(fs: FsContext, no: nat)
    requires fs.g.Valid() && no in fs.table && Readable(fs.g, fs.disk, fs.table[no])
    reads fs
  {
    Links.DirEmpty(DentriesOf(Content(fs.g, fs.disk, fs.table[no])))
  }

  /** rmdir, once the directory and the inode have been looked up. */
  method Rmdir(fs: FsContext, p: nat, name: string) returns (out: Outcome, ok: bool, ghost mid: Mid)
    requires DirInv(fs) && AtHand(fs, p) && fs.table[p].IsDir() && 1 <= p < fs.g.nino && Links.TreeOk(Names(fs))
    requires Named(fs, p, name) != 0 ==>
      AtHand(fs, Named(fs, p, name)) && fs.table[Named(fs, p, name)].size % DENTRY == 0
    modifies fs
    ensures fs.g.Valid() && old(Names(fs))[p].Dir?
    ensures out == Done || out == NoEntry || out == NotEmpty || out == Endless || out.Failed?
    ensures out == NoEntry <==> old(Named(fs, p, name)) == 0
    ensures out != NoEntry ==> var no := old(Named(fs, p, name));
      && no in old(fs.table) && Readable(fs.g, old(fs.disk), old(fs.table)[no])
      && (out == NotEmpty <==> !old(Blank(fs, Named(fs, p, name))))
    ensures out == NoEntry || out == NotEmpty ==> DirInv(fs) && Names(fs) == old(Names(fs))
    ensures out != NoEntry && out != NotEmpty ==> ByWrite(fs, old(Snap(fs)), p, old(fs.table)[p].size, out, mid)
    ensures out == Endless ==> Names(fs) == Links.Dropped(old(Names(fs)), p, old(Named(fs, p, name)), false)
    ensures out == Done ==> var nodes, no := old(Names(fs)), old(Named(fs, p, name));
      && no < |nodes| && nodes[no] != Links.Free && nodes[p].nlink > 0 && Names(fs) == Links.Removed(nodes, p, no)
      && (Links.TreeOk(Names(fs)) <==> Links.PlainName(name) && (nodes[no].Dir? || nodes[no].nlink == 1))
    ensures out == Done ==> var nodes, no := old(Names(fs)), old(Named(fs, p, name));
      var stale := StaleThen(mid, p, nodes[no].Dir?, no);
      (stale || Orderly(fs)) && (ok <==> !stale && NoneLeft(fs.g, mid.eb))
    ensures out == Done ==> if ok then DirInv(fs) else !VolInv(fs, false)
    ensures out == Done ==> var nodes, no := old(Names(fs)), old(Named(fs, p, name));
      no < |old(fs.inoMap)| && (no != p ==> StaleFrom(fs.g, old(Snap(fs)), p, mid, nodes[no].Dir?, no))
    ensures FilesKept(fs.g, old(fs.disk), old(fs.table), fs.disk, fs.table, p)
  {
    hide VolInv, VolumeOk, NamesOf, Readable, Content, Links.TreeOk, Links.Find, DentriesOf, Links.CountIn,
      Links.DirEmpty, FilesKept, SameContents, AfterWrite, ByWrite, DoneBy, ShutFrom, NoneLeft, Orderly, LogInv;
    HandFacts(fs, p);
    ghost var nodes, b, size := Names(fs), Snap(fs), fs.table[p].size;
    FilesRefl(fs, p);
    mid, ok := Mid(fs.eb, fs.gc, fs.inoMap, fs.dirty), true;
    var bytes := ReadDir(fs, p);
    var no := FindDentry(bytes, name);
    if no == 0 { return NoEntry, ok, mid; }
    FoundFacts(fs, p, name);
    HandFacts(fs, no);
    MapSize(fs);
    bytes := ReadDir(fs, no);
    var empty := IsEmptyDir(bytes);
    if !empty { return NotEmpty, ok, mid; }
    var aside;
    out, aside, mid := RemoveDentry(fs, p, no, fs.cache[no].value.IsDir());
    HowWritten(fs, b, p, size, out, aside, mid);
    if out != Done { return; }
    ghost var table1, d1 := fs.table, fs.disk;
    var sound := DropInode(fs, no);
    if no != p { StaleBefore(fs.g, b, p, size, mid, nodes[no].Dir?, no); }
    FilesTrans(fs.g, b.disk, b.log.table, d1, table1, fs.disk, fs.table, p, p);
    ok := PutBack(fs, aside, sound);
    NowDone(fs, b, p, size, mid);
    Links.RemovedTree(nodes, p, name);
  }

  // ---------------------------------------------------------- link

  lemma LinkedIs(nodes: seq<Links.Node>, nodes1: seq<Links.Node>, p: nat, name: string, no: nat)
    requires 1 <= p < |nodes| == |nodes1| && nodes[p].Dir? && 1 <= no < |nodes| && nodes[no] != Links.Free
    requires nodes[p].nlink + 2 < U32 && nodes[no].nlink + 2 < U32
    requires nodes1 == Links.Added(nodes, p, name, no, nodes[no].Dir?)
    ensures nodes1[no] != Links.Free
    ensures nodes1[no := nodes1[no].(nlink := (nodes1[no].nlink + 1) % U32)] == Links.Linked(nodes, p, name, no)
    ensures Links.TreeOk(nodes) ==>
      (Links.TreeOk(Links.Linked(nodes, p, name, no)) <==> nodes[no].File? && Links.PlainName(name))
  {
    hide Links.TreeOk;
    if Links.TreeOk(nodes) { Links.LinkedTree(nodes, p, name, no); }
  }

  /** The count goes up in memory; the volume stays in order exactly if the inode is dirty already. */
  method RaiseLinks(fs: FsContext, no: nat)
    requires DirInv(fs) && AtHand(fs, no)
    modifies fs`cache, fs`table
    ensures no < fs.g.nino && old(Names(fs))[no] != Links.Free
    ensures Names(fs)
         == old(Names(fs))[no := old(Names(fs))[no].(nlink := (old(Names(fs))[no].nlink + 1) % U32)]
    ensures if no in fs.dirty then DirInv(fs) else !LogInv(fs.g, fs.eb, fs.disk, LogOf(fs))
    ensures FilesKept(fs.g, fs.disk, old(fs.table), fs.disk, fs.table, 0) && fs.table.Keys == old(fs.table).Keys
  {
    hide SumInv, EbInv, GcInv, LiveOk, EbinLive, LogInv, Separate, InodeOk, FileOk, Readable, Content;
    HandFacts(fs, no);
    FileAtHand(fs, false, no);
    ghost var ino, oc, ob := fs.table[no], ClinAll(fs.g, fs.table - {no}), EbinAll(fs.g, fs.table - {no});
    ghost var table0 := fs.table;
    CoreSizes(fs);
    TableOk(fs, no);
    FileOfVolume(fs.g, fs.eb, fs.table, false, no);
    LinksOnly(fs.g, fs.eb, fs.disk, ino, (ino.nlink + 1) % U32, oc, ob);
    NothingHappened(fs.g, fs.eb, fs.disk, fs.table, false, no);
    VolumeOfFile(fs.g, fs.eb, fs.table, false, no, OneMoreLink(ino));
    LinkInode(fs, no);
    OneNodeChanged(fs.g, fs.disk, fs.disk, table0, fs.table, no);
    LinksFiles(fs.g, fs.disk, table0, fs.table, no);
  }

  lemma TableOk(fs: FsContext, no: nat)
    requires VolInv(fs, false) && no in fs.table
    ensures InodeOk(fs.g, fs.table[no]) && no < |fs.cache|
  {
    assert Entry(fs.g, fs.eb, LogOf(fs), no);
  }

  /** Inode `no` is dirty when its link count is raised. */
  predicate MarkedThen(mid: Mid, p: nat, dir: bool, no: nat) { no in mid.dirty || (dir && no == p) }

  /** How that follows from the state before. */
  ghost predicate MarkedFrom(g: Geometry, b: Before, p: nat, mid: Mid, dir: bool, no: nat) {
    && (MarkedThen(mid, p, dir, no) ==> no in b.log.dirty)
    && (|b.log.dirty + {p}| < g.ninoopen ==> (MarkedThen(mid, p, dir, no) <==> no in b.log.dirty))
    && (|b.log.dirty + {p}| >= g.ninoopen && !NoRoom(g, mid.eb, Emb, true) && !NoRoom(g, mid.eb, Emb, false) ==>
          !MarkedThen(mid, p, dir, no))
  }

  lemma MarkedBefore(g: Geometry, b: Before, p: nat, size: nat, mid: Mid, dir: bool, no: nat)
    requires g.Valid() && DoneBy(g, b, p, size, mid) && no != p
    ensures MarkedFrom(g, b, p, mid, dir, no)
  {
    hide NoRoom, EbInv, SameClin, Marked, Accepted, Spins;
  }

  /** Raising the count and the flush at the end; for an inode without a mark the flush has nothing to do with it. */
  method RaiseAndFlush(fs: FsContext, no: nat, ghost d0: seq<byte>, ghost table0: map<nat, Inode>, ghost p: nat)
    returns (marked: bool)
    requires fs.g.Valid() && DirInv(fs) && AtHand(fs, no) && FilesKept(fs.g, d0, table0, fs.disk, fs.table, p)
    requires forall m | m in table0 :: m in fs.table
    modifies fs
    ensures no < fs.g.nino && old(Names(fs))[no] != Links.Free && (marked <==> no in old(fs.dirty))
    ensures Names(fs)
         == old(Names(fs))[no := old(Names(fs))[no].(nlink := (old(Names(fs))[no].nlink + 1) % U32)]
    ensures if marked then DirInv(fs) else !LogInv(fs.g, fs.eb, fs.disk, LogOf(fs))
    ensures FilesKept(fs.g, d0, table0, fs.disk, fs.table, p) && fs.sums == old(fs.sums)
  {
    hide VolInv, NamesOf, Readable, Content, FilesKept, WholeDirs, LogInv;
    marked := no in fs.dirty;
    if !marked { Settle(fs, d0, table0, p); }
    NoZero(fs);
    ghost var table1 := fs.table;
    RaiseLinks(fs, no);
    FilesTrans(fs.g, d0, table0, fs.disk, table1, fs.disk, fs.table, p, 0);
    if marked { Settle(fs, d0, table0, p); }
  }

  /** link, once the inode and the directory for the new name have been looked up. */
  method Link(fs: FsContext, no: nat, p: nat, name: string) returns (out: Outcome, ok: bool, ghost mid: Mid)
    requires DirInv(fs) && AtHand(fs, p) && fs.table[p].IsDir() && AtHand(fs, no) && 1 <= p && 1 <= no
    requires NameFits(name) && no < fs.g.nino
    modifies fs
    ensures fs.g.Valid() && p < fs.g.nino && old(Names(fs))[p].Dir? && old(Names(fs))[no] != Links.Free
    ensures out == Done || out == Endless || out.Failed?
    ensures ByWrite(fs, old(Snap(fs)), p, old(fs.table)[p].size + DENTRY, out, mid)
    ensures out == Endless ==> Names(fs) == Links.Added(old(Names(fs)), p, name, no, false)
    ensures out == Done && old(Names(fs))[p].nlink + 2 < U32 && old(Names(fs))[no].nlink + 2 < U32 ==>
      && Names(fs) == Links.Linked(old(Names(fs)), p, name, no)
      && (Links.TreeOk(old(Names(fs))) ==>
            (Links.TreeOk(Names(fs)) <==> old(Names(fs))[no].File? && Links.PlainName(name)))
    ensures out == Done ==> var marked := MarkedThen(mid, p, old(Names(fs))[no].Dir?, no);
      (marked ==> Orderly(fs)) && (ok <==> marked && NoneLeft(fs.g, mid.eb))
    ensures out == Done ==> if ok then DirInv(fs) else !VolInv(fs, false)
    ensures out == Done && no != p ==> MarkedFrom(fs.g, old(Snap(fs)), p, mid, old(Names(fs))[no].Dir?, no)
    ensures FilesKept(fs.g, old(fs.disk), old(fs.table), fs.disk, fs.table, p)
  {
    hide VolInv, NamesOf, Readable, Content, Links.TreeOk, DentriesOf, FilesKept, WholeDirs, Links.PlainName,
      Links.Added, Links.Linked, AfterWrite, ByWrite, DoneBy, ShutFrom, NoneLeft, Orderly, LogInv;
    HandFacts(fs, p);
    HandFacts(fs, no);
    ghost var nodes, b, size := Names(fs), Snap(fs), fs.table[p].size + DENTRY;
    NumbersFit(fs);
    ok := true;
    var aside;
    out, aside, mid := AddDentry(fs, p, no, name, fs.cache[no].value.IsDir());
    HowWritten(fs, b, p, size, out, aside, mid);
    if out != Done { return; }
    if nodes[p].nlink + 2 < U32 && nodes[no].nlink + 2 < U32 { LinkedIs(nodes, Names(fs), p, name, no); }
    if no != p { MarkedBefore(fs.g, b, p, size, mid, nodes[no].Dir?, no); }
    var marked := RaiseAndFlush(fs, no, b.disk, b.log.table, p);
    ok := PutBack(fs, aside, marked);
    NowDone(fs, b, p, size, mid);
  }

  // ---------------------------------------------------------- a formatted file system

  /** The root directory mkfs writes is the one a name space starts with. */
  lemma RootNames(g: Geometry, d: seq<byte>, root: Inode)
    requires g.Valid() && |d| == g.DeviceSize() && root.flags == TypeCode(Emb) && |root.data| == g.MaxEmb()
    requires root.IsDir() && root.nlink == 2 && root.size == 2 * DENTRY <= g.MaxEmb()
    requires root.data[..2 * DENTRY] == NewDirBytes(1, 1)
    ensures var nodes := NamesOf(g, d, map[1 := root]);
      && nodes[1] == Links.NewDir(1, 1) && (forall i | 0 <= i < g.nino && i != 1 :: nodes[i] == Links.Free)
      && Links.TreeOk(nodes) && WholeDirs(map[1 := root])
  {
    hide DentriesOf, NewDirBytes, Content, Readable, Links.TreeOk;
    Embedded(g, d, root);
    NewDirReads(1, 1);
    Links.RootOk(NamesOf(g, d, map[1 := root]));
  }
}
