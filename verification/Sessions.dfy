/** Whole runs of file and directory operations: a mounted file system against a plain tree of names and bytes. */
module Sessions {
  import opened Basics
  import opened Layout
  import opened EraseBlk
  import opened FileData
  import opened IoUnits
  import opened IoConvert
  import opened Io
  import opened InodeLog
  import opened Inodes
  import opened Volume
  import opened MetaData
  import opened Mount
  import opened Mkfs
  import opened Dentries
  import opened Directories
  import opened Naming
  import Links
  import Runs

  // ---------------------------------------------------------- the plain tree

  /** Names and link counts of all inode numbers, and the bytes of every file that is no directory. */
  datatype Tree = Tree(nodes: seq<Links.Node>, files: map<nat, seq<byte>>)

  datatype Op =
    | Create(p: nat, name: string, mode: nat, owner: seq<byte>, tail: seq<byte>)
    | Unlink(p: nat, name: string)
    | Rmdir(p: nat, name: string)
    | Link(no: nat, p: nat, name: string)
    | Write(no: nat, off: nat, bytes: seq<byte>)
    | Truncate(no: nat, len: nat)
    | Reopen
  {
    predicate OnFile() { Write? || Truncate? }
  }

  /** The lowest free number from n on; |nodes| if there is none. */
  function FirstFree(nodes: seq<Links.Node>, n: nat): (r: nat)
    requires n <= |nodes|
    ensures n <= r <= |nodes| && (r < |nodes| ==> nodes[r] == Links.Free)
    ensures forall i | n <= i < r :: nodes[i] != Links.Free
    decreases |nodes| - n
  {
    if n == |nodes| || nodes[n] == Links.Free then n else FirstFree(nodes, n + 1)
  }

  /** The number a name has in directory p; 0 for none. */
  function Find(nodes: seq<Links.Node>, p: nat, name: string): nat {
    if p < |nodes| then Links.Find(Links.Entries(nodes[p]), name) else 0
  }

  predicate IsDir(nodes: seq<Links.Node>, p: nat) { p < |nodes| && nodes[p].Dir? }

  predicate IsFile(nodes: seq<Links.Node>, no: nat) { no < |nodes| && nodes[no].File? }

  /** What an operation does to a plain tree. */
  function Apply(g: Geometry, t: Tree, op: Op): Tree
    requires g.Valid()
  {
    match op
    case Create(p, name, mode, _, _) =>
      if |t.nodes| == 0 || !IsDir(t.nodes, p) then t else
        var no := FirstFree(t.nodes, 1);
        if no == |t.nodes| then t
        else if DirMode(mode) then t.(nodes := Links.Made(t.nodes, p, name, no))
        else Tree(Links.Created(t.nodes, p, name, no), t.files[no := []])
    case Unlink(p, name) =>
      var no := Find(t.nodes, p, name);
      if !IsDir(t.nodes, p) || !IsFile(t.nodes, no) || t.nodes[p].nlink == 0 then t else
        var nodes := Links.Unlinked(t.nodes, p, no);
        Tree(nodes, if nodes[no] == Links.Free then t.files - {no} else t.files)
    case Rmdir(p, name) =>
      var no := Find(t.nodes, p, name);
      if !IsDir(t.nodes, p) || !IsDir(t.nodes, no) || t.nodes[p].nlink == 0 then t
      else if !Links.DirEmpty(t.nodes[no].entries) then t
      else t.(nodes := Links.Removed(t.nodes, p, no))
    case Link(no, p, name) =>
      if !IsDir(t.nodes, p) || !IsFile(t.nodes, no) then t else t.(nodes := Links.Linked(t.nodes, p, name, no))
    case Write(no, off, bytes) => t.(files := Runs.Apply(g, t.files, Runs.Write(no, off, bytes)))
    case Truncate(no, len) => t.(files := Runs.Apply(g, t.files, Runs.Truncate(no, len)))
    case Reopen => t
  }

  function ApplyAll(g: Geometry, t: Tree, ops: seq<Op>): Tree
    requires g.Valid()
  {
    if ops == [] then t else Apply(g, ApplyAll(g, t, ops[..|ops| - 1]), ops[|ops| - 1])
  }

  /**
   * Operations without a corner: names are plain and fit, directories are directories and files are files, link
   * counts do not wrap around, and writes and truncates are those a plain byte sequence would do as well.
   */
  predicate Safe(g: Geometry, t: Tree, op: Op)
    requires g.Valid()
  {
    match op
    case Create(p, name, mode, owner, tail) =>
      && IsDir(t.nodes, p) && t.nodes[p].nlink + 1 < U32 && NameFits(name) && Links.PlainName(name)
      && mode < U32 && |owner| == 8 && |tail| == 96 && (DirMode(mode) ==> 2 * DENTRY <= g.MaxEmb())
    case Unlink(p, name) =>
      IsDir(t.nodes, p) && (Find(t.nodes, p, name) == 0 || IsFile(t.nodes, Find(t.nodes, p, name)))
    case Rmdir(p, name) =>
      && IsDir(t.nodes, p) && Links.PlainName(name)
      && (Find(t.nodes, p, name) == 0 || IsDir(t.nodes, Find(t.nodes, p, name)))
    case Link(no, p, name) =>
      && IsDir(t.nodes, p) && IsFile(t.nodes, no) && NameFits(name) && Links.PlainName(name)
      && t.nodes[p].nlink + 2 < U32 && t.nodes[no].nlink + 2 < U32
    case Write(no, off, bytes) =>
      !IsDir(t.nodes, no) && (no in t.files ==> Runs.SafeWrite(g, t.files[no], off, |bytes|))
    case Truncate(no, len) => !IsDir(t.nodes, no) && (no in t.files ==> Runs.SafeTruncate(g, t.files[no], len))
    case Reopen => true
  }

  predicate SafeAll(g: Geometry, t: Tree, ops: seq<Op>)
    requires g.Valid()
  {
    forall i | 0 <= i < |ops| :: Safe(g, ApplyAll(g, t, ops[..i]), ops[i])
  }

  // ---------------------------------------------------------- the tree of a volume

  ghost function FilesIn(g: Geometry, d: seq<byte>, table: map<nat, Inode>): map<nat, seq<byte>>
    requires g.Valid()
  {
    map no | no in table && no < g.nino && Readable(g, d, table[no]) && !table[no].IsDir() :: Content(g, d, table[no])
  }

  ghost function TreeOf(fs: FsContext): Tree
    requires fs.g.Valid()
    reads fs
  {
    Tree(Names(fs), FilesIn(fs.g, fs.disk, fs.table))
  }

  /** The files are the nodes that are files. */
  lemma FilesAre(g: Geometry, d: seq<byte>, table: map<nat, Inode>, no: nat)
    requires g.Valid()
    ensures no in FilesIn(g, d, table) <==> IsFile(NamesOf(g, d, table), no)
  {
    hide Content, Readable;
  }

  /** What an operation on directory p leaves of the files: those that are there before and after are the same. */
  ghost predicate SameFiles(t0: Tree, t: Tree) {
    && |t.nodes| == |t0.nodes|
    && (forall no :: no in t0.files <==> IsFile(t0.nodes, no)) && (forall no :: no in t.files <==> IsFile(t.nodes, no))
    && forall no | no in t0.files && no in t.files :: t.files[no] == t0.files[no]
  }

  lemma FilesStay(g: Geometry, d0: seq<byte>, table0: map<nat, Inode>, d: seq<byte>, table: map<nat, Inode>, p: nat)
    requires g.Valid() && FilesKept(g, d0, table0, d, table, p) && !IsFile(NamesOf(g, d0, table0), p)
    ensures SameFiles(Tree(NamesOf(g, d0, table0), FilesIn(g, d0, table0)),
                      Tree(NamesOf(g, d, table), FilesIn(g, d, table)))
  {
    hide Content, Readable, NamesOf;
    forall no: nat ensures no in FilesIn(g, d0, table0) <==> IsFile(NamesOf(g, d0, table0), no) {
      FilesAre(g, d0, table0, no);
    }
    forall no: nat ensures no in FilesIn(g, d, table) <==> IsFile(NamesOf(g, d, table), no) {
      FilesAre(g, d, table, no);
    }
  }

  lemma SameMap(a: map<nat, seq<byte>>, b: map<nat, seq<byte>>)
    requires a.Keys == b.Keys && forall no | no in a :: a[no] == b[no]
    ensures a == b
  {
  }

  /** When the same numbers are files, the files are the same. */
  lemma NoFileChanged(t0: Tree, t: Tree)
    requires SameFiles(t0, t) && forall no: nat :: IsFile(t.nodes, no) <==> IsFile(t0.nodes, no)
    ensures t.files == t0.files
  {
    assert forall no: nat :: no in t.files <==> no in t0.files;
    SameMap(t.files, t0.files);
  }

  lemma FileAdded(t0: Tree, t: Tree, no: nat)
    requires SameFiles(t0, t) && no in t.files && t.files[no] == []
    requires forall m: nat :: IsFile(t.nodes, m) <==> IsFile(t0.nodes, m) || m == no
    requires !IsFile(t0.nodes, no)
    ensures t.files == t0.files[no := []]
  {
    assert forall m: nat :: m in t.files <==> m in t0.files || m == no;
    SameMap(t.files, t0.files[no := []]);
  }

  lemma FileGone(t0: Tree, t: Tree, no: nat)
    requires SameFiles(t0, t) && forall m: nat :: IsFile(t.nodes, m) <==> IsFile(t0.nodes, m) && m != no
    ensures t.files == t0.files - {no}
  {
    assert forall m: nat :: m in t.files <==> m in t0.files && m != no;
    SameMap(t.files, t0.files - {no});
  }

  // ---------------------------------------------------------- how a run stops

  /** A mounted file system in order, with a tree in order. */
  ghost predicate InUse(fs: FsContext)
    reads fs
  {
    DirInv(fs) && SuperOn(fs.g, fs.disk) && MetaFits(fs.g) && fs.g.Valid() && Links.TreeOk(Names(fs))
  }

  /** As for runs of file operations; a directory too large is refused as well. */
  ghost predicate Halted(fs: FsContext, stop: Runs.Stop)
    reads fs
  {
    match stop
    case Going => DirInv(fs)
    case Refused(rc) => rc == FBig || Runs.Halted(fs, stop)
    case _ => Runs.Halted(fs, stop)
  }

  /** What the names are when gc does not return from the write of a directory: the entry has come or gone. */
  function Halfway(nodes: seq<Links.Node>, op: Op): seq<Links.Node> {
    match op
    case Create(p, name, _, _, _) =>
      if |nodes| == 0 || !IsDir(nodes, p) then nodes else Links.Added(nodes, p, name, FirstFree(nodes, 1), false)
    case Link(no, p, name) => if !IsDir(nodes, p) then nodes else Links.Added(nodes, p, name, no, false)
    case Unlink(p, name) => if !IsDir(nodes, p) then nodes else Links.Dropped(nodes, p, Find(nodes, p, name), false)
    case Rmdir(p, name) => if !IsDir(nodes, p) then nodes else Links.Dropped(nodes, p, Find(nodes, p, name), false)
    case _ => nodes
  }

  /** What the tree is when an operation has ended in this way. */
  ghost predicate Left(g: Geometry, t0: Tree, op: Op, stop: Runs.Stop, t: Tree)
    requires g.Valid()
  {
    match stop
    case Going => t == Apply(g, t0, op)
    case Unsound => t == Apply(g, t0, op)
    case PhantomMet(_) => t == t0
    case NotReopened => t == t0
    case GcStuck => if op.OnFile() then t == Apply(g, t0, op) else t == Tree(Halfway(t0.nodes, op), t0.files)
    case Refused(rc) =>
      if op.OnFile() then
        && t.nodes == t0.nodes && t.files - {op.no} == t0.files - {op.no}
        && (rc == OutOfTable || rc == Astray ==> t == t0)
      else
        && !op.Reopen? && t.files == t0.files && |t.nodes| == |t0.nodes|
        && forall m | 0 <= m < |t.nodes| && m != op.p :: t.nodes[m] == t0.nodes[m]
  }

  // ---------------------------------------------------------- lookups

  /** Nodes are what the table says they are. */
  lemma NodeFacts(fs: FsContext, no: nat)
    requires DirInv(fs)
    ensures fs.g.Valid() && (IsDir(Names(fs), no) <==> no in fs.table && fs.table[no].IsDir())
    ensures IsFile(Names(fs), no) <==> no in fs.table && !fs.table[no].IsDir()
    ensures no in fs.table ==> 1 <= no < fs.g.nino
  {
    hide VolInv, Content;
    if no in fs.table { HandFacts(fs, no); }
    ValidNow(fs);
  }

  lemma ValidNow(fs: FsContext)
    requires VolInv(fs, false)
    ensures fs.g.Valid() && |fs.disk| == fs.g.DeviceSize()
  {
  }

  /** The inode is brought into the cache. */
  method Reach(fs: FsContext, no: nat) returns (stop: Runs.Stop)
    requires DirInv(fs) && no in fs.table
    modifies fs`buf, fs`cache
    ensures stop == Runs.Going || stop == Runs.PhantomMet(no)
    ensures Halted(fs, stop) && (stop == Runs.Going ==> AtHand(fs, no))
    ensures stop == Runs.Going ==> forall m | 0 <= m < |old(fs.cache)| && old(fs.cache)[m].Some? ::
      m < |fs.cache| && fs.cache[m] == old(fs.cache)[m]
  {
    hide VolInv, PhantomAt;
    var known;
    stop, known := Runs.Fetch(fs, no);
  }

  // ---------------------------------------------------------- directory operations

  function StopOf(out: Outcome, ok: bool): Runs.Stop {
    match out
    case Done => if ok then Runs.Going else Runs.Unsound
    case Failed(rc) => Runs.Refused(rc)
    case Endless => Runs.GcStuck
    case NoEntry => Runs.Going
    case NotEmpty => Runs.Going
    case Full => Runs.Going
  }

  /** An operation that has not got beyond the write of the directory stops for a stated cause. */
  lemma WriteStops(fs: FsContext, b: Before, p: nat, size: nat, out: Outcome, mid: Mid, ok: bool)
    requires fs.g.Valid() && ByWrite(fs, b, p, size, out, mid) && (out.Failed? || out == Endless)
    ensures Halted(fs, StopOf(out, ok))
    ensures out.Failed? ==> fs.table == b.log.table && out.rc != OutOfTable
    ensures out == Failed(Astray) ==> fs.g.E() > 0 && UndoCount(fs.g.E()) > 0
  {
    hide WriteLeft, Accepted, FewEmpty, UndoCount;
    Sizes(fs.g);
    if out == Failed(NoSpc) { RefusedWhenFull(fs.g, fs.eb, b.log.cache[p].value, size); }
  }

  /** A refused write of directory p changes no other node. */
  lemma OthersSame(g: Geometry, d0: seq<byte>, d: seq<byte>, table: map<nat, Inode>, p: nat)
    requires g.Valid() && FilesKept(g, d0, table, d, table, p)
    ensures forall m | 0 <= m < g.nino && m != p :: NamesOf(g, d, table)[m] == NamesOf(g, d0, table)[m]
  {
    hide Content, Readable, DentriesOf;
  }

  lemma RefusedLeft(fs: FsContext, t0: Tree, b: Before, op: Op, size: nat, rc: Rc, mid: Mid)
    requires fs.g.Valid() && (op.Create? || op.Unlink? || op.Rmdir? || op.Link?)
    requires ByWrite(fs, b, op.p, size, Failed(rc), mid)
    requires FilesKept(fs.g, b.disk, b.log.table, fs.disk, fs.table, op.p)
    requires t0 == Tree(NamesOf(fs.g, b.disk, b.log.table), FilesIn(fs.g, b.disk, b.log.table))
    requires IsDir(t0.nodes, op.p)
    ensures Left(fs.g, t0, op, Runs.Refused(rc), TreeOf(fs))
  {
    hide Content, Readable, NamesOf, FilesIn, Refusal, FilesKept;
    OthersSame(fs.g, b.disk, fs.disk, fs.table, op.p);
    FilesStay(fs.g, b.disk, b.log.table, fs.disk, fs.table, op.p);
    var t := TreeOf(fs);
    OnlyDirDiffers(fs.g, b.disk, fs.disk, fs.table, op.p);
    NoFileChanged(t0, t);
  }

  lemma OnlyDirDiffers(g: Geometry, d0: seq<byte>, d: seq<byte>, table: map<nat, Inode>, p: nat)
    requires g.Valid() && FilesKept(g, d0, table, d, table, p) && IsDir(NamesOf(g, d0, table), p)
    ensures forall m: nat :: IsFile(NamesOf(g, d, table), m) <==> IsFile(NamesOf(g, d0, table), m)
  {
    hide Content, Readable, DentriesOf;
  }

  lemma LowestIs(nodes: seq<Links.Node>, n: nat, no: nat)
    requires n <= no < |nodes| && nodes[no] == Links.Free && forall i | n <= i < no :: nodes[i] != Links.Free
    ensures FirstFree(nodes, n) == no
  {
  }

  lemma NoneFree(nodes: seq<Links.Node>, n: nat)
    requires n <= |nodes| && forall i | n <= i < |nodes| :: nodes[i] != Links.Free
    ensures FirstFree(nodes, n) == |nodes|
  {
  }

  method DoCreate(fs: FsContext, op: Op) returns (stop: Runs.Stop)
    requires InUse(fs) && op.Create? && Safe(fs.g, TreeOf(fs), op)
    modifies fs
    ensures fs.g.Valid() && Halted(fs, stop) && Left(fs.g, old(TreeOf(fs)), op, stop, TreeOf(fs))
    ensures stop == Runs.Going ==> Links.TreeOk(Names(fs))
    ensures stop == Runs.Refused(Astray) ==> fs.g.E() > 0 && UndoCount(fs.g.E()) > 0
    ensures stop != Runs.Refused(OutOfTable)
    ensures SameSuper(fs.g, old(fs.disk), fs.disk)
  {
    hide VolInv, NamesOf, FilesIn, Content, Readable, Links.TreeOk, ByWrite, NoneLeft, Orderly, UndoCount, Halted;
    NodeFacts(fs, op.p);
    ghost var t0 := TreeOf(fs);
    ValidNow(fs);
    SuperRefl(fs.g, fs.disk);
    stop := Reach(fs, op.p);
    if stop != Runs.Going { return; }
    Reached(fs);
    ghost var b, size := Snap(fs), fs.table[op.p].size + DENTRY;
    var out, ok, no;
    ghost var mid;
    out, ok, no, mid := Naming.Create(fs, op.p, op.name, op.mode, op.owner, op.tail);
    stop := StopOf(out, ok);
    FilesStay(fs.g, b.disk, b.log.table, fs.disk, fs.table, op.p);
    SuperOf(fs.g, b.disk, b.log.table, fs.disk, fs.table, op.p);
    if out.Failed? || out == Endless { WriteStops(fs, b, op.p, size, out, mid, ok); }
    if out.Failed? { RefusedLeft(fs, t0, b, op, size, out.rc, mid); return; }
    if out == Full { NoneFree(t0.nodes, 1); } else { LowestIs(t0.nodes, 1, no); }
    CreateLeft(fs, t0, op, no, out);
    Stopped(fs, stop);
  }

  /** An operation that has gone through, or found nothing to do. */
  lemma Stopped(fs: FsContext, stop: Runs.Stop)
    requires stop == Runs.Going ==> DirInv(fs)
    requires stop == Runs.Unsound ==> !VolInv(fs, false)
    requires stop == Runs.GcStuck ==> Halted(fs, stop)
    requires stop == Runs.Going || stop == Runs.Unsound || stop == Runs.GcStuck
    ensures Halted(fs, stop)
  {
  }

  lemma Reached(fs: FsContext)
    requires Halted(fs, Runs.Going)
    ensures DirInv(fs)
  {
  }

  lemma SuperOf(g: Geometry, d0: seq<byte>, table0: map<nat, Inode>, d: seq<byte>, table: map<nat, Inode>, p: nat)
    requires g.Valid() && FilesKept(g, d0, table0, d, table, p)
    ensures SameSuper(g, d0, d)
  {
  }

  lemma CreateLeft(fs: FsContext, t0: Tree, op: Op, no: nat, out: Outcome)
    requires fs.g.Valid() && op.Create? && Safe(fs.g, t0, op) && |t0.nodes| >= 1
    requires SameFiles(t0, TreeOf(fs)) && FirstFree(t0.nodes, 1) == if out == Full then |t0.nodes| else no
    requires out == Full ==> TreeOf(fs) == t0
    requires out != Full ==> no < |t0.nodes| && t0.nodes[no] == Links.Free
    requires out == Endless ==> Names(fs) == Links.Added(t0.nodes, op.p, op.name, no, false)
    requires out == Done && DirMode(op.mode) ==> Names(fs) == Links.Made(t0.nodes, op.p, op.name, no)
    requires out == Done && !DirMode(op.mode) ==>
      Names(fs) == Links.Created(t0.nodes, op.p, op.name, no) && no in fs.table && fs.table[no].size == 0
    requires out == Full || out == Endless || out == Done
    ensures forall ok :: Left(fs.g, t0, op, StopOf(out, ok), TreeOf(fs))
  {
    hide NamesOf, Content, Readable, FilesIn;
    var t := TreeOf(fs);
    if out == Done && !DirMode(op.mode) {
      EmptyFile(fs.g, fs.disk, fs.table, no);
      FileAdded(t0, t, no);
    } else {
      NoFileChanged(t0, t);
    }
  }

  lemma EmptyFile(g: Geometry, d: seq<byte>, table: map<nat, Inode>, no: nat)
    requires g.Valid() && no in table && table[no].size == 0 && IsFile(NamesOf(g, d, table), no)
    ensures no in FilesIn(g, d, table) && FilesIn(g, d, table)[no] == []
  {
    hide Readable;
  }

  /** The entries of a directory, as it is read and as a node. */
  lemma EntriesAre(fs: FsContext, no: nat)
    requires DirInv(fs) && no in fs.table && fs.table[no].IsDir()
    ensures fs.g.Valid() && no < fs.g.nino && Readable(fs.g, fs.disk, fs.table[no]) && Names(fs)[no].Dir?
    ensures Blank(fs, no) <==> Links.DirEmpty(Names(fs)[no].entries)
  {
    hide VolInv, Content, Readable, DentriesOf, Links.DirEmpty;
    HandFacts(fs, no);
  }

  /** Both inodes an operation needs are brought into the cache. */
  method ReachBoth(fs: FsContext, p: nat, no: nat) returns (stop: Runs.Stop)
    requires DirInv(fs) && p in fs.table && no in fs.table
    modifies fs`buf, fs`cache
    ensures stop == Runs.Going || stop.PhantomMet?
    ensures Halted(fs, stop) && (stop == Runs.Going ==> DirInv(fs) && AtHand(fs, no) && AtHand(fs, p))
  {
    hide DirInv, Runs.Halted;
    stop := Reach(fs, p);
    if stop != Runs.Going { return; }
    stop := Reach(fs, no);
  }

  method DoUnlink(fs: FsContext, op: Op) returns (stop: Runs.Stop)
    requires InUse(fs) && op.Unlink? && Safe(fs.g, TreeOf(fs), op)
    modifies fs
    ensures fs.g.Valid() && Halted(fs, stop) && Left(fs.g, old(TreeOf(fs)), op, stop, TreeOf(fs))
    ensures stop == Runs.Going ==> Links.TreeOk(Names(fs))
    ensures stop == Runs.Refused(Astray) ==> fs.g.E() > 0 && UndoCount(fs.g.E()) > 0
    ensures stop != Runs.Refused(OutOfTable)
    ensures SameSuper(fs.g, old(fs.disk), fs.disk)
  {
    hide VolInv, NamesOf, FilesIn, Content, Readable, Links.TreeOk, ByWrite, NoneLeft, Orderly, UndoCount, Halted,
      StaleFrom, Links.Find;
    ghost var t0 := TreeOf(fs);
    ghost var no := Find(t0.nodes, op.p, op.name);
    NodeFacts(fs, op.p);
    NodeFacts(fs, no);
    ValidNow(fs);
    SuperRefl(fs.g, fs.disk);
    stop := LookUp(fs, op.p, op.name);
    if stop != Runs.Going { return; }
    Reached(fs);
    ghost var b, size := Snap(fs), fs.table[op.p].size;
    var out, ok;
    ghost var mid;
    out, ok, mid := Naming.Unlink(fs, op.p, op.name);
    stop := StopOf(out, ok);
    FilesStay(fs.g, b.disk, b.log.table, fs.disk, fs.table, op.p);
    SuperOf(fs.g, b.disk, b.log.table, fs.disk, fs.table, op.p);
    if out.Failed? || out == Endless { WriteStops(fs, b, op.p, size, out, mid, ok); }
    if out.Failed? { RefusedLeft(fs, t0, b, op, size, out.rc, mid); return; }
    UnlinkLeft(fs, t0, op, no, out);
    Stopped(fs, stop);
  }

  /** lookup of a directory and of what has a name in it, if anything has. */
  method LookUp(fs: FsContext, p: nat, name: string) returns (stop: Runs.Stop)
    requires fs.g.Valid() && DirInv(fs) && p in fs.table && fs.table[p].IsDir() && p < fs.g.nino
    requires Named(fs, p, name) != 0 ==> Named(fs, p, name) in fs.table
    modifies fs`buf, fs`cache
    ensures stop == Runs.Going || stop.PhantomMet?
    ensures Halted(fs, stop)
    ensures stop == Runs.Going ==>
      DirInv(fs) && AtHand(fs, p) && (Named(fs, p, name) != 0 ==> AtHand(fs, Named(fs, p, name)))
  {
    hide VolInv, Runs.Halted, Content, Readable, DentriesOf, Links.Find;
    stop := Reach(fs, p);
    if stop != Runs.Going { return; }
    HandFacts(fs, p);
    var bytes := ReadDir(fs, p);
    var no := FindDentry(bytes, name);
    if no != 0 { stop := ReachBoth(fs, p, no); }
  }

  lemma UnlinkLeft(fs: FsContext, t0: Tree, op: Op, no: nat, out: Outcome)
    requires fs.g.Valid() && op.Unlink? && Safe(fs.g, t0, op) && no == Find(t0.nodes, op.p, op.name)
    requires SameFiles(t0, TreeOf(fs)) && (out == NoEntry || out == Endless || out == Done)
    requires out == NoEntry <==> no == 0
    requires out == NoEntry ==> Names(fs) == t0.nodes && !IsFile(t0.nodes, 0)
    requires out == Endless ==> Names(fs) == Links.Dropped(t0.nodes, op.p, no, false)
    requires out == Done ==> t0.nodes[op.p].nlink > 0 && no < |t0.nodes| && t0.nodes[no].File?
    requires out == Done ==> Names(fs) == Links.Unlinked(t0.nodes, op.p, no)
    ensures forall ok :: Left(fs.g, t0, op, StopOf(out, ok), TreeOf(fs))
  {
    hide NamesOf, Content, Readable, FilesIn, Links.RemoveFirst, Links.Find;
    var t := TreeOf(fs);
    if out == Done && t.nodes[no] == Links.Free { FileGone(t0, t, no); } else { NoFileChanged(t0, t); }
  }

  method DoRmdir(fs: FsContext, op: Op) returns (stop: Runs.Stop)
    requires InUse(fs) && op.Rmdir? && Safe(fs.g, TreeOf(fs), op)
    modifies fs
    ensures fs.g.Valid() && Halted(fs, stop) && Left(fs.g, old(TreeOf(fs)), op, stop, TreeOf(fs))
    ensures stop == Runs.Going ==> Links.TreeOk(Names(fs))
    ensures stop == Runs.Refused(Astray) ==> fs.g.E() > 0 && UndoCount(fs.g.E()) > 0
    ensures stop != Runs.Refused(OutOfTable)
    ensures SameSuper(fs.g, old(fs.disk), fs.disk)
  {
    hide VolInv, NamesOf, FilesIn, Content, Readable, Links.TreeOk, ByWrite, NoneLeft, Orderly, UndoCount, Halted,
      StaleFrom, Links.Find, Blank, Links.DirEmpty;
    ghost var t0 := TreeOf(fs);
    ghost var no := Find(t0.nodes, op.p, op.name);
    NodeFacts(fs, op.p);
    NodeFacts(fs, no);
    NodeFacts(fs, 0);
    ValidNow(fs);
    SuperRefl(fs.g, fs.disk);
    stop := LookUp(fs, op.p, op.name);
    if stop != Runs.Going { return; }
    Reached(fs);
    if no != 0 { EntriesAre(fs, no); }
    ghost var b, size := Snap(fs), fs.table[op.p].size;
    var out, ok;
    ghost var mid;
    out, ok, mid := Naming.Rmdir(fs, op.p, op.name);
    stop := StopOf(out, ok);
    FilesStay(fs.g, b.disk, b.log.table, fs.disk, fs.table, op.p);
    SuperOf(fs.g, b.disk, b.log.table, fs.disk, fs.table, op.p);
    if out.Failed? || out == Endless { WriteStops(fs, b, op.p, size, out, mid, ok); }
    if out.Failed? { RefusedLeft(fs, t0, b, op, size, out.rc, mid); return; }
    RmdirLeft(fs, t0, op, no, out);
    Stopped(fs, stop);
  }

  lemma RmdirLeft(fs: FsContext, t0: Tree, op: Op, no: nat, out: Outcome)
    requires fs.g.Valid() && op.Rmdir? && Safe(fs.g, t0, op) && no == Find(t0.nodes, op.p, op.name)
    requires SameFiles(t0, TreeOf(fs)) && !IsDir(t0.nodes, 0)
    requires (out == NoEntry || out == NotEmpty || out == Endless || out == Done) && (out == NoEntry <==> no == 0)
    requires out == NoEntry || out == NotEmpty ==> Names(fs) == t0.nodes
    requires no != 0 ==> (out == NotEmpty <==> !Links.DirEmpty(t0.nodes[no].entries))
    requires out == Endless ==> Names(fs) == Links.Dropped(t0.nodes, op.p, no, false)
    requires out == Done ==> t0.nodes[op.p].nlink > 0 && Names(fs) == Links.Removed(t0.nodes, op.p, no)
    ensures forall ok :: Left(fs.g, t0, op, StopOf(out, ok), TreeOf(fs))
  {
    hide NamesOf, Content, Readable, FilesIn, Links.RemoveFirst, Links.Find, Links.DirEmpty;
    NoFileChanged(t0, TreeOf(fs));
  }

  method DoLink(fs: FsContext, op: Op) returns (stop: Runs.Stop)
    requires InUse(fs) && op.Link? && Safe(fs.g, TreeOf(fs), op)
    modifies fs
    ensures fs.g.Valid() && Halted(fs, stop) && Left(fs.g, old(TreeOf(fs)), op, stop, TreeOf(fs))
    ensures stop == Runs.Going ==> Links.TreeOk(Names(fs))
    ensures stop == Runs.Refused(Astray) ==> fs.g.E() > 0 && UndoCount(fs.g.E()) > 0
    ensures stop != Runs.Refused(OutOfTable)
    ensures SameSuper(fs.g, old(fs.disk), fs.disk)
  {
    hide VolInv, NamesOf, FilesIn, Content, Readable, Links.TreeOk, ByWrite, NoneLeft, Orderly, UndoCount, Halted,
      MarkedFrom;
    ghost var t0 := TreeOf(fs);
    NodeFacts(fs, op.p);
    NodeFacts(fs, op.no);
    ValidNow(fs);
    SuperRefl(fs.g, fs.disk);
    stop := ReachBoth(fs, op.no, op.p);
    if stop != Runs.Going { return; }
    ghost var b, size := Snap(fs), fs.table[op.p].size + DENTRY;
    var out, ok;
    ghost var mid;
    out, ok, mid := Naming.Link(fs, op.no, op.p, op.name);
    stop := StopOf(out, ok);
    FilesStay(fs.g, b.disk, b.log.table, fs.disk, fs.table, op.p);
    SuperOf(fs.g, b.disk, b.log.table, fs.disk, fs.table, op.p);
    if out.Failed? || out == Endless { WriteStops(fs, b, op.p, size, out, mid, ok); }
    if out.Failed? { RefusedLeft(fs, t0, b, op, size, out.rc, mid); return; }
    LinkLeft(fs, t0, op, out);
    Stopped(fs, stop);
  }

  lemma LinkLeft(fs: FsContext, t0: Tree, op: Op, out: Outcome)
    requires fs.g.Valid() && op.Link? && Safe(fs.g, t0, op)
    requires SameFiles(t0, TreeOf(fs)) && (out == Endless || out == Done)
    requires out == Endless ==> Names(fs) == Links.Added(t0.nodes, op.p, op.name, op.no, false)
    requires out == Done ==> Names(fs) == Links.Linked(t0.nodes, op.p, op.name, op.no)
    ensures forall ok :: Left(fs.g, t0, op, StopOf(out, ok), TreeOf(fs))
  {
    hide NamesOf, Content, Readable, FilesIn;
    NoFileChanged(t0, TreeOf(fs));
  }

  // ---------------------------------------------------------- file operations

  lemma SameReadable(g: Geometry, d0: seq<byte>, d: seq<byte>, ino: Inode)
    requires g.Valid() && |d| == |d0|
    ensures Readable(g, d, ino) <==> Readable(g, d0, ino)
  {
  }

  /** All files and directories but one have the bytes they had. */
  ghost predicate BytesStay(g: Geometry, d0: seq<byte>, table0: map<nat, Inode>, d: seq<byte>, table: map<nat, Inode>,
                            no: nat)
    requires g.Valid()
  {
    && Runs.SameKinds(table0, table)
    && (forall m | m in table :: m < g.nino && Readable(g, d0, table0[m]) && Readable(g, d, table[m]))
    && forall m | m in table && m != no :: Content(g, d, table[m]) == Content(g, d0, table0[m])
  }

  lemma FromViews(g: Geometry, d0: seq<byte>, table0: map<nat, Inode>, d: seq<byte>, table: map<nat, Inode>, no: nat)
    requires g.Valid() && Runs.SameKinds(table0, table)
    requires forall m | m in table0 :: m < g.nino && Readable(g, d0, table0[m])
    requires no in table ==> Readable(g, d, table[no])
    requires Runs.View(g, d, table) - {no} == Runs.View(g, d0, table0) - {no}
    ensures BytesStay(g, d0, table0, d, table, no)
  {
    hide Readable, Content;
    var v0, v := Runs.View(g, d0, table0), Runs.View(g, d, table);
    forall m | m in table && m != no
      ensures Readable(g, d, table[m]) && Content(g, d, table[m]) == Content(g, d0, table0[m])
    {
      assert m in v0 - {no};
      assert m in v - {no} && (v - {no})[m] == (v0 - {no})[m];
    }
  }

  /** A file operation changes no name and no link count, and no file but its own. */
  lemma NamesStay(g: Geometry, d0: seq<byte>, table0: map<nat, Inode>, d: seq<byte>, table: map<nat, Inode>, no: nat)
    requires g.Valid() && BytesStay(g, d0, table0, d, table, no) && !IsDir(NamesOf(g, d0, table0), no)
    ensures NamesOf(g, d, table) == NamesOf(g, d0, table0)
    ensures forall m: nat | m != no ::
      (m in FilesIn(g, d, table) <==> m in FilesIn(g, d0, table0))
      && (m in FilesIn(g, d, table) ==> FilesIn(g, d, table)[m] == FilesIn(g, d0, table0)[m])
    ensures no in FilesIn(g, d, table) <==> no in table
    ensures no in FilesIn(g, d0, table0) <==> no in table
  {
    hide Readable, Content, DentriesOf;
    forall m | 0 <= m < g.nino ensures NamesOf(g, d, table)[m] == NamesOf(g, d0, table0)[m] { }
  }

  lemma FilesViewed(g: Geometry, d: seq<byte>, table: map<nat, Inode>, no: nat)
    requires g.Valid() && no in FilesIn(g, d, table)
    ensures no in Runs.View(g, d, table) && Runs.View(g, d, table)[no] == FilesIn(g, d, table)[no]
  {
    hide Readable, Content;
  }

  /** A file operation does to some of the files what it does to all. */
  lemma AppliedToFiles(g: Geometry, rop: Runs.Op, no: nat, v0: map<nat, seq<byte>>, v: map<nat, seq<byte>>,
                       f0: map<nat, seq<byte>>, f: map<nat, seq<byte>>)
    requires g.Valid() && ((rop.Write? && rop.no == no) || (rop.Truncate? && rop.no == no))
    requires v == Runs.Apply(g, v0, rop) && (no in f <==> no in v) && (no in f0 <==> no in v0)
    requires (no in f ==> f[no] == v[no]) && (no in f0 ==> f0[no] == v0[no])
    requires forall m: nat | m != no :: (m in f <==> m in f0) && (m in f ==> f[m] == f0[m])
    ensures f == Runs.Apply(g, f0, rop)
  {
    var a := Runs.Apply(g, f0, rop);
    assert forall m :: m in f <==> m in a;
    SameMap(f, a);
  }

  lemma RestSame(f0: map<nat, seq<byte>>, f: map<nat, seq<byte>>, no: nat)
    requires forall m: nat | m != no :: (m in f <==> m in f0) && (m in f ==> f[m] == f0[m])
    ensures f - {no} == f0 - {no}
    ensures (no in f <==> no in f0) && (no in f ==> f[no] == f0[no]) ==> f == f0
  {
    assert forall m :: m in f - {no} <==> m in f0 - {no};
    SameMap(f - {no}, f0 - {no});
    if (no in f <==> no in f0) && (no in f ==> f[no] == f0[no]) {
      assert forall m :: m in f <==> m in f0;
      SameMap(f, f0);
    }
  }

  /** From the view of all files, directories among them, to the tree. */
  lemma FileOpLeft(fs: FsContext, d0: seq<byte>, table0: map<nat, Inode>, t0: Tree, op: Op, rop: Runs.Op,
                   stop: Runs.Stop)
    requires fs.g.Valid() && op.OnFile() && !IsDir(t0.nodes, op.no)
    requires t0 == Tree(NamesOf(fs.g, d0, table0), FilesIn(fs.g, d0, table0))
    requires rop == if op.Write? then Runs.Write(op.no, op.off, op.bytes) else Runs.Truncate(op.no, op.len)
    requires Runs.SameKinds(table0, fs.table)
    requires forall m | m in table0 :: m < fs.g.nino && Readable(fs.g, d0, table0[m])
    requires op.no in fs.table ==> Readable(fs.g, fs.disk, fs.table[op.no])
    requires Runs.Left(fs.g, Runs.View(fs.g, d0, table0), rop, stop, Runs.View(fs.g, fs.disk, fs.table))
    requires stop != Runs.NotReopened
    ensures Left(fs.g, t0, op, stop, TreeOf(fs))
  {
    hide Readable, Content, DentriesOf, NamesOf, FilesIn, BytesStay, Runs.View, Runs.SameKinds;
    var g, no, v0, v := fs.g, op.no, Runs.View(fs.g, d0, table0), Runs.View(fs.g, fs.disk, fs.table);
    var f0, f := FilesIn(g, d0, table0), FilesIn(g, fs.disk, fs.table);
    assert v - {no} == v0 - {no};
    FromViews(g, d0, table0, fs.disk, fs.table, no);
    NamesStay(g, d0, table0, fs.disk, fs.table, no);
    ViewKeys(g, d0, table0, no);
    ViewKeys(g, fs.disk, fs.table, no);
    if no in f { FilesViewed(g, fs.disk, fs.table, no); }
    if no in f0 { FilesViewed(g, d0, table0, no); }
    RestSame(f0, f, no);
    if v == Runs.Apply(g, v0, rop) { AppliedToFiles(g, rop, no, v0, v, f0, f); }
  }

  lemma ViewKeys(g: Geometry, d: seq<byte>, table: map<nat, Inode>, no: nat)
    requires g.Valid() && (no in table ==> Readable(g, d, table[no]))
    ensures no in Runs.View(g, d, table) <==> no in table
  {
  }

  lemma DirsWhole(g: Geometry, d0: seq<byte>, table0: map<nat, Inode>, d: seq<byte>, table: map<nat, Inode>, no: nat)
    requires g.Valid() && BytesStay(g, d0, table0, d, table, no) && WholeDirs(table0)
    requires !IsDir(NamesOf(g, d0, table0), no)
    ensures WholeDirs(table)
  {
    hide Readable, Content, DentriesOf;
    forall m | m in table && table[m].IsDir() ensures table[m].size % DENTRY == 0 {
      assert |Content(g, d, table[m])| == table[m].size && |Content(g, d0, table0[m])| == table0[m].size;
      assert NamesOf(g, d0, table0)[m] == NodeOf(g, d0, table0[m]);
    }
  }

  function PlainOp(op: Op): Runs.Op
    requires op.OnFile()
  {
    if op.Write? then Runs.Write(op.no, op.off, op.bytes) else Runs.Truncate(op.no, op.len)
  }

  /** An operation that is safe for the tree is safe for the view of all files. */
  lemma SafeInView(fs: FsContext, op: Op)
    requires fs.g.Valid() && DirInv(fs) && op.OnFile() && Safe(fs.g, TreeOf(fs), op)
    ensures Runs.Safe(fs.g, Runs.View(fs.g, fs.disk, fs.table), PlainOp(op))
  {
    hide VolInv, Content, Readable, NamesOf, Runs.SafeWrite, Runs.SafeTruncate;
    NodeFacts(fs, op.no);
    FilesAre(fs.g, fs.disk, fs.table, op.no);
    if op.no in FilesIn(fs.g, fs.disk, fs.table) { FilesViewed(fs.g, fs.disk, fs.table, op.no); }
  }

  method DoOnFile(fs: FsContext, op: Op) returns (stop: Runs.Stop)
    requires InUse(fs) && op.OnFile() && Safe(fs.g, TreeOf(fs), op)
    modifies fs
    ensures fs.g.Valid() && Halted(fs, stop) && Left(fs.g, old(TreeOf(fs)), op, stop, TreeOf(fs))
    ensures stop == Runs.Going ==> Links.TreeOk(Names(fs))
    ensures stop == Runs.Refused(Astray) ==> fs.g.E() > 0 && UndoCount(fs.g.E()) > 0
    ensures stop == Runs.Refused(Stalled) ==> Runs.ZerosIn(fs.g, old(TreeOf(fs)).files, op.no)
    ensures stop == Runs.Refused(OutOfTable) ==> op.Truncate? && TypeFromSize(fs.g, op.len) == Clin
    ensures SameSuper(fs.g, old(fs.disk), fs.disk)
  {
    hide VolInv, NamesOf, FilesIn, Content, Readable, Links.TreeOk, UndoCount, Runs.View, Runs.Halted, BytesStay,
      ZeroWindowAt, FewEmpty;
    ValidNow(fs);
    Runs.ViewAll(fs, false);
    NodeFacts(fs, op.no);
    SafeInView(fs, op);
    ghost var d0, t0 := fs.disk, TreeOf(fs);
    ghost var table0: map<nat, Inode> := fs.table;
    if op.no in table0 { FilesAre(fs.g, d0, table0, op.no); FilesViewed(fs.g, d0, table0, op.no); }
    if op.Write? {
      stop := Runs.DoWrite(fs, op.no, op.off, op.bytes);
    } else {
      stop := Runs.DoTruncate(fs, op.no, op.len);
    }
    StillReadable(fs, d0, table0, op, stop);
    FileOpLeft(fs, d0, table0, t0, op, PlainOp(op), stop);
    FromViews(fs.g, d0, table0, fs.disk, fs.table, op.no);
    NamesStay(fs.g, d0, table0, fs.disk, fs.table, op.no);
    DirsWhole(fs.g, d0, table0, fs.disk, fs.table, op.no);
    if stop == Runs.Going { GoingOn(fs); }
    CountOfUndo(fs.g);
  }

  lemma CountOfUndo(g: Geometry)
    requires g.Valid()
    ensures forall eb :: !UndoClean(g, eb) ==> g.E() > 0 && UndoCount(g.E()) > 0
  {
  }

  lemma GoingOn(fs: FsContext)
    requires Runs.Halted(fs, Runs.Going)
    ensures VolInv(fs, false)
  {
  }

  lemma StillReadable(fs: FsContext, d0: seq<byte>, table0: map<nat, Inode>, op: Op, stop: Runs.Stop)
    requires fs.g.Valid() && op.OnFile() && |fs.disk| == |d0| && Runs.SameKinds(table0, fs.table)
    requires forall m | m in table0 :: Readable(fs.g, d0, table0[m])
    requires stop.Refused? || stop.PhantomMet? ==> fs.table == table0
    requires Runs.Left(fs.g, Runs.View(fs.g, d0, table0), PlainOp(op), stop, Runs.View(fs.g, fs.disk, fs.table))
    requires stop != Runs.NotReopened
    ensures op.no in fs.table ==> Readable(fs.g, fs.disk, fs.table[op.no])
    ensures Runs.View(fs.g, fs.disk, fs.table) - {op.no} == Runs.View(fs.g, d0, table0) - {op.no}
  {
    hide Readable, Content;
    var no := op.no;
    if no in fs.table {
      if stop.Refused? || stop.PhantomMet? {
        SameReadable(fs.g, d0, fs.disk, fs.table[no]);
      } else {
        assert no in Runs.View(fs.g, d0, table0);
        assert no in Runs.View(fs.g, fs.disk, fs.table);
      }
    }
  }

  // ---------------------------------------------------------- runs

  method DoReopen(fs: FsContext) returns (fs': FsContext, stop: Runs.Stop)
    requires InUse(fs)
    modifies fs
    ensures (fs' == fs || fresh(fs')) && fs'.g == fs.g && fs.g.Valid()
    ensures Halted(fs', stop) && TreeOf(fs') == old(TreeOf(fs)) && (stop == Runs.Going ==> InUse(fs'))
    ensures stop == Runs.Going || stop == Runs.NotReopened
  {
    hide VolInv, SuperOn, MetaFits, Content, Readable, Links.TreeOk, SameContents, NotAtRest;
    ValidNow(fs);
    ghost var d0, table := fs.disk, fs.table;
    fs', stop := Runs.DoReopen(fs);
    NoNodeChanged(fs.g, d0, fs'.disk, table);
    FilesReopened(fs.g, d0, fs'.disk, table);
  }

  lemma FilesReopened(g: Geometry, d0: seq<byte>, d: seq<byte>, table: map<nat, Inode>)
    requires g.Valid() && SameContents(g, d0, d, table, table.Keys)
    ensures FilesIn(g, d, table) == FilesIn(g, d0, table)
  {
    hide Content, Readable;
  }

  method DoOp(fs: FsContext, op: Op) returns (fs': FsContext, stop: Runs.Stop)
    requires InUse(fs) && Safe(fs.g, TreeOf(fs), op)
    modifies fs
    ensures (fs' == fs || fresh(fs')) && fs'.g == fs.g && fs.g.Valid()
    ensures Halted(fs', stop) && Left(fs.g, old(TreeOf(fs)), op, stop, TreeOf(fs'))
    ensures stop == Runs.Going ==> InUse(fs')
    ensures stop == Runs.Refused(Astray) ==> fs.g.E() > 0 && UndoCount(fs.g.E()) > 0
    ensures stop == Runs.Refused(Stalled) && op.OnFile() ==> Runs.ZerosIn(fs.g, old(TreeOf(fs)).files, op.no)
    ensures stop == Runs.Refused(OutOfTable) ==> op.Truncate? && TypeFromSize(fs.g, op.len) == Clin
  {
    hide VolInv, SuperOn, MetaFits, NamesOf, FilesIn, Links.TreeOk, UndoCount, SameSuper, Runs.Halted, Safe,
      Runs.ZerosIn;
    ghost var d0 := fs.disk;
    fs' := fs;
    ValidNow(fs);
    match op {
      case Create(_, _, _, _, _) => stop := DoCreate(fs, op);
      case Unlink(_, _) => stop := DoUnlink(fs, op);
      case Rmdir(_, _) => stop := DoRmdir(fs, op);
      case Link(_, _, _) => stop := DoLink(fs, op);
      case Write(_, _, _) => stop := DoOnFile(fs, op);
      case Truncate(_, _) => stop := DoOnFile(fs, op);
      case Reopen => fs', stop := DoReopen(fs); return;
    }
    Runs.SuperStillOn(fs.g, d0, fs.disk);
    if stop == Runs.Going { Reached(fs); }
  }

  /**
   * A run of operations on files and directories, unmounting and mounting among them. As long as none is refused,
   * everything stays in order, and the tree and its files are what the same operations make of a plain one.
   */
  method Session(fs: FsContext, ops: seq<Op>) returns (fs': FsContext, done: nat, stop: Runs.Stop)
    requires InUse(fs) && SafeAll(fs.g, TreeOf(fs), ops)
    modifies fs
    ensures (fs' == fs || fresh(fs')) && fs'.g == fs.g && fs.g.Valid()
    ensures done <= |ops| && (stop == Runs.Going <==> done == |ops|) && Halted(fs', stop)
    ensures stop == Runs.Going ==> InUse(fs') && TreeOf(fs') == ApplyAll(fs.g, old(TreeOf(fs)), ops)
    ensures stop != Runs.Going ==>
      Left(fs.g, ApplyAll(fs.g, old(TreeOf(fs)), ops[..done]), ops[done], stop, TreeOf(fs'))
    ensures stop == Runs.Refused(Astray) ==> fs.g.E() > 0 && UndoCount(fs.g.E()) > 0
    ensures stop == Runs.Refused(Stalled) && ops[done].OnFile() ==>
      Runs.ZerosIn(fs.g, ApplyAll(fs.g, old(TreeOf(fs)), ops[..done]).files, ops[done].no)
    ensures stop == Runs.Refused(OutOfTable) ==> ops[done].Truncate? && TypeFromSize(fs.g, ops[done].len) == Clin
  {
    hide VolInv, NamesOf, FilesIn, Apply, Safe, UndoCount, Runs.Halted, Runs.ZerosIn, InUse, Left;
    UseValid(fs);
    ghost var t := TreeOf(fs);
    fs', done, stop := fs, 0, Runs.Going;
    assert ops[..0] == [];
    while done < |ops|
      invariant done <= |ops| && stop == Runs.Going && InUse(fs') && fs'.g == fs.g && (fs' == fs || fresh(fs'))
      invariant TreeOf(fs') == ApplyAll(fs.g, t, ops[..done])
      decreases |ops| - done
    {
      assert Safe(fs.g, ApplyAll(fs.g, t, ops[..done]), ops[done]);
      assert ops[..done + 1][..done] == ops[..done];
      fs', stop := DoOp(fs', ops[done]);
      if stop != Runs.Going { return; }
      WentOn(fs.g, ApplyAll(fs.g, t, ops[..done]), ops[done], TreeOf(fs'));
      done := done + 1;
    }
    assert ops[..done] == ops;
    UseValid(fs');
  }

  lemma UseValid(fs: FsContext)
    requires InUse(fs)
    ensures fs.g.Valid() && Halted(fs, Runs.Going)
  {
  }

  lemma WentOn(g: Geometry, t0: Tree, op: Op, t: Tree)
    requires g.Valid() && Left(g, t0, op, Runs.Going, t)
    ensures t == Apply(g, t0, op)
  {
  }

  // ---------------------------------------------------------- from mkfs on

  /** Counting exactly is counting. */
  lemma CountingIsEnough(fs: FsContext)
    requires VolInv(fs, true)
    ensures VolInv(fs, false)
  {
    hide LogInv;
    LiveSubset(fs.g, fs.eb, ClinAll(fs.g, fs.table), ClinAll(fs.g, fs.table), true);
  }

  /**
   * mkfs on a device that is blank behind the root, and mount: a file system in use that has the root directory and
   * no file.
   */
  method Begin(g: Geometry, disk0: seq<byte>, root: Inode, buf: seq<byte>) returns (fs: FsContext)
    requires g.Valid() && WordSized(g) && RootOk(g, root) && |disk0| == g.DeviceSize() && g.blocks >= 2
    requires SizedByMkfs(g) && g.c + 8 * g.blocks <= g.E() && g.blocks - 2 >= g.nerasereserve && |buf| == g.E()
    requires root.IsDir() && root.data[..2 * DENTRY] == NewDirBytes(1, 1) && 640 <= g.c && AllZero(RootRest(g, disk0))
    ensures fresh(fs) && fs.g == g && InUse(fs) && TreeOf(fs).files == map[]
    ensures TreeOf(fs).nodes == seq(g.nino, i => if i == 1 then Links.NewDir(1, 1) else Links.Free)
  {
    hide VolInv, AtRest, SuperOn, MetaFits, ReadUsage, ReadMap, GetSuper, WordSized, SizedByMkfs, RootRest,
      Links.TreeOk, NamesOf, NewDirBytes, Content;
    var disk := Format(g, disk0, root);
    RestMap(g, disk, map[1 := root], map[g.k := [root]], NoWriters(g), true);
    RestSizes(g, disk, map[1 := root], map[g.k := [root]], NoWriters(g));
    fs := Mount.Mount(disk, buf, map[1 := root], map[g.k := [root]], NoWriters(g), true);
    CountingIsEnough(fs);
    RootNames(g, disk, root);
    JustRoot(g, disk, root);
  }

  lemma RestSizes(g: Geometry, d: seq<byte>, table: map<nat, Inode>, groups: map<nat, seq<Inode>>,
                  writer: seq<seq<nat>>)
    requires AtRest(g, d, table, groups, writer, true)
    ensures 4 * g.nino <= g.E() <= |d| && g.c + 8 * g.blocks <= |d|
  {
    hide EbInv, LogInv, VolumeOk;
  }

  lemma JustRoot(g: Geometry, d: seq<byte>, root: Inode)
    requires g.Valid() && root.IsDir()
    ensures FilesIn(g, d, map[1 := root]) == map[]
  {
  }
}
