/** Whole runs: a mounted file system against a plain map from inode numbers to byte sequences. */
module Runs {
  import opened Basics
  import opened Layout
  import opened EraseBlk
  import opened Summaries
  import opened FileData
  import opened IoUnits
  import opened WriteSpec
  import opened IoConvert
  import opened Io
  import opened InodeCodec
  import opened InodeLog
  import opened Inodes
  import opened Volume
  import opened Gc
  import opened MetaData
  import opened Mount

  // ---------------------------------------------------------- the plain file system

  datatype Op =
    | Write(no: nat, off: nat, bytes: seq<byte>)
    | Truncate(no: nat, len: nat)
    | Unlink(no: nat)
    | Create(template: Inode)
    | Reopen

  /** The lowest number from n on that no file has; limit if there is none. */
  function LowestFree(files: map<nat, seq<byte>>, n: nat, limit: nat): (r: nat)
    requires n <= limit
    ensures n <= r <= limit && (r < limit ==> r !in files) && forall i | n <= i < r :: i in files
    decreases limit - n
  {
    if n == limit || n !in files then n else LowestFree(files, n + 1, limit)
  }

  /** What an operation does to a plain map of files. */
  function Apply(g: Geometry, files: map<nat, seq<byte>>, op: Op): map<nat, seq<byte>>
    requires g.Valid()
  {
    match op
    case Write(no, off, bytes) =>
      if no !in files || bytes == [] || Max(|files[no]|, off + |bytes|) > g.MaxEbin() then files
      else files[no := Splice(files[no], bytes, off)]
    case Truncate(no, len) =>
      if no !in files || len > g.MaxEbin() then files else files[no := Resized(files[no], len)]
    case Unlink(no) => files - {no}
    case Create(template) =>
      var no := LowestFree(files, 1, g.nino);
      if no == g.nino || template.size > |template.data| then files else files[no := template.data[..template.size]]
    case Reopen => files
  }

  lemma LowestIs(files: map<nat, seq<byte>>, n: nat, limit: nat, no: nat)
    requires n <= no < limit && no !in files && forall i | n <= i < no :: i in files
    ensures LowestFree(files, n, limit) == no
  {
  }

  function ApplyAll(g: Geometry, files: map<nat, seq<byte>>, ops: seq<Op>): map<nat, seq<byte>>
    requires g.Valid()
  {
    if ops == [] then files else Apply(g, ApplyAll(g, files, ops[..|ops| - 1]), ops[|ops| - 1])
  }

  /**
   * A write that a plain byte sequence would do as well: the file changes its layout, or no gap is opened inside
   * a unit, and the write reaches the end of file or ends in a unit that holds something other than zeros.
   */
  predicate SafeWrite(g: Geometry, file: seq<byte>, off: nat, len: nat)
    requires g.Valid()
  {
    var t, size, last := TypeFromSize(g, |file|), Max(|file|, off + len), off + len - 1;
    t == Emb || TypeFromSize(g, size) != t || len == 0 ||
      var s := UnitSize(g, t);
      Sizes(g);
      && (off <= |file| || |file| % s == 0)
      && (off + len >= |file| || exists x | 0 <= x < |file| :: x / s == last / s && file[x] != 0)
  }

  /**
   * A truncate that cuts off, stays inside the inode, moves to one unit or to erase blocks, or starts on a fresh
   * unit.
   */
  predicate SafeTruncate(g: Geometry, file: seq<byte>, len: nat)
    requires g.Valid()
  {
    var t := TypeFromSize(g, |file|);
    len <= |file| || len > g.MaxEbin() ||
      if TypeFromSize(g, len) == Emb then true
      else if t == Emb then len <= g.c
      else TypeFromSize(g, len) != t || (var s := UnitSize(g, t); Sizes(g); |file| % s == 0)
  }

  /** Operations without a corner. */
  predicate Safe(g: Geometry, files: map<nat, seq<byte>>, op: Op)
    requires g.Valid()
  {
    match op
    case Write(no, off, bytes) => no in files ==> SafeWrite(g, files[no], off, |bytes|)
    case Truncate(no, len) => no in files ==> SafeTruncate(g, files[no], len)
    case Unlink(no) => true
    case Create(template) => InodeOk(g, template) && template.Type() == Emb
    case Reopen => true
  }

  predicate SafeAll(g: Geometry, files: map<nat, seq<byte>>, ops: seq<Op>)
    requires g.Valid()
  {
    forall i | 0 <= i < |ops| :: Safe(g, ApplyAll(g, files, ops[..i]), ops[i])
  }

  // ---------------------------------------------------------- the files of a volume

  /** Every file's bytes. */
  ghost function View(g: Geometry, d: seq<byte>, table: map<nat, Inode>): map<nat, seq<byte>>
    requires g.Valid()
  {
    map no | no in table && Readable(g, d, table[no]) :: Content(g, d, table[no])
  }

  lemma ViewAll(fs: FsContext, exact: bool)
    requires VolInv(fs, exact)
    ensures View(fs.g, fs.disk, fs.table).Keys == fs.table.Keys
    ensures forall no | no in fs.table :: Readable(fs.g, fs.disk, fs.table[no]) && 1 <= no < fs.g.nino
  {
    hide EbInv, SumInv, GcInv, LogInv;
    LogFacts(fs.g, fs.eb, fs.disk, LogOf(fs));
    CoreSizes(fs);
    forall no | no in fs.table ensures Readable(fs.g, fs.disk, fs.table[no]) {
      FileOfVolume(fs.g, fs.eb, fs.table, exact, no);
      FileReadable(fs.g, fs.eb, fs.disk, fs.table[no], ClinAll(fs.g, fs.table - {no}), EbinAll(fs.g, fs.table - {no}),
                   exact);
    }
  }

  /** A change to one file is a change to one entry of the view. */
  lemma ViewChanged(g: Geometry, d0: seq<byte>, d: seq<byte>, table0: map<nat, Inode>, table: map<nat, Inode>, no: nat,
                    size: nat)
    requires g.Valid() && Changed(g, d0, d, table0, table, no, size)
    requires forall m | m in table0 :: Readable(g, d0, table0[m])
    ensures View(g, d, table) == View(g, d0, table0)[no := Content(g, d, table[no])]
  {
    hide Readable, Content;
    var a, b := View(g, d, table), View(g, d0, table0)[no := Content(g, d, table[no])];
    forall m | m in table
      ensures m in table0 && Readable(g, d, table[m])
      ensures (m != no ==> Content(g, d, table[m]) == Content(g, d0, table0[m]))
    {
      if m != no { assert m in table0.Keys - {no} && table[m] == table0[m]; }
    }
    assert a.Keys == b.Keys;
    forall m | m in a ensures a[m] == b[m] { }
  }

  lemma ViewDropped(g: Geometry, d0: seq<byte>, d: seq<byte>, table0: map<nat, Inode>, no: nat)
    requires g.Valid() && SameContents(g, d0, d, table0, table0.Keys - {no})
    requires forall m | m in table0 :: Readable(g, d0, table0[m])
    ensures View(g, d, table0 - {no}) == View(g, d0, table0) - {no}
  {
    forall m | m in table0 - {no}
      ensures Readable(g, d, (table0 - {no})[m]) && Content(g, d, (table0 - {no})[m]) == Content(g, d0, table0[m])
    {
      assert (table0 - {no})[m] == table0[m];
    }
  }

  lemma ViewAdded(g: Geometry, d0: seq<byte>, d: seq<byte>, table0: map<nat, Inode>, no: nat, ino: Inode)
    requires g.Valid() && SameContents(g, d0, d, table0, table0.Keys) && no !in table0
    requires forall m | m in table0 :: Readable(g, d0, table0[m])
    requires InodeOk(g, ino) && ino.Type() == Emb && g.c <= |d| && ino.size <= |ino.data|
    ensures View(g, d, table0[no := ino]) == View(g, d0, table0)[no := ino.data[..ino.size]]
  {
    assert Readable(g, d, ino);
    forall m | m in table0 ensures table0[no := ino][m] == table0[m] { }
  }

  lemma ViewSame(g: Geometry, d0: seq<byte>, d: seq<byte>, table: map<nat, Inode>)
    requires g.Valid() && SameContents(g, d0, d, table, table.Keys)
    ensures View(g, d, table) == View(g, d0, table)
  {
  }

  // ---------------------------------------------------------- one operation

  /** A file that ends with its last unit has nothing but holes behind it. */
  lemma NoGapAtUnit(s: nat, d: seq<byte>, p: seq<nat>, n: nat, size: nat, to: nat)
    requires s > 0 && PtrsIn(d, s, p) && |p| == Units(size, s) <= n && size % s == 0
    ensures PtrsIn(d, s, Extended(p, n)) && GapClean(s, d, Extended(p, n), size, to)
  {
    hide Units;
    var p0 := Extended(p, n);
    DivBounds(size, s);
    UnitsFit(size, s, size / s);
    forall pos: nat | size <= pos < to && pos < |p0| * s ensures ByteAt(d, s, p0, pos) == 0 {
      DivMono(size, pos, s);
      HoleByte(d, s, p0, pos);
    }
  }

  lemma HoleByte(d: seq<byte>, s: nat, p: seq<nat>, pos: nat)
    requires s > 0 && PtrsIn(d, s, p) && pos < |p| * s
    ensures IndFromOffset(s, pos) < |p| && (p[IndFromOffset(s, pos)] == 0 ==> ByteAt(d, s, p, pos) == 0)
  {
    DivBelow(pos, |p|, s);
  }

  /** A unit with a byte other than zero is no hole. */
  lemma NotAHole(s: nat, d: seq<byte>, p: seq<nat>, size: nat, x: nat)
    requires s > 0 && PtrsIn(d, s, p) && x < size <= |p| * s && TableBytes(d, s, p, size)[x] != 0
    ensures IndFromOffset(s, x) < |p| && p[IndFromOffset(s, x)] != 0
  {
    hide ByteAt, IndFromOffset, PtrsIn;
    HoleByte(d, s, p, x);
    assert TableBytes(d, s, p, size)[x] == ByteAt(d, s, p, x);
  }

  lemma SafeWriteClean(g: Geometry, d: seq<byte>, buf: seq<byte>, ino: Inode, off: nat, bytes: seq<byte>)
    requires g.Valid() && Readable(g, d, ino) && |buf| == g.E() && |bytes| > 0 && off + |bytes| <= g.MaxEbin()
    requires SafeWrite(g, Content(g, d, ino), off, |bytes|)
    ensures WriteClean(g, d, buf, ino, off, bytes)
  {
    hide ClinStale, EbinStale, GapClean, TableBytes;
    var size, t, last := Max(ino.size, off + |bytes|), ino.Type(), off + |bytes| - 1;
    if t != Emb && TypeFromSize(g, size) == t {
      Sizes(g);
      UnitsOk(g, ino);
      var s := UnitSize(g, t);
      UnitsMono(ino.size, size, s);
      var p0 := Extended(Ptrs(g, ino), Units(size, s));
      assert GapClean(s, d, p0, ino.size, off) by {
        if off <= ino.size { NothingBetween(s, d, p0, ino.size, off); }
            else { NoGapAtUnit(s, d, Ptrs(g, ino), Units(size, s), ino.size, off); }
      }
      if off + |bytes| < ino.size {
        var file := Content(g, d, ino);
        var x: nat :| x < |file| && x / s == last / s && file[x] != 0;
        NotAHole(s, d, Ptrs(g, ino), ino.size, x);
      }
    }
  }

  lemma NothingBetween(s: nat, d: seq<byte>, p: seq<nat>, size: nat, off: nat)
    requires s > 0 && PtrsIn(d, s, p) && off <= size
    ensures GapClean(s, d, p, size, off)
  {
  }

  lemma OneUnit(g: Geometry, file: seq<byte>, len: nat)
    requires g.Valid() && SafeTruncate(g, file, len) && TypeFromSize(g, |file|) == Emb
    requires |file| < len <= g.MaxEbin() && TypeFromSize(g, len) != Emb
    ensures IndSize(g, len) > 0 && Units(len, IndSize(g, len)) == 1
  {
    Sizes(g);
    UnitsFit(len, IndSize(g, len), 1);
  }

  lemma SafeTruncateClean(g: Geometry, d: seq<byte>, ino: Inode, len: nat)
    requires g.Valid() && Readable(g, d, ino) && len <= g.MaxEbin() && SafeTruncate(g, Content(g, d, ino), len)
    ensures ino.Type() == Emb && TypeFromSize(g, len) != Emb ==> LastPtrClear(g, ino, len)
    ensures len >= ino.size ==> GrowClean(g, d, ino, len)
  {
    hide GapClean, Content, Units, Extended;
    SizeFits(g, len);
    if ino.Type() == Emb {
      if len > ino.size && TypeFromSize(g, len) != Emb { OneUnit(g, Content(g, d, ino), len); }
    } else if len >= ino.size && TypeFromSize(g, len) == ino.Type() {
      Sizes(g);
      UnitsOk(g, ino);
      var s := UnitSize(g, ino.Type());
      if len == ino.size { NothingBetween(s, d, Ptrs(g, ino), ino.size, len); }
      else {
        NoGapAtUnit(s, d, Ptrs(g, ino), |Ptrs(g, ino)|, ino.size, len);
        assert Extended(Ptrs(g, ino), |Ptrs(g, ino)|) == Ptrs(g, ino);
      }
    }
  }

  /**
   * Why a run stops: reading an inode met a phantom, a write or truncate was refused, gc has a block to collect
   * and so never returns, the file system was left out of order, or unmounting left some inodes out or never ended.
   */
  datatype Stop = Going | PhantomMet(no: nat) | Refused(rc: Rc) | GcStuck | Unsound | NotReopened

  ghost predicate Halted(fs: FsContext, stop: Stop)
    reads fs
  {
    match stop
    case Going => VolInv(fs, false)
    case PhantomMet(no) =>
      VolInv(fs, false) && no in fs.table && no < |fs.cache| && fs.cache[no].None? && PhantomAt(fs, no)
    case Refused(rc) =>
      rc == OutOfTable || rc == Stalled || rc == Astray
      || (rc == NoSpc && fs.g.Valid() && FewEmpty(fs.g, fs.eb, fs.g.MaxPtrs()))
    case GcStuck => exists i: nat, b: nat :: Stuck(fs.g, fs.eb, fs.gc, i, b)
    case Unsound => !VolInv(fs, false)
    case NotReopened => NotAtRest(fs)
  }

  /**
   * What the files are when an operation has ended in this way: done, as they were, or as they were but for the one
   * file that was to be written or truncated.
   */
  ghost predicate Left(g: Geometry, files0: map<nat, seq<byte>>, op: Op, stop: Stop, files: map<nat, seq<byte>>)
    requires g.Valid()
  {
    match stop
    case Going => files == Apply(g, files0, op)
    case GcStuck => files == Apply(g, files0, op)
    case Unsound => files == Apply(g, files0, op)
    case PhantomMet(_) => files == files0
    case NotReopened => files == files0
    case Refused(rc) =>
      && (op.Write? || op.Truncate?) && files - {op.no} == files0 - {op.no}
      && (rc == OutOfTable || rc == Astray ==> files == files0)
  }

  lemma ViewOthers(g: Geometry, d0: seq<byte>, d: seq<byte>, table: map<nat, Inode>, no: nat)
    requires g.Valid() && SameContents(g, d0, d, table, table.Keys - {no})
    ensures View(g, d, table) - {no} == View(g, d0, table) - {no}
  {
    var a, b := View(g, d, table) - {no}, View(g, d0, table) - {no};
    forall m | m in table && m != no
      ensures Readable(g, d0, table[m]) && Readable(g, d, table[m])
      ensures Content(g, d, table[m]) == Content(g, d0, table[m])
    {
      assert m in table.Keys - {no};
    }
    assert a.Keys == b.Keys;
    forall m | m in a ensures a[m] == b[m] { }
  }

  /** gc at the end of write and truncate. */
  method Tidy(fs: FsContext) returns (stop: Stop)
    requires VolInv(fs, false)
    modifies fs`buf, fs`gc, fs`eb
    ensures stop == Going <==>
      (forall i: nat, b: nat :: !Stuck(fs.g, old(fs.eb), old(fs.gc), i, b))
          && forall b: nat :: !OpenAndEmpty(fs.g, old(fs.eb), b)
    ensures Halted(fs, stop) && (stop == Going || stop == GcStuck || stop == Unsound)
  {
    hide VolInv, Stuck;
    var odd := exists b: nat | b < |fs.eb| :: OpenAndEmpty(fs.g, fs.eb, b);
    assert odd <==> exists b: nat :: OpenAndEmpty(fs.g, fs.eb, b);
    var rc := CollectGarbage(fs, false);
    stop := if rc.Ok? && !odd then Going else if rc.Ok? then Unsound else GcStuck;
  }

  /** What precedes every operation on a file: is there such a file, and its inode in the cache? */
  method Fetch(fs: FsContext, no: nat) returns (stop: Stop, known: bool)
    requires VolInv(fs, false)
    modifies fs`buf, fs`cache
    ensures known <==> no in fs.table
    ensures stop == Going || stop == PhantomMet(no)
    ensures Halted(fs, stop)
    ensures stop == Going && known ==> no < |fs.cache| && fs.cache[no].Some?
    ensures stop == Going ==> forall m | 0 <= m < |old(fs.cache)| && old(fs.cache)[m].Some? ::
      m < |fs.cache| && fs.cache[m] == old(fs.cache)[m]
  {
    hide SumInv, EbInv, GcInv, LiveOk, EbinLive, Separate, PhantomAt, Same;
    LogFacts(fs.g, fs.eb, fs.disk, LogOf(fs));
    known := 1 <= no < |fs.inoMap| && fs.inoMap[no] != FREE_CL;
    assert 1 <= no < fs.g.nino ==> Entry(fs.g, fs.eb, LogOf(fs), no);
    if !known { return Going, known; }
    CoreSizes(fs);
    if fs.cache[no].None? && PhantomAt(fs, no) { return PhantomMet(no), known; }
    ghost var live, blocks := ClinAll(fs.g, fs.table), EbinAll(fs.g, fs.table);
    var found := LookupNo(fs, no, live, blocks, false);
    stop := Going;
  }

  /** The inode in a filled slot is the one callers work on. */
  lemma AtHand(fs: FsContext, no: nat)
    requires VolInv(fs, false) && no < |fs.cache| && fs.cache[no].Some?
    ensures no in fs.table && fs.cache[no].value.no == no && |fs.buf| == fs.g.E()
    ensures LayoutOk(fs.g, fs.cache[no].value) && fs.cache[no].value.size == fs.table[no].size
    ensures Readable(fs.g, fs.disk, fs.cache[no].value) && Readable(fs.g, fs.disk, fs.table[no])
    ensures Content(fs.g, fs.disk, fs.cache[no].value) == Content(fs.g, fs.disk, fs.table[no])
    ensures |Content(fs.g, fs.disk, fs.table[no])| == fs.table[no].size
  {
    hide EbInv, SumInv, GcInv;
    LogFacts(fs.g, fs.eb, fs.disk, LogOf(fs));
    assert no >= 1;
    assert Entry(fs.g, fs.eb, LogOf(fs), no);
    FileAtHand(fs, false, no);
    SameFile(fs.g, fs.cache[no].value, fs.table[no]);
  }

  /** A write whose conversion never ends has met an erase block's worth of zeros in the file. */
  ghost predicate ZerosIn(g: Geometry, files: map<nat, seq<byte>>, no: nat) {
    no in files && exists w :: ZeroWindowAt(files[no], g.E(), w)
  }

  /** No inode has come or gone, or changed in anything but its size, pointers and bytes. */
  predicate SameKinds(table0: map<nat, Inode>, table: map<nat, Inode>) {
    table.Keys == table0.Keys && forall m | m in table :: SameIdentity(table[m], table0[m])
  }

  method DoWrite(fs: FsContext, no: nat, off: nat, bytes: seq<byte>) returns (stop: Stop)
    requires VolInv(fs, false) && Safe(fs.g, View(fs.g, fs.disk, fs.table), Write(no, off, bytes))
    modifies fs
    ensures SameSuper(fs.g, old(fs.disk), fs.disk)
    ensures Halted(fs, stop) && stop != Refused(OutOfTable)
    ensures stop == Refused(Stalled) ==> ZerosIn(fs.g, old(View(fs.g, fs.disk, fs.table)), no)
    ensures stop == Refused(Astray) ==> fs.g.Valid() && !UndoClean(fs.g, old(fs.eb))
    ensures Left(fs.g, old(View(fs.g, fs.disk, fs.table)), Write(no, off, bytes), stop, View(fs.g, fs.disk, fs.table))
    ensures SameKinds(old(fs.table), fs.table)
    ensures stop.Refused? || stop.PhantomMet? ==> fs.table == old(fs.table)
    ensures stop != NotReopened
  {
    hide SameSuper, SumInv, EbInv, GcInv, LiveOk, EbinLive, LogInv, Kept, Separate, InodeOk, SameContents, WriteClean,
      Content, Splice, Readable, OutOfSpace, FewEmpty, ZeroWindowAt, Stuck, PhantomAt, SafeWrite, UndoClean, Strayed,
      StrayPtrs;
    ValidGeometry(fs);
    SuperRefl(fs.g, fs.disk);
    ViewAll(fs, false);
    ghost var d0 := fs.disk;
    ghost var table0: map<nat, Inode> := fs.table;
    var known;
    stop, known := Fetch(fs, no);
    if stop != Going || !known { return; }
    AtHand(fs, no);
    var ino := fs.cache[no].value;
    ghost var buf0 := fs.buf;
    var rc := WriteFile(fs, ino, bytes, off, false);
    if rc.NoSpc? { RefusedWhenFull(fs.g, fs.eb, ino, SizeAfter(ino, off, |bytes|)); }
    if !rc.Ok? && !rc.FBig? {
      ViewOthers(fs.g, d0, fs.disk, table0, no);
      return Refused(rc);
    }
    if rc.Ok? && bytes != [] {
      SafeWriteClean(fs.g, d0, buf0, ino, off, bytes);
      ViewChanged(fs.g, d0, fs.disk, table0, fs.table, no, SizeAfter(ino, off, |bytes|));
      stop := Tidy(fs);
    }
  }

  method DoTruncate(fs: FsContext, no: nat, len: nat) returns (stop: Stop)
    requires VolInv(fs, false) && Safe(fs.g, View(fs.g, fs.disk, fs.table), Truncate(no, len))
    modifies fs
    ensures SameSuper(fs.g, old(fs.disk), fs.disk)
    ensures Halted(fs, stop)
    ensures stop == Refused(Stalled) ==> ZerosIn(fs.g, old(View(fs.g, fs.disk, fs.table)), no)
    ensures stop == Refused(OutOfTable) ==>
      TypeFromSize(fs.g, len) == Clin && no in old(fs.table) && old(fs.table)[no].Type() == Ebin
    ensures stop == Refused(Astray) ==> fs.g.Valid() && !UndoClean(fs.g, old(fs.eb))
    ensures Left(fs.g, old(View(fs.g, fs.disk, fs.table)), Truncate(no, len), stop, View(fs.g, fs.disk, fs.table))
    ensures SameKinds(old(fs.table), fs.table)
    ensures stop.Refused? || stop.PhantomMet? ==> fs.table == old(fs.table)
    ensures stop != NotReopened
  {
    hide SameSuper, SumInv, EbInv, GcInv, LiveOk, EbinLive, LogInv, Kept, Separate, InodeOk, SameContents, Content,
      Splice, Readable, GrowClean, OutOfSpace, FewEmpty, ZeroWindowAt, Stuck, PhantomAt, SafeTruncate,
      LastPtrClear, UndoClean, Strayed, StrayPtrs;
    ValidGeometry(fs);
    SuperRefl(fs.g, fs.disk);
    ViewAll(fs, false);
    ghost var d0 := fs.disk;
    ghost var table0: map<nat, Inode> := fs.table;
    var known;
    stop, known := Fetch(fs, no);
    if stop != Going || !known { return; }
    AtHand(fs, no);
    TypeAtHand(fs, no);
    var ino := fs.cache[no].value;
    ghost var bytes := Content(fs.g, fs.disk, fs.table[no]);
    if len == ino.size { assert Resized(bytes, len) == bytes; }
    if len <= fs.g.MaxEbin() { SafeTruncateClean(fs.g, d0, ino, len); }
    var rc := TruncateFile(fs, ino, len, false);
    if rc.NoSpc? { RefusedWhenFull(fs.g, fs.eb, ino, len); }
    if !rc.Ok? && !rc.FBig? {
      ViewOthers(fs.g, d0, fs.disk, table0, no);
      return Refused(rc);
    }
    if rc.Ok? && len != ino.size {
      ViewChanged(fs.g, d0, fs.disk, table0, fs.table, no, len);
      stop := Tidy(fs);
    }
  }

  lemma TypeAtHand(fs: FsContext, no: nat)
    requires VolInv(fs, false) && no < |fs.cache| && fs.cache[no].Some? && no in fs.table
    ensures fs.cache[no].value.Type() == fs.table[no].Type()
  {
    hide EbInv, SumInv, GcInv;
    FileAtHand(fs, false, no);
    SameFile(fs.g, fs.cache[no].value, fs.table[no]);
  }

  method DoUnlink(fs: FsContext, no: nat) returns (stop: Stop)
    requires VolInv(fs, false)
    modifies fs
    ensures SameSuper(fs.g, old(fs.disk), fs.disk)
    ensures Halted(fs, stop) && !stop.Refused?
    ensures Left(fs.g, old(View(fs.g, fs.disk, fs.table)), Unlink(no), stop, View(fs.g, fs.disk, fs.table))
  {
    hide SameSuper, SumInv, EbInv, GcInv, LiveOk, EbinLive, LogInv, Kept, Separate, InodeOk, SameContents, Content,
      Readable, PhantomAt;
    ValidGeometry(fs);
    SuperRefl(fs.g, fs.disk);
    ViewAll(fs, false);
    ghost var d0 := fs.disk;
    ghost var table0: map<nat, Inode> := fs.table;
    var known;
    stop, known := Fetch(fs, no);
    if stop != Going || !known { return; }
    AtHand(fs, no);
    var sound := UnlinkFile(fs, no, false);
    ViewDropped(fs.g, d0, fs.disk, table0, no);
    if !sound { stop := Unsound; }
  }

  method DoCreate(fs: FsContext, template: Inode) returns (stop: Stop)
    requires VolInv(fs, false) && InodeOk(fs.g, template) && template.Type() == Emb
    modifies fs
    ensures SameSuper(fs.g, old(fs.disk), fs.disk)
    ensures stop == Going && VolInv(fs, false)
    ensures View(fs.g, fs.disk, fs.table) == Apply(fs.g, old(View(fs.g, fs.disk, fs.table)), Create(template))
  {
    hide SameSuper, SumInv, EbInv, GcInv, LiveOk, EbinLive, LogInv, Kept, Separate, SameContents, Content, Readable;
    ValidGeometry(fs);
    SuperRefl(fs.g, fs.disk);
    ViewAll(fs, false);
    LogFacts(fs.g, fs.eb, fs.disk, LogOf(fs));
    Sizes(fs.g);
    CoreSizes(fs);
    ghost var d0 := fs.disk;
    ghost var table0: map<nat, Inode> := fs.table;
    var no := CreateFile(fs, template, false);
    CoreSizes(fs);
    ghost var files := View(fs.g, d0, table0);
    if no == 0 {
      ViewSame(fs.g, d0, fs.disk, table0);
    } else {
      LowestIs(files, 1, fs.g.nino, no);
      NumberFits(fs.g, template, no);
      ViewAdded(fs.g, d0, fs.disk, table0, no, template.(no := no));
    }
    stop := Going;
  }

  // ---------------------------------------------------------- runs

  /** A mounted volume in order, with its super block in place and room for its meta data. */
  ghost predicate Mounted(fs: FsContext)
    reads fs
  {
    VolInv(fs, false) && SuperOn(fs.g, fs.disk) && MetaFits(fs.g)
  }

  lemma SuperStillOn(g: Geometry, d0: seq<byte>, d: seq<byte>)
    requires g.Valid() && SuperOn(g, d0) && SameSuper(g, d0, d)
    ensures SuperOn(g, d)
  {
    assert d[..128] == d[..g.c][..128] && d0[..128] == d0[..g.c][..128];
  }

  /** unmount and mount. */
  method DoReopen(fs: FsContext) returns (fs': FsContext, stop: Stop)
    requires Mounted(fs)
    modifies fs
    ensures fs' == fs || fresh(fs')
    ensures fs'.g == fs.g && Halted(fs', stop) && (stop == Going || stop == NotReopened)
    ensures stop == Going ==> Mounted(fs')
    ensures View(fs'.g, fs'.disk, fs'.table) == old(View(fs.g, fs.disk, fs.table))
    ensures fs'.table == old(fs.table) && SameContents(fs.g, old(fs.disk), fs'.disk, fs'.table, fs'.table.Keys)
  {
    hide SuperOn, MetaFits, SameContents;
    ValidGeometry(fs);
    ghost var d0 := fs.disk;
    ghost var table0: map<nat, Inode> := fs.table;
    var out;
    out, fs' := Remount(fs, false);
    ViewSame(fs.g, d0, fs'.disk, table0);
    stop := if out == Rested then Going else NotReopened;
  }

  method DoOp(fs: FsContext, op: Op) returns (fs': FsContext, stop: Stop)
    requires Mounted(fs) && Safe(fs.g, View(fs.g, fs.disk, fs.table), op)
    modifies fs
    ensures fs' == fs || fresh(fs')
    ensures fs'.g == fs.g && Halted(fs', stop)
    ensures stop == Refused(Stalled) ==>
      (op.Write? || op.Truncate?) && ZerosIn(fs.g, old(View(fs.g, fs.disk, fs.table)), op.no)
    ensures stop == Refused(OutOfTable) ==> op.Truncate? && TypeFromSize(fs.g, op.len) == Clin
    ensures stop == Refused(Astray) ==> fs.g.E() > 0 && UndoCount(fs.g.E()) > 0 && FewEmpty(fs.g, old(fs.eb), 0)
    ensures stop == Going ==> Mounted(fs')
    ensures Left(fs.g, old(View(fs.g, fs.disk, fs.table)), op, stop, View(fs'.g, fs'.disk, fs'.table))
  {
    hide View, Apply, SafeWrite, SafeTruncate, ZerosIn, StoreInv, VolumeOk, FewEmpty, Stuck, PhantomAt, SuperOn,
      SameSuper, MetaFits, NotAtRest, UndoCount;
    ghost var d0 := fs.disk;
    ValidGeometry(fs);
    fs' := fs;
    match op {
      case Write(no, off, bytes) => stop := DoWrite(fs, no, off, bytes);
      case Truncate(no, len) => stop := DoTruncate(fs, no, len);
      case Unlink(no) => stop := DoUnlink(fs, no);
      case Create(template) => stop := DoCreate(fs, template);
      case Reopen =>
        fs', stop := DoReopen(fs);
        ReopenIsNothing(fs.g, old(View(fs.g, fs.disk, fs.table)));
        return;
    }
    SuperStillOn(fs.g, d0, fs.disk);
  }

  lemma ReopenIsNothing(g: Geometry, files: map<nat, seq<byte>>)
    requires g.Valid()
    ensures Apply(g, files, Reopen) == files
  {
  }

  /**
   * A run of operations on a mounted volume, unmounting and mounting it again among them. As long as none is
   * refused, the volume stays in order and its files are what the same operations make of a plain map of byte
   * sequences.
   */
  method Run(fs: FsContext, ops: seq<Op>) returns (fs': FsContext, done: nat, stop: Stop)
    requires Mounted(fs) && SafeAll(fs.g, View(fs.g, fs.disk, fs.table), ops)
    modifies fs
    ensures fs' == fs || fresh(fs')
    ensures fs'.g == fs.g && done <= |ops| && (stop == Going <==> done == |ops|) && Halted(fs', stop)
    ensures stop == Refused(Stalled) ==>
      (ops[done].Write? || ops[done].Truncate?)
          && ZerosIn(fs.g, ApplyAll(fs.g, old(View(fs.g, fs.disk, fs.table)), ops[..done]), ops[done].no)
    ensures stop == Refused(OutOfTable) ==> ops[done].Truncate? && TypeFromSize(fs.g, ops[done].len) == Clin
    ensures stop == Refused(Astray) ==> fs.g.E() > 0 && UndoCount(fs.g.E()) > 0
    ensures stop != Going ==>
      Left(fs.g, ApplyAll(fs.g, old(View(fs.g, fs.disk, fs.table)), ops[..done]), ops[done], stop,
           View(fs'.g, fs'.disk, fs'.table))
    ensures stop == Going ==>
      Mounted(fs') && View(fs'.g, fs'.disk, fs'.table) == ApplyAll(fs.g, old(View(fs.g, fs.disk, fs.table)), ops)
  {
    hide VolInv, View, Apply, Safe, SafeWrite, SafeTruncate, ZerosIn, FewEmpty, Stuck, PhantomAt, SuperOn, MetaFits,
      NotAtRest, UndoCount;
    ValidGeometry(fs);
    ghost var files := View(fs.g, fs.disk, fs.table);
    fs', done, stop := fs, 0, Going;
    assert ops[..0] == [];
    while done < |ops|
      invariant done <= |ops| && stop == Going && Mounted(fs') && fs'.g == fs.g && (fs' == fs || fresh(fs'))
      invariant View(fs'.g, fs'.disk, fs'.table) == ApplyAll(fs.g, files, ops[..done])
      decreases |ops| - done
    {
      assert Safe(fs.g, ApplyAll(fs.g, files, ops[..done]), ops[done]);
      assert ops[..done + 1][..done] == ops[..done];
      fs', stop := DoOp(fs', ops[done]);
      if stop != Going { return; }
      done := done + 1;
    }
    assert ops[..done] == ops;
  }

  lemma ValidGeometry(fs: FsContext)
    requires VolInv(fs, false)
    ensures fs.g.Valid() && |fs.disk| == fs.g.DeviceSize()
  {
  }
}
