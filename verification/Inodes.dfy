/** inode.cpp and inode_group.cpp as they run: marking, flushing, looking up, creating and freeing inodes. */
module Inodes {
  import opened Basics
  import opened Layout
  import opened EraseBlk
  import opened Summaries
  import opened Allocator
  import opened FileData
  import opened IoUnits
  import opened IoTrunc
  import opened Io
  import opened InodeCodec
  import opened InodeGroups
  import opened InodeLog

  /** The inode log and the data layer below it are both in order. */
  ghost predicate StoreInv(fs: FsContext, live: set<nat>, blocks: set<nat>, exact: bool)
    reads fs
  {
    DataInv(fs, live, blocks, exact) && LogInv(fs.g, fs.eb, fs.disk, LogOf(fs))
  }

  // ---------------------------------------------------------- mark_dirty and reset_dirty

  /** The clean inodes of cluster cl have become one fewer. */
  method OccDec(fs: FsContext, cl: nat)
    requires fs.g.Valid() && cl < |fs.occ| && BlockOf(fs.g, cl) < |fs.eb|
    requires fs.occ[cl] == 1 ==> fs.eb[BlockOf(fs.g, cl)].cvalid > 0
    modifies fs`occ, fs`eb
    ensures fs.occ == OccLess(old(fs.occ), cl) && fs.eb == EbLess(fs.g, old(fs.eb), old(fs.occ), cl)
  {
    fs.occ := fs.occ[cl := fs.occ[cl] - 1];
    if fs.occ[cl] == 0 {
      var b := EbOf(fs.g, cl);
      fs.eb := fs.eb[b := fs.eb[b].(cvalid := fs.eb[b].cvalid - 1)];
    }
  }

  method MarkDirty(fs: FsContext, no: nat)
    requires fs.g.Valid() && no < |fs.inoMap|
    requires no !in fs.dirty && fs.inoMap[no] != RESERVED_CL ==> var cl := fs.inoMap[no];
      cl < |fs.occ| && BlockOf(fs.g, cl) < |fs.eb| && (fs.occ[cl] == 1 ==> fs.eb[BlockOf(fs.g, cl)].cvalid > 0)
    modifies fs`dirty, fs`occ, fs`eb
    ensures fs.dirty == old(fs.dirty) + {no} && fs.eb == EbDirtied(fs.g, old(fs.eb), old(LogOf(fs)), no)
    ensures fs.occ
       == if no !in old(fs.dirty) && fs.inoMap[no] != RESERVED_CL then OccLess(old(fs.occ), fs.inoMap[no])
           else old(fs.occ)
  {
    if no in fs.dirty {
      assert fs.dirty + {no} == fs.dirty;
      return;
    }
    fs.dirty := fs.dirty + {no};
    var cl := fs.inoMap[no];
    if cl != RESERVED_CL { OccDec(fs, cl); }
  }

  method ResetDirty(fs: FsContext, no: nat)
    modifies fs`dirty
    ensures fs.dirty == old(fs.dirty) - {no}
  {
    if no in fs.dirty { fs.dirty := fs.dirty - {no}; }
  }

  /** Counting a cluster out of an inode block keeps the allocator, the summaries and the live data in order. */
  lemma LessKeepsData(g: Geometry, eb: seq<EraseBlock>, d: seq<byte>, sums: SummaryCache, writer: seq<seq<nat>>,
                      occ: seq<int>, cl: nat, live: set<nat>, blocks: set<nat>, exact: bool)
    requires g.Valid() && EbInv(g, eb) && SumInv(g, eb, d, sums, writer) && LiveOk(g, eb, live, exact)
    requires EbinLive(eb, blocks)
    requires cl < |occ| && BlockOf(g, cl) < |eb|
    requires occ[cl] == 1 ==>
      1 <= BlockOf(g, cl) && IsInodeType(eb[BlockOf(g, cl)].etype) && eb[BlockOf(g, cl)].cvalid > 0
    ensures var eb' := EbLess(g, eb, occ, cl);
      && EbInv(g, eb') && SumInv(g, eb', d, sums, writer) && LiveOk(g, eb', live, exact) && EbinLive(eb', blocks)
      && Kept(g, eb, d, eb', d, {})
  {
    if occ[cl] == 1 { DecInodeBlock(g, eb, BlockOf(g, cl), live, exact, blocks); }
    var eb' := EbLess(g, eb, occ, cl);
    assert Kept(g, eb, d, eb', d, {});
    SumKept(g, eb, d, eb', d, {}, sums, writer);
  }

  /** A cached inode changes in memory and is marked dirty. */
  method Update(fs: FsContext, ino: Inode, ghost live: set<nat>, ghost blocks: set<nat>, ghost exact: bool)
    requires StoreInv(fs, live, blocks, exact)
    requires 1 <= ino.no < fs.g.nino && fs.cache[ino.no].Some? && InodeOk(fs.g, ino)
    modifies fs`cache, fs`table, fs`dirty, fs`occ, fs`eb
    ensures StoreInv(fs, live, blocks, exact)
    ensures Kept(fs.g, old(fs.eb), fs.disk, fs.eb, fs.disk, {})
    ensures fs.table == old(fs.table)[ino.no := ino] && fs.cache == old(fs.cache)[ino.no := Some(ino)]
    ensures fs.dirty == old(fs.dirty) + {ino.no}
    ensures SameClin(old(fs.eb), fs.eb) && Marked(fs.g, old(fs.eb), old(LogOf(fs)), ino.no, fs.eb)
  {
    hide SumInv, EbInv, LiveOk, EbinLive, GcInv, EntriesOk, ClustersOk, Together, OccOk, CvalidOk, Kept, InodeOk;
    ghost var eb0, l := fs.eb, LogOf(fs);
    DirtyStep(fs.g, fs.eb, fs.disk, l, ino.no, ino);
    if ino.no !in l.dirty && l.inoMap[ino.no] != RESERVED_CL {
      LessKeepsData(fs.g, fs.eb, fs.disk, fs.sums, fs.writer, fs.occ, l.inoMap[ino.no], live, blocks, exact);
    } else {
      StepRefl(fs.g, fs.eb, fs.disk);
    }
    fs.cache := fs.cache[ino.no := Some(ino)];
    fs.table := fs.table[ino.no := ino];
    MarkDirty(fs, ino.no);
    assert LogOf(fs) == Dirtied(l, ino.no, ino);
    assert fs.eb == EbDirtied(fs.g, eb0, l, ino.no);
  }

  // ---------------------------------------------------------- write_inodes

  /** The inode map, the occupancy and the dirty marks of a group that has just been written. */
  method RecordGroup(fs: FsContext, group: seq<Inode>, cl: nat)
    requires cl < |fs.occ| && forall i | 0 <= i < |group| :: group[i].no < |fs.inoMap|
    modifies fs`inoMap, fs`occ, fs`dirty
    ensures fs.inoMap == Mapped(old(fs.inoMap), group, cl) && fs.dirty == old(fs.dirty) - Nos(group)
    ensures fs.occ == old(fs.occ)[cl := old(fs.occ)[cl] + |group|]
  {
    var i: nat := 0;
    while i < |group|
      invariant i <= |group| && fs.inoMap == Mapped(old(fs.inoMap), group[..i], cl)
      invariant fs.dirty == old(fs.dirty) - Nos(group[..i])
      invariant fs.occ == old(fs.occ)[cl := old(fs.occ)[cl] + i]
    {
      NosMore(group, i);
      fs.inoMap := fs.inoMap[group[i].no := cl];
      fs.occ := fs.occ[cl := fs.occ[cl] + 1];
      ResetDirty(fs, group[i].no);
      i := i + 1;
    }
    assert group[..i] == group;
  }

  lemma NosMore(group: seq<Inode>, i: nat)
    requires i < |group|
    ensures Nos(group[..i + 1]) == Nos(group[..i]) + {group[i].no}
  {
    forall no | no in Nos(group[..i + 1]) ensures no in Nos(group[..i]) + {group[i].no} {
      var j :| 0 <= j < i + 1 && group[..i + 1][j].no == no;
      if j < i { assert group[..i][j].no == no; }
    }
    forall no | no in Nos(group[..i]) ensures no in Nos(group[..i + 1]) {
      var j :| 0 <= j < i && group[..i][j].no == no;
      assert group[..i + 1][j].no == no;
    }
    assert group[..i + 1][i].no == group[i].no;
  }

  /** One group goes to the log: everything stays in agreement, and no inode and no data changes. */
  method WriteGroup(fs: FsContext, t: EbType, group: seq<Inode>, ghost live: set<nat>, ghost blocks: set<nat>,
                    ghost exact: bool)
    returns (rc: Rc, ghost cl: nat)
    requires StoreInv(fs, live, blocks, exact) && IsInodeType(t) && t in GcTypes(fs.g)
    requires DirtyGroup(fs.g, LogOf(fs), group)
    modifies fs`eb, fs`gc, fs`sums, fs`disk, fs`writer, fs`buf, fs`inoMap, fs`occ, fs`dirty, fs`groups
    ensures StoreInv(fs, live, blocks, exact) && (rc == Ok(0) || rc == NoSpc)
    ensures Kept(fs.g, old(fs.eb), old(fs.disk), fs.eb, fs.disk, {})
    ensures rc.NoSpc? ==> fs.eb == old(fs.eb) && fs.disk == old(fs.disk) && LogOf(fs) == old(LogOf(fs))
    ensures rc.NoSpc? ==> CountEmpty(fs.eb, |fs.eb|) <= fs.g.nerasereserve
    ensures rc.NoSpc? ==> forall e: nat :: !Target(fs.g, fs.eb, t, e)
    ensures rc.Ok? ==> Stores(old(LogOf(fs)), LogOf(fs), group, cl) && fs.dirty == old(fs.dirty) - Nos(group)
    ensures fs.sums == old(fs.sums)
    ensures SameClin(old(fs.eb), fs.eb)
  {
    hide SumInv, EbInv, LiveOk, EbinLive, GcInv, EntriesOk, ClustersOk, Together, OccOk, CvalidOk, Kept, InodeOk,
      Target, SameClin;
    CoreSizes(fs);
    StepRefl(fs.g, fs.eb, fs.disk);
    SameClinRefl(fs.eb);
    var ok, e, id := FindWritableCluster(fs, t);
    cl := id;
    if !ok { return NoSpc, cl; }
    StoreGroup(fs, t, e, id, group, live, blocks, exact);
    rc := Ok(0);
  }

  /** The group has gone to a cluster in which no clean inode lived. */
  ghost predicate Stores(l: Log, l': Log, group: seq<Inode>, cl: nat) {
    Real(cl) && cl < |l.occ| && Clean(l, cl) == {} && l' == Stored(l, group, cl)
  }

  method StoreGroup(fs: FsContext, t: EbType, e: nat, cl: nat, group: seq<Inode>,
                    ghost live: set<nat>, ghost blocks: set<nat>, ghost exact: bool)
    requires StoreInv(fs, live, blocks, exact) && IsInodeType(t) && DirtyGroup(fs.g, LogOf(fs), group)
    requires Target(fs.g, fs.eb, t, e) && cl == ClOf(fs.g, e, fs.eb[e].writeops)
    modifies fs`eb, fs`gc, fs`sums, fs`disk, fs`writer, fs`buf, fs`inoMap, fs`occ, fs`dirty, fs`groups
    ensures StoreInv(fs, live, blocks, exact) && Kept(fs.g, old(fs.eb), old(fs.disk), fs.eb, fs.disk, {})
    ensures Stores(old(LogOf(fs)), LogOf(fs), group, cl)
    ensures fs.sums == old(fs.sums)
    ensures SameClin(old(fs.eb), fs.eb)
  {
    hide SumInv, EbInv, LiveOk, EbinLive, GcInv, EntriesOk, ClustersOk, Together, OccOk, CvalidOk, Kept, InodeOk,
      Packed, Written, Target, Shape, SameClin;
    ghost var eb0, d0, l := fs.eb, fs.disk, LogOf(fs);
    CoreSizes(fs);
    Sizes(fs.g);
    FreshInodeCluster(fs.g, fs.eb, l, t, e);
    GroupInodes(fs, group);
    ghost var time := PutInodeCluster(fs, t, e, cl, fs.buf[..fs.g.c]);
    WriteGroupFacts(fs.g, eb0, d0, fs.disk, l, t, e, time, group, live, blocks, exact);
    RecordGroup(fs, group, cl);
    fs.groups := fs.groups[cl := group];
    assert LogOf(fs) == Stored(l, group, cl);
  }

  lemma InodeTarget(g: Geometry, eb: seq<EraseBlock>, t: EbType, e: nat, time: nat)
    requires Target(g, eb, t, e) && IsInodeType(t)
    ensures SameClin(eb, eb[e := Written(g, eb[e], t, time)])
  {
  }

  method PutInodeCluster(fs: FsContext, t: EbType, e: nat, cl: nat, data: seq<byte>) returns (ghost time: nat)
    requires CoreInv(fs) && Target(fs.g, fs.eb, t, e) && IsInodeType(t) && cl == ClOf(fs.g, e, fs.eb[e].writeops)
    requires |data| == fs.g.c
    modifies fs`eb, fs`gc, fs`sums, fs`disk, fs`writer
    ensures CoreInv(fs) && fs.eb == old(fs.eb)[e := Written(fs.g, old(fs.eb)[e], t, time)]
    ensures Kept(fs.g, old(fs.eb), old(fs.disk), old(fs.eb), fs.disk, {})
    ensures old(fs.eb)[e].writeops < fs.g.k && Cluster(fs.g, fs.disk, e, old(fs.eb)[e].writeops) == data
    ensures fs.sums == old(fs.sums)
    ensures SameClin(old(fs.eb), fs.eb)
  {
    hide Written, Target, Kept, OnlyClusterChanged, SameClin, SumInv, EbInv, GcInv;
    CoreSizes(fs);
    FreshCluster(fs.g, fs.eb, fs.disk, fs.sums, fs.writer, t, e, data);
    fs.disk := Patch(fs.disk, cl * fs.g.c, data);
    time := CommitWriteOperation(fs, t, e, 0);
    InodeTarget(fs.g, old(fs.eb), t, e, time);
  }

  lemma WriteGroupFacts(g: Geometry, eb0: seq<EraseBlock>, d0: seq<byte>, d1: seq<byte>, l: Log, t: EbType, e: nat,
                        time: nat, group: seq<Inode>, live: set<nat>, blocks: set<nat>, exact: bool)
    requires LogInv(g, eb0, d0, l) && EbInv(g, eb0) && Target(g, eb0, t, e) && IsInodeType(t) && DirtyGroup(g, l, group)
    requires Kept(g, eb0, d0, eb0, d1, {}) && eb0[e].writeops < g.k
    requires Cluster(g, d1, e, eb0[e].writeops) == Packed(g, group)
    requires LiveOk(g, eb0, live, exact) && EbinLive(eb0, blocks)
    ensures ClOf(g, e, eb0[e].writeops) < |l.occ|
    ensures var eb1 := eb0[e := Written(g, eb0[e], t, time)];
      && LogInv(g, eb1, d1, Stored(l, group, ClOf(g, e, eb0[e].writeops)))
      && LiveOk(g, eb1, live, exact) && EbinLive(eb1, blocks) && Kept(g, eb0, d0, eb1, d1, {})
    ensures forall i | 0 <= i < |group| :: group[i].no < |l.inoMap|
  {
    StoreStep(g, eb0, d0, d1, l, t, e, time, group);
    LiveKeep(g, eb0, t, e, time, live, exact);
    KeptCommit(g, eb0, d1, t, e, time);
    KeptTrans(g, eb0, d0, eb0, d1, eb0[e := Written(g, eb0[e], t, time)], d1, {}, {});
  }

  /** Inodes of the cache, each once, of which those from `done` on are still dirty. */
  predicate ToWrite(g: Geometry, l: Log, inodes: seq<Inode>, done: nat)
    requires g.Valid() && Shape(g, l)
  {
    && done <= |inodes| && AllOk(g, inodes)
    && (forall i, j | 0 <= i < j < |inodes| :: inodes[i].no != inodes[j].no)
    && forall i | done <= i < |inodes| :: inodes[i].no in l.dirty && l.cache[inodes[i].no] == Some(inodes[i])
  }

  lemma NextGroup(g: Geometry, l: Log, inodes: seq<Inode>, done: nat, group: seq<Inode>)
    requires g.Valid() && Shape(g, l) && ToWrite(g, l, inodes, done)
    requires group == inodes[done..][..Greedy(g, inodes[done..], g.c)]
    ensures group != [] ==> DirtyGroup(g, l, group)
    ensures group == [] ==> done == |inodes|
    ensures group == inodes[done..done + |group|]
  {
    GreedyIsLongest(g, inodes[done..], g.c);
    if done < |inodes| { GreedyPositive(g, inodes[done..]); }
  }

  lemma GroupDone(g: Geometry, l: Log, l': Log, inodes: seq<Inode>, done: nat, group: seq<Inode>)
    requires g.Valid() && Shape(g, l) && Shape(g, l') && ToWrite(g, l, inodes, done) && done + |group| <= |inodes|
    requires group == inodes[done..done + |group|] && l'.dirty == l.dirty - Nos(group) && l'.cache == l.cache
    ensures ToWrite(g, l', inodes, done + |group|)
    ensures Nos(inodes[..done + |group|]) == Nos(inodes[..done]) + Nos(group)
  {
    assert forall j | 0 <= j < |group| :: group[j] == inodes[done + j];
    assert inodes[..done + |group|] == inodes[..done] + group;
    NosConcat(inodes[..done], group);
  }

  lemma NosConcat(a: seq<Inode>, b: seq<Inode>)
    ensures Nos(a + b) == Nos(a) + Nos(b)
  {
    forall no | no in Nos(a)
      ensures no in Nos(a + b)
    {
      var i :| 0 <= i < |a| && a[i].no == no; assert (a + b)[i].no == no;
    }
    forall no | no in Nos(b) ensures no in Nos(a + b) {
      var i :| 0 <= i < |b| && b[i].no == no;
      assert (a + b)[|a| + i].no == no;
    }
  }

  lemma NosOne(ino: Inode)
    ensures Nos([ino]) == {ino.no}
  {
    assert [ino][0].no == ino.no;
  }

  /** When inodes are written, only their own marks and map entries change. */
  predicate OnlyWritten(m0: seq<nat>, dirty0: set<nat>, m: seq<nat>, dirty: set<nat>) {
    && |m| == |m0| && dirty <= dirty0
    && forall no: nat | no < |m| && (no !in dirty0 || no in dirty) :: m[no] == m0[no]
  }

  lemma NoneWritten(m: seq<nat>, dirty: set<nat>)
    ensures OnlyWritten(m, dirty, m, dirty)
  {
  }

  lemma GroupWritten(g: Geometry, m0: seq<nat>, dirty0: set<nat>, l: Log, l': Log, group: seq<Inode>, cl: nat)
    requires g.Valid() && Shape(g, l) && DirtyGroup(g, l, group) && Stores(l, l', group, cl)
    requires OnlyWritten(m0, dirty0, l.inoMap, l.dirty)
    ensures OnlyWritten(m0, dirty0, l'.inoMap, l'.dirty)
  {
    hide GroupOk;
    forall no | no in Nos(group) ensures no in l.dirty { }
  }

  /** All that writing inodes changes. */
  ghost predicate Stepped(g: Geometry, eb0: seq<EraseBlock>, d0: seq<byte>, m0: seq<nat>, dirty0: set<nat>,
                          eb: seq<EraseBlock>, d: seq<byte>, m: seq<nat>, dirty: set<nat>)
    requires g.Valid()
  {
    Kept(g, eb0, d0, eb, d, {}) && SameClin(eb0, eb) && OnlyWritten(m0, dirty0, m, dirty)
  }

  lemma NoStep(g: Geometry, eb: seq<EraseBlock>, d: seq<byte>, m: seq<nat>, dirty: set<nat>)
    requires g.Valid() && |eb| == g.blocks && |d| == g.DeviceSize()
    ensures Stepped(g, eb, d, m, dirty, eb, d, m, dirty)
  {
    StepRefl(g, eb, d);
    NoneWritten(m, dirty);
  }

  lemma Unstep(g: Geometry, eb0: seq<EraseBlock>, d0: seq<byte>, m0: seq<nat>, dirty0: set<nat>,
               eb: seq<EraseBlock>, d: seq<byte>, m: seq<nat>, dirty: set<nat>)
    requires g.Valid() && Stepped(g, eb0, d0, m0, dirty0, eb, d, m, dirty)
    ensures Kept(g, eb0, d0, eb, d, {}) && SameClin(eb0, eb) && OnlyWritten(m0, dirty0, m, dirty)
  {
  }

  lemma GroupStep(g: Geometry, eb0: seq<EraseBlock>, d0: seq<byte>, m0: seq<nat>, dirty0: set<nat>,
                  eb1: seq<EraseBlock>, d1: seq<byte>, l: Log, eb: seq<EraseBlock>, d: seq<byte>, l': Log,
                  group: seq<Inode>, cl: nat)
    requires g.Valid() && Stepped(g, eb0, d0, m0, dirty0, eb1, d1, l.inoMap, l.dirty)
    requires Kept(g, eb1, d1, eb, d, {}) && SameClin(eb1, eb)
    requires Shape(g, l) && DirtyGroup(g, l, group) && Stores(l, l', group, cl)
    ensures Stepped(g, eb0, d0, m0, dirty0, eb, d, l'.inoMap, l'.dirty)
  {
    hide Kept, SameClin, OnlyWritten, Shape, DirtyGroup, Stores;
    KeptTrans(g, eb0, d0, eb1, d1, eb, d, {}, {});
    SameClinTrans(eb0, eb1, eb);
    GroupWritten(g, m0, dirty0, l, l', group, cl);
  }

  lemma WrittenTwice(m0: seq<nat>, dirty0: set<nat>, m1: seq<nat>, dirty1: set<nat>, m: seq<nat>, dirty: set<nat>)
    requires OnlyWritten(m0, dirty0, m1, dirty1) && OnlyWritten(m1, dirty1, m, dirty)
    ensures OnlyWritten(m0, dirty0, m, dirty)
  {
  }

  /** write_inodes */
  method WriteInodes(fs: FsContext, inodes: seq<Inode>, ghost live: set<nat>, ghost blocks: set<nat>, ghost exact: bool)
    returns (rc: Rc, ghost cls: seq<nat>)
    requires StoreInv(fs, live, blocks, exact) && ToWrite(fs.g, LogOf(fs), inodes, 0)
    modifies fs`eb, fs`gc, fs`sums, fs`disk, fs`writer, fs`buf, fs`inoMap, fs`occ, fs`dirty, fs`groups
    ensures StoreInv(fs, live, blocks, exact) && (rc == Ok(0) || rc == NoSpc)
    ensures Kept(fs.g, old(fs.eb), old(fs.disk), fs.eb, fs.disk, {})
    ensures fs.dirty <= old(fs.dirty) && (rc.Ok? ==> fs.dirty == old(fs.dirty) - Nos(inodes))
    ensures rc.Ok? ==> Packs(fs.g, fs.disk, LogOf(fs), Groups(fs.g, inodes), cls)
    ensures rc.NoSpc? ==> inodes != [] && NoRoom(fs.g, fs.eb, Emb, inodes[0].IsDir())
    ensures fs.sums == old(fs.sums) && OnlyWritten(old(fs.inoMap), old(fs.dirty), fs.inoMap, fs.dirty)
    ensures SameClin(old(fs.eb), fs.eb)
  {
    hide CoreInv, DataInv, LiveOk, EbinLive, EntriesOk, ClustersOk, Together, OccOk, CvalidOk, Kept, AllOk, ToWrite,
      Greedy, DirtyGroup, GroupSize, EbTypeFor, GcTypes, Groups, Stores, HoldsGroup, Packs, OnlyWritten, SameClin,
      Stepped;
    StoreKept(fs, live, blocks, exact);
    ghost var m0 := fs.inoMap;
    NoStep(fs.g, fs.eb, fs.disk, fs.inoMap, fs.dirty);
    NonePacked(fs.g, fs.disk, LogOf(fs));
    assert Nos([]) == {};
    assert fs.dirty - {} == fs.dirty;
    ghost var stored := [];
    cls := [];
    if inodes == [] {
      GroupsStep(fs.g, inodes, 0, []);
      Unstep(fs.g, fs.eb, fs.disk, m0, fs.dirty, fs.eb, fs.disk, fs.inoMap, fs.dirty);
      assert Groups(fs.g, inodes) == [];
      return Ok(0), cls;
    }
    var forDentry := inodes[0].IsDir();
    var slots := seq(|inodes|, i requires 0 <= i < |inodes| => Some(inodes[i]));
    ghost var done, eb0, d0, dirty0 := 0, fs.eb, fs.disk, fs.dirty;
    assert inodes[..0] == [] && inodes[0..] == inodes;
    var more := true;
    while more
      invariant StoreInv(fs, live, blocks, exact) && ToWrite(fs.g, LogOf(fs), inodes, done)
      invariant Slots(slots, inodes, done)
      invariant Stepped(fs.g, eb0, d0, m0, dirty0, fs.eb, fs.disk, fs.inoMap, fs.dirty)
      invariant fs.dirty == dirty0 - Nos(inodes[..done]) && fs.sums == old(fs.sums)
      invariant !more ==> done == |inodes|
      invariant Packs(fs.g, fs.disk, LogOf(fs), stored, cls)
      invariant stored + Groups(fs.g, inodes[done..]) == Groups(fs.g, inodes)
      decreases |inodes| - done, more
    {
      var group, size;
      slots, group, size := GetInodeGroup(fs.g, slots, inodes, done);
      NextGroup(fs.g, LogOf(fs), inodes, done, group);
      GroupsStep(fs.g, inodes, done, group);
      if group == [] {
        more := false;
      } else {
        ghost var l, eb1, d1 := LogOf(fs), fs.eb, fs.disk;
        ghost var cl;
        rc, cl := WriteGroup(fs, EbTypeFor(fs.g, Emb, forDentry), group, live, blocks, exact);
        if rc.NoSpc? { Unstep(fs.g, eb0, d0, m0, dirty0, fs.eb, fs.disk, fs.inoMap, fs.dirty); return; }
        OneMorePacked(fs.g, d1, fs.disk, l, LogOf(fs), stored, cls, group, cl);
        GroupStep(fs.g, eb0, d0, m0, dirty0, eb1, d1, l, fs.eb, fs.disk, LogOf(fs), group, cl);
        GroupDone(fs.g, l, LogOf(fs), inodes, done, group);
        stored, cls := stored + [group], cls + [cl];
        done := done + |group|;
      }
    }
    Unstep(fs.g, eb0, d0, m0, dirty0, fs.eb, fs.disk, fs.inoMap, fs.dirty);
    assert inodes[..done] == inodes;
    GroupsStep(fs.g, inodes, done, []);
    assert stored == Groups(fs.g, inodes);
    rc := Ok(0);
  }

  lemma GroupsStep(g: Geometry, inodes: seq<Inode>, done: nat, group: seq<Inode>)
    requires g.Valid() && done <= |inodes| && done + |group| <= |inodes|
    requires group == inodes[done..][..Greedy(g, inodes[done..], g.c)]
    ensures group == [] ==> Groups(g, inodes[done..]) == []
    ensures group != [] ==> Groups(g, inodes[done..]) == [group] + Groups(g, inodes[done + |group|..])
  {
    assert inodes[done..][|group|..] == inodes[done + |group|..];
  }

  /** Cluster cl holds this group, packed, and its inodes live there. */
  ghost predicate HoldsGroup(g: Geometry, d: seq<byte>, l: Log, group: seq<Inode>, cl: nat)
    requires g.Valid()
  {
    && Real(cl) && ClusterHolds(g, d, l, cl) && l.groups[cl] == group && group != []
    && forall i | 0 <= i < |group| ::
      1 <= group[i].no < |l.inoMap| && l.inoMap[group[i].no] == cl && group[i].no !in l.dirty
  }

  /** The groups lie in these clusters, one to a cluster. */
  ghost predicate Packs(g: Geometry, d: seq<byte>, l: Log, groups: seq<seq<Inode>>, cls: seq<nat>)
    requires g.Valid()
  {
    |cls| == |groups| && forall i | 0 <= i < |cls| :: HoldsGroup(g, d, l, groups[i], cls[i])
  }

  lemma NonePacked(g: Geometry, d: seq<byte>, l: Log)
    requires g.Valid()
    ensures Packs(g, d, l, [], [])
  {
  }

  /** Storing one more group leaves the ones stored before where they are. */
  lemma OneMorePacked(g: Geometry, d: seq<byte>, d': seq<byte>, l: Log, l': Log, groups: seq<seq<Inode>>, cls: seq<nat>,
                      group: seq<Inode>, cl: nat)
    requires g.Valid() && Shape(g, l) && Shape(g, l') && ClustersOk(g, d', l') && Packs(g, d, l, groups, cls)
    requires DirtyGroup(g, l, group) && Stores(l, l', group, cl)
    ensures Packs(g, d', l', groups + [group], cls + [cl])
  {
    forall i | 0 <= i < |cls| ensures HoldsGroup(g, d', l', groups[i], cls[i]) {
      assert HoldsGroup(g, d, l, groups[i], cls[i]);
      var no := groups[i][0].no;
      assert no in Clean(l, cls[i]);
      assert l'.inoMap[no] == cls[i] && no !in l'.dirty;
    }
    assert l'.inoMap[group[0].no] == cl && group[0].no in Nos(group);
  }

  lemma StoreKept(fs: FsContext, live: set<nat>, blocks: set<nat>, exact: bool)
    requires StoreInv(fs, live, blocks, exact)
    ensures Kept(fs.g, fs.eb, fs.disk, fs.eb, fs.disk, {})
  {
    StepRefl(fs.g, fs.eb, fs.disk);
  }

  // ---------------------------------------------------------- flush_inodes

  /** The dirty numbers whose cached inode is a directory, or is none. */
  function DirtyOf(cache: seq<Option<Inode>>, dirty: set<nat>, dentries: bool): set<nat> {
    set no | no in dirty && no < |cache| && cache[no].Some? && cache[no].value.IsDir() == dentries
  }

  /** get_dirty_inodes: a scan over the cache slots. */
  method GetDirtyInodes(fs: FsContext, dentries: bool) returns (found: seq<Inode>)
    requires LogInv(fs.g, fs.eb, fs.disk, LogOf(fs))
    ensures ToWrite(fs.g, LogOf(fs), found, 0) && Nos(found) == DirtyOf(fs.cache, fs.dirty, dentries)
  {
    hide ClustersOk, Together, OccOk, CvalidOk;
    found := [];
    var i: nat := 1;
    assert DirtyOf(fs.cache[..1], fs.dirty, dentries) == {};
    while i < |fs.cache|
      invariant 1 <= i <= |fs.cache|
      invariant ToWrite(fs.g, LogOf(fs), found, 0) && Nos(found) == DirtyOf(fs.cache[..i], fs.dirty, dentries)
      invariant forall j | 0 <= j < |found| :: found[j].no < i
    {
      ScanMore(fs.g, fs.eb, LogOf(fs), found, i, dentries);
      if fs.cache[i].Some? && i in fs.dirty && fs.cache[i].value.IsDir() == dentries {
        found := found + [fs.cache[i].value];
      }
      i := i + 1;
    }
    assert fs.cache[..i] == fs.cache;
  }

  lemma ScanMore(g: Geometry, eb: seq<EraseBlock>, l: Log, found: seq<Inode>, i: nat, dentries: bool)
    requires g.Valid() && Shape(g, l) && EntriesOk(g, eb, l) && ToWrite(g, l, found, 0) && 1 <= i < g.nino
    requires Nos(found) == DirtyOf(l.cache[..i], l.dirty, dentries) && forall j | 0 <= j < |found| :: found[j].no < i
    ensures l.cache[i].Some? ==> l.cache[i].value.no == i
    ensures if l.cache[i].Some? && i in l.dirty && l.cache[i].value.IsDir() == dentries then
        var more := found + [l.cache[i].value];
        ToWrite(g, l, more, 0) && Nos(more) == DirtyOf(l.cache[..i + 1], l.dirty, dentries)
      else DirtyOf(l.cache[..i + 1], l.dirty, dentries) == DirtyOf(l.cache[..i], l.dirty, dentries)
  {
    assert Entry(g, eb, l, i);
    if l.cache[i].Some? && i in l.dirty && l.cache[i].value.IsDir() == dentries {
      NosConcat(found, [l.cache[i].value]);
      NosOne(l.cache[i].value);
      assert DirtyOf(l.cache[..i + 1], l.dirty, dentries) == DirtyOf(l.cache[..i], l.dirty, dentries) + {i};
    }
  }

  /** Directories first, then the rest: that is every dirty inode. */
  lemma DirtyKinds(g: Geometry, eb: seq<EraseBlock>, l: Log)
    requires g.Valid() && Shape(g, l) && EntriesOk(g, eb, l)
    ensures l.dirty == DirtyOf(l.cache, l.dirty, true) + DirtyOf(l.cache, l.dirty, false)
  {
    forall no | no in l.dirty ensures l.cache[no].Some? { assert Entry(g, eb, l, no); }
  }

  /**
   * flush_inodes. No inode changes by being written: the table stays what it is. A forced flush that succeeds
   * leaves nothing dirty, and any that succeeds leaves fewer dirty inodes than trigger one.
   */
  method FlushInodes(fs: FsContext, force: bool, ghost live: set<nat>, ghost blocks: set<nat>, ghost exact: bool)
    returns (rc: Rc)
    requires StoreInv(fs, live, blocks, exact)
    modifies fs`eb, fs`gc, fs`sums, fs`disk, fs`writer, fs`buf, fs`inoMap, fs`occ, fs`dirty, fs`groups
    ensures StoreInv(fs, live, blocks, exact) && (rc == Ok(0) || rc == NoSpc)
    ensures Kept(fs.g, old(fs.eb), old(fs.disk), fs.eb, fs.disk, {})
    ensures fs.dirty <= old(fs.dirty)
    ensures rc.NoSpc? ==> NoRoom(fs.g, fs.eb, Emb, true) || NoRoom(fs.g, fs.eb, Emb, false)
    ensures !force && |old(fs.dirty)| < fs.g.ninoopen ==>
      rc.Ok? && fs.dirty == old(fs.dirty) && fs.disk == old(fs.disk) && fs.inoMap == old(fs.inoMap)
    ensures rc.Ok? && (force || |old(fs.dirty)| >= fs.g.ninoopen) ==> fs.dirty == {}
    ensures rc.Ok? ==> |fs.dirty| < fs.g.ninoopen
    ensures fs.sums == old(fs.sums) && OnlyWritten(old(fs.inoMap), old(fs.dirty), fs.inoMap, fs.dirty)
    ensures SameClin(old(fs.eb), fs.eb)
    ensures !force && |old(fs.dirty)| < fs.g.ninoopen ==> fs.eb == old(fs.eb) && fs.gc == old(fs.gc)
  {
    hide DataInv, EntriesOk, ClustersOk, Together, OccOk, CvalidOk, Kept, ToWrite, NoRoom, OnlyWritten, SameClin;
    StoreKept(fs, live, blocks, exact);
    NoneWritten(fs.inoMap, fs.dirty);
    SameClinRefl(fs.eb);
    if !force && |fs.dirty| < fs.g.ninoopen { return Ok(0); }
    ghost var l, eb0, d0 := LogOf(fs), fs.eb, fs.disk;
    DirtyKinds(fs.g, fs.eb, l);
    var inodes := GetDirtyInodes(fs, true);
    ghost var cls;
    rc, cls := WriteInodes(fs, inodes, live, blocks, exact);
    if rc.Ok? {
      ghost var eb1, d1, m1, dirty1 := fs.eb, fs.disk, fs.inoMap, fs.dirty;
      inodes := GetDirtyInodes(fs, false);
      rc, cls := WriteInodes(fs, inodes, live, blocks, exact);
      KeptTrans(fs.g, eb0, d0, eb1, d1, fs.eb, fs.disk, {}, {});
      SameClinTrans(eb0, eb1, fs.eb);
      WrittenTwice(l.inoMap, l.dirty, m1, dirty1, fs.inoMap, fs.dirty);
    }
  }

  // ---------------------------------------------------------- lookup_no

  /** inode_cache_insert for every inode of a list. */
  method InsertAll(fs: FsContext, inodes: seq<Inode>)
    requires forall i | 0 <= i < |inodes| :: inodes[i].no < |fs.cache|
    modifies fs`cache
    ensures |fs.cache| == |old(fs.cache)|
    ensures (forall i, j | 0 <= i < j < |inodes| :: inodes[i].no != inodes[j].no) ==>
      Filled(old(fs.cache), fs.cache, inodes)
  {
    ghost var once := forall i, j | 0 <= i < j < |inodes| :: inodes[i].no != inodes[j].no;
    var n: nat := 0;
    while n < |inodes|
      invariant n <= |inodes| && |fs.cache| == |old(fs.cache)|
      invariant once ==> Filled(old(fs.cache), fs.cache, inodes[..n])
    {
      assert forall i | 0 <= i < n :: inodes[..n + 1][i] == inodes[..n][i];
      assert inodes[..n + 1][n] == inodes[n];
      fs.cache := fs.cache[inodes[n].no := Some(inodes[n])];
      n := n + 1;
    }
    assert inodes[..n] == inodes;
  }

  /** Whether reading the cluster of inode `no` meets a phantom, given what the buffer holds before. */
  predicate PhantomAt(fs: FsContext, no: nat)
    reads fs
    requires LogInv(fs.g, fs.eb, fs.disk, LogOf(fs)) && |fs.buf| == fs.g.E() && no in fs.table && fs.cache[no].None?
  {
    CurrentHas(fs.g, fs.eb, fs.disk, LogOf(fs), no);
    BufferSize(fs.g);
    var cl := fs.inoMap[no];
    PhantomSeen(fs.g, fs.inoMap, cl, Patch(fs.buf, 0, Chunk(fs.disk, fs.g.c, cl)))
  }

  lemma BufferSize(g: Geometry)
    requires g.Valid()
    ensures g.c + INODE_SIZE <= g.E()
  {
    MulMono(2, g.k, g.c);
  }

  /**
   * lookup_no of a number in use. It returns the current version: the cached inode, or the one read from the
   * log; reading fills empty slots of the cache only, so no cached inode is overwritten. The one way to fail
   * is a phantom in the padding of the cluster.
   */
  method LookupNo(fs: FsContext, no: nat, ghost live: set<nat>, ghost blocks: set<nat>, ghost exact: bool)
    returns (found: Option<Inode>)
    requires StoreInv(fs, live, blocks, exact) && no in fs.table
    modifies fs`buf, fs`cache
    ensures no < |old(fs.cache)|
    ensures !old(fs.cache[no].None? && PhantomAt(fs, no)) ==>
      && StoreInv(fs, live, blocks, exact)
      && found.Some? && fs.cache[no] == found && Same(fs.g, found.value, fs.table[no])
      && forall x: nat | x < |old(fs.cache)| && old(fs.cache)[x].Some? ::
        x < |fs.cache| && fs.cache[x] == old(fs.cache)[x]
  {
    hide SumInv, EbInv, GcInv, LiveOk, EbinLive, LogInv, PhantomSeen, Same;
    LogFacts(fs.g, fs.eb, fs.disk, LogOf(fs));
    CachedSame(fs.g, fs.eb, LogOf(fs), no);
    found := fs.cache[no];
    if found.Some? { return; }
    CoreSizes(fs);
    var loaded := LoadCluster(fs, no, PhantomAt(fs, no));
    if !loaded { return None; }
    found := fs.cache[no];
  }

  /** The part of lookup_no that reads the inode's cluster. */
  method LoadCluster(fs: FsContext, no: nat, ghost phantom: bool) returns (loaded: bool)
    requires LogInv(fs.g, fs.eb, fs.disk, LogOf(fs)) && |fs.buf| == fs.g.E() && no in fs.table
    requires no < |fs.cache| && fs.cache[no].None? && phantom == PhantomAt(fs, no)
    modifies fs`buf, fs`cache
    ensures |fs.buf| == |old(fs.buf)| && |fs.cache| == |old(fs.cache)|
    ensures !phantom ==>
      && loaded && LogInv(fs.g, fs.eb, fs.disk, LogOf(fs))
      && fs.cache[no].Some? && Same(fs.g, fs.cache[no].value, fs.table[no])
      && forall x: nat | x < |fs.cache| && old(fs.cache)[x].Some? :: fs.cache[x] == old(fs.cache)[x]
  {
    hide EntriesOk, ClustersOk, Together, OccOk, CvalidOk, Current, ParseFrom, Phantom, PhantomSeen, Packed, InodeOk,
      Norm, GroupSize;
    ghost var l, buf0 := LogOf(fs), fs.buf;
    CurrentHas(fs.g, fs.eb, fs.disk, l, no);
    BufferSize(fs.g);
    var cl := fs.inoMap[no];
    ghost var group, current := fs.groups[cl], Current(fs.g, fs.inoMap, cl, fs.groups[cl]);
    var inodes := ReadInodeGroup(fs, cl);
    BufferIs(fs.buf, buf0, fs.g.c, Chunk(fs.disk, fs.g.c, cl));
    PackParse(fs.g, fs.inoMap, cl, fs.buf, group);
    PhantomIsSeen(fs.g, fs.inoMap, cl, fs.buf, group);
    assert phantom <==> inodes != Some(current);
    if inodes.None? || inodes.value == [] { return false; }
    ParsedHaveSlots(fs.g, fs.inoMap, cl, fs.buf, 0);
    if inodes == Some(current) { CurrentMembers(fs.g, fs.inoMap, cl, group); }
    InsertAll(fs, inodes.value);
    if inodes == Some(current) { LookupStep(fs.g, fs.eb, fs.disk, l, no, fs.cache); }
    loaded := true;
  }

  lemma CurrentHas(g: Geometry, eb: seq<EraseBlock>, d: seq<byte>, l: Log, no: nat)
    requires LogInv(g, eb, d, l) && no in l.table && l.cache[no].None?
    ensures 1 <= no < g.nino && Real(l.inoMap[no]) && ClusterHolds(g, d, l, l.inoMap[no]) && InodeOk(g, l.table[no])
    ensures Norm(g, l.table[no]) in Current(g, l.inoMap, l.inoMap[no], l.groups[l.inoMap[no]])
  {
    LookupStep(g, eb, d, l, no, l.cache);
    var cl := l.inoMap[no];
    assert Entry(g, eb, l, no);
    CurrentMembers(g, l.inoMap, cl, l.groups[cl]);
    var i :| 0 <= i < |l.groups[cl]| && l.groups[cl][i].no == no && Same(g, l.groups[cl][i], l.table[no]);
    assert Norm(g, l.groups[cl][i]) == Norm(g, l.table[no]);
  }

  lemma LogFacts(g: Geometry, eb: seq<EraseBlock>, d: seq<byte>, l: Log)
    requires LogInv(g, eb, d, l)
    ensures g.Valid() && Shape(g, l) && EntriesOk(g, eb, l)
  {
  }

  lemma CachedSame(g: Geometry, eb: seq<EraseBlock>, l: Log, no: nat)
    requires g.Valid() && Shape(g, l) && EntriesOk(g, eb, l) && no in l.table
    ensures 1 <= no < |l.cache| && (l.cache[no].Some? ==> Same(g, l.cache[no].value, l.table[no]))
  {
    assert Entry(g, eb, l, no);
  }

  lemma BufferIs(buf: seq<byte>, buf0: seq<byte>, c: nat, chunk: seq<byte>)
    requires |chunk| == c <= |buf| == |buf0| && buf[..c] == chunk && buf[c..] == buf0[c..]
    ensures buf == Patch(buf0, 0, chunk)
  {
    assert buf == buf[..c] + buf[c..];
  }

  // ---------------------------------------------------------- release_inodes

  /** release_inodes, up to the garbage collection at its end: afterwards the log alone holds every inode. */
  method ReleaseInodes(fs: FsContext, ghost live: set<nat>, ghost blocks: set<nat>, ghost exact: bool) returns (rc: Rc)
    requires StoreInv(fs, live, blocks, exact)
    modifies fs`eb, fs`gc, fs`sums, fs`disk, fs`writer, fs`buf, fs`inoMap, fs`occ, fs`dirty, fs`groups, fs`cache
    ensures StoreInv(fs, live, blocks, exact) && (rc == Ok(0) || rc == NoSpc)
    ensures Kept(fs.g, old(fs.eb), old(fs.disk), fs.eb, fs.disk, {})
    ensures rc.Ok? ==> fs.dirty == {} && forall no | 0 <= no < |fs.cache| :: fs.cache[no] == None
    ensures rc.NoSpc? ==> fs.cache == old(fs.cache)
    ensures rc.NoSpc? ==> NoRoom(fs.g, fs.eb, Emb, true) || NoRoom(fs.g, fs.eb, Emb, false)
  {
    hide SumInv, EbInv, GcInv, LiveOk, EbinLive, EntriesOk, ClustersOk, Together, OccOk, CvalidOk, Kept, NoRoom;
    rc := FlushInodes(fs, true, live, blocks, exact);
    if rc.NoSpc? { return; }
    ghost var l, eb1, d1 := LogOf(fs), fs.eb, fs.disk;
    ForgetStep(fs.g, fs.eb, fs.disk, l);
    var i: nat := 1;
    while i < |fs.cache|
      invariant 1 <= i <= |fs.cache| == |l.cache| && LogOf(fs) == l.(cache := fs.cache)
      invariant fs.eb == eb1 && fs.disk == d1 && DataInv(fs, live, blocks, exact)
      invariant forall no | 0 <= no < |fs.cache| :: fs.cache[no] == if no < i then None else l.cache[no]
    {
      fs.cache := fs.cache[i := None];
      i := i + 1;
    }
    assert fs.cache == seq(fs.g.nino, i => None);
  }

  // ---------------------------------------------------------- create

  /** find_free_inode_no: the lowest free number, or 0. */
  method FindFreeInodeNo(fs: FsContext) returns (no: nat)
    requires 1 <= |fs.inoMap| == fs.g.nino
    ensures no == 0 <==> forall i | 1 <= i < fs.g.nino :: fs.inoMap[i] != FREE_CL
    ensures no != 0 ==> no < fs.g.nino && fs.inoMap[no] == FREE_CL && forall i | 1 <= i < no :: fs.inoMap[i] != FREE_CL
  {
    no := 1;
    while no < fs.g.nino
      invariant 1 <= no <= fs.g.nino && forall i | 1 <= i < no :: fs.inoMap[i] != FREE_CL
    {
      if fs.inoMap[no] == FREE_CL { return; }
      no := no + 1;
    }
    no := 0;
  }

  /** create, from the reservation of the number to the dirty mark. */
  method CreateInode(fs: FsContext, ino: Inode, ghost live: set<nat>, ghost blocks: set<nat>, ghost exact: bool)
    requires StoreInv(fs, live, blocks, exact)
    requires 1 <= ino.no < fs.g.nino && fs.inoMap[ino.no] == FREE_CL && InodeOk(fs.g, ino)
    modifies fs`cache, fs`table, fs`dirty, fs`occ, fs`eb, fs`inoMap
    ensures StoreInv(fs, live, blocks, exact) && fs.eb == old(fs.eb)
    ensures ino.no !in old(fs.table) && fs.table == old(fs.table)[ino.no := ino]
    ensures fs.dirty == old(fs.dirty) + {ino.no} && fs.inoMap == old(fs.inoMap)[ino.no := RESERVED_CL]
    ensures fs.cache == old(fs.cache)[ino.no := Some(ino)]
  {
    hide SumInv, EbInv, LiveOk, EbinLive, GcInv, EntriesOk, ClustersOk, Together, OccOk, CvalidOk, InodeOk;
    ghost var l := LogOf(fs);
    CreateStep(fs.g, fs.eb, fs.disk, l, ino.no, ino);
    fs.inoMap := fs.inoMap[ino.no := RESERVED_CL];
    fs.cache := fs.cache[ino.no := Some(ino)];
    fs.table := fs.table[ino.no := ino];
    MarkDirty(fs, ino.no);
    assert LogOf(fs) == Created(l, ino.no, ino);
  }

  // ---------------------------------------------------------- unlink and rmdir of the last reference

  /** link, as far as the linked inode goes. */
  method LinkInode(fs: FsContext, no: nat)
    requires LogInv(fs.g, fs.eb, fs.disk, LogOf(fs)) && no in fs.table && no < |fs.cache| && fs.cache[no].Some?
    modifies fs`cache, fs`table
    ensures LogOf(fs) == Linked(old(LogOf(fs)), no)
    ensures LogInv(fs.g, fs.eb, fs.disk, LogOf(fs)) <==> no in fs.dirty
  {
    hide LogInv;
    LinkStep(fs.g, fs.eb, fs.disk, LogOf(fs), no);
    var ino := fs.cache[no].value;
    fs.cache := fs.cache[no := Some(ino.(nlink := (ino.nlink + 1) % U32))];
    fs.table := fs.table[no := OneMoreLink(fs.table[no])];
  }

  /** The pointers a file gives back when it goes. */
  method ReleaseData(fs: FsContext, ino: Inode, ghost oc: set<nat>, ghost ob: set<nat>, ghost exact: bool)
    requires CoreInv(fs) && FileOk(fs.g, fs.eb, ino, oc, ob, exact)
    modifies fs`eb
    ensures DataInv(fs, oc, ob, exact)
    ensures DataStep(fs.g, old(fs.eb), fs.disk, fs.eb, fs.disk, OwnBlocks(fs.g, ino))
  {
    hide SumInv, EbInv, LiveOk, EbinLive, GcInv, DataStep;
    CoreSizes(fs);
    EmbOwned(fs.g, fs.eb, oc, ob, exact);
    StepReflOwn(fs.g, fs.eb, fs.disk, OwnBlocks(fs.g, ino));
    if ino.Type() == Emb { return; }
    UnitsOk(fs.g, ino);
    Sizes(fs.g);
    var indCnt := Units(ino.size, UnitSize(fs.g, ino.Type()));
    ghost var ptrs, eb0 := Ptrs(fs.g, ino), fs.eb;
    InvalidateTail(fs, ino.Type(), Table(ino.data)[..indCnt], 0, oc, ob, exact);
    assert ptrs[..0] == [] && Nz([]) == {} && oc + {} == oc && ob + {} == ob;
    StepOfMore(fs.g, eb0, fs.disk, fs.eb, fs.disk, if ino.Type() == Ebin then Nz(ptrs) - {} else {},
               OwnBlocks(fs.g, ino));
  }

  /**
   * The end of unlink and rmdir for the last reference to an inode. The data layer is in order afterwards in
   * any case; the inode log is exactly if the inode was not both dirty and on disk already, because then
   * cl_occupancy is decremented a second time.
   */
  method FreeInode(fs: FsContext, no: nat, ghost oc: set<nat>, ghost ob: set<nat>, ghost exact: bool)
    requires CoreInv(fs) && LogInv(fs.g, fs.eb, fs.disk, LogOf(fs)) && no in fs.table
    requires no < |fs.cache| && fs.cache[no].Some? && FileOk(fs.g, fs.eb, fs.cache[no].value, oc, ob, exact)
    modifies fs`eb, fs`occ, fs`inoMap, fs`cache, fs`dirty, fs`table
    ensures no < |old(fs.inoMap)| && DataInv(fs, oc, ob, exact)
    ensures Kept(fs.g, old(fs.eb), fs.disk, fs.eb, fs.disk, OwnBlocks(fs.g, old(fs.cache[no].value)))
    ensures fs.table == old(fs.table) - {no} && fs.cache == old(fs.cache)[no := None]
    ensures fs.inoMap == old(fs.inoMap)[no := FREE_CL] && fs.dirty == old(fs.dirty) - {no}
    ensures LogInv(fs.g, fs.eb, fs.disk, LogOf(fs)) <==> !StaleOnDisk(old(LogOf(fs)), no)
  {
    hide SumInv, EbInv, LiveOk, EbinLive, GcInv, LogInv, InodeOk, Kept, FileOk, StaleOnDisk, DataStep, OwnBlocks,
      EbFreed, OccLess;
    ghost var l, eb0, ino := LogOf(fs), fs.eb, fs.cache[no].value;
    FreedRange(fs.g, fs.eb, fs.disk, l, no);
    CountOutInode(fs, no, oc, ob, exact);
    assert no < |l.inoMap| && no < |l.cache|;
    ghost var eb1 := fs.eb;
    ReleaseData(fs, fs.cache[no].value, oc, ob, exact);
    fs.cache := fs.cache[no := None];
    ResetDirty(fs, no);
    fs.table := fs.table - {no};
    assert LogOf(fs) == Freed(l, no);
    FreedFacts(fs.g, eb0, eb1, fs.eb, fs.disk, l, no, ino, oc, ob, exact);
  }

  /** The inode is counted out of its cluster, and its number is free. */
  method CountOutInode(fs: FsContext, no: nat, ghost oc: set<nat>, ghost ob: set<nat>, ghost exact: bool)
    requires CoreInv(fs) && LogInv(fs.g, fs.eb, fs.disk, LogOf(fs)) && no in fs.table
    requires no < |fs.cache| && fs.cache[no].Some? && FileOk(fs.g, fs.eb, fs.cache[no].value, oc, ob, exact)
    modifies fs`eb, fs`occ, fs`inoMap
    ensures no < |fs.inoMap| == |old(fs.inoMap)| && CoreInv(fs)
    ensures FileOk(fs.g, fs.eb, fs.cache[no].value, oc, ob, exact)
    ensures old(fs.inoMap)[no] != RESERVED_CL ==> var cl := old(fs.inoMap)[no];
      && cl < |old(fs.occ)| && BlockOf(fs.g, cl) < |old(fs.eb)|
      && (old(fs.occ)[cl] == 1 ==> old(fs.eb)[BlockOf(fs.g, cl)].cvalid > 0)
    ensures fs.eb == EbFreed(fs.g, old(fs.eb), old(LogOf(fs)), no)
    ensures Kept(fs.g, old(fs.eb), fs.disk, fs.eb, fs.disk, {})
    ensures fs.inoMap == old(fs.inoMap)[no := FREE_CL] && fs.occ == Freed(old(LogOf(fs)), no).occ
  {
    hide SumInv, EbInv, LiveOk, EbinLive, GcInv, LogInv, InodeOk, Kept, FileOk, OccLess;
    ghost var l := LogOf(fs);
    FreedRange(fs.g, fs.eb, fs.disk, l, no);
    CountOutData(fs, l, no, oc, ob, exact);
    var cl := fs.inoMap[no];
    if cl != RESERVED_CL { OccDec(fs, cl); }
    fs.inoMap := fs.inoMap[no := FREE_CL];
  }

  /** Counting the inode out keeps its own data, and everybody else's, owned. */
  lemma CountOutData(fs: FsContext, l: Log, no: nat, oc: set<nat>, ob: set<nat>, exact: bool)
    requires CoreInv(fs) && LogInv(fs.g, fs.eb, fs.disk, l) && no in l.table && l == LogOf(fs)
    requires no < |fs.cache| && fs.cache[no].Some? && FileOk(fs.g, fs.eb, fs.cache[no].value, oc, ob, exact)
    ensures no < |l.inoMap| && (l.inoMap[no] != RESERVED_CL ==> var cl := l.inoMap[no];
      && cl < |l.occ| && BlockOf(fs.g, cl) < |fs.eb| && (l.occ[cl] == 1 ==> fs.eb[BlockOf(fs.g, cl)].cvalid > 0))
    ensures var eb1 := EbFreed(fs.g, fs.eb, l, no);
      && EbInv(fs.g, eb1) && SumInv(fs.g, eb1, fs.disk, fs.sums, fs.writer)
      && FileOk(fs.g, eb1, fs.cache[no].value, oc, ob, exact)
      && Kept(fs.g, fs.eb, fs.disk, eb1, fs.disk, {})
  {
    FreedRange(fs.g, fs.eb, fs.disk, l, no);
    var ino := fs.cache[no].value;
    StepRefl(fs.g, fs.eb, fs.disk);
    if l.inoMap[no] != RESERVED_CL {
      var t, ptrs := ino.Type(), Ptrs(fs.g, ino);
      LessKeepsData(fs.g, fs.eb, fs.disk, fs.sums, fs.writer, l.occ, l.inoMap[no], ClinOf(t, ptrs, oc),
                    EbinOf(t, ptrs, ob), exact);
    }
  }

  lemma FreedFacts(g: Geometry, eb0: seq<EraseBlock>, eb1: seq<EraseBlock>, eb2: seq<EraseBlock>, d: seq<byte>, l: Log,
                   no: nat, ino: Inode, oc: set<nat>, ob: set<nat>, exact: bool)
    requires LogInv(g, eb0, d, l) && no in l.table && EbInv(g, eb0)
    requires no < |l.inoMap| && (l.inoMap[no] != RESERVED_CL ==> var cl := l.inoMap[no];
      && cl < |l.occ| && BlockOf(g, cl) < |eb0| && (l.occ[cl] == 1 ==> eb0[BlockOf(g, cl)].cvalid > 0))
    requires eb1 == EbFreed(g, eb0, l, no) && FileOk(g, eb1, ino, oc, ob, exact)
    requires Kept(g, eb0, d, eb1, d, {}) && DataStep(g, eb1, d, eb2, d, OwnBlocks(g, ino))
    ensures no < |l.cache| && Kept(g, eb0, d, eb2, d, OwnBlocks(g, ino))
    ensures LogInv(g, eb2, d, Freed(l, no)) <==> !StaleOnDisk(l, no)
  {
    UnlinkStep(g, eb0, d, l, no);
    forall b | b in OwnBlocks(g, ino) ensures b < |eb1| && eb1[b].etype == EbinBlk && eb0[b].etype == EbinBlk {
      assert b in ob + Nz(Ptrs(g, ino));
      assert eb1[b].etype == eb0[b].etype;
    }
    if !StaleOnDisk(l, no) {
      DataStepKeepsLog(g, eb1, d, eb2, d, OwnBlocks(g, ino), Freed(l, no));
    }
    OwnTrans(g, eb0, eb1, eb2, d, OwnBlocks(g, ino));
  }

  lemma OwnTrans(g: Geometry, eb0: seq<EraseBlock>, eb1: seq<EraseBlock>, eb2: seq<EraseBlock>, d: seq<byte>,
                 own: set<nat>)
    requires g.Valid() && Kept(g, eb0, d, eb1, d, {}) && Kept(g, eb1, d, eb2, d, own)
    ensures Kept(g, eb0, d, eb2, d, own)
  {
  }
}
