/** mount.cpp and the closing half of eraseblk.cpp: what an unmount leaves on the device, and a mount finds there. */
module Mount {
  import opened Basics
  import opened Layout
  import opened EraseBlk
  import opened Summaries
  import opened Allocator
  import opened FileData
  import opened IoUnits
  import opened InodeLog
  import opened Inodes
  import opened Volume
  import opened Gc
  import opened Compaction
  import opened MetaData

  // ---------------------------------------------------------- close_eraseblks, one block

  predicate NoneOpen(g: Geometry, eb: seq<EraseBlock>) { forall i | 1 <= i < |eb| :: !Open(g, eb[i]) }

  /** An inode block is closed by declaring it full. */
  lemma CloseInodeBlock(g: Geometry, eb: seq<EraseBlock>, d: seq<byte>, sums: SummaryCache, writer: seq<seq<nat>>,
                        l: Log, b: nat, live: set<nat>, blocks: set<nat>, exact: bool)
    requires EbInv(g, eb) && LogInv(g, eb, d, l) && SumInv(g, eb, d, sums, writer) && LiveOk(g, eb, live, exact)
    requires EbinLive(eb, blocks)
    requires 1 <= b < |eb| && IsInodeType(eb[b].etype)
    ensures var eb' := eb[b := eb[b].(writeops := g.k)];
      && EbInv(g, eb') && SumInv(g, eb', d, sums, writer) && LiveOk(g, eb', live, exact) && EbinLive(eb', blocks)
      && LogInv(g, eb', d, l) && Kept(g, eb, d, eb', d, {})
  {
    var x := eb[b].(writeops := g.k);
    var eb' := eb[b := x];
    assert BlockOk(g, eb[b]);
    CountEmptyUpdate(eb, |eb|, b, x);
    CloseKeepsRules(g, eb, b, x);
    LogMoreWrites(g, eb, d, l, b, x);
    assert Kept(g, eb, d, eb', d, {});
    SumKept(g, eb, d, eb', d, {}, sums, writer);
    CloseKeepsLive(g, eb, live, blocks, exact, b, x);
  }

  lemma CloseKeepsRules(g: Geometry, eb: seq<EraseBlock>, b: nat, x: EraseBlock)
    requires g.Valid() && EbInv(g, eb) && 1 <= b < |eb| && Tracked(eb[b].etype) && x.lastwrite < 65536
    requires x.etype == eb[b].etype && x.cvalid == eb[b].cvalid && x.writeops == g.k
    ensures BlockOk(g, x) && OneOpen(g, eb[b := x])
    ensures var eb' := eb[b := x];
      forall i | 1 <= i < |eb'| :: BlockOk(g, eb'[i]) && (Tracked(eb'[i].etype) ==> eb'[i].etype in GcTypes(g))
  {
    assert BlockOk(g, eb[b]);
  }

  lemma CloseKeepsLive(g: Geometry, eb: seq<EraseBlock>, live: set<nat>, blocks: set<nat>, exact: bool, b: nat,
                       x: EraseBlock)
    requires g.k > 0 && LiveOk(g, eb, live, exact) && EbinLive(eb, blocks) && 1 <= b < |eb|
    requires x.etype == eb[b].etype && x.cvalid == eb[b].cvalid && x.writeops >= eb[b].writeops
    ensures LiveOk(g, eb[b := x], live, exact) && EbinLive(eb[b := x], blocks)
  {
    var eb' := eb[b := x];
    forall c | c in live ensures ClinPtrOk(g, eb', c) { assert ClinPtrOk(g, eb, c); }
    forall y | 1 <= y < |eb'| && IsClinType(eb'[y].etype)
      ensures Counted(g, eb', live, exact, y)
    {
      assert Counted(g, eb, live, exact, y);
    }
  }

  /** The disk after the summary of block b has been written to its last cluster. */
  function WithSummary(g: Geometry, d: seq<byte>, b: nat, refs: seq<nat>): (r: seq<byte>)
    requires g.Valid() && |d| == g.DeviceSize() && b < g.blocks && |refs| == g.c
    requires forall i | 0 <= i < |refs| :: refs[i] < U32
    ensures ClOf(g, b, g.k - 1) * g.c + g.c <= |d| && r == Patch(d, ClOf(g, b, g.k - 1) * g.c, EncodeRefs(g.c, refs))
  {
    ClInDevice(g, b, g.k - 1);
    Patch(d, ClOf(g, b, g.k - 1) * g.c, EncodeRefs(g.c, refs))
  }

  /** The summary an open cluster-indirect block needs is there, and holds the writers of its clusters. */
  lemma OpenSummary(g: Geometry, eb: seq<EraseBlock>, d: seq<byte>, sums: SummaryCache, writer: seq<seq<nat>>, b: nat)
    requires g.Valid() && SumInv(g, eb, d, sums, writer) && 1 <= b < |eb| && IsClinType(eb[b].etype) && Open(g, eb[b])
    ensures var s := SumOf(sums, eb[b].etype);
      s.open && s.refs == BlockRefs(g, writer[b]) && forall i | 0 <= i < |s.refs| :: s.refs[i] < U32
  {
    assert SumTypeOk(g, eb, SumOf(sums, eb[b].etype), eb[b].etype, writer);
    assert OpenOfType(g, eb, eb[b].etype, b);
  }

  /** A cluster-indirect block is closed early: its summary goes to the last cluster, like that of a full one. */
  lemma CloseClinSums(g: Geometry, eb: seq<EraseBlock>, d: seq<byte>, sums: SummaryCache, writer: seq<seq<nat>>,
                      b: nat, x: EraseBlock)
    requires g.Valid() && EbInv(g, eb) && SumInv(g, eb, d, sums, writer)
    requires 1 <= b < |eb| && IsClinType(eb[b].etype) && Open(g, eb[b])
    requires x.etype == eb[b].etype && x.cvalid == eb[b].cvalid && x.writeops == g.k
    ensures var s := SumOf(sums, eb[b].etype); |s.refs| == g.c && forall i | 0 <= i < |s.refs| :: s.refs[i] < U32
    ensures var t := eb[b].etype;
      && SumInv(g, eb[b := x], WithSummary(g, d, b, SumOf(sums, t).refs), SetSum(sums, t, Summary(false, NoRefs(g.c))),
          writer)
      && Kept(g, eb, d, eb[b := x], WithSummary(g, d, b, SumOf(sums, t).refs), {})
  {
    var t := eb[b].etype;
    var eb', s' := eb[b := x], Summary(false, NoRefs(g.c));
    OpenSummary(g, eb, d, sums, writer, b);
    var d' := WithSummary(g, d, b, SumOf(sums, t).refs);
    assert BlockOk(g, eb[b]);
    var data := EncodeRefs(g.c, SumOf(sums, t).refs);
    KeptFreshCluster(g, eb, d, b, g.k - 1, data);
    PatchCluster(g, d, b, g.k - 1, data);
    forall y: nat ensures !OpenOfType(g, eb', t, y) { }
    assert SumTypeOk(g, eb', s', t, writer);
    CloseOtherType(g, eb, sums, writer, b, x);
    forall y | 1 <= y < |eb'| && IsClinType(eb'[y].etype) && eb'[y].writeops == g.k
      ensures SummaryOnDisk(g, d', writer, y)
    {
      if y != b { assert eb[y] == eb'[y] && SummaryOnDisk(g, d, writer, y); }
    }
    assert Kept(g, eb, d', eb', d', {});
    KeptTrans(g, eb, d, eb, d', eb', d', {}, {});
  }

  lemma CloseOtherType(g: Geometry, eb: seq<EraseBlock>, sums: SummaryCache, writer: seq<seq<nat>>, b: nat,
                       x: EraseBlock)
    requires g.Valid() && |eb| == g.blocks && WriterOk(g, writer) && 1 <= b < |eb| && x.etype == eb[b].etype
    requires IsClinType(x.etype)
    requires SumTypeOk(g, eb, sums.dentryClin, DentryClin, writer) && SumTypeOk(g, eb, sums.inodeClin, FileClin, writer)
    ensures x.etype == DentryClin ==> SumTypeOk(g, eb[b := x], sums.inodeClin, FileClin, writer)
    ensures x.etype == FileClin ==> SumTypeOk(g, eb[b := x], sums.dentryClin, DentryClin, writer)
  {
    var o := if x.etype == DentryClin then FileClin else DentryClin;
    assert forall y :: OpenOfType(g, eb[b := x], o, y) <==> OpenOfType(g, eb, o, y);
    SumTypeKept(g, eb, eb[b := x], SumOf(sums, o), o, writer);
  }

  lemma CloseClinBlock(g: Geometry, eb: seq<EraseBlock>, d: seq<byte>, sums: SummaryCache, writer: seq<seq<nat>>,
                       l: Log, b: nat, x: EraseBlock, live: set<nat>, blocks: set<nat>, exact: bool)
    requires EbInv(g, eb) && LogInv(g, eb, d, l) && SumInv(g, eb, d, sums, writer) && LiveOk(g, eb, live, exact)
    requires EbinLive(eb, blocks)
    requires 1 <= b < |eb| && IsClinType(eb[b].etype) && Open(g, eb[b])
    requires x.lastwrite < 65536
    requires x.etype == eb[b].etype && x.cvalid == eb[b].cvalid && x.writeops == g.k
    ensures var s := SumOf(sums, eb[b].etype);
      s.open && |s.refs| == g.c && forall i | 0 <= i < |s.refs| :: s.refs[i] < U32
    ensures var t := eb[b].etype;
      var eb', d' := eb[b := x], WithSummary(g, d, b, SumOf(sums, t).refs);
      && EbInv(g, eb') && SumInv(g, eb', d', SetSum(sums, t, Summary(false, NoRefs(g.c))), writer)
      && LiveOk(g, eb', live, exact) && EbinLive(eb', blocks) && LogInv(g, eb', d', l) && Kept(g, eb, d, eb', d', {})
  {
    hide SumInv, LiveOk, EbinLive;
    OpenSummary(g, eb, d, sums, writer, b);
    CloseClinSums(g, eb, d, sums, writer, b, x);
    CloseKeepsRules(g, eb, b, x);
    CountEmptyUpdate(eb, |eb|, b, x);
    CloseKeepsLive(g, eb, live, blocks, exact, b, x);
    DataStepKeepsLog(g, eb, d, eb[b := x], WithSummary(g, d, b, SumOf(sums, eb[b].etype).refs), {}, l);
  }

  // ---------------------------------------------------------- close_eraseblks

  /** Closing changes nothing but write counts and times. */
  predicate ClosedFrom(eb0: seq<EraseBlock>, eb: seq<EraseBlock>) {
    && |eb| == |eb0|
    && forall i | 0 <= i < |eb| :: eb[i].etype == eb0[i].etype && eb[i].cvalid == eb0[i].cvalid
  }

  /** As StoreInv, but a summary may be open without its block: gc has freed the block. */
  ghost predicate Closing(fs: FsContext, live: set<nat>, blocks: set<nat>, exact: bool)
    reads fs
  {
    && EbInv(fs.g, fs.eb) && GcInv(fs.g, fs.gc) && |fs.buf| == fs.g.E() && LogInv(fs.g, fs.eb, fs.disk, LogOf(fs))
    && SumInv(fs.g, fs.eb, fs.disk, Pruned(fs.g, fs.eb, fs.sums), fs.writer)
    && LiveOk(fs.g, fs.eb, live, exact) && EbinLive(fs.eb, blocks)
  }

  /** An open block's own summary is not pruned. */
  lemma PrunedHas(g: Geometry, eb: seq<EraseBlock>, sums: SummaryCache, id: nat)
    requires 1 <= id < |eb| && IsClinType(eb[id].etype) && Open(g, eb[id])
    ensures SumOf(Pruned(g, eb, sums), eb[id].etype) == SumOf(sums, eb[id].etype)
  {
    assert OpenOfType(g, eb, eb[id].etype, id);
  }

  /** Closing a block of type t closes its summary, and leaves the other type's as it was. */
  lemma PrunedClosed(g: Geometry, eb: seq<EraseBlock>, sums: SummaryCache, id: nat, x: EraseBlock)
    requires g.Valid() && EbInv(g, eb) && 1 <= id < |eb| && IsClinType(eb[id].etype) && Open(g, eb[id])
    requires x.etype == eb[id].etype && x.writeops == g.k
    ensures var s := Summary(false, NoRefs(g.c));
      Pruned(g, eb[id := x], SetSum(sums, x.etype, s)) == SetSum(Pruned(g, eb, sums), x.etype, s)
  {
    var eb', o := eb[id := x], if x.etype == DentryClin then FileClin else DentryClin;
    assert OneOpen(g, eb);
    forall b: nat ensures !OpenOfType(g, eb', x.etype, b) { }
    forall b: nat ensures OpenOfType(g, eb', o, b) <==> OpenOfType(g, eb, o, b) { }
    if b: nat :| OpenOfType(g, eb, o, b) { assert OpenOfType(g, eb', o, b); }
  }

  /** Declaring an inode block full does not matter to the summaries. */
  lemma PrunedSame(g: Geometry, eb: seq<EraseBlock>, sums: SummaryCache, id: nat, x: EraseBlock)
    requires 1 <= id < |eb| && IsInodeType(eb[id].etype) && x.etype == eb[id].etype
    ensures Pruned(g, eb[id := x], sums) == Pruned(g, eb, sums)
  {
    var eb' := eb[id := x];
    forall t, b: nat | IsClinType(t) ensures OpenOfType(g, eb', t, b) <==> OpenOfType(g, eb, t, b) { }
    if b: nat :| OpenOfType(g, eb, DentryClin, b) { assert OpenOfType(g, eb', DentryClin, b); }
    if b: nat :| OpenOfType(g, eb, FileClin, b) { assert OpenOfType(g, eb', FileClin, b); }
  }

  /** Finishing one open cluster-indirect block: summary_get is not null here. */
  method CloseClin(fs: FsContext, id: nat, ghost live: set<nat>, ghost blocks: set<nat>, ghost exact: bool)
    requires Closing(fs, live, blocks, exact) && 1 <= id < |fs.eb| && IsClinType(fs.eb[id].etype)
    requires Open(fs.g, fs.eb[id])
    modifies fs`eb, fs`gc, fs`sums, fs`disk
    ensures Closing(fs, live, blocks, exact) && Kept(fs.g, old(fs.eb), old(fs.disk), fs.eb, fs.disk, {})
    ensures |fs.eb| == |old(fs.eb)| && fs.eb[id].writeops == fs.g.k && ClosedFrom(old(fs.eb), fs.eb)
    ensures forall i | 0 <= i < |fs.eb| && i != id :: fs.eb[i] == old(fs.eb)[i]
  {
    hide EbInv, SumInv, LiveOk, EbinLive, LogInv, Kept, Pruned;
    LogSizes(fs.g, fs.eb, fs.disk, LogOf(fs));
    ghost var eb0, sums0 := fs.eb, Pruned(fs.g, fs.eb, fs.sums);
    var t := fs.eb[id].etype;
    TypeListed(fs.g, fs.eb, fs.gc, id);
    PrunedHas(fs.g, fs.eb, fs.sums, id);
    ghost var j := GcIndex(fs.gc, t);
    ghost var time := Tick(fs.gc[j].time);
    ghost var x := EraseBlock(t, time % 65536, fs.eb[id].cvalid, fs.g.k);
    CloseClinBlock(fs.g, fs.eb, fs.disk, sums0, fs.writer, LogOf(fs), id, x, live, blocks, exact);
    PrunedClosed(fs.g, fs.eb, fs.sums, id, x);
    fs.eb := fs.eb[id := fs.eb[id].(writeops := fs.g.k)];
    var sum := SummaryGet(SumOf(fs.sums, t));
    assert sum.Some?;
    SummaryWrite(fs, sum.value.refs, id);
    fs.sums := SetSum(fs.sums, t, SummaryClose(sum.value));
    assert fs.gc[j].etype == t;
    var now := GcinfoUpdateWritetime(fs, t);
    fs.eb := fs.eb[id := fs.eb[id].(lastwrite := now % 65536)];
    assert fs.eb == eb0[id := x];
  }

  lemma TypeListed(g: Geometry, eb: seq<EraseBlock>, gc: seq<GcInfo>, id: nat)
    requires g.Valid() && EbInv(g, eb) && GcInv(g, gc) && 1 <= id < |eb| && Tracked(eb[id].etype)
    ensures eb[id].etype in GcTypes(g) && exists j :: 0 <= j < |gc| && gc[j].etype == eb[id].etype
  {
    GcHas(g, gc, eb[id].etype);
  }

  /** close_eraseblks: afterwards no block is open, and what every one of them holds is as it was. */
  method CloseEraseblks(fs: FsContext, ghost live: set<nat>, ghost blocks: set<nat>, ghost exact: bool)
    requires Closing(fs, live, blocks, exact)
    modifies fs`eb, fs`gc, fs`sums, fs`disk
    ensures Closing(fs, live, blocks, exact) && Kept(fs.g, old(fs.eb), old(fs.disk), fs.eb, fs.disk, {})
    ensures NoneOpen(fs.g, fs.eb) && ClosedFrom(old(fs.eb), fs.eb)
  {
    hide EbInv, SumInv, LiveOk, EbinLive, LogInv, Kept, GcInv;
    ghost var eb0, d0 := fs.eb, fs.disk;
    LogSizes(fs.g, fs.eb, fs.disk, LogOf(fs));
    StepRefl(fs.g, fs.eb, fs.disk);
    var id: nat := 1;
    while id < |fs.eb|
      invariant 1 <= id && Closing(fs, live, blocks, exact) && |fs.eb| == |eb0| && ClosedFrom(eb0, fs.eb)
      invariant Kept(fs.g, eb0, d0, fs.eb, fs.disk, {})
      invariant forall i | 1 <= i < id && i < |fs.eb| :: !Open(fs.g, fs.eb[i])
    {
      ghost var eb1, d1 := fs.eb, fs.disk;
      BlockKind(fs.g, fs.eb, id);
      var t := fs.eb[id].etype;
      if t != EbinBlk && t != Empty && fs.eb[id].writeops != fs.g.k {
        if t == DentryClin || t == FileClin {
          CloseClin(fs, id, live, blocks, exact);
        } else {
          CloseInodeBlock(fs.g, fs.eb, fs.disk, Pruned(fs.g, fs.eb, fs.sums), fs.writer, LogOf(fs), id, live, blocks,
                          exact);
          PrunedSame(fs.g, fs.eb, fs.sums, id, fs.eb[id].(writeops := fs.g.k));
          fs.eb := fs.eb[id := fs.eb[id].(writeops := fs.g.k)];
        }
        KeptTrans(fs.g, eb0, d0, eb1, d1, fs.eb, fs.disk, {}, {});
      }
      id := id + 1;
    }
  }

  lemma BlockKind(g: Geometry, eb: seq<EraseBlock>, id: nat)
    requires EbInv(g, eb) && 1 <= id < |eb|
    ensures eb[id].etype != Super && (Tracked(eb[id].etype) ==> eb[id].writeops <= g.k)
  {
    assert BlockOk(g, eb[id]);
  }

  lemma LogSizes(g: Geometry, eb: seq<EraseBlock>, d: seq<byte>, l: Log)
    requires LogInv(g, eb, d, l)
    ensures g.Valid() && |eb| == g.blocks && |d| == g.DeviceSize()
  {
  }

  // ---------------------------------------------------------- write_meta_data

  /** write_meta_data goes through the buffer, and touches nothing but the rest of the first erase block. */
  method WriteMetaData(fs: FsContext)
    requires |fs.eb| == fs.g.blocks && AllFit16(fs.eb) && WordMap(fs.g, fs.inoMap) && MetaFits(fs.g)
    requires fs.g.E() <= |fs.disk| && |fs.buf| == fs.g.E()
    modifies fs`buf, fs`disk
    ensures |fs.buf| == fs.g.E() && fs.disk == WithMeta(fs.g, old(fs.disk), fs.eb, fs.inoMap)
  {
    fs.buf := Patch(fs.buf, 0, PutUsage(fs.eb));
    fs.buf := Patch(fs.buf, 8 * fs.g.blocks, PutMap(fs.inoMap));
    var size := 8 * fs.g.blocks + 4 * fs.g.nino;
    assert fs.buf[..size] == PutUsage(fs.eb) + PutMap(fs.inoMap);
    fs.disk := Patch(fs.disk, fs.g.c, fs.buf[..size]);
  }

  lemma MetaStays(g: Geometry, eb: seq<EraseBlock>, d: seq<byte>, inoMap: seq<nat>)
    requires g.Valid() && EbInv(g, eb) && WordMap(g, inoMap) && MetaFits(g) && |d| == g.DeviceSize()
    ensures AllFit16(eb) && g.E() <= |d| && |WithMeta(g, d, eb, inoMap)| == |d|
    ensures Kept(g, eb, d, eb, WithMeta(g, d, eb, inoMap), {0})
    ensures SuperOn(g, d) ==> SuperOn(g, WithMeta(g, d, eb, inoMap))
  {
    Sizes(g);
    forall i | 0 <= i < |eb| ensures Fits16(eb[i]) { if i > 0 { assert BlockOk(g, eb[i]); } }
    KeptInBlock(g, eb, d, 0, g.c, PutUsage(eb) + PutMap(inoMap));
    var d' := WithMeta(g, d, eb, inoMap);
    assert d'[..128] == d[..128];
  }

  /** Block 0 holds neither inodes nor data. */
  lemma OthersKeepMeta(g: Geometry, eb: seq<EraseBlock>, d: seq<byte>, d': seq<byte>, table: map<nat, Inode>,
                       exact: bool)
    requires g.Valid() && EbInv(g, eb) && VolumeOk(g, eb, table, exact) && Kept(g, eb, d, eb, d', {0})
    ensures SameContents(g, d, d', table, table.Keys)
  {
    forall m | m in table
      ensures Readable(g, d, table[m]) && Readable(g, d', table[m])
      ensures Content(g, d', table[m]) == Content(g, d, table[m])
    {
      FileOfVolume(g, eb, table, exact, m);
      AllWithout(g, table, m);
      FileKept(g, eb, d, eb, d', {0}, table[m], ClinAll(g, table - {m}), EbinAll(g, table - {m}), exact);
    }
  }

  // ---------------------------------------------------------- unmount

  /**
   * What a device must hold for a mount to succeed: a super block, usage records and a map that describe a
   * file system at rest, with no erase block open, over the inodes of `table`.
   */
  ghost predicate AtRest(g: Geometry, d: seq<byte>, table: map<nat, Inode>, groups: map<nat, seq<Inode>>,
                         writer: seq<seq<nat>>, exact: bool) {
    && g.Valid() && MetaFits(g) && |d| == g.DeviceSize() && SuperOn(g, d) && g.E() <= |d|
    && var eb := ReadUsage(g, d);
      && EbInv(g, eb) && NoneOpen(g, eb) && SumInv(g, eb, d, ClosedSums(g), writer) && VolumeOk(g, eb, table, exact)
      && LogInv(g, eb, d, RestLog(g, ReadMap(g, d), table, groups))
  }

  function ClosedSums(g: Geometry): SummaryCache { SummaryCache(Summary(false, NoRefs(g.c)),
      Summary(false, NoRefs(g.c))) }

  /** The inode log as a mount finds it: nothing cached, nothing dirty, occupancy counted from the map. */
  function RestLog(g: Geometry, inoMap: seq<nat>, table: map<nat, Inode>, groups: map<nat, seq<Inode>>): Log {
    Log(inoMap, Recount(inoMap, ClusterCnt(g)), seq(g.nino, i => None), {}, table, groups)
  }

  lemma SumsAllClosed(g: Geometry, eb: seq<EraseBlock>, d: seq<byte>, sums: SummaryCache, writer: seq<seq<nat>>)
    requires g.Valid() && SumInv(g, eb, d, sums, writer) && NoneOpen(g, eb)
    ensures sums == ClosedSums(g)
  {
  }

  lemma RestLogInv(g: Geometry, eb: seq<EraseBlock>, d: seq<byte>, l: Log)
    requires LogInv(g, eb, d, l) && l.dirty == {} && forall no | 0 <= no < |l.cache| :: l.cache[no] == None
    ensures LogInv(g, eb, d, RestLog(g, l.inoMap, l.table, l.groups))
  {
    SettledOf(g, eb, d, l);
    assert l.cache == seq(g.nino, i => None);
    assert Recounted(l) == RestLog(g, l.inoMap, l.table, l.groups);
  }

  /**
   * What write_meta_data leaves: the arrays on disk are those in memory, and every invariant of the log and of all
   * files' data holds on the new disk.
   */
  lemma MetaWritten(fs: FsContext, d': seq<byte>, exact: bool)
    requires Closing(fs, ClinAll(fs.g, fs.table), EbinAll(fs.g, fs.table), exact)
    requires VolumeOk(fs.g, fs.eb, fs.table, exact)
    requires NoneOpen(fs.g, fs.eb) && MetaFits(fs.g) && SuperOn(fs.g, fs.disk)
    ensures WordMap(fs.g, fs.inoMap) && AllFit16(fs.eb) && fs.g.E() <= |fs.disk| && fs.g.Valid()
    ensures d' == WithMeta(fs.g, fs.disk, fs.eb, fs.inoMap) ==>
      && |d'| == fs.g.DeviceSize() && SuperOn(fs.g, d')
      && ReadUsage(fs.g, d') == fs.eb && ReadMap(fs.g, d') == fs.inoMap
      && LogInv(fs.g, fs.eb, d', LogOf(fs)) && SumInv(fs.g, fs.eb, d', ClosedSums(fs.g), fs.writer)
      && SameContents(fs.g, fs.disk, d', fs.table, fs.table.Keys)
  {
    hide LogInv, VolumeOk, SumInv, EbInv, GcInv, LiveOk, EbinLive, Pruned;
    var g, eb, d := fs.g, fs.eb, fs.disk;
    LogSizes(g, eb, d, LogOf(fs));
    FirstIsSuper(g, eb);
    MapInWords(g, eb, d, LogOf(fs));
    MetaStays(g, eb, d, fs.inoMap);
    if d' == WithMeta(g, d, eb, fs.inoMap) {
      UsageRoundTrip(g, d, eb, fs.inoMap);
      MapRoundTrip(g, d, eb, fs.inoMap);
      var sums := Pruned(g, eb, fs.sums);
      SumKept(g, eb, d, eb, d', {0}, sums, fs.writer);
      SumsAllClosed(g, eb, d', sums, fs.writer);
      DataStepKeepsLog(g, eb, d, eb, d', {0}, LogOf(fs));
      OthersKeepMeta(g, eb, d, d', fs.table, exact);
    }
  }

  /** With nothing cached or dirty that is a device at rest. */
  lemma MetaRests(fs: FsContext, d': seq<byte>, exact: bool)
    requires Closing(fs, ClinAll(fs.g, fs.table), EbinAll(fs.g, fs.table), exact)
    requires VolumeOk(fs.g, fs.eb, fs.table, exact)
    requires NoneOpen(fs.g, fs.eb) && fs.dirty == {} && forall no | 0 <= no < |fs.cache| :: fs.cache[no] == None
    requires MetaFits(fs.g) && SuperOn(fs.g, fs.disk)
    requires WordMap(fs.g, fs.inoMap) && AllFit16(fs.eb) && fs.g.E() <= |fs.disk|
    requires d' == WithMeta(fs.g, fs.disk, fs.eb, fs.inoMap)
    ensures AtRest(fs.g, d', fs.table, fs.groups, fs.writer, exact)
  {
    hide LogInv, VolumeOk, SumInv, EbInv, GcInv, LiveOk, EbinLive, Pruned;
    LogSizes(fs.g, fs.eb, fs.disk, LogOf(fs));
    MetaWritten(fs, d', exact);
    RestLogInv(fs.g, fs.eb, d', LogOf(fs));
  }

  lemma FirstIsSuper(g: Geometry, eb: seq<EraseBlock>)
    requires EbInv(g, eb)
    ensures |eb| >= 1 && eb[0].etype == Super
  {
  }

  lemma MapInWords(g: Geometry, eb: seq<EraseBlock>, d: seq<byte>, l: Log)
    requires LogInv(g, eb, d, l) && EbInv(g, eb)
    ensures WordMap(g, l.inoMap)
  {
    forall no: nat | no < |l.inoMap| ensures l.inoMap[no] < U32 {
      if no > 0 {
        assert Entry(g, eb, l, no);
        if Real(l.inoMap[no]) { ClusterCount(g, l.inoMap[no]); }
      }
    }
  }

  lemma SuperKept(g: Geometry, eb0: seq<EraseBlock>, d0: seq<byte>, eb1: seq<EraseBlock>, d1: seq<byte>)
    requires g.Valid() && EbInv(g, eb0) && Kept(g, eb0, d0, eb1, d1, {}) && SuperOn(g, d0)
    ensures SuperOn(g, d1)
  {
    assert Used(g, eb0, 0, 0);
    assert Cluster(g, d1, 0, 0) == Cluster(g, d0, 0, 0);
    assert d1[..128] == Cluster(g, d1, 0, 0)[..128] && d0[..128] == Cluster(g, d0, 0, 0)[..128];
  }

  /** Closing blocks makes no room. */
  lemma NoRoomStays(g: Geometry, eb0: seq<EraseBlock>, eb: seq<EraseBlock>, dir: bool)
    requires g.Valid() && NoRoom(g, eb0, Emb, dir) && ClosedFrom(eb0, eb) && NoneOpen(g, eb)
    ensures NoRoom(g, eb, Emb, dir)
  {
    var t := EbTypeFor(g, Emb, dir);
    SameEmpty(eb0, eb, |eb|);
    forall e: nat ensures !Target(g, eb, t, e) {
      if Target(g, eb, t, e) {
        assert eb[e].etype == Empty;
        if i :| 1 <= i < |eb0| && Open(g, eb0[i]) && eb0[i].etype == t { assert Target(g, eb0, t, i); }
        assert Target(g, eb0, t, e);
      }
    }
  }

  lemma {:induction false} SameEmpty(eb0: seq<EraseBlock>, eb: seq<EraseBlock>, n: nat)
    requires ClosedFrom(eb0, eb) && n <= |eb|
    ensures CountEmpty(eb, n) == CountEmpty(eb0, n)
  {
    if n > 1 { SameEmpty(eb0, eb, n - 1); }
  }

  /** While no block has been freed every open summary has its block. */
  lemma NothingPruned(g: Geometry, eb: seq<EraseBlock>, d: seq<byte>, sums: SummaryCache, writer: seq<seq<nat>>)
    requires g.Valid() && SumInv(g, eb, d, sums, writer)
    ensures Pruned(g, eb, sums) == sums
  {
  }

  /** The map can be mounted again exactly if no dirty inode is without a cluster. */
  lemma MapMountable(g: Geometry, eb: seq<EraseBlock>, d: seq<byte>, l: Log)
    requires LogInv(g, eb, d, l)
    ensures MapOnDevice(g, l.inoMap) <==> forall no | no in l.dirty :: no < |l.inoMap| && l.inoMap[no] != RESERVED_CL
  {
    hide Same, StoredIn, InodeCluster;
    forall no | 1 <= no < |l.inoMap| ensures l.inoMap[no] < ClusterCnt(g) <==> l.inoMap[no] != RESERVED_CL {
      assert Entry(g, eb, l, no);
      MulNonneg(g.blocks, g.k);
      MulMono(1, g.blocks, g.k);
      if 1 <= l.inoMap[no] < ClusterCnt(g) { ClusterCount(g, l.inoMap[no]); }
    }
    forall no | 1 <= no < |l.inoMap| && l.inoMap[no] == RESERVED_CL ensures no in l.dirty {
      assert Entry(g, eb, l, no);
    }
  }

  /** How unmount ends: with everything on disk, without the dirty inodes that found no room, or not at all. */
  datatype Parting = Rested | Lossy | Spinning

  /**
   * A device that has been left: the arrays on it are those in memory, no block is open, and every invariant of the
   * log, the summaries and the data holds.
   */
  ghost predicate Parked(fs: FsContext, exact: bool)
    reads fs
  {
    && fs.g.Valid() && |fs.disk| == fs.g.DeviceSize() && fs.g.E() <= |fs.disk| && MetaFits(fs.g) && |fs.buf| == fs.g.E()
    && ReadUsage(fs.g, fs.disk) == fs.eb && ReadMap(fs.g, fs.disk) == fs.inoMap && NoneOpen(fs.g, fs.eb)
    && SuperOn(fs.g, fs.disk) && LogInv(fs.g, fs.eb, fs.disk, LogOf(fs))
    && SumInv(fs.g, fs.eb, fs.disk, ClosedSums(fs.g), fs.writer) && VolumeOk(fs.g, fs.eb, fs.table, exact)
  }

  /** The second half of unmount: the blocks are closed and the meta data written, whatever is dirty. */
  method CloseDown(fs: FsContext, ghost exact: bool)
    requires Closing(fs, ClinAll(fs.g, fs.table), EbinAll(fs.g, fs.table), exact)
    requires VolumeOk(fs.g, fs.eb, fs.table, exact) && MetaFits(fs.g) && SuperOn(fs.g, fs.disk)
    modifies fs`eb, fs`gc, fs`sums, fs`disk, fs`buf
    ensures Parked(fs, exact) && ClosedFrom(old(fs.eb), fs.eb)
    ensures fs.dirty == {} && (forall no | 0 <= no < |fs.cache| :: fs.cache[no] == None) ==>
      AtRest(fs.g, fs.disk, fs.table, fs.groups, fs.writer, exact)
    ensures fs.g.Valid() && SameContents(fs.g, old(fs.disk), fs.disk, fs.table, fs.table.Keys)
  {
    hide SumInv, EbInv, LiveOk, EbinLive, LogInv, Kept, GcInv, Separate, SameContents, AtRest, ReadUsage, ReadMap,
      WithMeta, SuperOn, ClosedSums;
    ghost var eb1, d1 := fs.eb, fs.disk;
    ghost var table: map<nat, Inode> := fs.table;
    LogSizes(fs.g, fs.eb, fs.disk, LogOf(fs));
    CloseEraseblks(fs, ClinAll(fs.g, fs.table), EbinAll(fs.g, fs.table), exact);
    SuperKept(fs.g, eb1, d1, fs.eb, fs.disk);
    OthersKept(fs.g, eb1, d1, fs.eb, fs.disk, {}, table, exact, 0);
    LogSizes(fs.g, fs.eb, fs.disk, LogOf(fs));
    ghost var d2 := fs.disk;
    MetaWritten(fs, WithMetaOf(fs), exact);
    if fs.dirty == {} && forall no | 0 <= no < |fs.cache| :: fs.cache[no] == None {
      MetaRests(fs, WithMetaOf(fs), exact);
    }
    WriteMetaData(fs);
    ContentsChain(fs.g, d1, d2, fs.disk, table);
  }

  /**
   * unmount. The device is at rest afterwards: every block closed, the usage records and the map on disk equal to
   * those in memory, every inode and every file what it was. If the dirty inodes find no room, which unmount
   * ignores, the same is true of the arrays, the clean inodes and the data; the map then names no cluster, or an
   * earlier one, for the dirty ones, and cannot be mounted exactly if one of them has never been written.
   */
  method Unmount(fs: FsContext, ghost exact: bool) returns (out: Parting)
    requires VolInv(fs, exact) && MetaFits(fs.g) && SuperOn(fs.g, fs.disk)
    modifies fs
    ensures out != Spinning ==> Parked(fs, exact)
    ensures out == Rested ==> AtRest(fs.g, fs.disk, fs.table, fs.groups, fs.writer, exact)
    ensures out == Lossy ==> NoRoom(fs.g, fs.eb, Emb, true) || NoRoom(fs.g, fs.eb, Emb, false)
    ensures out == Lossy ==> (MapOnDevice(fs.g, fs.inoMap) <==>
      forall no | no in fs.dirty :: no < |fs.inoMap| && fs.inoMap[no] != RESERVED_CL)
    ensures out == Spinning ==> exists i: nat, b: nat :: Stuck(fs.g, fs.eb, fs.gc, i, b)
    ensures fs.table == old(fs.table) && SameContents(fs.g, old(fs.disk), fs.disk, fs.table, fs.table.Keys)
  {
    hide SumInv, EbInv, LiveOk, EbinLive, LogInv, Kept, GcInv, Separate, SameContents, AtRest, ReadUsage, ReadMap,
      WithMeta, SuperOn, NoRoom, Collectable, ClosedSums, MapOnDevice, FewEmpty;
    ghost var live, blocks := ClinAll(fs.g, fs.table), EbinAll(fs.g, fs.table);
    ghost var eb0, d0 := fs.eb, fs.disk;
    ghost var table: map<nat, Inode> := fs.table;
    CoreSizes(fs);
    var rc := ReleaseInodes(fs, live, blocks, exact);
    OthersKept(fs.g, eb0, d0, fs.eb, fs.disk, {}, table, exact, 0);
    SuperKept(fs.g, eb0, d0, fs.eb, fs.disk);
    out := if rc.Ok? then Rested else Lossy;
    if rc.Ok? {
      GcFacts(fs, exact);
      FreePrunes(fs.g, fs.eb, fs.disk, fs.sums, fs.writer);
      rc := RunGc(fs);
      if !rc.Ok? { return Spinning; }
    } else {
      NothingPruned(fs.g, fs.eb, fs.disk, fs.sums, fs.writer);
    }
    ghost var eb1, d1 := fs.eb, fs.disk;
    CloseDown(fs, exact);
    ContentsChain(fs.g, d0, d1, fs.disk, table);
    if out == Lossy {
      if NoRoom(fs.g, eb1, Emb, true) { NoRoomStays(fs.g, eb1, fs.eb, true); }
      if NoRoom(fs.g, eb1, Emb, false) { NoRoomStays(fs.g, eb1, fs.eb, false); }
      MapMountable(fs.g, fs.eb, fs.disk, LogOf(fs));
    }
  }

  /** Why a device is not at rest after unmount: there was no room for the dirty inodes, or gc never returns. */
  ghost predicate NotAtRest(fs: FsContext)
    reads fs
  {
    || NoRoom(fs.g, fs.eb, Emb, true) || NoRoom(fs.g, fs.eb, Emb, false)
    || exists i: nat, b: nat :: Stuck(fs.g, fs.eb, fs.gc, i, b)
  }

  /** The disk write_meta_data is going to leave, if it can. */
  ghost function WithMetaOf(fs: FsContext): seq<byte>
    reads fs
  {
    if |fs.eb| == fs.g.blocks && AllFit16(fs.eb) && WordMap(fs.g, fs.inoMap)
        && fs.g.c + 8 * fs.g.blocks + 4 * fs.g.nino <= |fs.disk|
    then WithMeta(fs.g, fs.disk, fs.eb, fs.inoMap) else []
  }

  lemma ContentsChain(g: Geometry, d0: seq<byte>, d1: seq<byte>, d2: seq<byte>, table: map<nat, Inode>)
    requires g.Valid() && SameContents(g, d0, d1, table, table.Keys) && SameContents(g, d1, d2, table, table.Keys)
    ensures SameContents(g, d0, d2, table, table.Keys)
  {
  }

  // ---------------------------------------------------------- mount

  /** gcinfo_init */
  function GcInit(g: Geometry): (gc: seq<GcInfo>)
    requires g.Valid()
    ensures GcInv(g, gc) && forall i | 0 <= i < |gc| :: gc[i].time == 0 && gc[i].cnt == 0
  {
    seq(|GcTypes(g)|, i requires 0 <= i < |GcTypes(g)| => GcInfo(GcTypes(g)[i], 0, 0))
  }

  /** device size / clustersize */
  function ClusterCnt(g: Geometry): (n: nat)
    ensures n == g.blocks * g.k
  {
    MulNonneg(g.blocks, g.k);
    g.blocks * g.k
  }

  /** Every inode in the map has a cluster on the device. */
  predicate MapOnDevice(g: Geometry, inoMap: seq<nat>) { forall i | 1 <= i < |inoMap| :: inoMap[i] < ClusterCnt(g) }

  /** The parameters are usable, both arrays lie on the device, and the buffer is one erase block large. */
  predicate Plausible(g: Geometry, d: seq<byte>, bufSize: nat) {
    && g.Valid() && 4 * g.nino <= g.E() <= |d| && g.c + 8 * g.blocks <= |d| && bufSize == g.E()
    && MapOnDevice(g, ReadMap(g, d))
  }

  /** read_cl_occupancy */
  method ReadClOccupancy(g: Geometry, inoMap: seq<nat>) returns (occ: seq<int>)
    requires MapOnDevice(g, inoMap)
    ensures occ == Recount(inoMap, ClusterCnt(g))
  {
    var n := ClusterCnt(g);
    occ := seq(n, i => 0);
    var i: nat := if |inoMap| > 0 then 1 else 0;
    NoneLiving(inoMap[..i]);
    while i < |inoMap|
      invariant (|inoMap| == 0 || 1 <= i) && i <= |inoMap| && |occ| == n
      invariant occ == Recount(inoMap[..i], n)
    {
      OneMore(inoMap, i, n);
      var cl := inoMap[i];
      if cl != FREE_CL { occ := occ[cl := occ[cl] + 1]; }
      i := i + 1;
    }
    assert inoMap[..i] == inoMap;
  }

  lemma NoneLiving(inoMap: seq<nat>)
    requires |inoMap| <= 1
    ensures forall cl: nat :: Living(inoMap, cl) == {}
  {
  }

  lemma OneMore(inoMap: seq<nat>, i: nat, n: nat)
    requires 1 <= i < |inoMap| && inoMap[i] < n
    ensures Recount(inoMap[..i + 1], n) ==
      if inoMap[i] == FREE_CL then Recount(inoMap[..i], n)
      else Recount(inoMap[..i], n)[inoMap[i] := Recount(inoMap[..i], n)[inoMap[i]] + 1]
  {
    forall cl: nat | cl < n
      ensures Living(inoMap[..i + 1], cl)
         == if cl == inoMap[i] then Living(inoMap[..i], cl) + {i} else Living(inoMap[..i], cl)
    {
    }
    assert i !in Living(inoMap[..i], inoMap[i]);
  }

  /** mount: the context holds what the device says, and if the device is at rest, a volume in order. */
  method Mount(disk: seq<byte>, buf: seq<byte>, ghost table: map<nat, Inode>, ghost groups: map<nat, seq<Inode>>,
               ghost writer: seq<seq<nat>>, ghost exact: bool) returns (fs: FsContext)
    requires |disk| >= 128 && Get32(disk, 20) > 0 && Plausible(GetSuper(disk), disk, |buf|)
    ensures fresh(fs) && fs.g == GetSuper(disk) && fs.disk == disk && fs.table == table && fs.dirty == {}
    ensures fs.eb == ReadUsage(fs.g, disk) && fs.inoMap == ReadMap(fs.g, disk)
    ensures fs.occ == Recount(fs.inoMap, ClusterCnt(fs.g)) && fs.cache == seq(fs.g.nino, i => None)
    ensures AtRest(fs.g, disk, table, groups, writer, exact) ==> VolInv(fs, exact)
  {
    hide EbInv, LogInv, VolumeOk, Separate, LiveOk, EbinLive, AtRest, Recount, ReadUsage, ReadMap, GetSuper, SumInv,
      Get32;
    var g := GetSuper(disk);
    fs := new FsContext(g, disk);
    fs.eb := ReadUsage(g, disk);
    fs.inoMap := ReadMap(g, disk);
    fs.occ := ReadClOccupancy(g, fs.inoMap);
    fs.sums := ClosedSums(g);
    fs.cache := seq(g.nino, i => None);
    fs.gc := GcInit(g);
    fs.dirty := {};
    fs.buf := buf;
    fs.table, fs.groups, fs.writer := table, groups, writer;
    if AtRest(g, disk, table, groups, writer, exact) {
      assert LogOf(fs) == RestLog(g, fs.inoMap, table, groups);
      RestVolume(fs, exact);
    }
  }

  lemma RestVolume(fs: FsContext, exact: bool)
    requires AtRest(fs.g, fs.disk, fs.table, fs.groups, fs.writer, exact) && fs.eb == ReadUsage(fs.g, fs.disk)
    requires fs.sums == ClosedSums(fs.g) && GcInv(fs.g, fs.gc) && |fs.buf| == fs.g.E()
    requires LogOf(fs) == RestLog(fs.g, ReadMap(fs.g, fs.disk), fs.table, fs.groups)
    ensures VolInv(fs, exact)
  {
    hide EbInv, LogInv, Separate, SumInv;
  }

  /** At rest every inode has been written. */
  lemma RestMap(g: Geometry, d: seq<byte>, table: map<nat, Inode>, groups: map<nat, seq<Inode>>, writer: seq<seq<nat>>,
                exact: bool)
    requires AtRest(g, d, table, groups, writer, exact)
    ensures MapOnDevice(g, ReadMap(g, d)) && |d| >= 128 && Get32(d, 20) > 0 && GetSuper(d) == g
  {
    var l := RestLog(g, ReadMap(g, d), table, groups);
    SuperRoundTrip(g, d);
    forall i: nat | 1 <= i < |l.inoMap| ensures l.inoMap[i] < g.blocks * g.k {
      assert Entry(g, ReadUsage(g, d), l, i);
      MulNonneg(g.blocks, g.k);
      MulMono(1, g.blocks, g.k);
    }
  }

  /**
   * Unmounting and mounting again: the same usage records and the same map, no block open, nothing cached or
   * dirty, every inode and every file what it was, and the volume in order.
   */
  method Remount(fs: FsContext, ghost exact: bool) returns (out: Parting, fs': FsContext)
    requires VolInv(fs, exact) && MetaFits(fs.g) && SuperOn(fs.g, fs.disk)
    modifies fs
    ensures out == Rested ==>
      && fresh(fs') && VolInv(fs', exact) && fs'.g == fs.g && fs'.eb == fs.eb && fs'.inoMap == fs.inoMap
      && NoneOpen(fs'.g, fs'.eb) && fs'.dirty == {} && SuperOn(fs'.g, fs'.disk)
    ensures fs'.g == fs.g && fs'.table == old(fs.table)
    ensures SameContents(fs.g, old(fs.disk), fs'.disk, fs'.table, fs'.table.Keys)
    ensures out != Rested ==> fs' == fs && NotAtRest(fs)
  {
    hide VolInv, SameContents, ReadUsage, ReadMap, SuperOn, LogInv, SumInv, VolumeOk;
    fs' := fs;
    out := Unmount(fs, exact);
    if out == Rested {
      RestMap(fs.g, fs.disk, fs.table, fs.groups, fs.writer, exact);
      fs' := Mount(fs.disk, fs.buf, fs.table, fs.groups, fs.writer, exact);
    }
  }
}
