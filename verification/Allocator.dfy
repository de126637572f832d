/** eraseblk.cpp and the gcinfo counters as they run: searching, committing, freeing and closing erase blocks. */
module Allocator {
  import opened Basics
  import opened Layout
  import opened EraseBlk
  import opened Summaries

  /** Everything the allocator keeps true of a mounted file system. */
  ghost predicate CoreInv(fs: FsContext)
    reads fs
  {
    && fs.g.Valid()
    && EbInv(fs.g, fs.eb)
    && GcInv(fs.g, fs.gc)
    && |fs.disk| == fs.g.DeviceSize()
    && |fs.buf| == fs.g.E()
    && SumInv(fs.g, fs.eb, fs.disk, fs.sums, fs.writer)
  }

  // -------------------------------------------------------------- gc counters

  method GcinfoUpdateWritetime(fs: FsContext, t: EbType) returns (time: nat)
    requires exists j :: 0 <= j < |fs.gc| && fs.gc[j].etype == t
    modifies fs`gc
    ensures fs.gc == GcTicked(old(fs.gc), t)
    ensures time == fs.gc[GcIndex(old(fs.gc), t)].time
  {
    var i := GcIndex(fs.gc, t);
    time := Tick(fs.gc[i].time);
    fs.gc := fs.gc[i := fs.gc[i].(time := time)];
  }

  method GcinfoIncWritecnt(fs: FsContext, t: EbType)
    requires exists j :: 0 <= j < |fs.gc| && fs.gc[j].etype == t
    modifies fs`gc
    ensures fs.gc == GcCounted(old(fs.gc), t)
  {
    var i := GcIndex(fs.gc, t);
    fs.gc := fs.gc[i := fs.gc[i].(cnt := Tick(fs.gc[i].cnt))];
  }

  // ---------------------------------------------------------------- searching

  method EmptyEraseblkCount(fs: FsContext) returns (cnt: nat)
    requires 1 <= |fs.eb|
    ensures cnt == CountEmpty(fs.eb, |fs.eb|)
  {
    cnt := 0;
    var id := 1;
    while id < |fs.eb|
      invariant 1 <= id <= |fs.eb|
      invariant cnt == CountEmpty(fs.eb, id)
    {
      if fs.eb[id].etype == Empty { cnt := cnt + 1; }
      id := id + 1;
    }
  }

  /** The lowest empty block, or 0 unless there are more of them than the reserve. */
  method FindEmptyEraseblk(fs: FsContext) returns (id: nat)
    requires 1 <= |fs.eb|
    ensures id == INVALID_EB <==> CountEmpty(fs.eb, |fs.eb|) <= fs.g.nerasereserve
    ensures id != INVALID_EB ==> 1 <= id < |fs.eb| && fs.eb[id].etype == Empty
    ensures forall j | 1 <= j < id :: fs.eb[j].etype != Empty
  {
    var cnt := EmptyEraseblkCount(fs);
    if cnt <= fs.g.nerasereserve { return INVALID_EB; }
    CountEmptyPositive(fs.eb, |fs.eb|);
    id := 1;
    while id < |fs.eb|
      invariant 1 <= id <= |fs.eb|
      invariant forall j | 1 <= j < id :: fs.eb[j].etype != Empty
    {
      if fs.eb[id].etype == Empty { return; }
      id := id + 1;
    }
  }

  /** The block to write type `t` to, and in it the first cluster (or erase block) never written. */
  method FindWritableCluster(fs: FsContext, t: EbType) returns (ok: bool, eb: nat, cl: nat)
    requires fs.g.Valid() && EbInv(fs.g, fs.eb) && (t == EbinBlk || t in GcTypes(fs.g))
    ensures ok ==> Target(fs.g, fs.eb, t, eb)
    ensures ok ==> cl == if t == EbinBlk then eb else ClOf(fs.g, eb, fs.eb[eb].writeops)
    ensures !ok ==> CountEmpty(fs.eb, |fs.eb|) <= fs.g.nerasereserve
    ensures !ok ==> forall e: nat :: !Target(fs.g, fs.eb, t, e)
  {
    if t == EbinBlk {
      eb := FindEmptyEraseblk(fs);
      return eb != INVALID_EB, eb, eb;
    }
    var e := 1;
    while e < |fs.eb|
      invariant 1 <= e <= |fs.eb|
      invariant forall i | 1 <= i < e :: !(fs.eb[i].etype == t && fs.eb[i].writeops < fs.g.k)
    {
      if fs.eb[e].etype == t && fs.eb[e].writeops < fs.g.k {
        return true, e, ClOf(fs.g, e, fs.eb[e].writeops);
      }
      e := e + 1;
    }
    eb := FindEmptyEraseblk(fs);
    if eb == INVALID_EB { return false, eb, 0; }
    assert BlockOk(fs.g, fs.eb[eb]);
    return true, eb, ClOf(fs.g, eb, 0);
  }

  // --------------------------------------------------------------- committing

  lemma TargetIdle(g: Geometry, eb: seq<EraseBlock>, t: EbType, e: nat)
    requires g.Valid() && EbInv(g, eb) && Target(g, eb, t, e)
    ensures t != EbinBlk ==> eb[e].writeops < g.k && (t in GcTypes(g))
    ensures IsClinType(t) ==> eb[e].writeops < g.k - 1
    ensures forall i: nat | eb[e].writeops <= i < g.k :: !Used(g, eb, e, i)
  {
    assert BlockOk(g, eb[e]);
  }

  /** Records one write to a target and, when it fills an indirect block, stores and closes its summary. */
  method CommitWriteOperation(fs: FsContext, t: EbType, e: nat, no: nat) returns (ghost time: nat)
    requires CoreInv(fs) && Target(fs.g, fs.eb, t, e) && no < U32
    modifies fs`eb, fs`gc, fs`sums, fs`disk, fs`writer
    ensures CoreInv(fs)
    ensures fs.eb == old(fs.eb)[e := Written(fs.g, old(fs.eb)[e], t, time)]
    ensures Kept(fs.g, old(fs.eb), old(fs.disk), fs.eb, fs.disk, {})
    ensures !IsClinType(t) ==> fs.disk == old(fs.disk)
    ensures OnlyClusterChanged(fs.g, old(fs.disk), fs.disk, e, fs.g.k - 1)
    ensures IsClinType(t) ==> fs.writer == WriterAfter(fs.g, old(fs.writer), old(fs.eb)[e].writeops, e, no)
    ensures !IsClinType(t) ==> fs.sums == old(fs.sums)
  {
    TargetIdle(fs.g, fs.eb, t, e);
    if IsClinType(t) {
      time := CommitIndirect(fs, t, e, no);
    } else {
      time := CommitPlain(fs, t, e);
    }
  }

  /** A commit to a block without a summary. */
  method CommitPlain(fs: FsContext, t: EbType, e: nat) returns (ghost time: nat)
    requires CoreInv(fs) && Target(fs.g, fs.eb, t, e) && !IsClinType(t)
    modifies fs`eb, fs`gc
    ensures CoreInv(fs)
    ensures fs.eb == old(fs.eb)[e := Written(fs.g, old(fs.eb)[e], t, time)]
    ensures Kept(fs.g, old(fs.eb), fs.disk, fs.eb, fs.disk, {})
  {
    TargetIdle(fs.g, fs.eb, t, e);
    if t == EbinBlk {
      time := 0;
      CommitPlainFacts(fs.g, fs.eb, fs.disk, fs.sums, fs.writer, t, e, 0);
      fs.eb := fs.eb[e := fs.eb[e].(etype := t)];
    } else {
      time := CommitInodes(fs, t, e);
      CommitPlainFacts(fs.g, old(fs.eb), fs.disk, fs.sums, fs.writer, t, e, time);
    }
  }

  method CommitInodes(fs: FsContext, t: EbType, e: nat) returns (ghost time: nat)
    requires IsInodeType(t) && e < |fs.eb| && GcInv(fs.g, fs.gc) && t in GcTypes(fs.g)
    modifies fs`eb, fs`gc
    ensures GcInv(fs.g, fs.gc)
    ensures fs.eb == old(fs.eb)[e := Written(fs.g, old(fs.eb)[e], t, time)]
  {
    GcHas(fs.g, fs.gc, t);
    var now := GcinfoUpdateWritetime(fs, t);
    time := now;
    var b := fs.eb[e];
    fs.eb := fs.eb[e := EraseBlock(t, now % 65536, b.cvalid + 1, b.writeops + 1)];
    if b.writeops + 1 == fs.g.k {
      GcHas(fs.g, fs.gc, t);
      GcinfoIncWritecnt(fs, t);
    }
  }

  lemma CommitPlainFacts(g: Geometry, eb: seq<EraseBlock>, d: seq<byte>, sums: SummaryCache, writer: seq<seq<nat>>,
                         t: EbType, e: nat, time: nat)
    requires g.Valid() && EbInv(g, eb) && SumInv(g, eb, d, sums, writer)
    requires !IsClinType(t) && Target(g, eb, t, e)
    ensures
      var eb' := eb[e := Written(g, eb[e], t, time)];
      EbInv(g, eb') && SumInv(g, eb', d, sums, writer) && Kept(g, eb, d, eb', d, {})
  {
    CommitKeepsEbInv(g, eb, t, e, time);
    KeptCommit(g, eb, d, t, e, time);
    SumKept(g, eb, d, eb[e := Written(g, eb[e], t, time)], d, {}, sums, writer);
  }

  /** A commit to a cluster-indirect block. */
  method CommitIndirect(fs: FsContext, t: EbType, e: nat, no: nat) returns (ghost time: nat)
    requires CoreInv(fs) && Target(fs.g, fs.eb, t, e) && no < U32 && IsClinType(t)
    modifies fs`eb, fs`gc, fs`sums, fs`disk, fs`writer
    ensures CoreInv(fs)
    ensures fs.eb == old(fs.eb)[e := Written(fs.g, old(fs.eb)[e], t, time)]
    ensures fs.writer == WriterAfter(fs.g, old(fs.writer), old(fs.eb)[e].writeops, e, no)
    ensures Kept(fs.g, old(fs.eb), old(fs.disk), fs.eb, fs.disk, {})
    ensures OnlyClusterChanged(fs.g, old(fs.disk), fs.disk, e, fs.g.k - 1)
  {
    ghost var gc0 := fs.gc;
    TargetIdle(fs.g, fs.eb, t, e);
    GcHas(fs.g, fs.gc, t);
    time := Tick(fs.gc[GcIndex(fs.gc, t)].time);
    CommitIndirectFacts(fs.g, fs.eb, fs.disk, fs.sums, fs.writer, t, e, no, time);
    CommitIndirectSteps(fs, t, e, no, time);
  }

  /** What one commit to a cluster-indirect block leaves on disk and in the summaries. */
  ghost function DiskAfter(g: Geometry, d: seq<byte>, e: nat, w: nat, refs: seq<nat>): (r: seq<byte>)
    requires g.Valid() && |d| == g.DeviceSize() && e < g.blocks
    requires |refs| == g.c && forall i | 0 <= i < |refs| :: refs[i] < U32
    ensures |r| == |d|
  {
    ClInDevice(g, e, g.k - 1);
    if w + 1 == g.k - 1 then Patch(d, ClOf(g, e, g.k - 1) * g.c, EncodeRefs(g.c, refs)) else d
  }

  ghost function SumsAfter(g: Geometry, sums: SummaryCache, t: EbType, w: nat, refs: seq<nat>): SummaryCache {
    SetSum(sums, t, if w + 1 == g.k - 1 then Summary(false, NoRefs(g.c)) else Summary(true, refs))
  }

  lemma CommitIndirectFacts(g: Geometry, eb: seq<EraseBlock>, d: seq<byte>, sums: SummaryCache, writer: seq<seq<nat>>,
                            t: EbType, e: nat, no: nat, time: nat)
    requires g.Valid() && EbInv(g, eb) && SumInv(g, eb, d, sums, writer)
    requires IsClinType(t) && Target(g, eb, t, e) && no < U32
    ensures |SumOf(sums, t).refs| == g.c && eb[e].writeops < g.k - 1
    ensures SumOf(sums, t).open <==> eb[e].writeops > 0
    ensures forall i | 0 <= i < g.c :: RefsAfter(SumOf(sums, t), eb[e].writeops, no)[i] < U32
    ensures
      var w := eb[e].writeops;
      var refs := RefsAfter(SumOf(sums, t), w, no);
      var eb' := eb[e := Written(g, eb[e], t, time)];
      var d' := DiskAfter(g, d, e, w, refs);
      && EbInv(g, eb')
      && SumInv(g, eb', d', SumsAfter(g, sums, t, w, refs), WriterAfter(g, writer, w, e, no))
      && Kept(g, eb, d, eb', d', {})
      && OnlyClusterChanged(g, d, d', e, g.k - 1)
  {
    var w := eb[e].writeops;
    RefsAfterOk(g, eb, d, sums, writer, t, e, no);
    var refs := RefsAfter(SumOf(sums, t), w, no);
    CommitKeepsEbInv(g, eb, t, e, time);
    if w + 1 == g.k - 1 {
      SumAfterLastCommit(g, eb, d, sums, writer, t, e, no, time);
      KeptLastCluster(g, eb, d, t, e, time, EncodeRefs(g.c, refs));
    } else {
      SumAfterOpenCommit(g, eb, d, sums, writer, t, e, no, time);
      KeptCommit(g, eb, d, t, e, time);
    }
  }

  /** The summary found by open or get leads to the same list. */
  lemma FoundSummary(sum: Summary, w: nat, no: nat)
    requires w < |sum.refs| && (sum.open <==> w > 0)
    ensures var found := if w == 0 then SummaryOpen(sum) else SummaryGet(sum);
      found.Some? && |found.value.refs| == |sum.refs| && RefsAfter(found.value, w, no) == RefsAfter(sum, w, no)
  {
  }

  method CommitIndirectSteps(fs: FsContext, t: EbType, e: nat, no: nat, ghost time: nat)
    requires fs.g.Valid() && |fs.disk| == fs.g.DeviceSize() && 1 <= e < fs.g.blocks && |fs.eb| == fs.g.blocks
    requires no < U32 && IsClinType(t) && fs.eb[e].writeops < fs.g.k - 1 && WriterOk(fs.g, fs.writer)
    requires |SumOf(fs.sums, t).refs| == fs.g.c && (SumOf(fs.sums, t).open <==> fs.eb[e].writeops > 0)
    requires forall i | 0 <= i < fs.g.c :: RefsAfter(SumOf(fs.sums, t), fs.eb[e].writeops, no)[i] < U32
    requires GcInv(fs.g, fs.gc) && t in GcTypes(fs.g)
    requires exists j :: 0 <= j < |fs.gc| && fs.gc[j].etype == t
    requires time == Tick(fs.gc[GcIndex(fs.gc, t)].time)
    modifies fs`eb, fs`gc, fs`sums, fs`disk, fs`writer
    ensures GcInv(fs.g, fs.gc)
    ensures fs.eb == old(fs.eb)[e := Written(fs.g, old(fs.eb)[e], t, time)]
    ensures fs.writer == WriterAfter(fs.g, old(fs.writer), old(fs.eb)[e].writeops, e, no)
    ensures
      var w := old(fs.eb)[e].writeops;
      var refs := RefsAfter(SumOf(old(fs.sums), t), w, no);
      && fs.disk == DiskAfter(fs.g, old(fs.disk), e, w, refs)
      && fs.sums == SumsAfter(fs.g, old(fs.sums), t, w, refs)
  {
    hide EncodeRefs, NoRefs, WriterAfter;
    var now := GcinfoUpdateWritetime(fs, t);
    var writeops := fs.eb[e].writeops + 1;
    var sum := SumOf(fs.sums, t);
    var found := if writeops == 1 then SummaryOpen(sum) else SummaryGet(sum);
    FoundSummary(sum, fs.eb[e].writeops, no);
    assert found.Some?;  // neither summary_open nor summary_get is null here
    var refs := RefsAfter(found.value, writeops - 1, no);
    fs.writer := WriterAfter(fs.g, fs.writer, writeops - 1, e, no);
    if writeops == fs.g.k - 1 {
      FinishBlock(fs, t, e, refs);
    } else {
      fs.sums := SetSum(fs.sums, t, Summary(true, refs));
      fs.eb := fs.eb[e := EraseBlock(t, now % 65536, fs.eb[e].cvalid + 1, writeops)];
    }
  }

  /** The write that fills a cluster-indirect block: store the summary, close it, count one more write. */
  method FinishBlock(fs: FsContext, t: EbType, e: nat, refs: seq<nat>)
    requires fs.g.Valid() && |fs.disk| == fs.g.DeviceSize() && 1 <= e < fs.g.blocks && |fs.eb| == fs.g.blocks
    requires |refs| == fs.g.c && forall i | 0 <= i < |refs| :: refs[i] < U32
    requires GcInv(fs.g, fs.gc) && t in GcTypes(fs.g) && IsClinType(t) && fs.eb[e].writeops + 1 == fs.g.k - 1
    requires exists j :: 0 <= j < |fs.gc| && fs.gc[j].etype == t
    modifies fs`eb, fs`gc, fs`sums, fs`disk
    ensures ClOf(fs.g, e, fs.g.k - 1) * fs.g.c + fs.g.c <= |old(fs.disk)|
    ensures fs.disk == Patch(old(fs.disk), ClOf(fs.g, e, fs.g.k - 1) * fs.g.c, EncodeRefs(fs.g.c, refs))
    ensures fs.sums == SetSum(old(fs.sums), t, Summary(false, NoRefs(fs.g.c)))
    ensures fs.eb == old(fs.eb)[e := Written(fs.g, old(fs.eb)[e], t, old(fs.gc[GcIndex(fs.gc, t)].time))]
    ensures GcInv(fs.g, fs.gc)
  {
    SummaryWrite(fs, refs, e);
    fs.sums := SetSum(fs.sums, t, SummaryClose(Summary(true, refs)));
    var again := GcinfoUpdateWritetime(fs, t);
    var b := fs.eb[e];
    fs.eb := fs.eb[e := EraseBlock(t, again % 65536, b.cvalid + 1, b.writeops + 2)];
    GcHas(fs.g, fs.gc, t);
    GcinfoIncWritecnt(fs, t);
  }

  /** Only the cluster with index i of block e differs between two disks. */
  ghost predicate OnlyClusterChanged(g: Geometry, d0: seq<byte>, d1: seq<byte>, e: nat, i: nat)
    requires g.c > 0 && |d0| == |d1| == g.DeviceSize()
  {
    forall b: nat, j: nat | b < g.blocks && j < g.k && (b != e || j != i) ::
      Cluster(g, d1, b, j) == Cluster(g, d0, b, j)
  }

  /** The summary goes to a cluster nobody uses yet. */
  lemma KeptLastCluster(g: Geometry, eb: seq<EraseBlock>, d: seq<byte>, t: EbType, e: nat, time: nat, data: seq<byte>)
    requires g.Valid() && EbInv(g, eb) && Target(g, eb, t, e) && IsClinType(t) && |d| == g.DeviceSize() && |data| == g.c
    ensures ClOf(g, e, g.k - 1) * g.c + g.c <= |d|
    ensures var d' := Patch(d, ClOf(g, e, g.k - 1) * g.c, data);
      Kept(g, eb, d, eb[e := Written(g, eb[e], t, time)], d', {}) && OnlyClusterChanged(g, d, d', e, g.k - 1)
  {
    TargetIdle(g, eb, t, e);
    KeptFreshCluster(g, eb, d, e, g.k - 1, data);
    PatchCluster(g, d, e, g.k - 1, data);
    var d' := Patch(d, ClOf(g, e, g.k - 1) * g.c, data);
    KeptCommit(g, eb, d', t, e, time);
    KeptTrans(g, eb, d, eb, d', eb[e := Written(g, eb[e], t, time)], d', {}, {});
  }

  /** Stores a summary in the last cluster of its erase block, at eb_off + (erasesize - clustersize). */
  method SummaryWrite(fs: FsContext, refs: seq<nat>, e: nat)
    requires fs.g.Valid() && |fs.disk| == fs.g.DeviceSize() && e < fs.g.blocks
    requires |refs| == fs.g.c && forall i | 0 <= i < |refs| :: refs[i] < U32
    modifies fs`disk
    ensures ClOf(fs.g, e, fs.g.k - 1) * fs.g.c + fs.g.c <= |old(fs.disk)|
    ensures fs.disk == Patch(old(fs.disk), ClOf(fs.g, e, fs.g.k - 1) * fs.g.c, EncodeRefs(fs.g.c, refs))
  {
    ClInDevice(fs.g, e, fs.g.k - 1);
    var off := e * fs.g.E() + (fs.g.E() - fs.g.c);
    assert off == ClOf(fs.g, e, fs.g.k - 1) * fs.g.c by { LastCluster(fs.g, e); }
    fs.disk := Patch(fs.disk, off, EncodeRefs(fs.g.c, refs));
  }

  lemma LastCluster(g: Geometry, e: nat)
    requires g.c > 0 && g.k > 0
    ensures ClOf(g, e, g.k - 1) * g.c == e * g.E() + (g.E() - g.c)
  {
    assert (e * g.k + (g.k - 1)) * g.c == e * (g.k * g.c) + (g.k * g.c - g.c);
  }
}
