/** gc.cpp and the freeing of erase blocks: collecting inode blocks, and what collecting is meant to do. */
module Gc {
  import opened Basics
  import opened Layout
  import opened EraseBlk
  import opened Summaries
  import opened Allocator
  import opened IoUnits
  import opened InodeGroups
  import opened InodeLog
  import opened Volume

  // ---------------------------------------------------------- free_empty_eraseblks

  /** free_eraseblk on one usage record. */
  function FreedBlock(b: EraseBlock): EraseBlock {
    if Tracked(b.etype) && b.cvalid == 0 then EraseBlock(Empty, 0, 0, 0) else b
  }

  /** Block 0 is never looked at. */
  function AllFreed(eb: seq<EraseBlock>): (r: seq<EraseBlock>)
    ensures |r| == |eb| && forall i | 0 <= i < |eb| :: r[i] == if i == 0 then eb[0] else FreedBlock(eb[i])
  {
    seq(|eb|, i requires 0 <= i < |eb| => if i == 0 then eb[0] else FreedBlock(eb[i]))
  }

  method FreeEmptyEraseblks(fs: FsContext)
    requires 1 <= |fs.eb|
    modifies fs`eb
    ensures fs.eb == AllFreed(old(fs.eb))
  {
    var id := 1;
    while id < |fs.eb|
      invariant 1 <= id <= |fs.eb| == |old(fs.eb)|
      invariant forall i | 0 <= i < |fs.eb| ::
        fs.eb[i] == if 1 <= i < id then FreedBlock(old(fs.eb)[i]) else old(fs.eb)[i]
    {
      var b := fs.eb[id];
      if (b.etype == DentryInode || b.etype == DentryClin || b.etype == FileInode || b.etype == FileClin)
          && b.cvalid == 0 {
        fs.eb := fs.eb[id := b.(etype := Empty, lastwrite := 0, writeops := 0)];
      }
      id := id + 1;
    }
  }

  lemma {:induction false} CountAfterFree(eb: seq<EraseBlock>, n: nat)
    requires n <= |eb|
    ensures CountEmpty(AllFreed(eb), n) >= CountEmpty(eb, n)
    ensures forall b | 1 <= b < n && Tracked(eb[b].etype) && eb[b].cvalid == 0 ::
      CountEmpty(AllFreed(eb), n) > CountEmpty(eb, n)
  {
    if n > 1 { CountAfterFree(eb, n - 1); }
  }

  /** Freeing keeps the allocator invariant: no fewer blocks are empty, and no block in use changes. */
  lemma FreeKeepsEbInv(g: Geometry, eb: seq<EraseBlock>)
    requires g.Valid() && EbInv(g, eb)
    ensures EbInv(g, AllFreed(eb))
  {
    CountAfterFree(eb, |eb|);
    var eb' := AllFreed(eb);
    forall i | 1 <= i < |eb'| ensures BlockOk(g, eb'[i]) && (Tracked(eb'[i].etype) ==> eb'[i].etype in GcTypes(g)) {
      assert BlockOk(g, eb[i]);
    }
    assert OneOpen(g, eb');
  }

  /** No live data is given up: a block without valid clusters holds none. */
  lemma FreeKeepsLive(g: Geometry, eb: seq<EraseBlock>, live: set<nat>, blocks: set<nat>, exact: bool)
    requires g.Valid() && EbInv(g, eb) && LiveOk(g, eb, live, exact) && EbinLive(eb, blocks)
    ensures LiveOk(g, AllFreed(eb), live, exact) && EbinLive(AllFreed(eb), blocks)
  {
    var eb' := AllFreed(eb);
    forall c | c in live ensures ClinPtrOk(g, eb', c) {
      assert ClinPtrOk(g, eb, c) && Counted(g, eb, live, exact, c / g.k);
      assert c in In(g, live, c / g.k);
    }
    forall b | 1 <= b < |eb'| && IsClinType(eb'[b].etype) ensures Counted(g, eb', live, exact, b) {
      assert Counted(g, eb, live, exact, b);
    }
  }

  /** A cluster-indirect block that is still open, but holds nothing valid. */
  predicate OpenAndEmpty(g: Geometry, eb: seq<EraseBlock>, b: nat) {
    1 <= b < |eb| && IsClinType(eb[b].etype) && Open(g, eb[b]) && eb[b].cvalid == 0
  }

  /** Freeing keeps the summaries in step exactly if no such block exists; its summary would stay open without it. */
  lemma FreeKeepsSummaries(g: Geometry, eb: seq<EraseBlock>, d: seq<byte>, sums: SummaryCache, writer: seq<seq<nat>>)
    requires g.Valid() && EbInv(g, eb) && SumInv(g, eb, d, sums, writer)
    ensures SumInv(g, AllFreed(eb), d, sums, writer) <==> forall b: nat :: !OpenAndEmpty(g, eb, b)
  {
    var eb' := AllFreed(eb);
    if b: nat :| OpenAndEmpty(g, eb, b) {
      var t := eb[b].etype;
      assert OpenOfType(g, eb, t, b);
      assert SumTypeOk(g, eb, SumOf(sums, t), t, writer);
      forall x: nat ensures !OpenOfType(g, eb', t, x) { assert OpenOfType(g, eb', t, x) ==> OpenOfType(g, eb, t, x); }
      assert !SumTypeOk(g, eb', SumOf(sums, t), t, writer);
    } else {
      forall t, b: nat | IsClinType(t) ensures OpenOfType(g, eb', t, b) <==> OpenOfType(g, eb, t, b) {
        assert !OpenAndEmpty(g, eb, b);
      }
      SumTypeKept(g, eb, eb', sums.dentryClin, DentryClin, writer);
      SumTypeKept(g, eb, eb', sums.inodeClin, FileClin, writer);
      forall b | 1 <= b < |eb'| && IsClinType(eb'[b].etype) && eb'[b].writeops == g.k
        ensures SummaryOnDisk(g, d, writer, b)
      {
        assert eb[b] == eb'[b];
      }
    }
  }

  /** The summaries without one that is still open for a block that is gone. */
  ghost function Pruned(g: Geometry, eb: seq<EraseBlock>, sums: SummaryCache): SummaryCache {
    var closed := Summary(false, NoRefs(g.c));
    SummaryCache(if exists b :: OpenOfType(g, eb, DentryClin, b) then sums.dentryClin else closed,
                 if exists b :: OpenOfType(g, eb, FileClin, b) then sums.inodeClin else closed)
  }

  /** Apart from such a summary everything is in step after freeing. */
  lemma FreePrunes(g: Geometry, eb: seq<EraseBlock>, d: seq<byte>, sums: SummaryCache, writer: seq<seq<nat>>)
    requires g.Valid() && EbInv(g, eb) && SumInv(g, eb, d, sums, writer)
    ensures SumInv(g, AllFreed(eb), d, Pruned(g, AllFreed(eb), sums), writer)
  {
    var eb' := AllFreed(eb);
    forall t, b: nat | OpenOfType(g, eb', t, b) ensures OpenOfType(g, eb, t, b) && eb'[b] == eb[b] { }
    PrunedType(g, eb, eb', sums, DentryClin, writer);
    PrunedType(g, eb, eb', sums, FileClin, writer);
    forall b | 1 <= b < |eb'| && IsClinType(eb'[b].etype) && eb'[b].writeops == g.k
      ensures SummaryOnDisk(g, d, writer, b)
    {
      assert eb[b] == eb'[b];
    }
  }

  lemma PrunedType(g: Geometry, eb: seq<EraseBlock>, eb': seq<EraseBlock>, sums: SummaryCache, t: EbType,
                   writer: seq<seq<nat>>)
    requires g.Valid() && |eb| == |eb'| == g.blocks && WriterOk(g, writer) && IsClinType(t)
    requires SumTypeOk(g, eb, SumOf(sums, t), t, writer)
    requires forall b: nat | OpenOfType(g, eb', t, b) :: OpenOfType(g, eb, t, b) && eb'[b] == eb[b]
    ensures SumTypeOk(g, eb', SumOf(Pruned(g, eb', sums), t), t, writer)
  {
    if b :| OpenOfType(g, eb', t, b) { assert OpenOfType(g, eb, t, b); }
  }

  /** No clean inode lives in a block without valid clusters. */
  lemma FreeKeepsLog(g: Geometry, eb: seq<EraseBlock>, d: seq<byte>, l: Log)
    requires LogInv(g, eb, d, l)
    ensures LogInv(g, AllFreed(eb), d, l)
  {
    var eb' := AllFreed(eb);
    forall no: nat | 1 <= no < g.nino ensures Entry(g, eb', l, no) {
      assert Entry(g, eb, l, no);
      if Real(l.inoMap[no]) && no !in l.dirty { CleanHas(g, eb, l, no); }
    }
    forall b: nat | 1 <= b < |eb'| && IsInodeType(eb'[b].etype) ensures eb'[b].cvalid == |Occupied(g, l.occ, b)| {
      assert eb[b].cvalid == |Occupied(g, l.occ, b)|;
    }
  }

  // ---------------------------------------------------------- finding something to collect

  /** is_eb_collectable: closed, and neither without nor full of valid clusters; a summary does not count. */
  predicate Collectable(g: Geometry, b: EraseBlock) {
    b.cvalid > 0 && b.writeops == g.k && b.cvalid < if IsClinType(b.etype) then g.k - 1 else g.k
  }

  predicate CollectableOf(g: Geometry, eb: seq<EraseBlock>, t: EbType, b: nat) {
    1 <= b < |eb| && eb[b].etype == t && Collectable(g, eb[b])
  }

  /** find_collectable_eraseblk: one with the fewest valid clusters, or 0. */
  method FindCollectableEraseblk(fs: FsContext, t: EbType) returns (id: nat)
    requires 1 <= |fs.eb|
    ensures id == INVALID_EB <==> forall b: nat :: !CollectableOf(fs.g, fs.eb, t, b)
    ensures id != INVALID_EB ==> CollectableOf(fs.g, fs.eb, t, id)
    ensures id != INVALID_EB ==> forall b: nat | CollectableOf(fs.g, fs.eb, t, b) :: fs.eb[id].cvalid <= fs.eb[b].cvalid
  {
    var least := fs.g.k;
    id := INVALID_EB;
    var e := 1;
    while e < |fs.eb|
      invariant 1 <= e <= |fs.eb|
      invariant id == INVALID_EB ==> least == fs.g.k && forall b: nat | b < e :: !CollectableOf(fs.g, fs.eb, t, b)
      invariant id != INVALID_EB ==> CollectableOf(fs.g, fs.eb, t, id) && least == fs.eb[id].cvalid
      invariant forall b: nat | b < e && CollectableOf(fs.g, fs.eb, t, b) :: least <= fs.eb[b].cvalid
    {
      if fs.eb[e].etype == t && Collectable(fs.g, fs.eb[e]) && fs.eb[e].cvalid < least {
        least := fs.eb[e].cvalid;
        id := e;
      }
      e := e + 1;
    }
  }

  /** find_collectable_eb_type: the first type with enough finished blocks. */
  method FindCollectableEbType(fs: FsContext) returns (t: Option<EbType>)
    ensures t.None? <==> forall i | 0 <= i < |fs.gc| :: fs.gc[i].cnt < fs.g.nerasewrites
    ensures t.Some? ==> exists i :: 0 <= i < |fs.gc| && fs.gc[i].etype == t.value && fs.gc[i].cnt >= fs.g.nerasewrites
    ensures t.Some? ==> exists j :: 0 <= j < |fs.gc| && fs.gc[j].etype == t.value
  {
    var i := 0;
    while i < |fs.gc|
      invariant 0 <= i <= |fs.gc| && forall j | 0 <= j < i :: fs.gc[j].cnt < fs.g.nerasewrites
    {
      if fs.gc[i].cnt >= fs.g.nerasewrites { return Some(fs.gc[i].etype); }
      i := i + 1;
    }
    t := None;
  }

  // ---------------------------------------------------------- gc, as it is written

  /** move_inodes: it goes on to the next cluster whenever reading one succeeded, so it moves nothing. */
  method MoveInodes(fs: FsContext, src: nat, moved: nat) returns (moved': nat)
    requires fs.g.Valid() && src < fs.g.blocks && |fs.disk| == fs.g.DeviceSize() && |fs.buf| == fs.g.E()
    modifies fs`buf
    ensures moved' == moved && |fs.buf| == fs.g.E()
  {
    moved' := moved;
    var i: nat := 0;
    while i < fs.g.k
      invariant i <= fs.g.k && moved' == moved && |fs.buf| == fs.g.E()
    {
      ClInDevice(fs.g, src, i);
      var inodes := ReadInodeGroup(fs, ClOf(fs.g, src, i));
      i := i + 1;
    }
  }

  /**
   * collect_inodes: a round changes nothing but the buffer, so the first one is repeated for ever if there is
   * anything to collect, and nothing is collected if there is not.
   */
  method CollectInodes(fs: FsContext, t: EbType) returns (rc: Rc)
    requires CoreInv(fs)
    modifies fs`buf
    ensures CoreInv(fs) && |fs.buf| == |old(fs.buf)|
    ensures rc == if exists b: nat :: CollectableOf(fs.g, fs.eb, t, b) then Stalled else Ok(0)
  {
    hide EbInv, SumInv, GcInv;
    CoreSizes(fs);
    var dest := FindEmptyEraseblk(fs);
    var moved: nat := 0;
    var src := FindCollectableEraseblk(fs, t);
    if src == INVALID_EB { return Ok(0); }
    moved := MoveInodes(fs, src, moved);
    var next := FindCollectableEraseblk(fs, t);
    // moved is still 0, which is not the number of clusters the loop waits for, and there is a next block
    assert moved != fs.g.k && next != INVALID_EB;
    rc := Stalled;
  }

  /** A type that gc would collect, and of which there is a block to collect. */
  predicate Stuck(g: Geometry, eb: seq<EraseBlock>, gc: seq<GcInfo>, i: nat, b: nat) {
    i < |gc| && gc[i].cnt >= g.nerasewrites && IsInodeType(gc[i].etype) && CollectableOf(g, eb, gc[i].etype, b)
  }

  /** How many types have a write counter that triggers a collection. */
  function Due(g: Geometry, gc: seq<GcInfo>): nat {
    if gc == [] then 0 else (if gc[0].cnt >= g.nerasewrites then 1 else 0) + Due(g, gc[1..])
  }

  function GcReset(gc: seq<GcInfo>, t: EbType): (r: seq<GcInfo>)
    requires exists j :: 0 <= j < |gc| && gc[j].etype == t
    ensures |r| == |gc| && forall i | 0 <= i < |gc| :: r[i].etype == gc[i].etype && r[i].time == gc[i].time
  {
    var i := GcIndex(gc, t);
    gc[i := gc[i].(cnt := 0)]
  }

  lemma {:induction false} DueUpdate(g: Geometry, gc: seq<GcInfo>, i: nat, x: GcInfo)
    requires i < |gc|
    ensures Due(g, gc[i := x])
          == Due(g, gc) - (if gc[i].cnt >= g.nerasewrites then 1 else 0) + (if x.cnt >= g.nerasewrites then 1 else 0)
  {
    if i == 0 {
      assert gc[0 := x][1..] == gc[1..];
    } else {
      DueUpdate(g, gc[1..], i - 1, x);
      assert gc[i := x][1..] == gc[1..][i - 1 := x];
    }
  }

  /** gcinfo has each type once, so resetting a due type makes one type fewer due. */
  lemma ResetIsLess(g: Geometry, gc: seq<GcInfo>, t: EbType, i: nat)
    requires g.Valid() && GcInv(g, gc) && i < |gc| && gc[i].etype == t && gc[i].cnt >= g.nerasewrites
    ensures exists j :: 0 <= j < |gc| && gc[j].etype == t
    ensures GcReset(gc, t) == gc[i := gc[i].(cnt := 0)] && GcInv(g, GcReset(gc, t))
    ensures Due(g, GcReset(gc, t)) < Due(g, gc)
  {
    var j := GcIndex(gc, t);
    assert gc[j].etype == GcTypes(g)[j] && gc[i].etype == GcTypes(g)[i];
    assert i == j;
    DueUpdate(g, gc, i, gc[i].(cnt := 0));
  }

  /**
   * gc, as it is written. It never returns exactly if some inode type has finished enough blocks and one of
   * them can be collected; otherwise all write counters end below the threshold, one type fewer being due in
   * every round, and the blocks without valid clusters are freed.
   */
  method RunGc(fs: FsContext) returns (rc: Rc)
    requires CoreInv(fs)
    modifies fs`buf, fs`gc, fs`eb
    ensures |fs.buf| == |old(fs.buf)| && GcInv(fs.g, fs.gc)
    ensures rc == Ok(0) || rc == Stalled
    ensures rc == Stalled <==> exists i: nat, b: nat :: Stuck(fs.g, old(fs.eb), old(fs.gc), i, b)
    ensures rc == Stalled ==> fs.eb == old(fs.eb) && exists i: nat, b: nat :: Stuck(fs.g, fs.eb, fs.gc, i, b)
    ensures rc.Ok? ==> fs.eb == AllFreed(old(fs.eb)) && forall i | 0 <= i < |fs.gc| :: fs.gc[i].cnt < fs.g.nerasewrites
  {
    hide EbInv, SumInv, GcInv, Passed, Due, GcReset;
    CoreSizes(fs);
    PassedNone(fs.g, fs.eb, fs.gc);
    var empty := EmptyEraseblkCount(fs);
    if empty < fs.g.nerasereserve {
      // too few free erase blocks: the allocator never lets it come to that
      EnoughEmpty(fs);
      assert false;
    }
    ghost var gc0 := fs.gc;
    var t := FindCollectableEbType(fs);
    while t.Some?
      invariant CoreInv(fs) && fs.eb == old(fs.eb) && |fs.buf| == |old(fs.buf)|
      invariant Passed(fs.g, fs.eb, gc0, fs.gc)
      invariant t.None? <==> forall i | 0 <= i < |fs.gc| :: fs.gc[i].cnt < fs.g.nerasewrites
      invariant t.Some? ==>
        exists i :: 0 <= i < |fs.gc| && fs.gc[i].etype == t.value && fs.gc[i].cnt >= fs.g.nerasewrites
      decreases Due(fs.g, fs.gc)
    {
      ghost var i: nat :| i < |fs.gc| && fs.gc[i].etype == t.value && fs.gc[i].cnt >= fs.g.nerasewrites;
      ResetIsLess(fs.g, fs.gc, t.value, i);
      if IsInodeType(t.value) {
        rc := CollectInodes(fs, t.value);
        if rc.Stalled? {
          ghost var b: nat :| CollectableOf(fs.g, fs.eb, t.value, b);
          assert Stuck(fs.g, fs.eb, fs.gc, i, b);
          StuckNow(fs.g, fs.eb, gc0, fs.gc, i, b);
          return;
        }
      }
      PassedMore(fs.g, fs.eb, gc0, fs.gc, i);
      fs.gc := GcReset(fs.gc, t.value);
      t := FindCollectableEbType(fs);
    }
    NeverStuck(fs.g, fs.eb, gc0, fs.gc);
    FreeEmptyEraseblks(fs);
    rc := Ok(0);
  }

  lemma EnoughEmpty(fs: FsContext)
    requires CoreInv(fs)
    ensures CountEmpty(fs.eb, |fs.eb|) >= fs.g.nerasereserve
  {
  }

  /** The types handled so far were not stuck, the others are as they were. */
  ghost predicate Passed(g: Geometry, eb: seq<EraseBlock>, gc0: seq<GcInfo>, gc: seq<GcInfo>) {
    && |gc| == |gc0|
    && forall i: nat | i < |gc| :: gc[i].etype == gc0[i].etype
         && (gc[i] == gc0[i] || (gc[i].cnt < g.nerasewrites && forall b: nat :: !Stuck(g, eb, gc0, i, b)))
  }

  lemma PassedNone(g: Geometry, eb: seq<EraseBlock>, gc: seq<GcInfo>)
    ensures Passed(g, eb, gc, gc)
  {
  }

  lemma PassedMore(g: Geometry, eb: seq<EraseBlock>, gc0: seq<GcInfo>, gc: seq<GcInfo>, i: nat)
    requires Passed(g, eb, gc0, gc) && i < |gc| && g.nerasewrites >= 1
    requires IsInodeType(gc[i].etype) ==> forall b: nat :: !CollectableOf(g, eb, gc[i].etype, b)
    ensures Passed(g, eb, gc0, gc[i := gc[i].(cnt := 0)])
  {
  }

  lemma StuckNow(g: Geometry, eb: seq<EraseBlock>, gc0: seq<GcInfo>, gc: seq<GcInfo>, i: nat, b: nat)
    requires Passed(g, eb, gc0, gc) && Stuck(g, eb, gc, i, b)
    ensures Stuck(g, eb, gc0, i, b)
  {
  }

  lemma NeverStuck(g: Geometry, eb: seq<EraseBlock>, gc0: seq<GcInfo>, gc: seq<GcInfo>)
    requires Passed(g, eb, gc0, gc) && forall i | 0 <= i < |gc| :: gc[i].cnt < g.nerasewrites
    ensures forall i: nat, b: nat :: !Stuck(g, eb, gc0, i, b)
  {
    forall i: nat, b: nat ensures !Stuck(g, eb, gc0, i, b) {
      if i < |gc| { assert gc[i] == gc0[i] || !Stuck(g, eb, gc0, i, b); }
    }
  }

  /**
   * A gc run that returns changes no file and keeps the volume in order, unless it frees an open cluster-indirect
   * block.
   */
  method CollectGarbage(fs: FsContext, ghost exact: bool) returns (rc: Rc)
    requires VolInv(fs, exact)
    modifies fs`buf, fs`gc, fs`eb
    ensures rc == Stalled <==> exists i: nat, b: nat :: Stuck(fs.g, old(fs.eb), old(fs.gc), i, b)
    ensures rc == Stalled || rc == Ok(0)
    ensures rc == Stalled ==> exists i: nat, b: nat :: Stuck(fs.g, fs.eb, fs.gc, i, b)
    ensures rc.Ok? ==> (VolInv(fs, exact) <==> forall b: nat :: !OpenAndEmpty(fs.g, old(fs.eb), b))
  {
    hide EbInv, SumInv, GcInv, LiveOk, EbinLive, LogInv, Separate;
    CoreSizes(fs);
    ghost var eb0 := fs.eb;
    GcFacts(fs, exact);
    rc := RunGc(fs);
  }

  lemma GcFacts(fs: FsContext, exact: bool)
    requires VolInv(fs, exact)
    ensures var eb' := AllFreed(fs.eb);
      && EbInv(fs.g, eb') && LogInv(fs.g, eb', fs.disk, LogOf(fs)) && VolumeOk(fs.g, eb', fs.table, exact)
      && (SumInv(fs.g, eb', fs.disk, fs.sums, fs.writer) <==> forall b: nat :: !OpenAndEmpty(fs.g, fs.eb, b))
  {
    FreeKeepsEbInv(fs.g, fs.eb);
    FreeKeepsLive(fs.g, fs.eb, ClinAll(fs.g, fs.table), EbinAll(fs.g, fs.table), exact);
    FreeKeepsLog(fs.g, fs.eb, fs.disk, LogOf(fs));
    FreeKeepsSummaries(fs.g, fs.eb, fs.disk, fs.sums, fs.writer);
  }
}
