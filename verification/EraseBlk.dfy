/** eraseblk.cpp: the log allocator, its usage counters, and which clusters may be written. */
module EraseBlk {
  import opened Basics
  import opened Layout

  // ------------------------------------------------------------- invariants

  predicate Open(g: Geometry, b: EraseBlock) { Tracked(b.etype) && b.writeops < g.k }

  /** One erase block's counters. The last cluster of a cluster-indirect block belongs to its summary. */
  predicate BlockOk(g: Geometry, b: EraseBlock) {
    b.lastwrite < 65536 &&
    match b.etype
    case Super => false
    case Empty => b.cvalid == 0 && b.writeops == 0
    case EbinBlk => b.cvalid == 0 && b.writeops == 0
    case DentryInode => 1 <= b.writeops <= g.k && b.cvalid <= b.writeops
    case FileInode => 1 <= b.writeops <= g.k && b.cvalid <= b.writeops
    case DentryClin => 1 <= b.writeops <= g.k && b.writeops != g.k - 1 && b.cvalid <= b.writeops && b.cvalid < g.k
    case FileClin => 1 <= b.writeops <= g.k && b.writeops != g.k - 1 && b.cvalid <= b.writeops && b.cvalid < g.k
  }

  predicate OneOpen(g: Geometry, eb: seq<EraseBlock>) {
    forall i, j | 1 <= i < j < |eb| && Open(g, eb[i]) && Open(g, eb[j]) :: eb[i].etype != eb[j].etype
  }

  /** The log allocator invariant. */
  predicate EbInv(g: Geometry, eb: seq<EraseBlock>) {
    && |eb| == g.blocks && 1 <= |eb|
    && eb[0] == EraseBlock(Super, 0, 0, 0)
    && (forall i | 1 <= i < |eb| :: BlockOk(g, eb[i]) && (Tracked(eb[i].etype) ==> eb[i].etype in GcTypes(g)))
    && OneOpen(g, eb)
    && CountEmpty(eb, |eb|) >= g.nerasereserve
  }

  /** Empty erase blocks among 1 .. n-1; block 0 is reserved. */
  function CountEmpty(eb: seq<EraseBlock>, n: nat): nat
    requires n <= |eb|
  {
    if n <= 1 then 0 else CountEmpty(eb, n - 1) + if eb[n - 1].etype == Empty then 1 else 0
  }

  lemma {:induction false} CountEmptyUpdate(eb: seq<EraseBlock>, n: nat, e: nat, b: EraseBlock)
    requires n <= |eb| && 1 <= e < |eb|
    ensures CountEmpty(eb[e := b], n) == CountEmpty(eb, n)
              + (if e < n && b.etype == Empty then 1 else 0) - (if e < n && eb[e].etype == Empty then 1 else 0)
  {
    if n > 1 { CountEmptyUpdate(eb, n - 1, e, b); }
  }

  lemma {:induction false} CountEmptyPositive(eb: seq<EraseBlock>, n: nat)
    requires n <= |eb|
    ensures CountEmpty(eb, n) > 0 <==> exists i :: 1 <= i < n && eb[i].etype == Empty
  {
    if n > 1 { CountEmptyPositive(eb, n - 1); }
  }

  // --------------------------------------------------- which type goes where

  function EbTypeFor(g: Geometry, t: DataType, dentry: bool): (r: EbType)
    ensures g.Valid() && t == Clin ==> IsClinType(r)
    ensures g.Valid() && t == Emb ==> IsInodeType(r)
    ensures t == Ebin ==> r == EbinBlk
    ensures g.Valid() && r != EbinBlk ==> r in GcTypes(g)
  {
    if g.neraseopen == 3 then
      if t == Emb then DentryInode else if t == Clin then DentryClin else EbinBlk
    else if g.neraseopen == 4 then
      if t == Emb && dentry then DentryInode
      else if t == Emb then FileInode
      else if t == Clin then DentryClin else EbinBlk
    else if g.neraseopen >= 5 then
      if dentry then (if t == Emb then DentryInode else if t == Clin then DentryClin else EbinBlk)
      else (if t == Emb then FileInode else if t == Clin then FileClin else EbinBlk)
    else EbinBlk
  }

  // ----------------------------------------------------------------- gcinfo

  /** The erase block types gcinfo_init sets up, in order. */
  function GcTypes(g: Geometry): seq<EbType> {
    if g.neraseopen == 3 then [DentryInode, DentryClin]
    else if g.neraseopen == 4 then [DentryInode, FileInode, DentryClin]
    else [DentryInode, FileInode, DentryClin, FileClin]
  }

  predicate GcInv(g: Geometry, gc: seq<GcInfo>) {
    && |gc| == |GcTypes(g)|
    && forall i | 0 <= i < |gc| :: gc[i].etype == GcTypes(g)[i]
  }

  /** The entry get_gcinfo finds; it is never null for a type the allocator hands out. */
  function GcIndex(gc: seq<GcInfo>, t: EbType): (i: nat)
    requires exists j :: 0 <= j < |gc| && gc[j].etype == t
    ensures i < |gc| && gc[i].etype == t
  {
    if gc[0].etype == t then 0 else
      assert gc[1..][..] == gc[1..];
      var j :| 0 <= j < |gc| && gc[j].etype == t;
      assert gc[1..][j - 1].etype == t;
      1 + GcIndex(gc[1..], t)
  }

  lemma GcHas(g: Geometry, gc: seq<GcInfo>, t: EbType)
    requires GcInv(g, gc) && t in GcTypes(g)
    ensures exists j :: 0 <= j < |gc| && gc[j].etype == t
  {
    var i :| 0 <= i < |GcTypes(g)| && GcTypes(g)[i] == t;
    assert gc[i].etype == t;
  }

  function GcTicked(gc: seq<GcInfo>, t: EbType): (r: seq<GcInfo>)
    requires exists j :: 0 <= j < |gc| && gc[j].etype == t
    ensures |r| == |gc| && forall i | 0 <= i < |gc| :: r[i].etype == gc[i].etype && r[i].cnt == gc[i].cnt
  {
    var i := GcIndex(gc, t);
    gc[i := gc[i].(time := Tick(gc[i].time))]
  }

  function GcCounted(gc: seq<GcInfo>, t: EbType): (r: seq<GcInfo>)
    requires exists j :: 0 <= j < |gc| && gc[j].etype == t
    ensures |r| == |gc| && forall i | 0 <= i < |gc| :: r[i].etype == gc[i].etype && r[i].time == gc[i].time
  {
    var i := GcIndex(gc, t);
    gc[i := gc[i].(cnt := Tick(gc[i].cnt))]
  }

  // ------------------------------------------- targets and one commit, on values

  /** What find_writable_cluster hands out: the open block of type t, or an empty one if there is none. */
  predicate Target(g: Geometry, eb: seq<EraseBlock>, t: EbType, e: nat) {
    && 1 <= e < |eb|
    && if eb[e].etype == Empty then
         && CountEmpty(eb, |eb|) > g.nerasereserve
         && (t == EbinBlk || (t in GcTypes(g) && forall i | 1 <= i < |eb| && Open(g, eb[i]) :: eb[i].etype != t))
       else
         Open(g, eb[e]) && eb[e].etype == t
  }

  /** The usage record of a block after commit_write_operation at write time `time`. */
  function Written(g: Geometry, b: EraseBlock, t: EbType, time: nat): EraseBlock {
    if t == EbinBlk then b.(etype := t)
    else if IsClinType(t) && b.writeops + 1 == g.k - 1 then
      EraseBlock(t, Tick(time) % 65536, b.cvalid + 1, g.k)
    else
      EraseBlock(t, time % 65536, b.cvalid + 1, b.writeops + 1)
  }

  /** No cluster-indirect block has changed. */
  predicate SameClin(eb0: seq<EraseBlock>, eb: seq<EraseBlock>) {
    && |eb| == |eb0|
    && forall b | 0 <= b < |eb| && (IsClinType(eb0[b].etype) || IsClinType(eb[b].etype)) :: eb[b] == eb0[b]
  }

  lemma SameClinTrans(eb0: seq<EraseBlock>, eb1: seq<EraseBlock>, eb2: seq<EraseBlock>)
    requires SameClin(eb0, eb1) && SameClin(eb1, eb2)
    ensures SameClin(eb0, eb2)
  {
  }

  lemma SameClinRefl(eb: seq<EraseBlock>)
    ensures SameClin(eb, eb)
  {
  }

  /** ++ on an unsigned int */
  function Tick(x: nat): nat { (x + 1) % U32 }

  /** Every commit to a target keeps the log allocator invariant. */
  lemma CommitKeepsEbInv(g: Geometry, eb: seq<EraseBlock>, t: EbType, e: nat, time: nat)
    requires g.Valid() && EbInv(g, eb) && Target(g, eb, t, e)
    ensures EbInv(g, eb[e := Written(g, eb[e], t, time)])
  {
    var b := Written(g, eb[e], t, time);
    CountEmptyUpdate(eb, |eb|, e, b);
    assert BlockOk(g, b) by { assert BlockOk(g, eb[e]); }
    assert OneOpen(g, eb[e := b]);
  }

  // ---------------------------------------------------- live indirect clusters

  /** The clusters of `live` that lie in block `b`. */
  function In(g: Geometry, live: set<nat>, b: nat): set<nat>
    requires g.k > 0
  {
    set c | c in live && c / g.k == b
  }

  predicate ClinPtrOk(g: Geometry, eb: seq<EraseBlock>, c: nat)
    requires g.k > 0
  {
    var b := c / g.k;
    1 <= b < |eb| && IsClinType(eb[b].etype) && c % g.k < eb[b].writeops && c % g.k < g.k - 1
  }

  /** cvalid bounds the live pointers into every cluster-indirect block; it counts them when `exact`. */
  predicate LiveOk(g: Geometry, eb: seq<EraseBlock>, live: set<nat>, exact: bool)
    requires g.k > 0
  {
    && (forall c | c in live :: ClinPtrOk(g, eb, c))
    && forall b | 1 <= b < |eb| && IsClinType(eb[b].etype) :: Counted(g, eb, live, exact, b)
  }

  predicate Counted(g: Geometry, eb: seq<EraseBlock>, live: set<nat>, exact: bool, b: nat)
    requires g.k > 0 && b < |eb|
  {
    |In(g, live, b)| <= eb[b].cvalid && (exact ==> |In(g, live, b)| == eb[b].cvalid)
  }

  /** The cluster a commit of an indirect cluster hands out was not live, and becomes counted. */
  lemma LiveAdd(g: Geometry, eb: seq<EraseBlock>, t: EbType, e: nat, time: nat, live: set<nat>, exact: bool)
    requires g.Valid() && EbInv(g, eb) && Target(g, eb, t, e) && IsClinType(t)
    requires LiveOk(g, eb, live, exact)
    ensures ClOf(g, e, eb[e].writeops) !in live
    ensures LiveOk(g, eb[e := Written(g, eb[e], t, time)], live + {ClOf(g, e, eb[e].writeops)}, exact)
  {
    hide EbInv, Target, CountEmpty, In, Counted;
    TargetOfClin(g, eb, t, e);
    var w := eb[e].writeops;
    var q := ClOf(g, e, w);
    var eb' := eb[e := Written(g, eb[e], t, time)];
    ClOfSplit(g, e, w);
    FreshNotLive(g, eb, live, exact, e);
    forall b | 1 <= b < |eb'| && IsClinType(eb'[b].etype)
      ensures Counted(g, eb', live + {q}, exact, b)
    {
      if b == e {
        CountedHere(g, eb, t, e, time, live, exact);
      } else {
        CountedElsewhere(g, eb, eb', live, exact, e, q, b);
      }
    }
    forall c | c in live ensures ClinPtrOk(g, eb', c) { assert ClinPtrOk(g, eb, c); }
  }

  /** The clusters a pointer may lead to are the same ones and cluster `id`, which is counted besides. */
  ghost predicate OneClinMore(g: Geometry, eb0: seq<EraseBlock>, eb: seq<EraseBlock>, id: nat)
    requires g.k > 0
  {
    && |eb| == |eb0| && (id != 0 ==> !ClinPtrOk(g, eb0, id))
    && (forall c: nat :: ClinPtrOk(g, eb, c) <==> ClinPtrOk(g, eb0, c) || (id != 0 && c == id))
    && forall b: nat | 1 <= b < |eb| && IsClinType(eb0[b].etype) ::
         IsClinType(eb[b].etype) && eb[b].cvalid == eb0[b].cvalid + if id != 0 && id / g.k == b then 1 else 0
  }

  lemma ClinCommitted(g: Geometry, eb: seq<EraseBlock>, t: EbType, e: nat, time: nat)
    requires g.Valid() && EbInv(g, eb) && Target(g, eb, t, e) && IsClinType(t)
    ensures OneClinMore(g, eb, eb[e := Written(g, eb[e], t, time)], ClOf(g, e, eb[e].writeops))
  {
    hide EbInv, Target, CountEmpty;
    TargetOfClin(g, eb, t, e);
    ClOfSplit(g, e, eb[e].writeops);
    var id, eb' := ClOf(g, e, eb[e].writeops), eb[e := Written(g, eb[e], t, time)];
    MulGe(e, g.k);
    forall c: nat ensures ClinPtrOk(g, eb', c) <==> ClinPtrOk(g, eb, c) || c == id { DivBounds(c, g.k); }
  }

  /** The target of a cluster-indirect commit has a cluster left before the one of its summary. */
  lemma TargetOfClin(g: Geometry, eb: seq<EraseBlock>, t: EbType, e: nat)
    requires g.Valid() && EbInv(g, eb) && Target(g, eb, t, e) && IsClinType(t)
    ensures 1 <= e < |eb| && eb[e].writeops < g.k - 1
    ensures if eb[e].etype == Empty then eb[e].writeops == 0 && eb[e].cvalid == 0 else eb[e].etype == t
  {
    hide CountEmpty;
    assert BlockOk(g, eb[e]);
  }

  /** No pointer leads to a cluster that has not been written. */
  lemma FreshNotLive(g: Geometry, eb: seq<EraseBlock>, live: set<nat>, exact: bool, e: nat)
    requires g.c > 0 && g.k > 0 && LiveOk(g, eb, live, exact) && e < |eb| && eb[e].writeops < g.k
    ensures ClOf(g, e, eb[e].writeops) !in live
    ensures eb[e].etype == Empty ==> In(g, live, e) == {}
  {
    ClOfSplit(g, e, eb[e].writeops);
    assert !ClinPtrOk(g, eb, ClOf(g, e, eb[e].writeops));
    if eb[e].etype == Empty {
      forall c | c in live ensures c / g.k != e { assert ClinPtrOk(g, eb, c); }
    }
  }

  lemma CountedHere(g: Geometry, eb: seq<EraseBlock>, t: EbType, e: nat, time: nat, live: set<nat>, exact: bool)
    requires g.c > 0 && g.k > 0 && LiveOk(g, eb, live, exact) && IsClinType(t) && 1 <= e < |eb|
    requires eb[e].writeops < g.k - 1
    requires if eb[e].etype == Empty then eb[e].writeops == 0 && eb[e].cvalid == 0 else eb[e].etype == t
    ensures Counted(g, eb[e := Written(g, eb[e], t, time)], live + {ClOf(g, e, eb[e].writeops)}, exact, e)
  {
    var q := ClOf(g, e, eb[e].writeops);
    ClOfSplit(g, e, eb[e].writeops);
    FreshNotLive(g, eb, live, exact, e);
    assert In(g, live + {q}, e) == In(g, live, e) + {q};
    if eb[e].etype != Empty { assert Counted(g, eb, live, exact, e); }
  }

  lemma CountedElsewhere(g: Geometry, eb: seq<EraseBlock>, eb': seq<EraseBlock>, live: set<nat>, exact: bool,
                         e: nat, q: nat, b: nat)
    requires g.k > 0 && LiveOk(g, eb, live, exact) && |eb'| == |eb| && 1 <= b < |eb| && eb'[b] == eb[b] && b != e
    requires IsClinType(eb[b].etype) && q / g.k == e
    ensures Counted(g, eb', live + {q}, exact, b)
  {
    assert In(g, live + {q}, b) == In(g, live, b);
    assert Counted(g, eb, live, exact, b);
  }

  /** Commits of other types do not disturb the indirect clusters. */
  lemma LiveKeep(g: Geometry, eb: seq<EraseBlock>, t: EbType, e: nat, time: nat, live: set<nat>, exact: bool)
    requires g.Valid() && EbInv(g, eb) && Target(g, eb, t, e) && !IsClinType(t)
    requires LiveOk(g, eb, live, exact)
    ensures LiveOk(g, eb[e := Written(g, eb[e], t, time)], live, exact)
  {
    var eb' := eb[e := Written(g, eb[e], t, time)];
    forall b | 1 <= b < |eb'| && IsClinType(eb'[b].etype) ensures Counted(g, eb', live, exact, b) {
      assert Counted(g, eb, live, exact, b);
    }
    forall c | c in live ensures ClinPtrOk(g, eb', c) { assert ClinPtrOk(g, eb, c); }
  }

  /** Clusters may leave the live set without their block being told, at the price of exactness. */
  lemma LiveSubset(g: Geometry, eb: seq<EraseBlock>, live: set<nat>, fewer: set<nat>, exact: bool)
    requires g.k > 0 && LiveOk(g, eb, live, exact) && fewer <= live
    ensures LiveOk(g, eb, fewer, false)
  {
    forall b | 1 <= b < |eb| && IsClinType(eb[b].etype) ensures Counted(g, eb, fewer, false, b) {
      assert Counted(g, eb, live, exact, b);
      assert In(g, fewer, b) <= In(g, live, b);
      SubsetSize(In(g, fewer, b), In(g, live, b));
    }
  }

  lemma SubsetSize(a: set<nat>, b: set<nat>)
    requires a <= b
    ensures |a| <= |b|
  {
    assert b == a + (b - a);
  }

  function DecCvalid(eb: seq<EraseBlock>, b: nat): seq<EraseBlock>
    requires b < |eb| && eb[b].cvalid > 0
  {
    eb[b := eb[b].(cvalid := eb[b].cvalid - 1)]
  }

  /** Invalidating a live cluster: its block's counter is positive and stays in step. */
  lemma LiveDrop(g: Geometry, eb: seq<EraseBlock>, live: set<nat>, exact: bool, c: nat)
    requires g.Valid() && EbInv(g, eb) && LiveOk(g, eb, live, exact) && c in live
    ensures ClinPtrOk(g, eb, c) && eb[c / g.k].cvalid > 0
    ensures EbInv(g, DecCvalid(eb, c / g.k))
    ensures LiveOk(g, DecCvalid(eb, c / g.k), live - {c}, exact)
  {
    var e := c / g.k;
    assert ClinPtrOk(g, eb, c);
    assert Counted(g, eb, live, exact, e);
    assert In(g, live, e) == In(g, live - {c}, e) + {c};
    assert c !in In(g, live - {c}, e);
    var eb' := DecCvalid(eb, e);
    CountEmptyUpdate(eb, |eb|, e, eb'[e]);
    assert BlockOk(g, eb[e]);
    assert forall i | 1 <= i < |eb'| :: BlockOk(g, eb'[i]);
    assert OneOpen(g, eb');
    forall b | 1 <= b < |eb'| && IsClinType(eb'[b].etype) ensures Counted(g, eb', live - {c}, exact, b) {
      assert Counted(g, eb, live, exact, b);
      if b != e { assert In(g, live - {c}, b) == In(g, live, b); }
    }
    forall x | x in live - {c} ensures ClinPtrOk(g, eb', x) { assert ClinPtrOk(g, eb, x); }
  }

  // ------------------------------------------------------ live erase blocks

  predicate EbinLive(eb: seq<EraseBlock>, blocks: set<nat>) {
    forall b | b in blocks :: 1 <= b < |eb| && eb[b].etype == EbinBlk
  }

  /** invalidate_ind_ptr gives an erase-block pointer straight back to the empty pool. */
  lemma FreeEbin(g: Geometry, eb: seq<EraseBlock>, blocks: set<nat>, e: nat, live: set<nat>, exact: bool)
    requires g.Valid() && EbInv(g, eb) && EbinLive(eb, blocks) && e in blocks && LiveOk(g, eb, live, exact)
    ensures EbInv(g, eb[e := eb[e].(etype := Empty)])
    ensures EbinLive(eb[e := eb[e].(etype := Empty)], blocks - {e})
    ensures LiveOk(g, eb[e := eb[e].(etype := Empty)], live, exact)
    ensures CountEmpty(eb[e := eb[e].(etype := Empty)], |eb|) <= CountEmpty(eb, |eb|) + 1
  {
    var eb' := eb[e := eb[e].(etype := Empty)];
    CountEmptyUpdate(eb, |eb|, e, eb'[e]);
    assert BlockOk(g, eb[e]);
    assert forall i | 1 <= i < |eb'| :: BlockOk(g, eb'[i]);
    assert OneOpen(g, eb');
    forall b | 1 <= b < |eb'| && IsClinType(eb'[b].etype) ensures Counted(g, eb', live, exact, b) {
      assert Counted(g, eb, live, exact, b);
    }
    forall x | x in live ensures ClinPtrOk(g, eb', x) { assert ClinPtrOk(g, eb, x); }
  }

  // -------------------------------------------------- clusters holding something

  lemma ClInDevice(g: Geometry, b: nat, i: nat)
    requires g.c > 0 && b < g.blocks && i < g.k
    ensures ClOf(g, b, i) * g.c + g.c <= g.DeviceSize()
  {
    DivMod(b, g.k, i);
    ClusterInBlock(g, b * g.k + i);
  }

  /** The bytes of the cluster with index i of block b. */
  function Cluster(g: Geometry, d: seq<byte>, b: nat, i: nat): (r: seq<byte>)
    requires g.c > 0 && b < g.blocks && i < g.k && |d| == g.DeviceSize()
    ensures |r| == g.c
  {
    ClInDevice(g, b, i);
    Chunk(d, g.c, ClOf(g, b, i))
  }

  /** The log has already written this cluster, or its block is not handed out by cluster. */
  predicate Used(g: Geometry, eb: seq<EraseBlock>, b: nat, i: nat) {
    && b < |eb| && i < g.k
    && (eb[b].etype == Super || eb[b].etype == EbinBlk || (Tracked(eb[b].etype) && i < eb[b].writeops))
  }

  /** From (eb0, d0) to (eb1, d1) every used cluster outside the blocks `own` keeps its bytes, and stays used. */
  ghost predicate Kept(g: Geometry, eb0: seq<EraseBlock>, d0: seq<byte>, eb1: seq<EraseBlock>, d1: seq<byte>,
                       own: set<nat>)
    requires g.c > 0
  {
    && |eb0| == |eb1| == g.blocks && |d0| == |d1| == g.DeviceSize()
    && forall b: nat, i: nat | Used(g, eb0, b, i) && b !in own ::
         Used(g, eb1, b, i) && eb1[b].etype == eb0[b].etype && Cluster(g, d1, b, i) == Cluster(g, d0, b, i)
  }

  /** Neither adds, removes nor touches an inode block. */
  predicate SameInodeBlocks(eb0: seq<EraseBlock>, eb1: seq<EraseBlock>) {
    && |eb0| == |eb1|
    && forall b | 0 <= b < |eb0| && (IsInodeType(eb0[b].etype) || IsInodeType(eb1[b].etype)) :: eb0[b] == eb1[b]
  }

  lemma KeptTrans(g: Geometry, eb0: seq<EraseBlock>, d0: seq<byte>, eb1: seq<EraseBlock>, d1: seq<byte>,
                  eb2: seq<EraseBlock>, d2: seq<byte>, own: set<nat>, own1: set<nat>)
    requires g.c > 0
    requires Kept(g, eb0, d0, eb1, d1, own) && Kept(g, eb1, d1, eb2, d2, own1)
    requires forall b | b in own1 && b !in own :: b < |eb0| && eb0[b].etype == Empty
    ensures Kept(g, eb0, d0, eb2, d2, own)
  {
  }

  /** Writing one cluster changes no other cluster. */
  lemma PatchCluster(g: Geometry, d: seq<byte>, b: nat, i: nat, data: seq<byte>)
    requires g.c > 0 && b < g.blocks && i < g.k && |d| == g.DeviceSize() && |data| == g.c
    ensures ClOf(g, b, i) * g.c + g.c <= |d|
    ensures Cluster(g, Patch(d, ClOf(g, b, i) * g.c, data), b, i) == data
    ensures forall x: nat, y: nat | x < g.blocks && y < g.k && (x != b || y != i) ::
              Cluster(g, Patch(d, ClOf(g, b, i) * g.c, data), x, y) == Cluster(g, d, x, y)
  {
    ClInDevice(g, b, i);
    var d' := Patch(d, ClOf(g, b, i) * g.c, data);
    PatchChunk(d, g.c, ClOf(g, b, i), data);
    forall x: nat, y: nat | x < g.blocks && y < g.k && (x != b || y != i)
      ensures Cluster(g, d', x, y) == Cluster(g, d, x, y)
    {
      ClOfSplit(g, b, i);
      ClOfSplit(g, x, y);
      ClInDevice(g, x, y);
      PatchOtherChunk(d, g.c, ClOf(g, b, i), data, ClOf(g, x, y));
    }
  }

  /** Writing a cluster nobody uses. */
  lemma KeptFreshCluster(g: Geometry, eb: seq<EraseBlock>, d: seq<byte>, b: nat, i: nat, data: seq<byte>)
    requires g.c > 0 && |eb| == g.blocks && |d| == g.DeviceSize() && |data| == g.c
    requires b < g.blocks && i < g.k && !Used(g, eb, b, i)
    ensures ClOf(g, b, i) * g.c + g.c <= |d|
    ensures Kept(g, eb, d, eb, Patch(d, ClOf(g, b, i) * g.c, data), {})
  {
    PatchCluster(g, d, b, i, data);
  }

  /** Writing anywhere inside block e keeps the clusters of all other blocks. */
  lemma KeptInBlock(g: Geometry, eb: seq<EraseBlock>, d: seq<byte>, e: nat, off: nat, data: seq<byte>)
    requires g.c > 0 && g.k > 0 && |eb| == g.blocks && |d| == g.DeviceSize() && e < g.blocks
    requires e * g.E() <= off && off + |data| <= e * g.E() + g.E()
    ensures off + |data| <= |d|
    ensures Kept(g, eb, d, eb, Patch(d, off, data), {e})
  {
    BlockInDevice(g, e);
    forall x: nat, y: nat | x < g.blocks && y < g.k && x != e
      ensures Cluster(g, Patch(d, off, data), x, y) == Cluster(g, d, x, y)
    {
      ClOfSplit(g, x, y);
      ClusterInBlock(g, ClOf(g, x, y));
      if x < e { MulMono(x, e, g.E()); } else { MulMono(e, x, g.E()); }
      var lo := ClOf(g, x, y) * g.c;
      PatchSlice(d, off, data, lo, lo + g.c);
    }
  }

  /** Byte x of a block is byte x % clustersize of its cluster x / clustersize. */
  lemma ByteOfBlock(g: Geometry, d: seq<byte>, b: nat, x: nat)
    requires g.c > 0 && g.k > 0 && b < g.blocks && |d| == g.DeviceSize() && x < g.E()
    ensures b * g.E() + g.E() <= |d| && 0 <= x / g.c < g.k
    ensures Chunk(d, g.E(), b)[x] == Cluster(g, d, b, x / g.c)[x % g.c]
  {
    BlockInDevice(g, b);
    DivBounds(x, g.c);
    DivBelow(x, g.k, g.c);
    ByteInCluster(g, d, b, x / g.c, x % g.c);
  }

  lemma ChunkByte(d: seq<byte>, size: nat, id: nat, o: nat)
    requires id * size + size <= |d| && o < size
    ensures 0 <= id * size + o < |d| && Chunk(d, size, id)[o] == d[id * size + o]
  {
  }

  lemma ByteInCluster(g: Geometry, d: seq<byte>, b: nat, i: nat, o: nat)
    requires g.c > 0 && b < g.blocks && |d| == g.DeviceSize() && i < g.k && o < g.c
    requires b * g.E() + g.E() <= |d| && i * g.c + o < g.E()
    ensures Chunk(d, g.E(), b)[i * g.c + o] == Cluster(g, d, b, i)[o]
  {
    ClInDevice(g, b, i);
    Distribute(b * g.k, i, g.c);
    Associate(b, g.k, g.c);
    ChunkByte(d, g.E(), b, i * g.c + o);
    ChunkByte(d, g.c, ClOf(g, b, i), o);
  }

  lemma Distribute(a: nat, b: nat, c: nat)
    ensures (a + b) * c == a * c + b * c
  {
  }

  lemma Associate(a: nat, b: nat, c: nat)
    ensures a * b * c == a * (b * c)
  {
  }

  /** A block whose clusters all keep their bytes keeps its bytes as a whole. */
  lemma BlockOfClusters(g: Geometry, d0: seq<byte>, d1: seq<byte>, b: nat)
    requires g.c > 0 && g.k > 0 && b < g.blocks && |d0| == |d1| == g.DeviceSize()
    requires forall i: nat | i < g.k :: Cluster(g, d1, b, i) == Cluster(g, d0, b, i)
    ensures b * g.E() + g.E() <= |d0|
    ensures Chunk(d1, g.E(), b) == Chunk(d0, g.E(), b)
  {
    BlockInDevice(g, b);
    forall x: nat | x < g.E() ensures Chunk(d1, g.E(), b)[x] == Chunk(d0, g.E(), b)[x] {
      ByteOfBlock(g, d0, b, x);
      ByteOfBlock(g, d1, b, x);
    }
  }

  /** Committing to a target uses more, never less. */
  lemma KeptCommit(g: Geometry, eb: seq<EraseBlock>, d: seq<byte>, t: EbType, e: nat, time: nat)
    requires g.Valid() && EbInv(g, eb) && Target(g, eb, t, e) && |d| == g.DeviceSize()
    ensures Kept(g, eb, d, eb[e := Written(g, eb[e], t, time)], d, {})
  {
    assert BlockOk(g, eb[e]);
  }
}
