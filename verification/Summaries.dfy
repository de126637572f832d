/** summary.cpp: which inode wrote each cluster of a cluster-indirect erase block. */
module Summaries {
  import opened Basics
  import opened Layout
  import opened EraseBlk

  // ------------------------------------------------------------ the summary object

  function NoRefs(n: nat): (r: seq<nat>)
    ensures |r| == n && forall i | 0 <= i < n :: r[i] == 0
  {
    seq(n, i => 0)
  }

  /** summary_open is null when the summary of that type is open already. */
  function SummaryOpen(s: Summary): Option<Summary> {
    if s.open then None else Some(s.(open := true))
  }

  /** summary_get is null when the summary of that type is not open. */
  function SummaryGet(s: Summary): Option<Summary> {
    if s.open then Some(s) else None
  }

  function SummaryClose(s: Summary): Summary { Summary(false, NoRefs(|s.refs|)) }

  function SumOf(sums: SummaryCache, t: EbType): Summary {
    if t == DentryClin then sums.dentryClin else sums.inodeClin
  }

  function SetSum(sums: SummaryCache, t: EbType, s: Summary): SummaryCache {
    if t == DentryClin then sums.(dentryClin := s) else sums.(inodeClin := s)
  }

  /** The first clustersize bytes of the reference buffer, which is what summary_write stores. */
  function EncodeRefs(c: nat, refs: seq<nat>): (r: seq<byte>)
    requires c % 4 == 0 && c / 4 <= |refs| && forall i | 0 <= i < |refs| :: refs[i] < U32
    ensures |r| == c
  {
    seq(c, i requires 0 <= i < c => Put32(refs[i / 4])[i % 4])
  }

  lemma EncodeRefsAt(c: nat, refs: seq<nat>, i: nat)
    requires c % 4 == 0 && c / 4 <= |refs| && forall j | 0 <= j < |refs| :: refs[j] < U32
    requires i < c / 4
    ensures Get32(EncodeRefs(c, refs), 4 * i) == refs[i]
  {
    var r := EncodeRefs(c, refs);
    assert r[4 * i .. 4 * i + 4] == Put32(refs[i]);
    Get32At(r, 4 * i, refs[i]);
  }

  // ------------------------------------------------------------ correspondence

  /** The inode numbers a block's summary has to hold, given who wrote its clusters. */
  function BlockRefs(g: Geometry, writers: seq<nat>): (r: seq<nat>)
    requires g.Valid() && |writers| == g.k
    ensures |r| == g.c
    ensures forall i | 0 <= i < g.c :: r[i] == if i < g.k then writers[i] else 0
  {
    seq(g.c, i requires 0 <= i < g.c => if i < g.k then writers[i] else 0)
  }

  predicate OpenOfType(g: Geometry, eb: seq<EraseBlock>, t: EbType, b: nat) {
    1 <= b < |eb| && eb[b].etype == t && Open(g, eb[b])
  }

  ghost predicate SumTypeOk(g: Geometry, eb: seq<EraseBlock>, s: Summary, t: EbType, writer: seq<seq<nat>>)
    requires g.Valid() && |eb| == g.blocks && WriterOk(g, writer)
  {
    && |s.refs| == g.c
    && (s.open <==> exists b :: OpenOfType(g, eb, t, b))
    && (forall b: nat | OpenOfType(g, eb, t, b) ::
          && s.refs == BlockRefs(g, writer[b])
          && forall i | eb[b].writeops <= i < g.k :: writer[b][i] == 0)
    && (!s.open ==> s.refs == NoRefs(g.c))
  }

  predicate WriterOk(g: Geometry, writer: seq<seq<nat>>) {
    && |writer| == g.blocks
    && forall b | 0 <= b < |writer| :: |writer[b]| == g.k && forall i | 0 <= i < g.k :: writer[b][i] < U32
  }

  ghost predicate SummaryOnDisk(g: Geometry, d: seq<byte>, writer: seq<seq<nat>>, b: nat)
    requires g.Valid() && |d| == g.DeviceSize() && WriterOk(g, writer) && b < g.blocks
  {
    Cluster(g, d, b, g.k - 1) == EncodeRefs(g.c, BlockRefs(g, writer[b]))
  }

  /**
   * The summary of a type is open exactly while a block of that type is, it holds the writers of that
   * block, and the last cluster of every finished cluster-indirect block holds the list it ended with.
   */
  ghost predicate SumInv(g: Geometry, eb: seq<EraseBlock>, d: seq<byte>, sums: SummaryCache, writer: seq<seq<nat>>)
    requires g.Valid()
  {
    && |eb| == g.blocks && |d| == g.DeviceSize() && WriterOk(g, writer)
    && SumTypeOk(g, eb, sums.dentryClin, DentryClin, writer)
    && SumTypeOk(g, eb, sums.inodeClin, FileClin, writer)
    && forall b | 1 <= b < |eb| && IsClinType(eb[b].etype) && eb[b].writeops == g.k :: SummaryOnDisk(g, d, writer, b)
  }

  /** Reading a finished block's last cluster gives back, at index i, the inode that wrote cluster i. */
  lemma SummaryReadsBack(g: Geometry, eb: seq<EraseBlock>, d: seq<byte>, sums: SummaryCache, writer: seq<seq<nat>>,
                         b: nat, i: nat)
    requires g.Valid() && SumInv(g, eb, d, sums, writer)
    requires 1 <= b < |eb| && IsClinType(eb[b].etype) && eb[b].writeops == g.k && i < g.k - 1
    ensures Get32(Cluster(g, d, b, g.k - 1), 4 * i) == writer[b][i]
  {
    assert SummaryOnDisk(g, d, writer, b);
    EncodeRefsAt(g.c, BlockRefs(g, writer[b]), i);
  }

  // ------------------------------------------------------------ preservation

  /** Steps that touch neither types, nor write counts, nor used clusters of indirect blocks. */
  lemma SumKept(g: Geometry, eb0: seq<EraseBlock>, d0: seq<byte>, eb1: seq<EraseBlock>, d1: seq<byte>,
                own: set<nat>, sums: SummaryCache, writer: seq<seq<nat>>)
    requires g.Valid() && SumInv(g, eb0, d0, sums, writer) && Kept(g, eb0, d0, eb1, d1, own)
    requires forall b | b in own :: b < |eb0| && !IsClinType(eb0[b].etype)
    requires forall b | 0 <= b < |eb0| && (IsClinType(eb0[b].etype) || IsClinType(eb1[b].etype)) ::
               eb1[b].etype == eb0[b].etype && eb1[b].writeops == eb0[b].writeops
    ensures SumInv(g, eb1, d1, sums, writer)
  {
    forall b | 1 <= b < |eb1| && IsClinType(eb1[b].etype) && eb1[b].writeops == g.k
      ensures SummaryOnDisk(g, d1, writer, b)
    {
      assert SummaryOnDisk(g, d0, writer, b);
      assert Used(g, eb0, b, g.k - 1);
    }
    SumTypeKept(g, eb0, eb1, sums.dentryClin, DentryClin, writer);
    SumTypeKept(g, eb0, eb1, sums.inodeClin, FileClin, writer);
  }

  lemma SumTypeKept(g: Geometry, eb0: seq<EraseBlock>, eb1: seq<EraseBlock>, s: Summary, t: EbType,
                    writer: seq<seq<nat>>)
    requires g.Valid() && |eb0| == |eb1| == g.blocks && WriterOk(g, writer)
    requires SumTypeOk(g, eb0, s, t, writer)
    requires forall b: nat :: OpenOfType(g, eb0, t, b) <==> OpenOfType(g, eb1, t, b)
    requires forall b: nat | OpenOfType(g, eb0, t, b) :: eb0[b].writeops == eb1[b].writeops
    ensures SumTypeOk(g, eb1, s, t, writer)
  {
    if s.open {
      var b :| OpenOfType(g, eb0, t, b);
      assert OpenOfType(g, eb1, t, b);
    } else {
      forall b ensures !OpenOfType(g, eb1, t, b) { assert !OpenOfType(g, eb0, t, b); }
    }
  }

  // ------------------------------------------------------------ one commit, on values

  function WriterAfter(g: Geometry, writer: seq<seq<nat>>, w: nat, e: nat, no: nat): (r: seq<seq<nat>>)
    requires WriterOk(g, writer) && e < g.blocks && w < g.k && no < U32
    ensures WriterOk(g, r)
  {
    writer[e := (if w == 0 then NoRefs(g.k) else writer[e])[w := no]]
  }

  /** The references in memory once write number w+1 of a block has been recorded. */
  function RefsAfter(s: Summary, w: nat, no: nat): seq<nat>
    requires w < |s.refs|
  {
    s.refs[w := no]
  }

  lemma RefsAfterOk(g: Geometry, eb: seq<EraseBlock>, d: seq<byte>, sums: SummaryCache, writer: seq<seq<nat>>,
                    t: EbType, e: nat, no: nat)
    requires g.Valid() && EbInv(g, eb) && SumInv(g, eb, d, sums, writer)
    requires IsClinType(t) && Target(g, eb, t, e) && no < U32
    ensures SumOf(sums, t).open <==> eb[e].writeops > 0
    ensures |SumOf(sums, t).refs| == g.c && eb[e].writeops < g.k - 1
    ensures RefsAfter(SumOf(sums, t), eb[e].writeops, no)
         == BlockRefs(g, WriterAfter(g, writer, eb[e].writeops, e, no)[e])
    ensures forall i | eb[e].writeops < i < g.k :: WriterAfter(g, writer, eb[e].writeops, e, no)[e][i] == 0
  {
    var s := SumOf(sums, t);
    assert SumTypeOk(g, eb, s, t, writer);
    assert BlockOk(g, eb[e]);
    if eb[e].etype == Empty {
      assert forall b :: !OpenOfType(g, eb, t, b);
    } else {
      assert OpenOfType(g, eb, t, e);
    }
  }

  /** A commit that leaves its cluster-indirect block open. */
  lemma SumAfterOpenCommit(g: Geometry, eb: seq<EraseBlock>, d: seq<byte>, sums: SummaryCache, writer: seq<seq<nat>>,
                           t: EbType, e: nat, no: nat, time: nat)
    requires g.Valid() && EbInv(g, eb) && SumInv(g, eb, d, sums, writer)
    requires IsClinType(t) && Target(g, eb, t, e) && no < U32
    requires eb[e].writeops + 1 < g.k - 1
    ensures |SumOf(sums, t).refs| == g.c
    ensures SumInv(g, eb[e := Written(g, eb[e], t, time)], d,
                   SetSum(sums, t, Summary(true, RefsAfter(SumOf(sums, t), eb[e].writeops, no))),
                   WriterAfter(g, writer, eb[e].writeops, e, no))
  {
    RefsAfterOk(g, eb, d, sums, writer, t, e, no);
    var eb' := eb[e := Written(g, eb[e], t, time)];
    var writer' := WriterAfter(g, writer, eb[e].writeops, e, no);
    var s' := Summary(true, RefsAfter(SumOf(sums, t), eb[e].writeops, no));
    assert OpenOfType(g, eb', t, e);
    forall b: nat | OpenOfType(g, eb', t, b) ensures b == e { }
    assert SumTypeOk(g, eb', s', t, writer');
    OtherTypeAfter(g, eb, sums, writer, writer', t, e, eb'[e]);
    forall b | 1 <= b < |eb'| && IsClinType(eb'[b].etype) && eb'[b].writeops == g.k
      ensures SummaryOnDisk(g, d, writer', b)
    {
      assert SummaryOnDisk(g, d, writer, b);
    }
  }

  /** A commit that fills the block: its summary goes to the last cluster and is closed. */
  lemma SumAfterLastCommit(g: Geometry, eb: seq<EraseBlock>, d: seq<byte>, sums: SummaryCache, writer: seq<seq<nat>>,
                           t: EbType, e: nat, no: nat, time: nat)
    requires g.Valid() && EbInv(g, eb) && SumInv(g, eb, d, sums, writer)
    requires IsClinType(t) && Target(g, eb, t, e) && no < U32
    requires eb[e].writeops + 1 == g.k - 1
    ensures |SumOf(sums, t).refs| == g.c
    ensures forall i | 0 <= i < g.c :: RefsAfter(SumOf(sums, t), eb[e].writeops, no)[i] < U32
    ensures ClOf(g, e, g.k - 1) * g.c + g.c <= |d|
    ensures SumInv(g, eb[e := Written(g, eb[e], t, time)],
                   Patch(d, ClOf(g, e, g.k - 1) * g.c, EncodeRefs(g.c, RefsAfter(SumOf(sums, t), eb[e].writeops, no))),
                   SetSum(sums, t, Summary(false, NoRefs(g.c))),
                   WriterAfter(g, writer, eb[e].writeops, e, no))
  {
    RefsAfterOk(g, eb, d, sums, writer, t, e, no);
    var eb' := eb[e := Written(g, eb[e], t, time)];
    var writer' := WriterAfter(g, writer, eb[e].writeops, e, no);
    var s' := Summary(false, NoRefs(g.c));
    forall b: nat ensures !OpenOfType(g, eb', t, b) { }
    assert SumTypeOk(g, eb', s', t, writer');
    OtherTypeAfter(g, eb, sums, writer, writer', t, e, eb'[e]);
    LastSummaryStored(g, eb, d, sums, writer, t, e, no, time);
  }

  /** Every finished block, the new one included, has its list in its last cluster. */
  lemma LastSummaryStored(g: Geometry, eb: seq<EraseBlock>, d: seq<byte>, sums: SummaryCache, writer: seq<seq<nat>>,
                          t: EbType, e: nat, no: nat, time: nat)
    requires g.Valid() && EbInv(g, eb) && SumInv(g, eb, d, sums, writer)
    requires IsClinType(t) && Target(g, eb, t, e) && no < U32
    requires eb[e].writeops + 1 == g.k - 1
    ensures |SumOf(sums, t).refs| == g.c
    ensures forall i | 0 <= i < g.c :: RefsAfter(SumOf(sums, t), eb[e].writeops, no)[i] < U32
    ensures ClOf(g, e, g.k - 1) * g.c + g.c <= |d|
    ensures
      var eb' := eb[e := Written(g, eb[e], t, time)];
      var d' := Patch(d, ClOf(g, e, g.k - 1) * g.c, EncodeRefs(g.c, RefsAfter(SumOf(sums, t), eb[e].writeops, no)));
      forall b | 1 <= b < |eb'| && IsClinType(eb'[b].etype) && eb'[b].writeops == g.k ::
        SummaryOnDisk(g, d', WriterAfter(g, writer, eb[e].writeops, e, no), b)
  {
    RefsAfterOk(g, eb, d, sums, writer, t, e, no);
    var eb' := eb[e := Written(g, eb[e], t, time)];
    var refs := RefsAfter(SumOf(sums, t), eb[e].writeops, no);
    PatchCluster(g, d, e, g.k - 1, EncodeRefs(g.c, refs));
    forall b | 1 <= b < |eb'| && IsClinType(eb'[b].etype) && eb'[b].writeops == g.k && b != e
      ensures SummaryOnDisk(g, d, writer, b)
    {
      assert eb[b] == eb'[b];
    }
  }

  /** A commit to one cluster-indirect type leaves the summary of the other type in order. */
  lemma OtherTypeAfter(g: Geometry, eb: seq<EraseBlock>, sums: SummaryCache, writer: seq<seq<nat>>,
                       writer': seq<seq<nat>>, t: EbType, e: nat, b': EraseBlock)
    requires g.Valid() && |eb| == g.blocks && WriterOk(g, writer) && WriterOk(g, writer')
    requires IsClinType(t) && 1 <= e < |eb| && b'.etype == t && (eb[e].etype == t || eb[e].etype == Empty)
    requires forall b | 0 <= b < g.blocks && b != e :: writer'[b] == writer[b]
    requires SumTypeOk(g, eb, sums.dentryClin, DentryClin, writer)
    requires SumTypeOk(g, eb, sums.inodeClin, FileClin, writer)
    ensures t == DentryClin ==> SumTypeOk(g, eb[e := b'], sums.inodeClin, FileClin, writer')
    ensures t == FileClin ==> SumTypeOk(g, eb[e := b'], sums.dentryClin, DentryClin, writer')
  {
    var o := if t == DentryClin then FileClin else DentryClin;
    var s := SumOf(sums, o);
    var eb' := eb[e := b'];
    assert forall b :: OpenOfType(g, eb', o, b) <==> OpenOfType(g, eb, o, b);
    SumTypeKept(g, eb, eb', s, o, writer);
    assert SumTypeOk(g, eb', s, o, writer');
  }
}
