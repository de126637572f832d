/** inode_group.cpp: greedy grouping of inodes into clusters, and reading a group back. */
module InodeGroups {
  import opened Basics
  import opened Layout
  import opened InodeCodec

  // ---------------------------------------------------------- the grouping, on values

  /** How many inodes from the front fit into `free` bytes. */
  function Greedy(g: Geometry, s: seq<Inode>, free: nat): (n: nat)
    requires g.Valid()
    ensures n <= |s|
  {
    if s == [] || InodeSize(g, s[0]) > free then 0 else 1 + Greedy(g, s[1..], free - InodeSize(g, s[0]))
  }

  /** They fit, and no longer front does. */
  lemma {:induction false} GreedyIsLongest(g: Geometry, s: seq<Inode>, free: nat)
    requires g.Valid()
    ensures GroupSize(g, s[..Greedy(g, s, free)]) <= free
    ensures forall m: nat | m <= |s| :: GroupSize(g, s[..m]) <= free <==> m <= Greedy(g, s, free)
  {
    var n := Greedy(g, s, free);
    if n == 0 {
      forall m: nat | m <= |s| ensures GroupSize(g, s[..m]) <= free <==> m <= n {
        if m > 0 { assert s[..m][0] == s[0]; }
      }
    } else {
      GreedyIsLongest(g, s[1..], free - InodeSize(g, s[0]));
      forall m: nat | m <= |s| ensures GroupSize(g, s[..m]) <= free <==> m <= n {
        if m > 0 { assert s[..m][1..] == s[1..][..m - 1]; }
      }
    }
  }

  /** The groups write_inodes stores, one to a cluster. */
  function Groups(g: Geometry, s: seq<Inode>): (r: seq<seq<Inode>>)
    requires g.Valid()
    decreases |s|
  {
    var n := Greedy(g, s, g.c);
    if n == 0 then [] else [s[..n]] + Groups(g, s[n..])
  }

  function Flat(p: seq<seq<Inode>>): seq<Inode> {
    if p == [] then [] else p[0] + Flat(p[1..])
  }

  predicate FitCluster(g: Geometry, p: seq<seq<Inode>>)
    requires g.Valid()
  {
    forall i | 0 <= i < |p| :: GroupSize(g, p[i]) <= g.c
  }

  lemma GreedyPositive(g: Geometry, s: seq<Inode>)
    requires g.Valid() && AllOk(g, s) && s != []
    ensures Greedy(g, s, g.c) > 0
  {
    InodeFitsCluster(g, s[0]);
  }

  /** Every inode is in exactly one group, in order, and every group fits a cluster and is not empty. */
  lemma {:induction false} GroupsPartition(g: Geometry, s: seq<Inode>)
    requires g.Valid() && AllOk(g, s)
    ensures Flat(Groups(g, s)) == s && FitCluster(g, Groups(g, s)) && [] !in Groups(g, s)
    decreases |s|
  {
    hide GroupSize, Greedy, InodeSize, InodeOk;
    if s != [] {
      GreedyPositive(g, s);
      GreedyIsLongest(g, s, g.c);
      var n := Greedy(g, s, g.c);
      GroupsPartition(g, s[n..]);
      assert s == s[..n] + s[n..];
      var r := Groups(g, s);
      assert r[0] == s[..n] && r[1..] == Groups(g, s[n..]);
    }
  }

  lemma {:induction false} SizeConcat(g: Geometry, a: seq<Inode>, b: seq<Inode>)
    requires g.Valid()
    ensures GroupSize(g, a + b) == GroupSize(g, a) + GroupSize(g, b)
  {
    if a == [] {
      assert a + b == b;
    } else {
      assert (a + b)[1..] == a[1..] + b;
      SizeConcat(g, a[1..], b);
    }
  }

  /** Two consecutive groups never fit into one cluster together. */
  lemma {:induction false} ConsecutiveGroups(g: Geometry, s: seq<Inode>, i: nat)
    requires g.Valid() && AllOk(g, s) && i + 1 < |Groups(g, s)|
    ensures GroupSize(g, Groups(g, s)[i]) + GroupSize(g, Groups(g, s)[i + 1]) > g.c
    decreases |s|
  {
    hide InodeSize, InodeOk;
    var n := Greedy(g, s, g.c);
    var rest := s[n..];
    if i > 0 {
      ConsecutiveGroups(g, rest, i - 1);
    } else {
      var m := Greedy(g, rest, g.c);
      GreedyIsLongest(g, s, g.c);
      assert s[..n + m] == s[..n] + rest[..m];
      SizeConcat(g, s[..n], rest[..m]);
    }
  }

  /** Fewer inodes never need more clusters. */
  lemma {:induction false} SuffixNeedsNoMore(g: Geometry, s: seq<Inode>, k: nat)
    requires g.Valid() && AllOk(g, s) && k <= |s|
    ensures |Groups(g, s[k..])| <= |Groups(g, s)|
    decreases |s|
  {
    hide GroupSize, Greedy, InodeSize, InodeOk;
    if s[k..] != [] {
      GreedyPositive(g, s);
      var n := Greedy(g, s, g.c);
      if k >= n {
        assert s[k..] == s[n..][k - n..];
        SuffixNeedsNoMore(g, s[n..], k - n);
      } else {
        var t := s[k..];
        var m := Greedy(g, t, g.c);
        GreedyPositive(g, t);
        GreedyIsLongest(g, s, g.c);
        GreedyIsLongest(g, t, g.c);
        assert s[..n] == s[..k] + t[..n - k];
        SizeConcat(g, s[..k], t[..n - k]);
        assert m >= n - k;
        assert t[m..] == s[n..][k + m - n..];
        SuffixNeedsNoMore(g, s[n..], k + m - n);
      }
    }
  }

  /** Greedy grouping is optimal: no partition that keeps the order uses fewer clusters. */
  lemma {:induction false} GreedyIsOptimal(g: Geometry, s: seq<Inode>, p: seq<seq<Inode>>)
    requires g.Valid() && AllOk(g, s) && Flat(p) == s && FitCluster(g, p)
    ensures |Groups(g, s)| <= |p|
    decreases |p|
  {
    if s != [] {
      var n, k := Greedy(g, s, g.c), |p[0]|;
      GreedyPositive(g, s);
      assert s[..k] == p[0] && s[k..] == Flat(p[1..]);
      GreedyIsLongest(g, s, g.c);
      GreedyIsOptimal(g, s[k..], p[1..]);
      assert s[n..] == s[k..][n - k..];
      SuffixNeedsNoMore(g, s[k..], n - k);
    }
  }

  // ---------------------------------------------------------- the loops

  /** The vector get_inode_group works on: the slots before `done` have been nulled. */
  predicate Slots(slots: seq<Option<Inode>>, inodes: seq<Inode>, done: nat) {
    && |slots| == |inodes| && done <= |inodes|
    && forall i | 0 <= i < |slots| :: slots[i] == if i < done then None else Some(inodes[i])
  }

  lemma GreedyStep(g: Geometry, s: seq<Inode>, free: nat)
    requires g.Valid()
    ensures s == [] ==> Greedy(g, s, free) == 0
    ensures s != [] ==>
      Greedy(g, s, free) == (if InodeSize(g, s[0]) > free then 0 else 1 + Greedy(g, s[1..], free - InodeSize(g, s[0])))
  {
  }

  /** get_inode_group: the longest group from the front of what is left; its slots are nulled. */
  method GetInodeGroup(g: Geometry, slots0: seq<Option<Inode>>, ghost inodes: seq<Inode>, ghost done: nat)
    returns (slots: seq<Option<Inode>>, group: seq<Inode>, size: nat)
    requires g.Valid() && Slots(slots0, inodes, done)
    ensures group == inodes[done..][..Greedy(g, inodes[done..], g.c)]
    ensures Slots(slots, inodes, done + |group|)
    ensures size == GroupSize(g, group) <= g.c
  {
    hide InodeSize, Greedy;
    slots, group := slots0, [];
    var freeBytes: nat := g.c;
    var i: nat := 0;
    ghost var rest := inodes[done..];
    ghost var n := Greedy(g, rest, g.c);
    while i < |slots|
      invariant i <= |slots| && |group| <= n && group == rest[..|group|]
      invariant Slots(slots, inodes, done + |group|)
      invariant i <= done ==> group == []
      invariant i >= done ==> i == done + |group|
      invariant freeBytes + GroupSize(g, group) == g.c
      invariant n == |group| + Greedy(g, rest[|group|..], freeBytes)
    {
      if slots[i].None? {
        i := i + 1;
        continue;
      }
      var inode := slots[i].value;
      var inoSize := InodeSize(g, inode);
      GreedyStep(g, rest[|group|..], freeBytes);
      assert rest[|group|..][0] == inode;
      if inoSize > freeBytes { break; }
      assert rest[|group|..][1..] == rest[|group| + 1..];
      SizeConcat(g, group, [inode]);
      group := group + [inode];
      slots := slots[i := None];
      freeBytes := freeBytes - inoSize;
      i := i + 1;
    }
    GreedyStep(g, rest[|group|..], freeBytes);
    size := g.c - freeBytes;
  }

  lemma Regroup(x: seq<byte>, y: seq<byte>, z: seq<byte>)
    ensures x + (y + z) == x + y + z
  {
  }

  lemma {:induction false} EncodeConcat(g: Geometry, a: seq<Inode>, b: seq<Inode>)
    requires g.Valid() && AllOk(g, a) && AllOk(g, b)
    ensures AllOk(g, a + b) && EncodeGroup(g, a + b) == EncodeGroup(g, a) + EncodeGroup(g, b)
  {
    hide Encode, InodeOk;
    if a == [] {
      assert a + b == b;
    } else {
      assert (a + b)[1..] == a[1..] + b;
      EncodeConcat(g, a[1..], b);
      Regroup(Encode(g, a[0]), EncodeGroup(g, a[1..]), EncodeGroup(g, b));
    }
  }

  /** group_inodes: the cluster at the front of the buffer becomes the packed group. */
  method GroupInodes(fs: FsContext, group: seq<Inode>)
    requires fs.g.Valid() && AllOk(fs.g, group) && GroupSize(fs.g, group) <= fs.g.c <= |fs.buf|
    modifies fs`buf
    ensures |fs.buf| == |old(fs.buf)| && fs.buf[..fs.g.c] == Packed(fs.g, group)
    ensures fs.buf[fs.g.c..] == old(fs.buf)[fs.g.c..]
  {
    hide InodeOk, Encode, InodeSize;
    ghost var g := fs.g;
    var clFilling: nat := 0;
    var i: nat := 0;
    while i < |group|
      invariant i <= |group| && |fs.buf| == |old(fs.buf)| && fs.buf[g.c..] == old(fs.buf)[g.c..]
      invariant clFilling == GroupSize(g, group[..i]) <= g.c
      invariant fs.buf[..clFilling] == EncodeGroup(g, group[..i])
    {
      assert group == group[..i] + [group[i]] + group[i + 1..];
      assert group[..i + 1] == group[..i] + [group[i]];
      SizeConcat(g, group[..i], [group[i]]);
      SizeConcat(g, group[..i + 1], group[i + 1..]);
      EncodeConcat(g, group[..i], [group[i]]);
      assert EncodeGroup(g, [group[i]]) == Encode(g, group[i]) + [];
      ghost var was := fs.buf;
      fs.buf := Patch(fs.buf, clFilling, Encode(fs.g, group[i]));
      Appended(was, clFilling, Encode(fs.g, group[i]), g.c);
      clFilling := clFilling + InodeSize(fs.g, group[i]);
      i := i + 1;
    }
    assert group[..i] == group;
    ghost var was := fs.buf;
    fs.buf := Patch(fs.buf, clFilling, Zeros(fs.g.c - clFilling));
    Appended(was, clFilling, Zeros(fs.g.c - clFilling), g.c);
  }

  lemma Appended(b: seq<byte>, n: nat, data: seq<byte>, c: nat)
    requires n + |data| <= c <= |b|
    ensures Patch(b, n, data)[..n + |data|] == b[..n] + data
    ensures Patch(b, n, data)[c..] == b[c..]
  {
  }

  /** read_inode_group: the inodes of a cluster that still live there. None stands for a copy behind its target. */
  method ReadInodeGroup(fs: FsContext, cl: nat) returns (inodes: Option<seq<Inode>>)
    requires fs.g.Valid() && cl * fs.g.c + fs.g.c <= |fs.disk| && |fs.buf| == fs.g.E()
    modifies fs`buf
    ensures |fs.buf| == fs.g.E() && fs.buf[..fs.g.c] == Chunk(fs.disk, fs.g.c, cl)
    ensures fs.buf[fs.g.c..] == old(fs.buf)[fs.g.c..]
    ensures fs.g.c + INODE_SIZE <= |fs.buf| && inodes == ParseFrom(fs.g, fs.inoMap, cl, fs.buf, 0)
  {
    hide DecodeAt, SpanAt, NoAt, PointsTo, ParseFrom;
    Sizes(fs.g);
    MulMono(2, fs.g.k, fs.g.c);
    fs.buf := Patch(fs.buf, 0, Chunk(fs.disk, fs.g.c, cl));
    ghost var g, inoMap, b := fs.g, fs.inoMap, fs.buf;
    ghost var all := ParseFrom(g, inoMap, cl, b, 0);
    var found: seq<Inode> := [];
    var off: nat := 0;
    PrependMore([], [], all);
    while off < fs.g.c
      invariant fs.buf == b && all == Prepend(found, ParseFrom(g, inoMap, cl, b, off))
      decreases if off < g.c then g.c - off else 0
    {
      var inoSize := SpanAt(fs.g, fs.buf, off);
      ParseStep(g, inoMap, cl, b, off);
      if PointsTo(fs.inoMap, NoAt(fs.buf, off), cl) {
        if inoSize > fs.g.c || off + inoSize > |fs.buf| { return None; }
        PrependMore(found, [DecodeAt(fs.g, fs.buf, off)], ParseFrom(g, inoMap, cl, b, off + inoSize));
        found := found + [DecodeAt(fs.g, fs.buf, off)];
      } else {
        PrependMore(found, [], ParseFrom(g, inoMap, cl, b, off + inoSize));
      }
      off := off + inoSize;
    }
    ParseStep(g, inoMap, cl, b, off);
    assert found + [] == found;
    inodes := Some(found);
  }

  lemma ParseStep(g: Geometry, inoMap: seq<nat>, cl: nat, b: seq<byte>, off: nat)
    requires g.Valid() && g.c + INODE_SIZE <= |b|
    ensures ParseFrom(g, inoMap, cl, b, off) ==
      if off >= g.c then Some([])
      else if !PointsTo(inoMap, NoAt(b, off), cl) then Prepend([], ParseFrom(g, inoMap, cl, b, off + SpanAt(g, b, off)))
      else if SpanAt(g, b, off) > g.c || off + SpanAt(g, b, off) > |b| then None
      else Prepend([DecodeAt(g, b, off)], ParseFrom(g, inoMap, cl, b, off + SpanAt(g, b, off)))
  {
  }

  function Prepend(a: seq<Inode>, b: Option<seq<Inode>>): Option<seq<Inode>> {
    if b.None? then None else Some(a + b.value)
  }

  lemma PrependMore(a: seq<Inode>, b: seq<Inode>, c: Option<seq<Inode>>)
    ensures Prepend(a + b, c) == Prepend(a, Prepend(b, c))
    ensures a + [] == a && Prepend([], c) == c
  {
    if c.Some? {
      assert a + b + c.value == a + (b + c.value);
      assert [] + c.value == c.value;
    }
  }
}
