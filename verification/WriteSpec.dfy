/** When rewriting the units a write touches amounts to a splice into the file's bytes. */
module WriteSpec {
  import opened Basics
  import opened Layout
  import opened FileData
  import opened IoUnits
  import opened IoClin
  import opened IoEbin

  /** The units f .. l from the first to the last byte written have been rewritten, all others are as before. */
  ghost predicate Rewrote(s: nat, d0: seq<byte>, p0: seq<nat>, d: seq<byte>, p: seq<nat>,
                          off: nat, user: seq<byte>, stale: seq<byte>) {
    && s > 0 && |user| > 0
    && Progress(s, d0, p0, d, p, IndFromOffset(s, off), IndFromOffset(s, off + |user| - 1) + 1, off, user, stale)
    && Untouched(s, d0, d, p0, p, IndFromOffset(s, off), IndFromOffset(s, off + |user| - 1) + 1)
  }

  /** One byte of the rewritten table: the user's, or the stale one behind a write into a hole, or the old one. */
  lemma NewByte(s: nat, d0: seq<byte>, p0: seq<nat>, d: seq<byte>, p: seq<nat>, off: nat, user: seq<byte>,
                stale: seq<byte>, pos: nat)
    requires Rewrote(s, d0, p0, d, p, off, user, stale) && pos < |p0| * s
    ensures PtrsIn(d0, s, p0) && PtrsIn(d, s, p) && |p| == |p0| && s <= |stale|
    ensures var l := IndFromOffset(s, off + |user| - 1);
      l < |p0| &&
      ByteAt(d, s, p, pos) == if off <= pos < off + |user| then user[pos - off]
                              else if pos / s == l && off + |user| <= pos && p0[l] == 0 then stale[pos % s]
                              else ByteAt(d0, s, p0, pos)
  {
    var f, l, j := IndFromOffset(s, off), IndFromOffset(s, off + |user| - 1), pos / s;
    DivBounds(pos, s);
    DivBelow(pos, |p0|, s);
    DivMono(off, off + |user| - 1, s);
    assert UnitSplice(s, d0, p0[l], d, p[l], l, off, user, stale);
    if pos < off { DivMono(pos, off, s); }
    if pos >= off + |user| { DivMono(off + |user| - 1, pos, s); }
    if f <= j <= l {
      assert UnitSplice(s, d0, p0[j], d, p[j], j, off, user, stale);
    } else {
      if off <= pos < off + |user| { DivMono(off, pos, s); DivMono(pos, off + |user| - 1, s); }
    }
  }

  // ---------------------------------------------------------- the conditions

  /**
   * The bytes between the old end of file and the write, as far as they lie in the last old unit, read as
   * zeros already. The source notes that it does not clear them when it extends a file.
   */
  ghost predicate GapClean(s: nat, d0: seq<byte>, p0: seq<nat>, oldSize: nat, off: nat)
    requires s > 0 && PtrsIn(d0, s, p0)
  {
    forall pos: nat | oldSize <= pos < off && pos < |p0| * s :: ByteAt(d0, s, p0, pos) == 0
  }

  /** The write does not end inside a hole, or not before the end of file, or the stale buffer is clean there. */
  ghost predicate TailClean(s: nat, p0: seq<nat>, oldSize: nat, off: nat, len: nat, stale: seq<byte>)
    requires s > 0 && len > 0 && s <= |stale|
  {
    var l := IndFromOffset(s, off + len - 1);
    l < |p0| && p0[l] == 0 ==>
      forall o: nat | o < s && off + len <= l * s + o < oldSize :: stale[o] == 0
  }

  /** Rewriting is splicing exactly when both conditions hold. */
  lemma RewriteIsSplice(s: nat, d0: seq<byte>, p0: seq<nat>, d: seq<byte>, p: seq<nat>, oldSize: nat,
                        off: nat, user: seq<byte>, stale: seq<byte>)
    requires Rewrote(s, d0, p0, d, p, off, user, stale)
    requires oldSize <= |p0| * s && off + |user| <= |p0| * s
    ensures PtrsIn(d0, s, p0) && PtrsIn(d, s, p) && |p| == |p0| && s <= |stale|
    ensures TableBytes(d, s, p, Max(oldSize, off + |user|)) == Splice(TableBytes(d0, s, p0, oldSize), user, off)
            <==> GapClean(s, d0, p0, oldSize, off) && TailClean(s, p0, oldSize, off, |user|, stale)
  {
    assert PtrsIn(d0, s, p0) && PtrsIn(d, s, p) by { NewByte(s, d0, p0, d, p, off, user, stale, off); }
    NewByte(s, d0, p0, d, p, off, user, stale, off);
    var size := Max(oldSize, off + |user|);
    var a, b := TableBytes(d, s, p, size), Splice(TableBytes(d0, s, p0, oldSize), user, off);
    if GapClean(s, d0, p0, oldSize, off) && TailClean(s, p0, oldSize, off, |user|, stale) {
      forall pos | 0 <= pos < size ensures a[pos] == b[pos] {
        CleanByte(s, d0, p0, d, p, oldSize, off, user, stale, pos);
      }
      assert a == b;
    }
    if a == b {
      SpliceMeansGap(s, d0, p0, d, p, oldSize, off, user, stale);
      SpliceMeansTail(s, d0, p0, d, p, oldSize, off, user, stale);
    }
  }

  lemma CleanByte(s: nat, d0: seq<byte>, p0: seq<nat>, d: seq<byte>, p: seq<nat>, oldSize: nat,
                  off: nat, user: seq<byte>, stale: seq<byte>, pos: nat)
    requires Rewrote(s, d0, p0, d, p, off, user, stale)
    requires oldSize <= |p0| * s && off + |user| <= |p0| * s && PtrsIn(d0, s, p0) && PtrsIn(d, s, p) && s <= |stale|
    requires GapClean(s, d0, p0, oldSize, off) && TailClean(s, p0, oldSize, off, |user|, stale)
    requires pos < Max(oldSize, off + |user|) && |p| == |p0|
    ensures ByteAt(d, s, p, pos) == Splice(TableBytes(d0, s, p0, oldSize), user, off)[pos]
  {
    NewByte(s, d0, p0, d, p, off, user, stale, pos);
    DivBounds(pos, s);
    DivBelow(pos, |p0|, s);
    var l := IndFromOffset(s, off + |user| - 1);
    if pos / s == l && off + |user| <= pos && p0[l] == 0 {
      assert stale[pos % s] == 0;
      assert ByteAt(d0, s, p0, pos) == 0;
    }
  }

  lemma SpliceMeansGap(s: nat, d0: seq<byte>, p0: seq<nat>, d: seq<byte>, p: seq<nat>, oldSize: nat,
                       off: nat, user: seq<byte>, stale: seq<byte>)
    requires Rewrote(s, d0, p0, d, p, off, user, stale)
    requires oldSize <= |p0| * s && off + |user| <= |p0| * s && PtrsIn(d0, s, p0) && PtrsIn(d, s, p) && |p| == |p0|
    requires TableBytes(d, s, p, Max(oldSize, off + |user|)) == Splice(TableBytes(d0, s, p0, oldSize), user, off)
    ensures GapClean(s, d0, p0, oldSize, off)
  {
    forall pos: nat | oldSize <= pos < off && pos < |p0| * s ensures ByteAt(d0, s, p0, pos) == 0 {
      NewByte(s, d0, p0, d, p, off, user, stale, pos);
      assert TableBytes(d, s, p, Max(oldSize, off + |user|))[pos] == ByteAt(d, s, p, pos);
    }
  }

  lemma SpliceMeansTail(s: nat, d0: seq<byte>, p0: seq<nat>, d: seq<byte>, p: seq<nat>, oldSize: nat,
                        off: nat, user: seq<byte>, stale: seq<byte>)
    requires Rewrote(s, d0, p0, d, p, off, user, stale) && s <= |stale|
    requires oldSize <= |p0| * s && off + |user| <= |p0| * s && PtrsIn(d0, s, p0) && PtrsIn(d, s, p) && |p| == |p0|
    requires TableBytes(d, s, p, Max(oldSize, off + |user|)) == Splice(TableBytes(d0, s, p0, oldSize), user, off)
    ensures TailClean(s, p0, oldSize, off, |user|, stale)
  {
    var l := IndFromOffset(s, off + |user| - 1);
    if l < |p0| && p0[l] == 0 {
      forall o: nat | o < s && off + |user| <= l * s + o < oldSize ensures stale[o] == 0 {
        var pos := l * s + o;
        DivMod(l, s, o);
        NewByte(s, d0, p0, d, p, off, user, stale, pos);
        assert TableBytes(d, s, p, Max(oldSize, off + |user|))[pos] == ByteAt(d, s, p, pos);
        ByteAtUnit(d0, s, p0, l, o);
      }
    }
  }

  // ---------------------------------------------------------- the stale buffer, from the old state

  /** A unit before the last one after the write; it is filled to its end. */
  ghost function FullUnit(s: nat, d0: seq<byte>, p0: seq<nat>, j: nat, off: nat, user: seq<byte>): (u: seq<byte>)
    requires PtrsIn(d0, s, p0) && j < |p0|
    ensures |u| == s
  {
    seq(s, x requires 0 <= x < s =>
      MulNonneg(j, s);
      if off <= j * s + x < off + |user| then user[j * s + x - off] else UnitAt(d0, s, p0[j])[x])
  }

  /** What the unit buffer holds when write_clin starts on the last unit it touches. */
  ghost function ClinStale(s: nat, d0: seq<byte>, p0: seq<nat>, buf0: seq<byte>, off: nat,
                           user: seq<byte>): (u: seq<byte>)
    requires s > 0 && |user| > 0 && PtrsIn(d0, s, p0) && s <= |buf0| && InUnits(s, off, |user|, |p0|)
    ensures |u| == s
  {
    var f, l := IndFromOffset(s, off), IndFromOffset(s, off + |user| - 1);
    DivMono(off, off + |user| - 1, s);
    DivBelow(off + |user| - 1, |p0|, s);
    if l == f then buf0[..s] else FullUnit(s, d0, p0, l - 1, off, user)
  }

  /** The same for write_ebin, where an in-place write leaves just its last cluster in the buffer. */
  ghost function EbinStale(c: nat, s: nat, d0: seq<byte>, p0: seq<nat>, buf0: seq<byte>, off: nat,
                           user: seq<byte>): (u: seq<byte>)
    requires s > 0 && |user| > 0 && PtrsIn(d0, s, p0) && c <= s == |buf0| && InUnits(s, off, |user|, |p0|)
    ensures |u| == s
  {
    var f, l := IndFromOffset(s, off), IndFromOffset(s, off + |user| - 1);
    DivMono(off, off + |user| - 1, s);
    DivBelow(off + |user| - 1, |p0|, s);
    if l == f then buf0
    else if l == f + 1 && OffsetInInd(s, off) > 0 && p0[f] != 0 then
      FullUnit(s, d0, p0, f, off, user)[s - c..] + buf0[c..]
    else FullUnit(s, d0, p0, l - 1, off, user)
  }

  /** A unit before the last one, as it stands afterwards. */
  lemma FullUnitIs(s: nat, d0: seq<byte>, p0: seq<nat>, d: seq<byte>, p: seq<nat>, off: nat, user: seq<byte>,
                   stale: seq<byte>, j: nat)
    requires Rewrote(s, d0, p0, d, p, off, user, stale) && PtrsIn(d0, s, p0) && j < |p0| == |p|
    requires IndFromOffset(s, off) <= j < IndFromOffset(s, off + |user| - 1)
    ensures UnitIs(d, s, p[j], FullUnit(s, d0, p0, j, off, user))
  {
    var l := IndFromOffset(s, off + |user| - 1);
    DivBounds(off + |user| - 1, s);
    MulMono(j, l, s);
    assert UnitSplice(s, d0, p0[j], d, p[j], j, off, user, stale);
    var a, b := UnitAt(d, s, p[j]), FullUnit(s, d0, p0, j, off, user);
    forall x: nat | x < s ensures a[x] == b[x] { }
  }

  lemma ClinStaleIs(s: nat, d0: seq<byte>, p0: seq<nat>, d: seq<byte>, p: seq<nat>, off: nat, user: seq<byte>,
                    buf0: seq<byte>, stale: seq<byte>)
    requires Rewrote(s, d0, p0, d, p, off, user, stale) && s <= |buf0| && InUnits(s, off, |user|, |p0|) && |p| == |p0|
    requires StaleIs(s, d, p, IndFromOffset(s, off), IndFromOffset(s, off + |user| - 1) + 1, buf0, stale)
    ensures PtrsIn(d0, s, p0) && s <= |stale| && stale[..s] == ClinStale(s, d0, p0, buf0, off, user)
  {
    var f, l := IndFromOffset(s, off), IndFromOffset(s, off + |user| - 1);
    DivMono(off, off + |user| - 1, s);
    DivBelow(off + |user| - 1, |p0|, s);
    if l > f { FullUnitIs(s, d0, p0, d, p, off, user, stale, l - 1); }
  }

  lemma EbinStaleFrom(c: nat, s: nat, d0: seq<byte>, p0: seq<nat>, d: seq<byte>, p: seq<nat>, off: nat, user: seq<byte>,
                      buf0: seq<byte>, stale: seq<byte>)
    requires EbinRewritten(c, s, d0, p0, d, p, off, user, buf0, stale)
    requires c <= s == |buf0| && InUnits(s, off, |user|, |p0|) && |p| == |p0|
    ensures PtrsIn(d0, s, p0) && stale == EbinStale(c, s, d0, p0, buf0, off, user)
  {
    var f, l := IndFromOffset(s, off), IndFromOffset(s, off + |user| - 1);
    DivMono(off, off + |user| - 1, s);
    DivBelow(off + |user| - 1, |p0|, s);
    assert Rewrote(s, d0, p0, d, p, off, user, stale);
    hide Rewrote, FullUnit;
    if l > f {
      FullUnitIs(s, d0, p0, d, p, off, user, stale, l - 1);
      if l == f + 1 && OffsetInInd(s, off) > 0 && p0[f] != 0 {
        assert stale == stale[..c] + stale[c..];
      }
    }
  }

  /** Only the first unit's worth of the stale buffer matters. */
  lemma TailCleanPrefix(s: nat, p0: seq<nat>, oldSize: nat, off: nat, len: nat, a: seq<byte>, b: seq<byte>)
    requires s > 0 && len > 0 && s <= |a| && |b| == s && a[..s] == b
    ensures TailClean(s, p0, oldSize, off, len, a) <==> TailClean(s, p0, oldSize, off, len, b)
  {
    assert forall o | 0 <= o < s :: a[o] == b[o];
  }

  // ---------------------------------------------------------- the condition for one write call

  /** The old pointer table with holes for the units the file gains. */
  ghost function Extended(ptrs: seq<nat>, n: nat): (r: seq<nat>)
    requires |ptrs| <= n
    ensures |r| == n && forall j | 0 <= j < n :: r[j] == if j < |ptrs| then ptrs[j] else 0
  {
    ptrs + seq(n - |ptrs|, i => 0)
  }

  /**
   * Exactly when write() of `user` at `off` is a splice: always for a file that starts inside its inode or
   * changes its layout, and under GapClean and TailClean for one that keeps an indirect layout.
   */
  ghost predicate WriteClean(g: Geometry, d0: seq<byte>, buf0: seq<byte>, ino: Inode, off: nat, user: seq<byte>)
    requires g.Valid() && Readable(g, d0, ino) && |buf0| == g.E() && |user| > 0 && off + |user| <= g.MaxEbin()
  {
    var size := Max(ino.size, off + |user|);
    if ino.Type() == Emb || TypeFromSize(g, size) != ino.Type() then true else
      Sizes(g);
      UnitsOk(g, ino);
      var s := UnitSize(g, ino.Type());
      UnitsMono(ino.size, size, s);
      var p0 := Extended(Ptrs(g, ino), Units(size, s));
      && GapClean(s, d0, p0, ino.size, off)
      && TailClean(s, p0, ino.size, off, |user|,
           if ino.Type() == Clin then ClinStale(s, d0, p0, buf0, off, user)
               else EbinStale(g.c, s, d0, p0, buf0, off, user))
  }

  /** The cases a caller can rely on: no gap is left, and the write ends in allocated space or reaches the end. */
  lemma WriteCleanSufficient(g: Geometry, d0: seq<byte>, buf0: seq<byte>, ino: Inode, off: nat, user: seq<byte>)
    requires g.Valid() && Readable(g, d0, ino) && |buf0| == g.E() && |user| > 0 && off + |user| <= g.MaxEbin()
    requires off <= ino.size
    requires off + |user| >= ino.size || ino.Type() == Emb ||
      (var j := IndFromOffset(UnitSize(g, ino.Type()), off + |user| - 1); j < |Ptrs(g, ino)| && Ptrs(g, ino)[j] != 0)
    ensures WriteClean(g, d0, buf0, ino, off, user)
  {
  }
}
