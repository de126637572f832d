/** Concrete files on which write and truncate are not what their callers would expect. */
module IoLimits {
  import opened Basics
  import opened Layout
  import opened FileData
  import opened EraseBlk
  import opened IoUnits
  import opened IoConvert
  import opened WriteSpec
  import opened Io

  /** Clusters of 136 bytes: eight bytes or two pointers fit behind an inode header. */
  const SMALL := Geometry(136, 2, 16, 64, 8, 5, 3, 4)

  lemma SmallSizes()
    ensures SMALL.Valid() && SMALL.MaxEmb() == 8 && SMALL.MaxPtrs() == 2 && SMALL.MaxClin() == 272
    ensures SMALL.E() == 272 && SMALL.MaxEbin() == 544 && SMALL.DeviceSize() == 4352
  {
  }

  /** A cluster-indirect file of 100 bytes with this pointer to its only cluster. */
  function ClinFile(p: nat): (ino: Inode)
    requires p < U32
    ensures ino.Type() == Clin && SMALL.Valid() && LayoutOk(SMALL, ino) && Ptrs(SMALL, ino) == [p]
  {
    SmallSizes();
    var ino := Inode(100, 2, 7, 1, [], 0, [], SetPtr(Zeros(8), 0, p));
    assert Units(100, 136) == 1;
    assert Table(ino.data)[..1] == [p];
    ino
  }

  /** A write of one byte at the start of a hole brings the unit buffer's old bytes into the file. */
  lemma WriteIntoHole(d: seq<byte>, buf: seq<byte>)
    requires SMALL.Valid() && |d| == SMALL.DeviceSize() && |buf| == SMALL.E() && buf[1] != 0
    ensures Readable(SMALL, d, ClinFile(0)) && !WriteClean(SMALL, d, buf, ClinFile(0), 0, [1])
  {
    SmallSizes();
    var ino := ClinFile(0);
    var p0 := Extended(Ptrs(SMALL, ino), 1);
    assert Units(100, 136) == 1;
    assert p0[0] == 0;
    assert ClinStale(136, d, p0, buf, 0, [1])[1] == buf[1];
    var o: nat := 1;
    assert 0 * 136 + o == 1;
    assert !TailClean(136, p0, 100, 0, 1, ClinStale(136, d, p0, buf, 0, [1]));
  }

  /** Growing a file within its last cluster shows what that cluster holds behind the old end. */
  lemma GrowOverOldBytes(d: seq<byte>)
    requires SMALL.Valid() && |d| == SMALL.DeviceSize() && d[5 * 136 + 110] != 0
    ensures Readable(SMALL, d, ClinFile(5)) && !GrowClean(SMALL, d, ClinFile(5), 136)
  {
    SmallSizes();
    var ino := ClinFile(5);
    assert PtrsIn(d, 136, Ptrs(SMALL, ino));
    assert ByteAt(d, 136, Ptrs(SMALL, ino), 110) == d[5 * 136 + 110];
  }

  /** Embedded bytes that become a pointer: the second one, which trunc_emb2ind leaves as it is. */
  lemma GrowOutOfInode(d: seq<byte>, data: seq<byte>)
    requires SMALL.Valid() && |d| == SMALL.DeviceSize() && |data| == 8 && Get32(data, 4) != 0
    ensures Readable(SMALL, d, Inode(8, 1, 7, 1, [], 0, [], data))
    ensures !GrowClean(SMALL, d, Inode(8, 1, 7, 1, [], 0, [], data), 200)
  {
    SmallSizes();
    assert Units(200, 136) == 2;
    assert Table(data)[1] == Get32(data, 4);
  }

  /** A file of holes: truncating it to whole erase blocks meets a window of zeros at once. */
  lemma HolesStall(d: seq<byte>)
    requires SMALL.Valid() && |d| == SMALL.DeviceSize()
    ensures Readable(SMALL, d, ClinFile(0)) && ZeroWindowAt(Content(SMALL, d, ClinFile(0)), SMALL.E(), 0)
  {
    SmallSizes();
    var ino := ClinFile(0);
    assert PtrsIn(d, 136, Ptrs(SMALL, ino));
    var bytes := Content(SMALL, d, ino);
    assert forall i | 0 <= i < 100 :: bytes[i] == 0;
  }

  // ---------------------------------------------------------- three clusters to an erase block

  const THREE := Geometry(4096, 3, 8, 128, 8, 5, 3, 4)

  /** For an erase block of three clusters the count with nothing written is more than the table has entries. */
  lemma ThreeUndoes()
    ensures THREE.Valid() && THREE.E() == 12288 && THREE.MaxPtrs() == 992 && THREE.MaxClin() == 4063232
    ensures UndoCount(THREE.E()) == 1431655766 > THREE.MaxPtrs()
  {
    assert (U64 - 1) / 12288 == 1501199875790165;
    assert 1501199875790165 == 349525 * U32 + 1431655765;
    DivMod(349525, U32, 1431655765);
  }

  /** Three blocks are empty, the reserve; block 1 holds the clusters of one file and block 4 is another file's. */
  const FULL := [EraseBlock(Super, 0, 0, 0), EraseBlock(FileClin, 0, 1, 3), EraseBlock(EbinBlk, 0, 0, 0),
                 EraseBlock(EbinBlk, 0, 0, 0), EraseBlock(EbinBlk, 0, 0, 0), EraseBlock(Empty, 0, 0, 0),
                 EraseBlock(Empty, 0, 0, 0), EraseBlock(Empty, 0, 0, 0)]

  lemma FullInv()
    ensures EbInv(THREE, FULL) && UndoClean(THREE, FULL) == (UndoCount(12288) <= 0)
  {
    assert CountEmpty(FULL, 1) == 0;
    assert CountEmpty(FULL, 2) == 0;
    assert CountEmpty(FULL, 3) == 0;
    assert CountEmpty(FULL, 4) == 0;
    assert CountEmpty(FULL, 5) == 0;
    assert CountEmpty(FULL, 6) == 1;
    assert CountEmpty(FULL, 7) == 2;
    assert CountEmpty(FULL, 8) == 3;
  }

  /** A file of one cluster, number 4. */
  function OneCluster(): (ino: Inode)
    ensures ino.Type() == Clin && THREE.Valid() && LayoutOk(THREE, ino) && Ptrs(THREE, ino) == [4]
    ensures |Table(ino.data)| == 992 && Table(ino.data)[0] == 4
  {
    ThreeUndoes();
    var ino := Inode(4096, 2, 7, 1, [], 0, [], SetPtr(Zeros(3968), 0, 4));
    assert Units(4096, 4096) == 1;
    assert Table(ino.data)[..1] == [4];
    ino
  }

  /**
   * Truncating that file to whole erase blocks finds no room, and gives the other file's block 4 to the empty
   * ones, because cluster 4 has the same number.
   */
  lemma OtherFilesBlockFreed(d: seq<byte>)
    requires |d| == THREE.DeviceSize() && d[4 * 4096] != 0
    ensures THREE.Valid() && EbInv(THREE, FULL) && FileOk(THREE, FULL, OneCluster(), {}, {4}, true)
    ensures Readable(THREE, d, OneCluster()) && GoesAstray(THREE, FULL, d, OneCluster(), THREE.MaxClin() + 1)
    ensures EbinLive(FULL, {4}) && !EbinLive(Strayed(FULL, StrayPtrs(THREE, OneCluster())), {4})
  {
    ThreeUndoes();
    FullInv();
    var ino := OneCluster();
    OneClusterOwned(ino);
    assert PtrsIn(d, 4096, Ptrs(THREE, ino));
    var bytes := Content(THREE, d, ino);
    assert bytes[0] == ByteAt(d, 4096, [4], 0) == d[4 * 4096];
    assert Window(bytes, 12288, 0)[0] == bytes[0];
    assert StrayPtrs(THREE, ino)[0] == 4;
    assert Strayed(FULL, StrayPtrs(THREE, ino))[4].etype == Empty;
  }

  lemma OneClusterOwned(ino: Inode)
    requires ino == OneCluster()
    ensures THREE.Valid() && FileOk(THREE, FULL, ino, {}, {4}, true)
  {
    ThreeUndoes();
    assert Nz([4]) == {4};
    assert {} + Nz([4]) == {4};
    assert ClinPtrOk(THREE, FULL, 4);
    assert In(THREE, {4}, 1) == {4};
    assert Counted(THREE, FULL, {4}, true, 1);
    assert Distinct([4]);
  }
}
