/** inode.cpp: struct dentry, and what is done to the bytes of a directory. */
module Dentries {
  import opened Basics
  import Links

  // ---------------------------------------------------------- struct dentry

  /** Its size, and that of its last field. */
  const DENTRY: nat := 256
  const NAME_MAX: nat := 248

  /** A name that strcpy can put into a dentry and strncmp finds again. */
  predicate NameFits(name: string) {
    |name| < NAME_MAX && forall i | 0 <= i < |name| :: 0 < name[i] as int < 256
  }

  function NameBytes(name: string): (b: seq<byte>)
    requires NameFits(name)
    ensures |b| == |name| && forall i | 0 <= i < |b| :: b[i] == name[i] as int
  {
    seq(|name|, i requires 0 <= i < |name| => name[i] as int)
  }

  /** The dentry that add_dentry appends: number, length, three reserved bytes, name. */
  function PutDentry(no: nat, name: string): (b: seq<byte>)
    requires no < U32 && NameFits(name)
    ensures |b| == DENTRY
  {
    Put32(no) + [|name|] + Zeros(3) + NameBytes(name) + Zeros(NAME_MAX - |name|)
  }

  /** The characters in front of the first zero byte. */
  function CString(b: seq<byte>): string {
    if b == [] || b[0] == 0 then "" else [b[0] as char] + CString(b[1..])
  }

  /** One record as the search functions see it; nothing looks at the length. */
  function GetDentry(r: seq<byte>): Links.Dentry
    requires |r| == DENTRY
  {
    Links.Dentry(Get32(r, 0), CString(r[8..]))
  }

  /** read_dir: as many records as there are whole ones. */
  function DentriesOf(b: seq<byte>): (es: seq<Links.Dentry>)
    ensures |es| == |b| / DENTRY
  {
    seq(|b| / DENTRY, i requires 0 <= i < |b| / DENTRY => GetDentry(Chunk(b, DENTRY, i)))
  }

  lemma {:induction false} CStringOf(name: string, b: seq<byte>)
    requires |name| < |b| && b[|name|] == 0
    requires forall i | 0 <= i < |name| :: 0 < name[i] as int < 256 && b[i] == name[i] as int
    ensures CString(b) == name
  {
    if name != "" { CStringOf(name[1..], b[1..]); }
  }

  /** A dentry that has been put is found again by number and by name. */
  lemma DentryReadsBack(no: nat, name: string)
    requires no < U32 && NameFits(name)
    ensures GetDentry(PutDentry(no, name)) == Links.Dentry(no, name)
  {
    var r := PutDentry(no, name);
    assert r[0..4] == Put32(no);
    Get32At(r, 0, no);
    CStringOf(name, r[8..]);
  }

  /** Appending a record appends its entry. */
  lemma AppendRecord(b: seq<byte>, r: seq<byte>)
    requires |b| % DENTRY == 0 && |r| == DENTRY
    ensures DentriesOf(b + r) == DentriesOf(b) + [GetDentry(r)]
  {
    var n := |b| / DENTRY;
    assert |b + r| / DENTRY == n + 1;
    forall i | 0 <= i < n ensures Chunk(b + r, DENTRY, i) == Chunk(b, DENTRY, i) { }
    assert Chunk(b + r, DENTRY, n) == r;
  }

  // ---------------------------------------------------------- searching

  lemma {:induction false} FindIs(es: seq<Links.Dentry>, name: string, i: nat)
    requires i <= |es| && forall j | 0 <= j < i :: es[j].ino == 0 || es[j].name != name
    ensures i < |es| && es[i].ino != 0 && es[i].name == name ==> Links.Find(es, name) == es[i].ino
    ensures i == |es| ==> Links.Find(es, name) == 0
  {
    if i > 0 {
      assert forall j | 0 <= j < |es| - 1 :: es[1..][j] == es[j + 1];
      FindIs(es[1..], name, i - 1);
    }
  }

  /** find_dentry, with 0 for a name that is not there. */
  method FindDentry(b: seq<byte>, name: string) returns (no: nat)
    ensures no == Links.Find(DentriesOf(b), name)
  {
    var i: nat := 0;
    while i < |b| / DENTRY
      invariant i <= |b| / DENTRY
      invariant forall j | 0 <= j < i :: DentriesOf(b)[j].ino == 0 || DentriesOf(b)[j].name != name
    {
      var d := GetDentry(Chunk(b, DENTRY, i));
      assert d == DentriesOf(b)[i];
      if d.ino != 0 && d.name == name {
        FindIs(DentriesOf(b), name, i);
        return d.ino;
      }
      i := i + 1;
    }
    FindIs(DentriesOf(b), name, i);
    no := 0;
  }

  /** dentry_is_empty */
  method IsEmptyDir(b: seq<byte>) returns (empty: bool)
    ensures empty == Links.DirEmpty(DentriesOf(b))
  {
    var i: nat := 0;
    while i < |b| / DENTRY
      invariant i <= |b| / DENTRY
      invariant forall j | 0 <= j < i :: DentriesOf(b)[j].ino == 0 || !Links.PlainName(DentriesOf(b)[j].name)
    {
      var d := GetDentry(Chunk(b, DENTRY, i));
      assert d == DentriesOf(b)[i];
      if d.ino != 0 && d.name != "." && d.name != ".." { return false; }
      i := i + 1;
    }
    empty := true;
  }

  // ---------------------------------------------------------- removing

  lemma {:induction false} RemoveFirstIs(es: seq<Links.Dentry>, no: nat, i: nat)
    requires i <= |es| && forall j | 0 <= j < i :: es[j].ino != no
    ensures i < |es| && es[i].ino == no ==>
      Links.RemoveFirst(es, no) == Links.Without(es, i) && Links.CountIn(es, no) > 0
    ensures i == |es| ==> Links.RemoveFirst(es, no) == es && Links.CountIn(es, no) == 0
  {
    if i > 0 {
      assert forall j | 0 <= j < |es| - 1 :: es[1..][j] == es[j + 1];
      RemoveFirstIs(es[1..], no, i - 1);
      if i < |es| { assert es[i] == es[1..][i - 1]; }
      assert es == [es[0]] + es[1..];
    } else if i < |es| {
      assert [es[0].(ino := 0)] + es[1..] == Links.Without(es, 0);
    }
  }

  /** A record whose number and length are set to zero: the entry is invalid, and keeps its name. */
  lemma ClearRecord(b: seq<byte>, i: nat)
    requires i < |b| / DENTRY
    ensures DentriesOf(Patch(b, i * DENTRY, Zeros(5))) == Links.Without(DentriesOf(b), i)
  {
    var b' := Patch(b, i * DENTRY, Zeros(5));
    forall j | 0 <= j < |b| / DENTRY && j != i ensures Chunk(b', DENTRY, j) == Chunk(b, DENTRY, j) { }
    var r, r' := Chunk(b, DENTRY, i), Chunk(b', DENTRY, i);
    assert Get32(r', 0) == 0;
    assert r'[8..] == r[8..];
    assert GetDentry(r') == GetDentry(r).(ino := 0);
  }

  /** The loop of remove_dentry over the directory's records. */
  method ClearFirst(b: seq<byte>, no: nat) returns (r: seq<byte>, hit: bool)
    ensures |r| == |b| && DentriesOf(r) == Links.RemoveFirst(DentriesOf(b), no)
    ensures hit <==> Links.CountIn(DentriesOf(b), no) > 0
    ensures !hit ==> r == b
  {
    var i: nat := 0;
    while i < |b| / DENTRY
      invariant i <= |b| / DENTRY && forall j | 0 <= j < i :: DentriesOf(b)[j].ino != no
    {
      assert DentriesOf(b)[i].ino == Get32(Chunk(b, DENTRY, i), 0);
      if Get32(Chunk(b, DENTRY, i), 0) == no {
        RemoveFirstIs(DentriesOf(b), no, i);
        ClearRecord(b, i);
        return Patch(b, i * DENTRY, Zeros(5)), true;
      }
      i := i + 1;
    }
    RemoveFirstIs(DentriesOf(b), no, i);
    return b, false;
  }

  // ---------------------------------------------------------- mk_directory

  /** The two entries of a new directory. */
  function NewDirBytes(no: nat, parent: nat): (b: seq<byte>)
    requires no < U32 && parent < U32
    ensures |b| == 2 * DENTRY
  {
    PutDentry(no, ".") + PutDentry(parent, "..")
  }

  lemma NewDirReads(no: nat, parent: nat)
    requires no < U32 && parent < U32
    ensures DentriesOf(NewDirBytes(no, parent)) == Links.NewDir(no, parent).entries
  {
    hide PutDentry, GetDentry;
    var a, b := PutDentry(no, "."), PutDentry(parent, "..");
    DentryReadsBack(no, ".");
    DentryReadsBack(parent, "..");
    AppendRecord([], a);
    AppendRecord(a, b);
    assert [] + a == a && DentriesOf([]) == [];
  }
}
