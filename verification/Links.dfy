/** inode.cpp: directories and link counts, over all runs of create, mkdir, link, unlink and rmdir. */
module Links {

  /** struct dentry; number 0 marks a removed entry. */
  datatype Dentry = Dentry(ino: nat, name: string)

  /** An inode number, as far as names are concerned. A directory's first two entries are "." and "..". */
  datatype Node = Free | File(nlink: nat) | Dir(nlink: nat, entries: seq<Dentry>)

  const ROOT: nat := 1

  // ---------------------------------------------------------- counting entries

  /** Entries that name inode `no`. */
  function CountIn(es: seq<Dentry>, no: nat): nat {
    if es == [] then 0 else (if es[0].ino == no then 1 else 0) + CountIn(es[1..], no)
  }

  function Entries(n: Node): seq<Dentry> { if n.Dir? then n.entries else [] }

  /** Entries of all directories that name `no`, "." and ".." included. */
  function Total(nodes: seq<Node>, n: nat, no: nat): nat
    requires n <= |nodes|
  {
    if n == 0 then 0 else Total(nodes, n - 1, no) + CountIn(Entries(nodes[n - 1]), no)
  }

  lemma {:induction false} CountConcat(a: seq<Dentry>, b: seq<Dentry>, no: nat)
    ensures CountIn(a + b, no) == CountIn(a, no) + CountIn(b, no)
  {
    if a == [] {
      assert a + b == b;
    } else {
      assert (a + b)[1..] == a[1..] + b;
      CountConcat(a[1..], b, no);
    }
  }

  lemma {:induction false} TotalUpdate(nodes: seq<Node>, n: nat, i: nat, x: Node, no: nat)
    requires n <= |nodes| && i < |nodes|
    ensures Total(nodes[i := x], n, no)
         == Total(nodes, n, no) + (if i < n then CountIn(Entries(x), no) - CountIn(Entries(nodes[i]), no) else 0)
  {
    if n > 0 { TotalUpdate(nodes, n - 1, i, x, no); }
  }

  lemma {:induction false} CountPositive(es: seq<Dentry>, no: nat)
    ensures CountIn(es, no) > 0 <==> exists i :: 0 <= i < |es| && es[i].ino == no
  {
    if es != [] {
      CountPositive(es[1..], no);
      if i :| 0 <= i < |es[1..]| && es[1..][i].ino == no { assert es[i + 1].ino == no; }
      if i :| 0 <= i < |es| && es[i].ino == no { assert i == 0 || es[1..][i - 1].ino == no; }
    }
  }

  lemma {:induction false} TotalAtLeast(nodes: seq<Node>, n: nat, i: nat, no: nat)
    requires i < n <= |nodes|
    ensures Total(nodes, n, no) >= CountIn(Entries(nodes[i]), no)
  {
    if i < n - 1 { TotalAtLeast(nodes, n - 1, i, no); }
  }

  lemma {:induction false} TotalZero(nodes: seq<Node>, n: nat, no: nat)
    requires n <= |nodes| && forall i | 0 <= i < n :: CountIn(Entries(nodes[i]), no) == 0
    ensures Total(nodes, n, no) == 0
  {
    if n > 0 { TotalZero(nodes, n - 1, no); }
  }

  lemma {:induction false} TwoAtLeast(nodes: seq<Node>, n: nat, i: nat, j: nat, no: nat)
    requires i < n <= |nodes| && j < n && i != j
    ensures Total(nodes, n, no) >= CountIn(Entries(nodes[i]), no) + CountIn(Entries(nodes[j]), no)
  {
    hide CountIn, Entries;
    if i < n - 1 && j < n - 1 { TwoAtLeast(nodes, n - 1, i, j, no); }
    else if i == n - 1 { TotalAtLeast(nodes, n - 1, j, no); }
    else { TotalAtLeast(nodes, n - 1, i, no); }
  }

  // ---------------------------------------------------------- removing by number

  /** remove_dentry looks for the number, not the name: the first entry naming `no` is invalidated. */
  function RemoveFirst(es: seq<Dentry>, no: nat): (r: seq<Dentry>)
    ensures |r| == |es|
  {
    if es == [] then [] else if es[0].ino == no then [es[0].(ino := 0)] + es[1..]
        else [es[0]] + RemoveFirst(es[1..], no)
  }

  lemma {:induction false} RemoveCounts(es: seq<Dentry>, no: nat, x: nat)
    requires CountIn(es, no) > 0 && no != 0 && x != 0
    ensures CountIn(RemoveFirst(es, no), x) == CountIn(es, x) - (if x == no then 1 else 0)
  {
    if es[0].ino == no {
      assert ([es[0].(ino := 0)] + es[1..])[1..] == es[1..];
    } else {
      RemoveCounts(es[1..], no, x);
      assert ([es[0]] + RemoveFirst(es[1..], no))[1..] == RemoveFirst(es[1..], no);
    }
  }

  /** Where the removal strikes. */
  lemma {:induction false} RemoveAt(es: seq<Dentry>, no: nat) returns (i: nat)
    requires CountIn(es, no) > 0
    ensures i < |es| && es[i].ino == no && RemoveFirst(es, no) == es[i := es[i].(ino := 0)]
    ensures forall j | 0 <= j < i :: es[j].ino != no
  {
    if es[0].ino == no {
      i := 0;
    } else {
      var k := RemoveAt(es[1..], no);
      i := k + 1;
      forall j | 0 <= j < i ensures es[j].ino != no { assert j == 0 || es[j] == es[1..][j - 1]; }
    }
  }

  /** find_dentry: the first valid entry of that name. */
  function Find(es: seq<Dentry>, name: string): (no: nat)
    ensures no != 0 ==> exists i :: 0 <= i < |es| && es[i] == Dentry(no, name)
    ensures no == 0 ==> forall i | 0 <= i < |es| :: es[i].ino == 0 || es[i].name != name
  {
    if es == [] then 0
    else if es[0].ino != 0 && es[0].name == name then es[0].ino
    else
      var no := Find(es[1..], name);
      assert forall i | 1 <= i < |es| :: es[i] == es[1..][i - 1];
      assert no != 0 ==> exists i :: 0 <= i < |es[1..]| && es[1..][i] == Dentry(no, name);
      no
  }

  /** Entry i is the one that looking up `name` finds. */
  predicate FirstNamed(es: seq<Dentry>, name: string, i: nat) {
    i < |es| && es[i].ino != 0 && es[i].name == name && forall j | 0 <= j < i :: es[j].ino == 0 || es[j].name != name
  }

  /** The entries with entry i invalidated. */
  function Without(es: seq<Dentry>, i: nat): seq<Dentry>
    requires i < |es|
  {
    es[i := es[i].(ino := 0)]
  }

  /** No entry in front of entry i names the same inode. */
  predicate FirstLink(es: seq<Dentry>, i: nat)
    requires i < |es|
  {
    forall j | 0 <= j < i :: es[j].ino != es[i].ino
  }

  lemma {:induction false} FindsFirst(es: seq<Dentry>, name: string, i: nat)
    requires FirstNamed(es, name, i)
    ensures Find(es, name) == es[i].ino
  {
    if i > 0 {
      assert forall j | 0 <= j < |es| - 1 :: es[1..][j] == es[j + 1];
      FindsFirst(es[1..], name, i - 1);
    }
  }

  /** The name given is the one removed exactly if no entry in front of it names the same inode. */
  lemma RemovesItsName(es: seq<Dentry>, name: string, i: nat)
    requires FirstNamed(es, name, i)
    ensures RemoveFirst(es, Find(es, name)) == Without(es, i) <==> FirstLink(es, i)
  {
    FindsFirst(es, name, i);
    var no := es[i].ino;
    CountPositive(es, no);
    var k := RemoveAt(es, no);
    var a, b := RemoveFirst(es, no), es[i := es[i].(ino := 0)];
    if k == i {
      assert a == b;
    } else {
      assert a[i] == es[i] && b[i].ino == 0;
    }
  }

  /** With two names for one file in a directory, unlinking the second name takes the first one away. */
  lemma WrongNameRemoved(no: nat)
    requires no != 0
    ensures var es := [Dentry(no, "a"), Dentry(no, "b")];
      Find(es, "b") == no && Find(RemoveFirst(es, no), "a") == 0 && Find(RemoveFirst(es, no), "b") == no
  {
    var es := [Dentry(no, "a"), Dentry(no, "b")];
    assert es[1..] == [Dentry(no, "b")];
    var r := RemoveFirst(es, no);
    assert r == [Dentry(0, "a"), Dentry(no, "b")];
    assert r[1..] == [Dentry(no, "b")] && r[1..][1..] == [];
  }

  // ---------------------------------------------------------- the invariant

  predicate PlainName(name: string) { name != "." && name != ".." }

  /** A directory starts with itself and its parent; everything else in it has a name of its own. */
  predicate DirOk(nodes: seq<Node>, no: nat)
    requires no < |nodes|
  {
    nodes[no].Dir? ==>
      var es := nodes[no].entries;
      && |es| >= 2 && es[0] == Dentry(no, ".") && es[1].name == ".."
      && es[1].ino < |nodes| && nodes[es[1].ino].Dir? && (no == ROOT ==> es[1].ino == ROOT)
      && forall i | 2 <= i < |es| :: PlainName(es[i].name) && es[i].ino < |nodes|
  }

  /** Entries naming `no` that are neither "." nor "..". */
  function Named(nodes: seq<Node>, n: nat, no: nat): nat
    requires n <= |nodes|
  {
    if n == 0 then 0 else Named(nodes, n - 1, no) + CountIn(Proper(nodes[n - 1]), no)
  }

  function Proper(n: Node): seq<Dentry> { if n.Dir? && |n.entries| >= 2 then n.entries[2..] else [] }

  /** A directory other than the root has one name, in its parent; the root has none. */
  predicate ParentOk(nodes: seq<Node>, no: nat)
    requires no < |nodes| && DirOk(nodes, no)
  {
    nodes[no].Dir? ==>
      if no == ROOT then Named(nodes, |nodes|, no) == 0
      else Named(nodes, |nodes|, no) == 1 && CountIn(Proper(nodes[nodes[no].entries[1].ino]), no) == 1
  }

  /**
   * Every inode's i_nlink is the number of entries that name it, "." and ".." included, and a number is free
   * exactly when nothing names it.
   */
  predicate CountOk(nodes: seq<Node>, no: nat)
    requires no < |nodes|
  {
    match nodes[no]
    case Free => Total(nodes, |nodes|, no) == 0
    case File(nlink) => nlink == Total(nodes, |nodes|, no) > 0
    case Dir(nlink, _) => nlink == Total(nodes, |nodes|, no) > 0
  }

  ghost predicate TreeOk(nodes: seq<Node>) {
    && |nodes| >= 2 && nodes[0] == Free && nodes[ROOT].Dir?
    && (forall no | 1 <= no < |nodes| :: DirOk(nodes, no))
    && forall no | 1 <= no < |nodes| :: ParentOk(nodes, no) && CountOk(nodes, no)
  }

  lemma {:induction false} NamedUpdate(nodes: seq<Node>, n: nat, i: nat, x: Node, no: nat)
    requires n <= |nodes| && i < |nodes|
    ensures Named(nodes[i := x], n, no)
         == Named(nodes, n, no) + (if i < n then CountIn(Proper(x), no) - CountIn(Proper(nodes[i]), no) else 0)
  {
    if n > 0 { NamedUpdate(nodes, n - 1, i, x, no); }
  }

  lemma {:induction false} NamedInTotal(nodes: seq<Node>, n: nat, no: nat)
    requires n <= |nodes|
    ensures Named(nodes, n, no) <= Total(nodes, n, no)
  {
    if n > 0 {
      NamedInTotal(nodes, n - 1, no);
      ProperPart(nodes[n - 1], no);
    }
  }

  lemma ProperPart(x: Node, no: nat)
    ensures CountIn(Proper(x), no) <= CountIn(Entries(x), no)
    ensures x.Dir? && |x.entries| >= 2 ==>
      CountIn(Entries(x), no)
        == (if x.entries[0].ino == no then 1 else 0) + (if x.entries[1].ino == no then 1 else 0) + CountIn(Proper(x),
            no)
  {
    if x.Dir? && |x.entries| >= 2 {
      var es := x.entries;
      assert es[1..][1..] == es[2..] && es[1..][0] == es[1];
    }
  }

  lemma {:induction false} NamedAtLeast(nodes: seq<Node>, n: nat, i: nat, no: nat)
    requires i < n <= |nodes|
    ensures Named(nodes, n, no) >= CountIn(Proper(nodes[i]), no)
  {
    if i < n - 1 { NamedAtLeast(nodes, n - 1, i, no); }
  }

  lemma {:induction false} NamedTwice(nodes: seq<Node>, n: nat, i: nat, j: nat, no: nat)
    requires i < n <= |nodes| && j < n && i != j
    ensures Named(nodes, n, no) >= CountIn(Proper(nodes[i]), no) + CountIn(Proper(nodes[j]), no)
  {
    hide CountIn, Proper;
    if i < n - 1 && j < n - 1 { NamedTwice(nodes, n - 1, i, j, no); }
    else if i == n - 1 { NamedAtLeast(nodes, n - 1, j, no); }
    else { NamedAtLeast(nodes, n - 1, i, no); }
  }

  /** The first `m` entries of directory `i` that name `no`, by position. */
  ghost function Row(nodes: seq<Node>, i: nat, m: nat, no: nat): set<(nat, nat)>
    requires i < |nodes| && m <= |Entries(nodes[i])|
  {
    set j: nat | j < m && Entries(nodes[i])[j].ino == no :: (i, j)
  }

  /** All entries of the first `n` inodes that name `no`, by position. */
  ghost function Places(nodes: seq<Node>, n: nat, no: nat): set<(nat, nat)>
    requires n <= |nodes|
  {
    set i: nat, j: nat | i < n && j < |Entries(nodes[i])| && Entries(nodes[i])[j].ino == no :: (i, j)
  }

  lemma CountOne(e: Dentry, no: nat)
    ensures CountIn([e], no) == if e.ino == no then 1 else 0
  {
    assert [e][1..] == [];
  }

  lemma RowEmpty(nodes: seq<Node>, i: nat, no: nat)
    requires i < |nodes|
    ensures Row(nodes, i, 0, no) == {} && CountIn(Entries(nodes[i])[..0], no) == 0
  {
  }

  lemma RowGrows(nodes: seq<Node>, i: nat, m: nat, no: nat)
    requires i < |nodes| && 0 < m <= |Entries(nodes[i])|
    ensures |Row(nodes, i, m, no)| == |Row(nodes, i, m - 1, no)| + if Entries(nodes[i])[m - 1].ino == no then 1 else 0
  {
    var last: set<(nat, nat)> := if Entries(nodes[i])[m - 1].ino == no then {(i, m - 1)} else {};
    assert Row(nodes, i, m, no) == Row(nodes, i, m - 1, no) + last;
  }

  lemma {:induction false} RowSize(nodes: seq<Node>, i: nat, m: nat, no: nat)
    requires i < |nodes| && m <= |Entries(nodes[i])|
    ensures |Row(nodes, i, m, no)| == CountIn(Entries(nodes[i])[..m], no)
  {
    hide Row, Entries, CountIn;
    var es := Entries(nodes[i]);
    RowEmpty(nodes, i, no);
    if m > 0 {
      RowSize(nodes, i, m - 1, no);
      assert es[..m] == es[..m - 1] + [es[m - 1]];
      CountConcat(es[..m - 1], [es[m - 1]], no);
      CountOne(es[m - 1], no);
      RowGrows(nodes, i, m, no);
    }
  }

  lemma {:induction false} PlacesSize(nodes: seq<Node>, n: nat, no: nat)
    requires n <= |nodes|
    ensures |Places(nodes, n, no)| == Total(nodes, n, no)
  {
    if n > 0 {
      PlacesSize(nodes, n - 1, no);
      var es := Entries(nodes[n - 1]);
      RowSize(nodes, n - 1, |es|, no);
      assert es[..|es|] == es;
      PlacesGrow(nodes, n, no);
    }
  }

  lemma PlacesGrow(nodes: seq<Node>, n: nat, no: nat)
    requires 0 < n <= |nodes|
    ensures var row := Row(nodes, n - 1, |Entries(nodes[n - 1])|, no);
      |Places(nodes, n, no)| == |Places(nodes, n - 1, no)| + |row|
  {
    hide CountIn, Total, Entries;
    var a, b := Places(nodes, n - 1, no), Row(nodes, n - 1, |Entries(nodes[n - 1])|, no);
    forall p | p in Places(nodes, n, no) ensures p in a + b { assert p.0 < n - 1 || p.0 == n - 1; }
    forall p | p in a + b ensures p in Places(nodes, n, no) { assert p in a || p in b; }
    assert Places(nodes, n, no) == a + b;
    assert a !! b;
  }

  /** i_nlink is the number of places that name the inode; a number is free exactly when there is none. */
  lemma LinksAreEntries(nodes: seq<Node>, no: nat)
    requires TreeOk(nodes) && 1 <= no < |nodes|
    ensures nodes[no] == Free <==> forall i, j | 0 <= i < |nodes| && 0 <= j < |Entries(nodes[i])| ::
      Entries(nodes[i])[j].ino != no
    ensures nodes[no] != Free ==> nodes[no].nlink == |Places(nodes, |nodes|, no)|
  {
    assert CountOk(nodes, no);
    PlacesSize(nodes, |nodes|, no);
    var all := Places(nodes, |nodes|, no);
    if nodes[no] == Free {
      forall i, j | 0 <= i < |nodes| && 0 <= j < |Entries(nodes[i])| ensures Entries(nodes[i])[j].ino != no {
        var a: nat, b: nat := i, j;
        assert (a, b) in all <==> Entries(nodes[i])[j].ino == no;
      }
    } else {
      var place :| place in all;
    }
  }

  // ---------------------------------------------------------- adding an entry

  /** add_dentry: the entry goes to the end; a new subdirectory is one more link to its parent. */
  function Added(nodes: seq<Node>, p: nat, name: string, no: nat, dir: bool): (r: seq<Node>)
    requires p < |nodes| && nodes[p].Dir?
    ensures |r| == |nodes|
  {
    nodes[p := Dir(nodes[p].nlink + (if dir then 1 else 0), nodes[p].entries + [Dentry(no, name)])]
  }

  lemma AddedCounts(nodes: seq<Node>, p: nat, name: string, no: nat, dir: bool, x: nat)
    requires p < |nodes| && nodes[p].Dir? && |nodes[p].entries| >= 2
    ensures var r := Added(nodes, p, name, no, dir);
      && Total(r, |nodes|, x) == Total(nodes, |nodes|, x) + (if x == no then 1 else 0)
      && Named(r, |nodes|, x) == Named(nodes, |nodes|, x) + (if x == no then 1 else 0)
      && CountIn(Proper(r[p]), x) == CountIn(Proper(nodes[p]), x) + (if x == no then 1 else 0)
  {
    var es, d := nodes[p].entries, Dentry(no, name);
    var n := Added(nodes, p, name, no, dir)[p];
    TotalUpdate(nodes, |nodes|, p, n, x);
    NamedUpdate(nodes, |nodes|, p, n, x);
    CountConcat(es, [d], x);
    CountConcat(es[2..], [d], x);
    assert (es + [d])[2..] == es[2..] + [d];
    CountOne(d, x);
  }

  /** What a free number is not: named. */
  lemma FreeUnnamed(nodes: seq<Node>, no: nat, i: nat)
    requires TreeOk(nodes) && 1 <= no < |nodes| && nodes[no] == Free && i < |nodes|
    ensures Total(nodes, |nodes|, no) == 0 && Named(nodes, |nodes|, no) == 0
    ensures CountIn(Entries(nodes[i]), no) == 0 && CountIn(Proper(nodes[i]), no) == 0
  {
    assert CountOk(nodes, no);
    NamedInTotal(nodes, |nodes|, no);
    TotalAtLeast(nodes, |nodes|, i, no);
    ProperPart(nodes[i], no);
  }

  lemma NothingIn(x: nat)
    ensures CountIn([], x) == 0
  {
  }

  // ---------------------------------------------------------- create and mkdir, on values

  function Created(nodes: seq<Node>, p: nat, name: string, no: nat): (r: seq<Node>)
    requires p < |nodes| && nodes[p].Dir? && no < |nodes|
    ensures |r| == |nodes|
  {
    Added(nodes, p, name, no, false)[no := File(1)]
  }

  lemma CreatedAt(nodes: seq<Node>, p: nat, name: string, no: nat, x: nat)
    requires 1 <= x < |nodes| && TreeOk(nodes) && 1 <= p < |nodes| && nodes[p].Dir? && 1 <= no < |nodes|
    requires nodes[no] == Free && PlainName(name)
    requires forall y | 1 <= y < |nodes| :: DirOk(Created(nodes, p, name, no), y)
    ensures ParentOk(Created(nodes, p, name, no), x) && CountOk(Created(nodes, p, name, no), x)
  {
    hide Total, Named, CountIn;
    NothingIn(x);
    var a := Added(nodes, p, name, no, false);
    assert DirOk(nodes, p) && DirOk(nodes, x) && ParentOk(nodes, x) && CountOk(nodes, x);
    AddedCounts(nodes, p, name, no, false, x);
    TotalUpdate(a, |a|, no, File(1), x);
    NamedUpdate(a, |a|, no, File(1), x);
    FreeUnnamed(nodes, no, p);
  }

  lemma CreatedOk(nodes: seq<Node>, p: nat, name: string, no: nat)
    requires TreeOk(nodes) && 1 <= p < |nodes| && nodes[p].Dir? && 1 <= no < |nodes| && nodes[no] == Free
    requires PlainName(name)
    ensures TreeOk(Created(nodes, p, name, no))
  {
    var r := Created(nodes, p, name, no);
    assert DirOk(nodes, p);
    forall x | 1 <= x < |r| ensures DirOk(r, x) { assert DirOk(nodes, x); }
    forall x | 1 <= x < |r| ensures ParentOk(r, x) && CountOk(r, x) { CreatedAt(nodes, p, name, no, x); }
  }

  /** mk_directory: a directory starts with two links, its name and its own ".". */
  function NewDir(no: nat, p: nat): Node { Dir(2, [Dentry(no, "."), Dentry(p, "..")]) }

  function Made(nodes: seq<Node>, p: nat, name: string, no: nat): (r: seq<Node>)
    requires p < |nodes| && nodes[p].Dir? && no < |nodes|
    ensures |r| == |nodes|
  {
    Added(nodes, p, name, no, true)[no := NewDir(no, p)]
  }

  lemma NewDirCounts(no: nat, p: nat, x: nat)
    ensures CountIn(Entries(NewDir(no, p)), x) == (if x == no then 1 else 0) + (if x == p then 1 else 0)
    ensures CountIn(Proper(NewDir(no, p)), x) == 0
  {
    ProperPart(NewDir(no, p), x);
    assert Proper(NewDir(no, p)) == [];
  }

  lemma MadeAt(nodes: seq<Node>, p: nat, name: string, no: nat, x: nat)
    requires 1 <= x < |nodes| && TreeOk(nodes) && 1 <= p < |nodes| && nodes[p].Dir? && 1 <= no < |nodes|
    requires nodes[no] == Free && PlainName(name)
    requires forall y | 1 <= y < |nodes| :: DirOk(Made(nodes, p, name, no), y)
    ensures ParentOk(Made(nodes, p, name, no), x) && CountOk(Made(nodes, p, name, no), x)
  {
    hide Total, Named, CountIn;
    NothingIn(x);
    var a := Added(nodes, p, name, no, true);
    assert DirOk(nodes, p) && DirOk(nodes, x) && ParentOk(nodes, x) && CountOk(nodes, x);
    AddedCounts(nodes, p, name, no, true, x);
    NewDirCounts(no, p, x);
    TotalUpdate(a, |a|, no, NewDir(no, p), x);
    NamedUpdate(a, |a|, no, NewDir(no, p), x);
    FreeUnnamed(nodes, no, p);
  }

  lemma MadeOk(nodes: seq<Node>, p: nat, name: string, no: nat)
    requires TreeOk(nodes) && 1 <= p < |nodes| && nodes[p].Dir? && 1 <= no < |nodes| && nodes[no] == Free
    requires PlainName(name)
    ensures TreeOk(Made(nodes, p, name, no))
  {
    var r := Made(nodes, p, name, no);
    assert DirOk(nodes, p);
    forall x | 1 <= x < |r| ensures DirOk(r, x) { assert DirOk(nodes, x); }
    forall x | 1 <= x < |r| ensures ParentOk(r, x) && CountOk(r, x) { MadeAt(nodes, p, name, no, x); }
  }

  // ---------------------------------------------------------- link, on values

  /** A further entry, then a further link. Nothing in it asks whether that is a file. */
  function Linked(nodes: seq<Node>, p: nat, name: string, no: nat): (r: seq<Node>)
    requires p < |nodes| && nodes[p].Dir? && no < |nodes| && nodes[no] != Free
    ensures |r| == |nodes|
  {
    var a := Added(nodes, p, name, no, nodes[no].Dir?);
    a[no := a[no].(nlink := a[no].nlink + 1)]
  }

  lemma FilesNameNothing(x: Node)
    requires !x.Dir?
    ensures Entries(x) == [] && Proper(x) == []
  {
  }

  lemma LinkedAt(nodes: seq<Node>, p: nat, name: string, no: nat, x: nat)
    requires 1 <= x < |nodes| && TreeOk(nodes) && 1 <= p < |nodes| && nodes[p].Dir? && 1 <= no < |nodes|
    requires nodes[no].File? && PlainName(name)
    requires forall y | 1 <= y < |nodes| :: DirOk(Linked(nodes, p, name, no), y)
    ensures ParentOk(Linked(nodes, p, name, no), x) && CountOk(Linked(nodes, p, name, no), x)
  {
    hide Total, Named, CountIn, Entries, Proper;
    NothingIn(x);
    FilesNameNothing(nodes[no]);
    FilesNameNothing(File(nodes[no].nlink + 1));
    var a := Added(nodes, p, name, no, false);
    assert DirOk(nodes, p) && DirOk(nodes, x) && ParentOk(nodes, x) && CountOk(nodes, x);
    AddedCounts(nodes, p, name, no, false, x);
    TotalUpdate(a, |a|, no, File(nodes[no].nlink + 1), x);
    NamedUpdate(a, |a|, no, File(nodes[no].nlink + 1), x);
  }

  lemma LinkedOk(nodes: seq<Node>, p: nat, name: string, no: nat)
    requires TreeOk(nodes) && 1 <= p < |nodes| && nodes[p].Dir? && 1 <= no < |nodes| && nodes[no].File?
    requires PlainName(name)
    ensures TreeOk(Linked(nodes, p, name, no))
  {
    var r := Linked(nodes, p, name, no);
    assert DirOk(nodes, p);
    forall x | 1 <= x < |r| ensures DirOk(r, x) { assert DirOk(nodes, x); }
    forall x | 1 <= x < |r| ensures ParentOk(r, x) && CountOk(r, x) { LinkedAt(nodes, p, name, no, x); }
  }

  /** A second name for a directory counts twice, in the directory and in the one that the name is in. */
  lemma LinkedDirMiscounts(nodes: seq<Node>, p: nat, name: string, no: nat)
    requires TreeOk(nodes) && 1 <= p < |nodes| && nodes[p].Dir? && 1 <= no < |nodes| && nodes[no].Dir?
    ensures !TreeOk(Linked(nodes, p, name, no))
  {
    hide Total, Named, CountIn;
    assert DirOk(nodes, p) && CountOk(nodes, p);
    var a, r := Added(nodes, p, name, no, true), Linked(nodes, p, name, no);
    AddedCounts(nodes, p, name, no, true, p);
    TotalUpdate(a, |a|, no, r[no], p);
    assert !CountOk(r, p);
  }

  // ---------------------------------------------------------- removing an entry

  /** remove_dentry */
  function Dropped(nodes: seq<Node>, p: nat, no: nat, dir: bool): (r: seq<Node>)
    requires p < |nodes| && nodes[p].Dir? && (dir ==> nodes[p].nlink > 0)
    ensures |r| == |nodes|
  {
    nodes[p := Dir(nodes[p].nlink - (if dir then 1 else 0), RemoveFirst(nodes[p].entries, no))]
  }

  /** If neither "." nor ".." of the directory is hit, one proper entry goes. */
  lemma DroppedCounts(nodes: seq<Node>, p: nat, no: nat, dir: bool, x: nat)
    requires p < |nodes| && nodes[p].Dir? && |nodes[p].entries| >= 2 && (dir ==> nodes[p].nlink > 0)
    requires CountIn(nodes[p].entries, no) > 0 && no != 0 && x != 0
    requires nodes[p].entries[0].ino != no && nodes[p].entries[1].ino != no
    ensures var r := Dropped(nodes, p, no, dir);
      && Total(r, |nodes|, x) == Total(nodes, |nodes|, x) - (if x == no then 1 else 0)
      && Named(r, |nodes|, x) == Named(nodes, |nodes|, x) - (if x == no then 1 else 0)
      && CountIn(Proper(r[p]), x) == CountIn(Proper(nodes[p]), x) - (if x == no then 1 else 0)
      && r[p].entries[0] == nodes[p].entries[0] && r[p].entries[1] == nodes[p].entries[1]
      && forall i | 2 <= i < |r[p].entries| :: r[p].entries[i].name == nodes[p].entries[i].name
           && (r[p].entries[i].ino == nodes[p].entries[i].ino || r[p].entries[i].ino == 0)
  {
    var es, r := nodes[p].entries, Dropped(nodes, p, no, dir);
    var i := RemoveAt(es, no);
    RemoveCounts(es, no, x);
    TotalUpdate(nodes, |nodes|, p, r[p], x);
    NamedUpdate(nodes, |nodes|, p, r[p], x);
    ProperPart(nodes[p], x);
    ProperPart(r[p], x);
  }

  /** A name found in a directory is a proper entry, and names something. */
  lemma FoundEntry(nodes: seq<Node>, p: nat, name: string)
    requires TreeOk(nodes) && 1 <= p < |nodes| && nodes[p].Dir? && PlainName(name) && Find(nodes[p].entries, name) != 0
    ensures var no := Find(nodes[p].entries, name);
      && 1 <= no < |nodes| && CountIn(Proper(nodes[p]), no) > 0 && CountIn(nodes[p].entries, no) > 0
      && nodes[no] != Free
      && no != ROOT
  {
    var es, no := nodes[p].entries, Find(nodes[p].entries, name);
    assert DirOk(nodes, p);
    var i :| 0 <= i < |es| && es[i] == Dentry(no, name);
    assert i >= 2 && es[2..][i - 2] == es[i];
    CountPositive(es[2..], no);
    CountPositive(es, no);
    TotalAtLeast(nodes, |nodes|, p, no);
    NamedAtLeast(nodes, |nodes|, p, no);
    assert CountOk(nodes, no) && DirOk(nodes, no) && ParentOk(nodes, no);
  }

  // ---------------------------------------------------------- unlink, on values

  /** The entry goes, then one link of the inode. Nothing in it asks whether that is a file. */
  function Unlinked(nodes: seq<Node>, p: nat, no: nat): (r: seq<Node>)
    requires p < |nodes| && nodes[p].Dir? && nodes[p].nlink > 0 && no < |nodes| && nodes[no] != Free
    ensures |r| == |nodes|
  {
    var a := Dropped(nodes, p, no, nodes[no].Dir?);
    a[no := if a[no].nlink > 1 then a[no].(nlink := a[no].nlink - 1) else Free]
  }

  /** No directory starts with a file. */
  lemma DotsAreDirs(nodes: seq<Node>, p: nat, no: nat)
    requires TreeOk(nodes) && 1 <= p < |nodes| && nodes[p].Dir? && no < |nodes| && nodes[no].File?
    ensures |nodes[p].entries| >= 2 && nodes[p].entries[0].ino != no && nodes[p].entries[1].ino != no
  {
    assert DirOk(nodes, p);
  }

  lemma UnlinkedDirs(nodes: seq<Node>, p: nat, no: nat, x: nat)
    requires TreeOk(nodes) && 1 <= p < |nodes| && nodes[p].Dir? && 1 <= no < |nodes| && nodes[no].File?
    requires CountIn(nodes[p].entries, no) > 0 && 1 <= x < |nodes| && nodes[p].nlink > 0
    ensures DirOk(Unlinked(nodes, p, no), x)
  {
    hide Total, Named, CountIn, RemoveFirst;
    DotsAreDirs(nodes, p, no);
    DroppedCounts(nodes, p, no, false, x);
    assert DirOk(nodes, x) && DirOk(nodes, p);
  }

  lemma UnlinkedAt(nodes: seq<Node>, p: nat, no: nat, x: nat)
    requires TreeOk(nodes) && 1 <= p < |nodes| && nodes[p].Dir? && 1 <= no < |nodes| && nodes[no].File?
    requires CountIn(nodes[p].entries, no) > 0 && 1 <= x < |nodes| && nodes[p].nlink > 0
    requires forall y | 1 <= y < |nodes| :: DirOk(Unlinked(nodes, p, no), y)
    ensures ParentOk(Unlinked(nodes, p, no), x) && CountOk(Unlinked(nodes, p, no), x)
  {
    hide Total, Named, CountIn, RemoveFirst;
    NothingIn(x);
    DotsAreDirs(nodes, p, no);
    var a, f := Dropped(nodes, p, no, false), if nodes[no].nlink > 1 then File(nodes[no].nlink - 1) else Free;
    assert DirOk(nodes, p) && DirOk(nodes, x) && ParentOk(nodes, x) && CountOk(nodes, x);
    DroppedCounts(nodes, p, no, false, x);
    TotalUpdate(a, |a|, no, f, x);
    NamedUpdate(a, |a|, no, f, x);
  }

  lemma UnlinkedOk(nodes: seq<Node>, p: nat, no: nat)
    requires TreeOk(nodes) && 1 <= p < |nodes| && nodes[p].Dir? && 1 <= no < |nodes| && nodes[no].File?
    requires CountIn(nodes[p].entries, no) > 0
    ensures nodes[p].nlink > 0 && TreeOk(Unlinked(nodes, p, no))
  {
    assert CountOk(nodes, p);
    var r := Unlinked(nodes, p, no);
    forall x | 1 <= x < |r| ensures DirOk(r, x) { UnlinkedDirs(nodes, p, no, x); }
    forall x | 1 <= x < |r| ensures ParentOk(r, x) && CountOk(r, x) { UnlinkedAt(nodes, p, no, x); }
  }

  /** A directory that has a name has two links, and one more if it is in itself. */
  lemma DirLinks(nodes: seq<Node>, p: nat, no: nat)
    requires TreeOk(nodes) && 1 <= p < |nodes| && nodes[p].Dir? && 1 <= no < |nodes| && nodes[no].Dir?
    requires CountIn(Proper(nodes[p]), no) > 0 && no != ROOT
    ensures nodes[p].nlink > 0 && nodes[no].nlink >= 2 && (p == no ==> nodes[no].nlink >= 3)
  {
    hide Total, Named, CountIn;
    assert CountOk(nodes, p) && CountOk(nodes, no) && DirOk(nodes, no) && DirOk(nodes, p);
    ProperPart(nodes[no], no);
    ProperPart(nodes[p], no);
    if p == no {
      assert ParentOk(nodes, no);
      var q := nodes[no].entries[1].ino;
      if q != p { NamedTwice(nodes, |nodes|, p, q, no); }
      TotalAtLeast(nodes, |nodes|, p, no);
    } else {
      TwoAtLeast(nodes, |nodes|, p, no, no);
    }
  }

  /** Unlinking a directory leaves one without a name, or without its "." or "..". */
  lemma UnlinkedDirLost(nodes: seq<Node>, p: nat, no: nat)
    requires TreeOk(nodes) && 1 <= p < |nodes| && nodes[p].Dir? && 1 <= no < |nodes| && no != ROOT && nodes[no].Dir?
    requires CountIn(Proper(nodes[p]), no) > 0
    ensures nodes[p].nlink > 0 && !TreeOk(Unlinked(nodes, p, no))
  {
    hide Total, Named, CountIn, RemoveFirst;
    DirLinks(nodes, p, no);
    assert DirOk(nodes, p) && DirOk(nodes, no) && ParentOk(nodes, no);
    ProperPart(nodes[p], no);
    var a, r := Dropped(nodes, p, no, true), Unlinked(nodes, p, no);
    if nodes[p].entries[0].ino == no || nodes[p].entries[1].ino == no {
      var i := RemoveAt(nodes[p].entries, no);
      assert i < 2;
      assert !DirOk(r, p);
    } else {
      DroppedCounts(nodes, p, no, true, no);
      NamedUpdate(a, |a|, no, r[no], no);
      assert Named(r, |r|, no) == 0;
      assert r[no].Dir? && !ParentOk(r, no);
    }
  }

  // ---------------------------------------------------------- rmdir, on values

  /** dentry_is_empty: nothing valid but "." and "..". */
  predicate DirEmpty(es: seq<Dentry>) { forall i | 0 <= i < |es| :: es[i].ino == 0 || !PlainName(es[i].name) }

  /** What dentry_is_empty makes of an inode: it does not ask for the kind, and reads a file's bytes as entries. */
  predicate SeenEmpty(x: Node, blank: bool) { if x.Dir? then DirEmpty(x.entries) else blank }

  function Removed(nodes: seq<Node>, p: nat, no: nat): (r: seq<Node>)
    requires p < |nodes| && nodes[p].Dir? && nodes[p].nlink > 0 && no < |nodes|
    ensures |r| == |nodes|
  {
    Dropped(nodes, p, no, nodes[no].Dir?)[no := Free]
  }

  /** A file that passes for an empty directory goes whole: that is right exactly if it had no other name. */
  lemma RemovedFile(nodes: seq<Node>, p: nat, no: nat)
    requires TreeOk(nodes) && 1 <= p < |nodes| && nodes[p].Dir? && 1 <= no < |nodes| && nodes[no].File?
    requires CountIn(nodes[p].entries, no) > 0
    ensures nodes[p].nlink > 0 && (TreeOk(Removed(nodes, p, no)) <==> nodes[no].nlink == 1)
  {
    hide Total, Named, CountIn, RemoveFirst;
    assert CountOk(nodes, p) && CountOk(nodes, no);
    if nodes[no].nlink == 1 {
      UnlinkedOk(nodes, p, no);
      assert Removed(nodes, p, no) == Unlinked(nodes, p, no);
    } else {
      DotsAreDirs(nodes, p, no);
      var a, r := Dropped(nodes, p, no, false), Removed(nodes, p, no);
      DroppedCounts(nodes, p, no, false, no);
      TotalUpdate(a, |a|, no, Free, no);
      NothingIn(no);
      assert !CountOk(r, no);
    }
  }

  lemma {:induction false} DotsOf(nodes: seq<Node>, n: nat, no: nat)
    requires n <= |nodes| && no < |nodes| && nodes[no].Dir?
    requires forall i | 0 <= i < n && nodes[i].Dir? ::
      |nodes[i].entries| >= 2 && (nodes[i].entries[0].ino == no <==> i == no) && nodes[i].entries[1].ino != no
    ensures Total(nodes, n, no) == Named(nodes, n, no) + (if no < n then 1 else 0)
  {
    if n > 0 {
      DotsOf(nodes, n - 1, no);
      ProperPart(nodes[n - 1], no);
    }
  }

  lemma {:induction false} ZerosNameNothing(es: seq<Dentry>, x: nat)
    requires x != 0 && forall i | 0 <= i < |es| :: es[i].ino == 0
    ensures CountIn(es, x) == 0
  {
    if es != [] { ZerosNameNothing(es[1..], x); }
  }

  /** An empty directory names nothing, is nobody's parent, and has exactly two links: its name and its ".". */
  lemma EmptyDirFacts(nodes: seq<Node>, p: nat, no: nat)
    requires TreeOk(nodes) && 1 <= p < |nodes| && nodes[p].Dir? && 1 <= no < |nodes| && no != ROOT && nodes[no].Dir?
    requires CountIn(Proper(nodes[p]), no) > 0 && DirEmpty(nodes[no].entries)
    ensures p != no && |nodes[no].entries| >= 2 && nodes[no].entries[1].ino == p && Total(nodes, |nodes|, no) == 2
    ensures forall x: nat | x != 0 :: CountIn(Proper(nodes[no]), x) == 0
    ensures forall x | 1 <= x < |nodes| && nodes[x].Dir? :: |nodes[x].entries| >= 2 && nodes[x].entries[1].ino != no
  {
    hide Total, Named, CountIn;
    assert DirOk(nodes, no) && ParentOk(nodes, no);
    var es := nodes[no].entries;
    forall x: nat | x != 0 ensures CountIn(Proper(nodes[no]), x) == 0 {
      assert forall i | 0 <= i < |es[2..]| :: es[2..][i] == es[i + 2];
      ZerosNameNothing(es[2..], x);
    }
    var q := es[1].ino;
    if q != p { NamedTwice(nodes, |nodes|, p, q, no); }
    forall x | 1 <= x < |nodes| && nodes[x].Dir? ensures |nodes[x].entries| >= 2 && nodes[x].entries[1].ino != no {
      assert DirOk(nodes, x) && ParentOk(nodes, x);
    }
    forall i | 0 <= i < |nodes| && nodes[i].Dir?
      ensures |nodes[i].entries| >= 2 && (nodes[i].entries[0].ino == no <==> i == no)
    {
      assert DirOk(nodes, i);
    }
    DotsOf(nodes, |nodes|, no);
  }

  lemma RemovedDirs(nodes: seq<Node>, p: nat, no: nat, x: nat)
    requires TreeOk(nodes) && 1 <= p < |nodes| && nodes[p].Dir? && 1 <= no < |nodes| && no != ROOT && nodes[no].Dir?
    requires p != no
    requires CountIn(nodes[p].entries, no) > 0 && 1 <= x < |nodes| && nodes[p].nlink > 0
    requires forall y | 1 <= y < |nodes| && nodes[y].Dir? :: |nodes[y].entries| >= 2 && nodes[y].entries[1].ino != no
    ensures DirOk(Removed(nodes, p, no), x)
  {
    hide Total, Named, CountIn, RemoveFirst;
    assert DirOk(nodes, x) && DirOk(nodes, p);
    DroppedCounts(nodes, p, no, true, x);
  }

  lemma RemovedAt(nodes: seq<Node>, p: nat, no: nat, x: nat)
    requires TreeOk(nodes) && 1 <= p < |nodes| && nodes[p].Dir? && 1 <= no < |nodes| && no != ROOT && nodes[no].Dir?
    requires p != no
    requires CountIn(nodes[p].entries, no) > 0 && 1 <= x < |nodes| && nodes[p].nlink > 0
    requires |nodes[no].entries| >= 2 && nodes[no].entries[1].ino == p && Total(nodes, |nodes|, no) == 2
    requires CountIn(Proper(nodes[no]), x) == 0
    requires forall y | 1 <= y < |nodes| && nodes[y].Dir? :: |nodes[y].entries| >= 2 && nodes[y].entries[1].ino != no
    requires forall y | 1 <= y < |nodes| :: DirOk(Removed(nodes, p, no), y)
    ensures ParentOk(Removed(nodes, p, no), x) && CountOk(Removed(nodes, p, no), x)
  {
    hide Total, Named, CountIn, RemoveFirst;
    NothingIn(x);
    assert DirOk(nodes, p) && DirOk(nodes, no) && DirOk(nodes, x) && ParentOk(nodes, x) && CountOk(nodes, x);
    var a := Dropped(nodes, p, no, true);
    DroppedCounts(nodes, p, no, true, x);
    TotalUpdate(a, |a|, no, Free, x);
    NamedUpdate(a, |a|, no, Free, x);
    ProperPart(nodes[no], x);
    StillNamed(nodes, p, no);
  }

  /** The parent keeps its own "." whatever goes. */
  lemma StillNamed(nodes: seq<Node>, p: nat, no: nat)
    requires TreeOk(nodes) && 1 <= p < |nodes| && nodes[p].Dir? && no < |nodes| && nodes[no].Dir? && p != no
    requires |nodes[no].entries| >= 2 && nodes[no].entries[1].ino == p
    ensures Total(nodes, |nodes|, p) >= 2
  {
    assert DirOk(nodes, p) && DirOk(nodes, no);
    ProperPart(nodes[p], p);
    ProperPart(nodes[no], p);
    TwoAtLeast(nodes, |nodes|, p, no, p);
  }

  lemma RemovedOk(nodes: seq<Node>, p: nat, no: nat)
    requires TreeOk(nodes) && 1 <= p < |nodes| && nodes[p].Dir? && 1 <= no < |nodes| && no != ROOT && nodes[no].Dir?
    requires CountIn(Proper(nodes[p]), no) > 0 && CountIn(nodes[p].entries, no) > 0 && DirEmpty(nodes[no].entries)
    ensures nodes[p].nlink > 0 && TreeOk(Removed(nodes, p, no))
  {
    hide Total, Named, CountIn, RemoveFirst;
    assert CountOk(nodes, p);
    EmptyDirFacts(nodes, p, no);
    var r := Removed(nodes, p, no);
    forall x | 1 <= x < |r| ensures DirOk(r, x) { RemovedDirs(nodes, p, no, x); }
    forall x | 1 <= x < |r| ensures ParentOk(r, x) && CountOk(r, x) { RemovedAt(nodes, p, no, x); }
  }

  /** A directory has one name only, so rmdir always removes the one it was given. */
  lemma OnlyName(nodes: seq<Node>, p: nat, name: string)
    requires TreeOk(nodes) && 1 <= p < |nodes| && nodes[p].Dir? && PlainName(name)
    requires var no := Find(nodes[p].entries, name); 1 <= no < |nodes| && nodes[no].Dir? && DirEmpty(nodes[no].entries)
    ensures p != Find(nodes[p].entries, name)
    ensures forall i: nat | FirstNamed(nodes[p].entries, name, i) ::
      RemoveFirst(nodes[p].entries, Find(nodes[p].entries, name)) == Without(nodes[p].entries, i)
  {
    hide Total, Named, CountIn, RemoveFirst, Find;
    var es, no := nodes[p].entries, Find(nodes[p].entries, name);
    FoundEntry(nodes, p, name);
    EmptyDirFacts(nodes, p, no);
    assert DirOk(nodes, p) && ParentOk(nodes, no) && DirOk(nodes, no);
    forall i: nat | FirstNamed(es, name, i) ensures RemoveFirst(es, no) == Without(es, i) {
      FindsFirst(es, name, i);
      RemovesItsName(es, name, i);
      ProperOnce(es, no, i);
    }
  }

  lemma ProperOnce(es: seq<Dentry>, no: nat, i: nat)
    requires |es| >= 2 && es[0].ino != no && es[1].ino != no && CountIn(es[2..], no) == 1 && i < |es| && es[i].ino == no
    ensures FirstLink(es, i)
  {
    var rest := es[2..];
    forall j: nat | j < i ensures es[j].ino != no {
      if j >= 2 && es[j].ino == no {
        assert rest[j - 2] == es[j] && rest[i - 2] == es[i];
        TwiceIn(rest, j - 2, i - 2, no);
      }
    }
  }

  lemma {:induction false} TwiceIn(es: seq<Dentry>, j: nat, i: nat, no: nat)
    requires j < i < |es| && es[j].ino == no && es[i].ino == no
    ensures CountIn(es, no) >= 2
  {
    if j > 0 {
      TwiceIn(es[1..], j - 1, i - 1, no);
    } else {
      CountPositive(es[1..], no);
      assert es[1..][i - 1].ino == no;
    }
  }

  // ---------------------------------------------------------- "." and ".."

  /** What "." and ".." find: the directory itself, and its parent. */
  lemma DotsFound(nodes: seq<Node>, p: nat, name: string)
    requires TreeOk(nodes) && 1 <= p < |nodes| && nodes[p].Dir? && !PlainName(name)
    ensures |nodes[p].entries| >= 2 && nodes[p].entries[1].ino < |nodes|
    ensures Find(nodes[p].entries, name) == if name == "." then p else nodes[p].entries[1].ino
    ensures var no := Find(nodes[p].entries, name);
      1 <= no < |nodes| && nodes[no].Dir? && CountIn(nodes[p].entries, no) > 0
  {
    assert DirOk(nodes, p);
    var es := nodes[p].entries;
    var i := if name == "." then 0 else 1;
    assert FirstNamed(es, name, i);
    FindsFirst(es, name, i);
    CountPositive(es, es[i].ino);
  }

  /** A directory that has two links left, or more, is the root or named by its parent. */
  lemma OwnLinks(nodes: seq<Node>, p: nat)
    requires TreeOk(nodes) && 1 <= p < |nodes| && nodes[p].Dir?
    ensures nodes[p].nlink >= 2 && |nodes[p].entries| >= 2 && nodes[p].entries[1].ino < |nodes|
    ensures p != ROOT ==> var q := nodes[p].entries[1].ino;
      CountIn(Proper(nodes[q]), p) == 1 && CountIn(Entries(nodes[q]), p) > 0 && (q == p ==> nodes[p].nlink >= 3)
  {
    hide Total, Named, CountIn;
    assert DirOk(nodes, p) && ParentOk(nodes, p) && CountOk(nodes, p);
    var q := nodes[p].entries[1].ino;
    ProperPart(nodes[p], p);
    if p == ROOT {
      TotalAtLeast(nodes, |nodes|, p, p);
    } else {
      ProperPart(nodes[q], p);
      DirLinks(nodes, q, p);
    }
  }

  /** A directory freed while its parent names it. */
  lemma FreedNamed(nodes: seq<Node>, r: seq<Node>, p: nat)
    requires TreeOk(nodes) && 1 <= p < |nodes| == |r| && nodes[p].Dir? && r[p] == Free
    requires p != ROOT ==> |nodes[p].entries| >= 2 && var q := nodes[p].entries[1].ino;
      q < |nodes| && q != p && r[q] == nodes[q] && CountIn(Entries(nodes[q]), p) > 0
    ensures !TreeOk(r)
  {
    if p != ROOT {
      TotalAtLeast(r, |r|, nodes[p].entries[1].ino, p);
      assert !CountOk(r, p);
    }
  }

  /** Unlinking "." or ".." leaves the directory without it, or takes it away while it is named. */
  lemma UnlinkedDotsLost(nodes: seq<Node>, p: nat, name: string)
    requires TreeOk(nodes) && 1 <= p < |nodes| && nodes[p].Dir? && !PlainName(name)
    ensures var no := Find(nodes[p].entries, name);
      1 <= no < |nodes| && nodes[no].Dir? && nodes[no].nlink >= 2 && nodes[p].nlink > 0
      && !TreeOk(Unlinked(nodes, p, no))
  {
    hide Total, Named, CountIn, RemoveFirst, Find;
    DotsFound(nodes, p, name);
    var no := Find(nodes[p].entries, name);
    OwnLinks(nodes, p);
    OwnLinks(nodes, no);
    assert DirOk(nodes, p);
    var i := RemoveAt(nodes[p].entries, no);
    var r := Unlinked(nodes, p, no);
    assert i < 2;
    if r[p].Dir? { assert !DirOk(r, p); } else { FreedNamed(nodes, r, p); }
  }

  /** So does removing them, if they pass for an empty directory at all: then it is the directory itself. */
  lemma RemovedDotsLost(nodes: seq<Node>, p: nat, name: string)
    requires TreeOk(nodes) && 1 <= p < |nodes| && nodes[p].Dir? && !PlainName(name)
    requires var no := Find(nodes[p].entries, name); no < |nodes| && nodes[no].Dir? && DirEmpty(nodes[no].entries)
    ensures nodes[p].nlink > 0 && Find(nodes[p].entries, name) == p && !TreeOk(Removed(nodes, p, p))
  {
    hide Total, Named, CountIn, RemoveFirst, Find;
    DotsFound(nodes, p, name);
    OwnLinks(nodes, p);
    var no, q := Find(nodes[p].entries, name), nodes[p].entries[1].ino;
    if p != ROOT && (q == p || q == no) { NotEmptyNamed(nodes, q, p); }
    if p == ROOT { assert DirOk(nodes, p); }
    FreedNamed(nodes, Removed(nodes, p, p), p);
  }

  lemma NotEmptyNamed(nodes: seq<Node>, q: nat, p: nat)
    requires TreeOk(nodes) && 1 <= q < |nodes| && nodes[q].Dir? && p != 0 && CountIn(Proper(nodes[q]), p) > 0
    ensures !DirEmpty(nodes[q].entries)
  {
    assert DirOk(nodes, q);
    var es := nodes[q].entries;
    CountPositive(es[2..], p);
    var i :| 0 <= i < |es[2..]| && es[2..][i].ino == p;
    assert es[i + 2].ino == p && PlainName(es[i + 2].name);
  }

  /** A further "." or ".." is one too many. */
  lemma AddedDots(nodes: seq<Node>, r: seq<Node>, p: nat, name: string, no: nat)
    requires TreeOk(nodes) && 1 <= p < |nodes| == |r| && nodes[p].Dir? && !PlainName(name)
    requires r[p].Dir? && r[p].entries == nodes[p].entries + [Dentry(no, name)]
    ensures !TreeOk(r)
  {
    assert DirOk(nodes, p);
    assert r[p].entries[|nodes[p].entries|].name == name;
    assert !DirOk(r, p);
  }

  // ---------------------------------------------------------- the operations

  datatype Outcome = Done | NoSpace | NoEntry | NotEmpty

  /** The names and link counts of a mounted file system. */
  class Namespace {
    var nodes: seq<Node>

    /** A freshly formatted file system has the root directory, its own parent. */
    constructor (nino: nat)
      requires nino >= 2
      ensures TreeOk(nodes) && |nodes| == nino && nodes[ROOT] == NewDir(ROOT, ROOT)
      ensures forall i | 0 <= i < nino && i != ROOT :: nodes[i] == Free
    {
      nodes := seq(nino, i => if i == ROOT then NewDir(ROOT, ROOT) else Free);
      new;
      RootOk(nodes);
    }

    method FindFree() returns (no: nat)
      requires |nodes| >= 1
      ensures no == 0 <==> forall i | 1 <= i < |nodes| :: nodes[i] != Free
      ensures no != 0 ==> no < |nodes| && nodes[no] == Free
    {
      no := 1;
      while no < |nodes|
        invariant 1 <= no <= |nodes| && forall i | 1 <= i < no :: nodes[i] != Free
      {
        if nodes[no] == Free { return; }
        no := no + 1;
      }
      no := 0;
    }

    /** create of a file, or of a directory with mk_directory. */
    method Create(p: nat, name: string, dir: bool) returns (rc: Outcome, no: nat)
      requires TreeOk(nodes) && 1 <= p < |nodes| && nodes[p].Dir?
      modifies this
      ensures |nodes| == |old(nodes)| && (rc == Done || rc == NoSpace)
      ensures rc == NoSpace <==> forall i | 1 <= i < |nodes| :: old(nodes)[i] != Free
      ensures rc == NoSpace ==> nodes == old(nodes)
      ensures rc == Done ==> (1 <= no < |nodes| && old(nodes)[no] == Free
        && nodes == (if dir then Made(old(nodes), p, name, no) else Created(old(nodes), p, name, no))
        && (TreeOk(nodes) <==> PlainName(name)))
    {
      hide TreeOk;
      RootThere(nodes);
      no := FindFree();
      if no == 0 { return NoSpace, no; }
      if PlainName(name) {
        if dir { MadeOk(nodes, p, name, no); } else { CreatedOk(nodes, p, name, no); }
      } else {
        AddedDots(nodes, if dir then Made(nodes, p, name, no) else Created(nodes, p, name, no), p, name, no);
      }
      // add_dentry
      nodes := nodes[p := nodes[p].(entries := nodes[p].entries + [Dentry(no, name)])];
      if dir { nodes := nodes[p := nodes[p].(nlink := nodes[p].nlink + 1)]; }
      nodes := nodes[no := if dir then NewDir(no, p) else File(1)];
      assert dir ==> nodes == Made(old(nodes), p, name, no);
      assert !dir ==> nodes == Created(old(nodes), p, name, no);
      rc := Done;
    }

    /** link, to whatever has the number. */
    method Link(no: nat, p: nat, name: string)
      requires TreeOk(nodes) && 1 <= p < |nodes| && nodes[p].Dir? && 1 <= no < |nodes| && nodes[no] != Free
      modifies this
      ensures nodes == Linked(old(nodes), p, name, no)
      ensures TreeOk(nodes) <==> old(nodes)[no].File? && PlainName(name)
    {
      hide TreeOk;
      LinkedTree(nodes, p, name, no);
      // add_dentry
      var dir := nodes[no].Dir?;
      nodes := nodes[p := nodes[p].(entries := nodes[p].entries + [Dentry(no, name)])];
      if dir { nodes := nodes[p := nodes[p].(nlink := nodes[p].nlink + 1)]; }
      nodes := nodes[no := nodes[no].(nlink := nodes[no].nlink + 1)];
    }

    /** unlink, of whatever has the name. */
    method Unlink(p: nat, name: string) returns (rc: Outcome)
      requires TreeOk(nodes) && 1 <= p < |nodes| && nodes[p].Dir?
      modifies this
      ensures rc == NoEntry <==> Find(old(nodes)[p].entries, name) == 0
      ensures rc == NoEntry ==> nodes == old(nodes)
      ensures rc != NoEntry ==> rc == Done && var no := Find(old(nodes)[p].entries, name);
        && no < |old(nodes)| && old(nodes)[no] != Free && old(nodes)[p].nlink > 0
        && nodes == Unlinked(old(nodes), p, no) && (TreeOk(nodes) <==> old(nodes)[no].File?)
      ensures rc == Done && PlainName(name) ==>
        p < |nodes| && nodes[p].Dir? && forall i: nat | FirstNamed(old(nodes)[p].entries, name, i) ::
        (nodes[p].entries == Without(old(nodes)[p].entries, i) <==> FirstLink(old(nodes)[p].entries, i))
    {
      hide TreeOk, RemoveFirst, Find;
      var no := Find(nodes[p].entries, name);
      if no == 0 { return NoEntry; }
      UnlinkedTree(nodes, p, name);
      forall i: nat | FirstNamed(nodes[p].entries, name, i)
        ensures RemoveFirst(nodes[p].entries, no) == Without(nodes[p].entries, i) <==> FirstLink(nodes[p].entries, i)
      {
        RemovesItsName(nodes[p].entries, name, i);
      }
      // remove_dentry
      var dir := nodes[no].Dir?;
      nodes := nodes[p := nodes[p].(entries := RemoveFirst(nodes[p].entries, no))];
      if dir { nodes := nodes[p := nodes[p].(nlink := nodes[p].nlink - 1)]; }
      assert nodes == Dropped(old(nodes), p, no, dir);
      if nodes[no].nlink > 1 {
        nodes := nodes[no := nodes[no].(nlink := nodes[no].nlink - 1)];
      } else {
        assert nodes[no].nlink == 1;
        nodes := nodes[no := Free];
      }
      rc := Done;
    }

    /** rmdir; `blank` says whether the bytes of a file, read as entries, hold none but "." and "..". */
    method Rmdir(p: nat, name: string, blank: bool) returns (rc: Outcome)
      requires TreeOk(nodes) && 1 <= p < |nodes| && nodes[p].Dir?
      modifies this
      ensures rc == NoEntry <==> Find(old(nodes)[p].entries, name) == 0
      ensures rc == NoEntry || rc == NotEmpty ==> nodes == old(nodes)
      ensures rc != NoEntry ==> var no := Find(old(nodes)[p].entries, name);
        && no < |old(nodes)| && old(nodes)[no] != Free
        && (rc == NotEmpty <==> !SeenEmpty(old(nodes)[no], blank))
        && (rc != NotEmpty ==> rc == Done && old(nodes)[p].nlink > 0 && nodes == Removed(old(nodes), p, no))
        && (rc == Done ==>
              (TreeOk(nodes) <==> PlainName(name) && (old(nodes)[no].Dir? || old(nodes)[no].nlink == 1)))
      ensures rc == Done && PlainName(name) && old(nodes)[Find(old(nodes)[p].entries, name)].Dir? ==>
        p < |nodes| && nodes[p].Dir? && forall i: nat | FirstNamed(old(nodes)[p].entries, name, i) ::
        nodes[p].entries == Without(old(nodes)[p].entries, i)
    {
      hide TreeOk, RemoveFirst, Find;
      var no := Find(nodes[p].entries, name);
      if no == 0 { return NoEntry; }
      FoundAny(nodes, p, name);
      if !SeenEmpty(nodes[no], blank) { return NotEmpty; }
      RemovedTree(nodes, p, name);
      if PlainName(name) && nodes[no].Dir? { OnlyName(nodes, p, name); }
      // remove_dentry
      nodes := nodes[p := Dir(nodes[p].nlink - (if nodes[no].Dir? then 1 else 0), RemoveFirst(nodes[p].entries, no))];
      nodes := nodes[no := Free];
      rc := Done;
    }
  }

  /** What any name finds. */
  lemma FoundAny(nodes: seq<Node>, p: nat, name: string)
    requires TreeOk(nodes) && 1 <= p < |nodes| && nodes[p].Dir? && Find(nodes[p].entries, name) != 0
    ensures var no := Find(nodes[p].entries, name);
      && 1 <= no < |nodes| && nodes[no] != Free && CountIn(nodes[p].entries, no) > 0
      && (nodes[no].File? ==> PlainName(name) && p != no)
  {
    if PlainName(name) { FoundEntry(nodes, p, name); } else { DotsFound(nodes, p, name); }
  }

  /** What unlink leaves is in order exactly for a file. */
  lemma UnlinkedTree(nodes: seq<Node>, p: nat, name: string)
    requires TreeOk(nodes) && 1 <= p < |nodes| && nodes[p].Dir? && Find(nodes[p].entries, name) != 0
    ensures var no := Find(nodes[p].entries, name);
      && 1 <= no < |nodes| && nodes[no] != Free && nodes[p].nlink > 0
      && nodes[no].nlink >= 1 && (nodes[no].Dir? ==> nodes[no].nlink >= 2)
      && (p == no && PlainName(name) ==> nodes[no].nlink >= 3)
      && (TreeOk(Unlinked(nodes, p, no)) <==> nodes[no].File?)
  {
    hide TreeOk, RemoveFirst, Find, Total, Named, CountIn;
    FoundAny(nodes, p, name);
    var no := Find(nodes[p].entries, name);
    if !PlainName(name) {
      UnlinkedDotsLost(nodes, p, name);
    } else if nodes[no].Dir? {
      FoundEntry(nodes, p, name);
      DirLinks(nodes, p, no);
      UnlinkedDirLost(nodes, p, no);
    } else {
      UnlinkedOk(nodes, p, no);
      LinkPositive(nodes, no);
    }
  }

  /** What rmdir leaves is in order exactly for a plain name of a directory, or of a file with one link. */
  lemma RemovedTree(nodes: seq<Node>, p: nat, name: string)
    requires TreeOk(nodes) && 1 <= p < |nodes| && nodes[p].Dir? && Find(nodes[p].entries, name) != 0
    requires var no := Find(nodes[p].entries, name); no < |nodes| && nodes[no].Dir? ==> DirEmpty(nodes[no].entries)
    ensures var no := Find(nodes[p].entries, name);
      && 1 <= no < |nodes| && nodes[no] != Free && nodes[p].nlink > 0
      && (TreeOk(Removed(nodes, p, no)) <==> PlainName(name) && (nodes[no].Dir? || nodes[no].nlink == 1))
  {
    hide TreeOk, RemoveFirst, Find, Total, Named, CountIn;
    FoundAny(nodes, p, name);
    var no := Find(nodes[p].entries, name);
    if !PlainName(name) {
      DotsFound(nodes, p, name);
      RemovedDotsLost(nodes, p, name);
    } else {
      FoundEntry(nodes, p, name);
      if nodes[no].Dir? { RemovedOk(nodes, p, no); } else { RemovedFile(nodes, p, no); }
    }
  }

  /** What link leaves is in order exactly for a plain name of a file. */
  lemma LinkedTree(nodes: seq<Node>, p: nat, name: string, no: nat)
    requires TreeOk(nodes) && 1 <= p < |nodes| && nodes[p].Dir? && 1 <= no < |nodes| && nodes[no] != Free
    ensures TreeOk(Linked(nodes, p, name, no)) <==> nodes[no].File? && PlainName(name)
  {
    hide TreeOk;
    if !PlainName(name) {
      AddedDots(nodes, Linked(nodes, p, name, no), p, name, no);
    } else if nodes[no].Dir? {
      LinkedDirMiscounts(nodes, p, name, no);
    } else {
      LinkedOk(nodes, p, name, no);
    }
  }

  lemma RootThere(nodes: seq<Node>)
    requires TreeOk(nodes)
    ensures |nodes| >= 2
  {
  }

  lemma LinkPositive(nodes: seq<Node>, no: nat)
    requires TreeOk(nodes) && 1 <= no < |nodes| && nodes[no].File?
    ensures nodes[no].nlink >= 1
  {
    assert CountOk(nodes, no);
  }

  lemma RootOk(nodes: seq<Node>)
    requires |nodes| >= 2 && nodes[ROOT] == NewDir(ROOT, ROOT)
    requires forall i | 0 <= i < |nodes| && i != ROOT :: nodes[i] == Free
    ensures TreeOk(nodes)
  {
    forall x: nat | 1 <= x < |nodes| ensures ParentOk(nodes, x) && CountOk(nodes, x) {
      var none := seq(|nodes|, i => Free);
      assert nodes == none[ROOT := NewDir(ROOT, ROOT)];
      TotalZero(none, |none|, x);
      NamedInTotal(none, |none|, x);
      NewDirCounts(ROOT, ROOT, x);
      TotalUpdate(none, |none|, ROOT, NewDir(ROOT, ROOT), x);
      NamedUpdate(none, |none|, ROOT, NewDir(ROOT, ROOT), x);
    }
  }
}
