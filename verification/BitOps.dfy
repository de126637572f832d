/** bitops.hpp: the dirty marks, four of them to a 32-bit word. */
module BitOps {

  // ---------------------------------------------------------- one word

  /** 1 << (n % sizeof(uint32_t)) */
  function Mask(n: nat): (m: bv32)
    ensures n % 4 == 0 ==> m == 1
    ensures n % 4 == 1 ==> m == 2
    ensures n % 4 == 2 ==> m == 4
    ensures n % 4 == 3 ==> m == 8
  {
    if n % 4 == 0 then 1 << 0 else if n % 4 == 1 then 1 << 1 else if n % 4 == 2 then 1 << 2 else 1 << 3
  }

  predicate Bit(w: bv32, n: nat) { (Mask(n) & w) != 0 }

  function Without(w: bv32, n: nat): bv32 { w & !Mask(n) }

  lemma SetWord(w: bv32, n: nat, m: nat)
    ensures Bit(w | Mask(n), m) <==> n % 4 == m % 4 || Bit(w, m)
  {
    var a, b := Mask(n), Mask(m);
    assert a == 1 || a == 2 || a == 4 || a == 8;
    assert b == 1 || b == 2 || b == 4 || b == 8;
    assert (b & (w | a)) == (b & w) | (b & a);
    if n % 4 == m % 4 { assert a == b; } else { assert b & a == 0; }
  }

  lemma ClearWord(w: bv32, n: nat, m: nat)
    ensures Bit(Without(w, n), m) <==> n % 4 != m % 4 && Bit(w, m)
  {
    var a, b := Mask(n), Mask(m);
    assert a == 1 || a == 2 || a == 4 || a == 8;
    assert b == 1 || b == 2 || b == 4 || b == 8;
    assert (b & (w & !a)) == (b & !a) & w;
    if n % 4 == m % 4 { assert b & !a == 0; } else { assert b & !a == b; }
  }

  // ---------------------------------------------------------- the array as a set

  /** The numbers whose bit is set. */
  function Marked(words: seq<bv32>): set<nat> {
    set n: nat | n < 4 * |words| && Bit(words[n / 4], n)
  }

  /** n lies in the array. */
  predicate Inside(n: nat, words: nat) { n / 4 < words }

  method TestBit(data: array<bv32>, n: nat) returns (r: bool)
    requires Inside(n, data.Length)
    ensures r <==> n in Marked(data[..])
  {
    r := (Mask(n) & data[n / 4]) != 0;
  }

  method SetBit(data: array<bv32>, n: nat)
    requires Inside(n, data.Length)
    modifies data
    ensures Marked(data[..]) == Marked(old(data[..])) + {n}
  {
    ghost var was := data[..];
    data[n / 4] := data[n / 4] | Mask(n);
    assert data[..] == was[n / 4 := was[n / 4] | Mask(n)];
    SetOne(was, n);
  }

  method ClearBit(data: array<bv32>, n: nat)
    requires Inside(n, data.Length)
    modifies data
    ensures Marked(data[..]) == Marked(old(data[..])) - {n}
  {
    ghost var was := data[..];
    data[n / 4] := data[n / 4] & !Mask(n);
    assert data[..] == was[n / 4 := Without(was[n / 4], n)];
    ClearOne(was, n);
  }

  lemma SetOne(words: seq<bv32>, n: nat)
    requires Inside(n, |words|)
    ensures Marked(words[n / 4 := words[n / 4] | Mask(n)]) == Marked(words) + {n}
  {
    forall m: nat ensures Bit(words[n / 4] | Mask(n), m)
       <==> n % 4 == m % 4 || Bit(words[n / 4], m) { SetWord(words[n / 4], n, m); }
    OneWord(words, n, words[n / 4] | Mask(n), true);
  }

  lemma ClearOne(words: seq<bv32>, n: nat)
    requires Inside(n, |words|)
    ensures Marked(words[n / 4 := Without(words[n / 4], n)]) == Marked(words) - {n}
  {
    hide Mask, Bit, Without;
    forall m: nat ensures Bit(Without(words[n / 4], n), m)
       <==> n % 4 != m % 4 && Bit(words[n / 4], m) { ClearWord(words[n / 4], n, m); }
    OneWord(words, n, Without(words[n / 4], n), false);
  }

  /** A word in which only the bit of n has changed changes only the membership of n. */
  lemma OneWord(words: seq<bv32>, n: nat, w: bv32, on: bool)
    requires Inside(n, |words|)
    requires forall m: nat :: Bit(w, m) <==> if n % 4 == m % 4 then on else Bit(words[n / 4], m)
    ensures Marked(words[n / 4 := w]) == if on then Marked(words) + {n} else Marked(words) - {n}
  {
    hide Bit, Mask;
    var words' := words[n / 4 := w];
    forall m: nat | m < 4 * |words| ensures Bit(words'[m / 4], m) <==> if m == n then on else Bit(words[m / 4], m) {
      if m / 4 == n / 4 { assert m % 4 == n % 4 <==> m == n; }
    }
  }

  // ---------------------------------------------------------- the array mount allocates

  /** mount allocates nino / 8 bytes, counting eight numbers to a byte. */
  function MountedWords(nino: nat): nat { nino / 8 / 4 }

  /** Exactly the numbers below 4 * (nino / 32) have a place in it; the last number of a file system never has. */
  lemma MountedRange(nino: nat, n: nat)
    ensures Inside(n, MountedWords(nino)) <==> n < 4 * (nino / 32)
    ensures nino >= 1 ==> !Inside(nino - 1, MountedWords(nino))
  {
  }

  // ---------------------------------------------------------- ino_status_map and dirty_ino_cnt

  /** The dirty marks with their counter; mark_dirty and reset_dirty change both. */
  class StatusMap {
    const data: array<bv32>
    var dirtyCnt: nat

    constructor (words: nat)
      ensures Valid() && Dirty() == {} && data.Length == words && fresh(data)
    {
      data := new bv32[words](i => 0);
      dirtyCnt := 0;
      new;
      assert Marked(data[..]) == {};
    }

    ghost function Dirty(): set<nat>
      reads this, data
    {
      Marked(data[..])
    }

    /** The counter is the number of marks. */
    ghost predicate Valid()
      reads this, data
    {
      dirtyCnt == |Dirty()|
    }

    method Mark(n: nat)
      requires Valid() && Inside(n, data.Length)
      modifies this`dirtyCnt, data
      ensures Valid() && Dirty() == old(Dirty()) + {n}
    {
      hide Marked, Mask;
      var dirty := TestBit(data, n);
      ghost var was := Dirty();
      SetBit(data, n);
      if !dirty { dirtyCnt := dirtyCnt + 1; } else { assert was + {n} == was; }
    }

    method Reset(n: nat)
      requires Valid() && Inside(n, data.Length)
      modifies this`dirtyCnt, data
      ensures Valid() && Dirty() == old(Dirty()) - {n}
    {
      hide Marked, Mask;
      var dirty := TestBit(data, n);
      if dirty {
        ClearBit(data, n);
        dirtyCnt := dirtyCnt - 1;
      } else {
        assert Dirty() - {n} == Dirty();
      }
    }
  }
}
