/** getopt.c: exchanging two adjacent blocks of argv in place by walking gcd cycles. */
module Rotation {
  import opened Basics

  // ---------------------------------------------------------- gcd

  function GcdOf(a: nat, b: nat): (g: nat)
    requires b > 0
    ensures g > 0
    decreases b
  {
    if a % b == 0 then b else GcdOf(b, a % b)
  }

  method Gcd(a0: nat, b0: nat) returns (g: nat)
    requires b0 > 0
    ensures g == GcdOf(a0, b0)
  {
    var a, b := a0, b0;
    var c: nat := a % b;
    while c != 0
      invariant b > 0 && c == a % b && GcdOf(a, b) == GcdOf(a0, b0)
      decreases b
    {
      a := b;
      b := c;
      c := a % b;
    }
    g := b;
  }

  /** The result divides both numbers, and the quotients p and q are coprime: u*p + v*q == 1. */
  lemma {:induction false} GcdFacts(a: nat, b: nat) returns (p: nat, q: nat, u: int, v: int)
    requires a > 0 && b > 0
    ensures a == GcdOf(a, b) * p && b == GcdOf(a, b) * q && p > 0 && q > 0
    ensures u * p + v * q == 1
    decreases b
  {
    var d, c := a / b, a % b;
    DivBounds(a, b);
    if c == 0 {
      p, q, u, v := d, 1, 0, 1;
    } else {
      var p', q', u', v' := GcdFacts(b, c);
      p, q, u, v := d * p' + q', p', v', u' - d * v';
      GcdBack(GcdOf(a, b), d, p', q', u', v');
      assert d * b == d * (GcdOf(a, b) * p');
      MulNonneg(d, p');
    }
  }

  lemma GcdBack(g: int, d: int, p: int, q: int, u: int, v: int)
    requires u * p + v * q == 1
    ensures g * (d * p + q) == d * (g * p) + g * q
    ensures v * (d * p + q) + (u - d * v) * p == 1
  {
    Spread(g, d * p, q);
    Swap3(g, d, p);
    Spread(v, d * p, q);
    Swap3(v, d, p);
    Assoc(d, v, p);
    Spread(p, u, -(d * v));
    Assoc(p, d, v);
  }

  /** Any common divisor divides the result. */
  lemma GcdGreatest(a: nat, b: nat, x: nat, m: nat, n: nat) returns (k: int)
    requires a > 0 && b > 0 && a == x * m && b == x * n
    ensures GcdOf(a, b) == x * k
  {
    var p, q, u, v := GcdFacts(a, b);
    var g := GcdOf(a, b);
    k := u * m + v * n;
    calc {
      g;
      g * (u * p + v * q);
      { Spread(g, u * p, v * q); }
      g * (u * p) + g * (v * q);
      { Swap3(g, u, p); Swap3(g, v, q); }
      u * a + v * b;
      { Swap3(u, x, m); Swap3(v, x, n); }
      x * (u * m) + x * (v * n);
      { Spread(x, u * m, v * n); }
      x * (u * m + v * n);
    }
  }

  lemma Spread(a: int, b: int, c: int)
    ensures a * (b + c) == a * b + a * c
  {
  }

  lemma Swap3(a: int, b: int, c: int)
    ensures a * (b * c) == b * (a * c)
  {
  }

  // ---------------------------------------------------------- walking one cycle

  /** One step of the walk among p + q places: back over the first p, or forward over the last q. */
  function Next(p: nat, q: nat, y: nat): (r: nat)
    requires y < p + q
    ensures r < p + q
  {
    if y >= p then y - p else y + q
  }

  /** Where the walk that starts at place p is after t steps. */
  function Walk(p: nat, q: nat, t: nat): (y: nat)
    requires p > 0 && q > 0
    ensures y < p + q
  {
    if t == 0 then p else Next(p, q, Walk(p, q, t - 1))
  }

  lemma {:induction false} WalkIs(p: nat, q: nat, t: nat) returns (k: int)
    requires p > 0 && q > 0
    ensures Walk(p, q, t) == p + t * q - k * (p + q)
  {
    if t == 0 {
      k := 0;
    } else {
      var k' := WalkIs(p, q, t - 1);
      k := if Walk(p, q, t - 1) >= p then k' + 1 else k';
      assert t * q == (t - 1) * q + q;
      assert (k' + 1) * (p + q) == k' * (p + q) + (p + q);
    }
  }

  /** A multiple of n strictly between -n and n is zero. */
  lemma SmallMultiple(n: nat, k: int, x: int)
    requires n > 0 && x == k * n && x < n && -x < n
    ensures x == 0
  {
    if k >= 1 { MulGe(k, n); }
    if k <= -1 { MulGe(-k, n); }
  }

  /** Multiplying a walked distance by the inverse of q modulo p + q gives the number of steps back. */
  lemma Inverse(p: nat, q: nat, u: int, v: int, steps: int)
    requires u * p + v * q == 1
    ensures (v - u) * (steps * q) == steps - u * steps * (p + q)
  {
    assert (v - u) * q + u * (p + q) == 1 by {
      assert (v - u) * q == v * q - u * q;
      assert u * (p + q) == u * p + u * q;
    }
    calc {
      (v - u) * (steps * q);
      { Swap3(v - u, steps, q); }
      steps * ((v - u) * q);
      steps * (1 - u * (p + q));
      { Spread(steps, 1, -(u * (p + q))); }
      steps + steps * -(u * (p + q));
      { Swap3(steps, u, p + q); }
      steps - u * (steps * (p + q));
      { Assoc(u, steps, p + q); }
      steps - u * steps * (p + q);
    }
  }

  lemma Assoc(a: int, b: int, c: int)
    ensures a * (b * c) == a * b * c
  {
    Swap3(a, b, c);
  }

  /** The first p + q places of the walk are all different. */
  lemma WalkDistinct(p: nat, q: nat, u: int, v: int, t1: nat, t2: nat)
    requires p > 0 && q > 0 && u * p + v * q == 1 && t1 < t2 < p + q
    ensures Walk(p, q, t1) != Walk(p, q, t2)
  {
    var n := p + q;
    var k1 := WalkIs(p, q, t1);
    var k2 := WalkIs(p, q, t2);
    if Walk(p, q, t1) == Walk(p, q, t2) {
      Spread(q, t2, -t1);
      Spread(n, k2, -k1);
      NoReturn(n, p, q, u, v, t2 - t1, k2 - k1);
    }
  }

  /** Fewer than p + q steps of length q are no whole number of rounds. */
  lemma NoReturn(n: nat, p: nat, q: nat, u: int, v: int, x: int, k: int)
    requires n > 0 && n == p + q && u * p + v * q == 1 && x * q == k * n && x < n && -x < n
    ensures x == 0
  {
    Inverse(p, q, u, v, x);
    Assoc(v - u, k, n);
    Spread(n, (v - u) * k, u * x);
    SmallMultiple(n, (v - u) * k + u * x, x);
  }

  /** They are all the places there are. */
  lemma WalkCovers(p: nat, q: nat, u: int, v: int, y: nat) returns (t: nat)
    requires p > 0 && q > 0 && u * p + v * q == 1 && y < p + q
    ensures t < p + q && Walk(p, q, t) == y
  {
    var n := p + q;
    var x := y - p;
    var w := (v - u) * x;
    t := w % n;
    var d := w / n;
    var k := WalkIs(p, q, t);
    FloorBounds(w, n);
    StepsBack(n, p, q, u, v, x, w, d);
    SamePlace(n, u * x + d * q, k, Walk(p, q, t) - y);
  }

  lemma FloorBounds(w: int, n: nat)
    requires n > 0
    ensures w % n == w - w / n * n && 0 <= w % n < n
  {
  }

  lemma SamePlace(n: nat, a: int, b: int, x: int)
    requires n > 0 && x == -(a * n) - b * n && x < n && -x < n
    ensures x == 0
  {
    Spread(n, a, b);
    SmallMultiple(n, -(a + b), x);
  }

  lemma StepsBack(n: int, p: int, q: int, u: int, v: int, x: int, w: int, d: int)
    requires u * p + v * q == 1 && n == p + q && w == (v - u) * x
    ensures (w - d * n) * q == x - (u * x + d * q) * n
  {
    assert (v - u) * q == 1 - u * n by {
      Spread(q, v, -u);
      Spread(u, p, q);
    }
    calc {
      (w - d * n) * q;
      { Spread(q, w, -(d * n)); }
      w * q - d * n * q;
      { Assoc(d, n, q); Assoc(d, q, n); Assoc(v - u, x, q); Swap3(v - u, x, q); }
      x * ((v - u) * q) - d * q * n;
      x * (1 - u * n) - d * q * n;
      { Spread(x, 1, -(u * n)); Swap3(x, u, n); Assoc(u, x, n); }
      x - u * x * n - d * q * n;
      { Spread(n, u * x, d * q); }
      x - (u * x + d * q) * n;
    }
  }

  /** After p + q steps the walk is back where it started. */
  lemma WalkReturns(p: nat, q: nat)
    requires p > 0 && q > 0
    ensures Walk(p, q, p + q) == p
  {
    var n := p + q;
    var k := WalkIs(p, q, n);
    assert Walk(p, q, n) - p == (q - k) * n by { assert (q - k) * n == q * n - k * n; }
    SmallMultiple(n, q - k, Walk(p, q, n) - p);
  }

  // ---------------------------------------------------------- places of argv

  /** Place y of cycle r, among the entries from `start` on. */
  function Spot(start: nat, g: nat, r: nat, y: nat): (x: nat)
    ensures x == start + r + y * g
  {
    MulNonneg(y, g);
    start + r + y * g
  }

  lemma SpotBelow(start: nat, g: nat, r: nat, y: nat, n: nat)
    requires r < g
    ensures y < n <==> Spot(start, g, r, y) < start + n * g
    ensures y >= n <==> Spot(start, g, r, y) >= start + n * g
  {
    if y < n { MulMono(y, n, g); } else { MulMono(n, y, g); }
  }

  lemma SpotSame(start: nat, g: nat, r1: nat, y1: nat, r2: nat, y2: nat)
    requires r1 < g && r2 < g && Spot(start, g, r1, y1) == Spot(start, g, r2, y2)
    ensures r1 == r2 && y1 == y2
  {
    DivMod(y1, g, r1);
    DivMod(y2, g, r2);
  }

  /** Every entry from start on is a place of some cycle. */
  lemma SpotOf(start: nat, g: nat, n: nat, x: nat) returns (r: nat, y: nat)
    requires g > 0 && start <= x < start + n * g
    ensures r < g && y < n && x == Spot(start, g, r, y)
  {
    DivBounds(x - start, g);
    DivBelow(x - start, n, g);
    r, y := (x - start) % g, (x - start) / g;
  }

  // ---------------------------------------------------------- the exchange

  /** The blocks start..mid and mid..end exchanged, each in its old order. */
  function Exchanged<T>(s: seq<T>, start: nat, mid: nat, end: nat): (r: seq<T>)
    requires start <= mid <= end <= |s|
    ensures |r| == |s|
  {
    s[..start] + s[mid..end] + s[start..mid] + s[end..]
  }

  /** The place whose entry ends up at place y. */
  function Prev(p: nat, q: nat, y: nat): (r: nat)
    requires y < p + q
    ensures r < p + q && Next(p, q, r) == y
  {
    if y < q then y + p else y - q
  }

  /** Of one cycle of n places, the step whose entry is at step t's place after j swaps. */
  function Source(n: nat, j: nat, t: nat): nat
    requires n > 0
  {
    if t == 0 then Min(j, n - 1) else if t <= j then t - 1 else t
  }

  ghost predicate Placed<T(!new)>(now: seq<T>, was: seq<T>, start: nat, g: nat, r: nat, y: nat, from: nat) {
    Spot(start, g, r, y) < |now| && Spot(start, g, r, from) < |was| && now[Spot(start, g, r, y)]
        == was[Spot(start, g, r, from)]
  }

  /** Where the entry at place y of cycle r comes from once the first i cycles have been walked. */
  ghost predicate Settled<T(!new)>(now: seq<T>, was: seq<T>, start: nat, g: nat, p: nat, q: nat, i: nat, r: nat,
                            y: nat) {
    y < p + q && Placed(now, was, start, g, r, y, if r < i then Prev(p, q, y) else y)
  }

  /** The first i cycles have been walked, the rest and everything outside is as it was. */
  ghost predicate CyclesDone<T(!new)>(now: seq<T>, was: seq<T>, start: nat, g: nat, p: nat, q: nat, i: nat) {
    && |now| == |was| && start + (p + q) * g <= |was|
    && (forall x | 0 <= x < |was| && (x < start || start + (p + q) * g <= x) :: now[x] == was[x])
    && forall r: nat, y: nat | r < g && y < p + q :: Settled(now, was, start, g, p, q, i, r, y)
  }

  /** In addition j swaps have been made in cycle i. */
  ghost predicate InCycle<T(!new)>(now: seq<T>, was: seq<T>, start: nat, g: nat, p: nat, q: nat, i: nat, j: nat)
    requires p > 0 && q > 0
  {
    && |now| == |was| && start + (p + q) * g <= |was|
    && (forall x | 0 <= x < |was| && (x < start || start + (p + q) * g <= x) :: now[x] == was[x])
    && (forall r: nat, y: nat | r < g && r != i && y < p + q :: Settled(now, was, start, g, p, q, i, r, y))
    && forall t: nat | t < p + q ::
         Placed(now, was, start, g, i, Walk(p, q, t), Walk(p, q, Source(p + q, j, t)))
  }

  lemma CycleStep<T(!new)>(now: seq<T>, was: seq<T>, start: nat, g: nat, p: nat, q: nat, u: int, v: int, i: nat, j: nat)
    requires p > 0 && q > 0 && u * p + v * q == 1 && i < g && j < p + q
    requires InCycle(now, was, start, g, p, q, i, j)
    ensures Spot(start, g, i, p) < |now| && Spot(start, g, i, Walk(p, q, j + 1)) < |now|
    ensures var pos, cstart := Spot(start, g, i, Walk(p, q, j + 1)), Spot(start, g, i, p);
      InCycle(now[pos := now[cstart]][cstart := now[pos]], was, start, g, p, q, i, j + 1)
  {
    hide Placed, Settled, Spot, Walk;
    CycleRange(now, was, start, g, p, q, i, j);
    var pos, cstart := Spot(start, g, i, Walk(p, q, j + 1)), Spot(start, g, i, p);
    var now' := now[pos := now[cstart]][cstart := now[pos]];
    forall r: nat, y: nat | r < g && r != i && y < p + q ensures Settled(now', was, start, g, p, q, i, r, y) {
      OtherCycle(now, was, start, g, p, q, i, j, r, y);
    }
    forall t: nat | t < p + q
      ensures Placed(now', was, start, g, i, Walk(p, q, t), Walk(p, q, Source(p + q, j + 1, t)))
    {
      CycleStepAt(now, was, start, g, p, q, u, v, i, j, t);
    }
  }

  lemma CycleRange<T(!new)>(now: seq<T>, was: seq<T>, start: nat, g: nat, p: nat, q: nat, i: nat, j: nat)
    requires p > 0 && q > 0 && i < g && InCycle(now, was, start, g, p, q, i, j)
    ensures start <= Spot(start, g, i, p) < start + (p + q) * g
    ensures start <= Spot(start, g, i, Walk(p, q, j + 1)) < start + (p + q) * g
  {
    SpotBelow(start, g, i, p, p + q);
    SpotBelow(start, g, i, Walk(p, q, j + 1), p + q);
  }

  lemma OtherCycle<T(!new)>(now: seq<T>, was: seq<T>, start: nat, g: nat, p: nat, q: nat, i: nat, j: nat, r: nat,
                     y: nat)
    requires p > 0 && q > 0 && i < g && InCycle(now, was, start, g, p, q, i, j) && r < g && r != i && y < p + q
    ensures Spot(start, g, i, p) < |now| && Spot(start, g, i, Walk(p, q, j + 1)) < |now|
    ensures var pos, cstart := Spot(start, g, i, Walk(p, q, j + 1)), Spot(start, g, i, p);
      Settled(now[pos := now[cstart]][cstart := now[pos]], was, start, g, p, q, i, r, y)
  {
    CycleRange(now, was, start, g, p, q, i, j);
    assert Settled(now, was, start, g, p, q, i, r, y);
    if Spot(start, g, r, y) == Spot(start, g, i, Walk(p, q, j + 1)) { SpotSame(start, g, r, y, i, Walk(p, q, j + 1)); }
    if Spot(start, g, r, y) == Spot(start, g, i, p) { SpotSame(start, g, r, y, i, p); }
  }

  lemma CycleStepAt<T(!new)>(now: seq<T>, was: seq<T>, start: nat, g: nat, p: nat, q: nat, u: int, v: int, i: nat,
                      j: nat, t: nat)
    requires p > 0 && q > 0 && u * p + v * q == 1 && i < g && j < p + q && t < p + q
    requires InCycle(now, was, start, g, p, q, i, j)
    ensures Spot(start, g, i, p) < |now| && Spot(start, g, i, Walk(p, q, j + 1)) < |now|
    ensures var pos, cstart := Spot(start, g, i, Walk(p, q, j + 1)), Spot(start, g, i, p);
      Placed(now[pos := now[cstart]][cstart := now[pos]], was, start, g, i, Walk(p, q, t),
          Walk(p, q, Source(p + q, j + 1, t)))
  {
    var n := p + q;
    SpotBelow(start, g, i, p, n);
    SpotBelow(start, g, i, Walk(p, q, j + 1), n);
    var pos, cstart, here := Spot(start, g, i, Walk(p, q, j + 1)), Spot(start, g, i, p), Spot(start, g, i,
                                  Walk(p, q, t));
    assert Placed(now, was, start, g, i, Walk(p, q, t), Walk(p, q, Source(n, j, t)));
    assert Placed(now, was, start, g, i, Walk(p, q, 0), Walk(p, q, Source(n, j, 0)));
    if j + 1 == n {
      WalkReturns(p, q);
    } else {
      assert Placed(now, was, start, g, i, Walk(p, q, j + 1), Walk(p, q, Source(n, j, j + 1)));
      WalkDistinct(p, q, u, v, 0, j + 1);
      if here == pos { SpotSame(start, g, i, Walk(p, q, t), i, Walk(p, q, j + 1)); }
      if here == cstart { SpotSame(start, g, i, Walk(p, q, t), i, p); }
      if pos == cstart { SpotSame(start, g, i, p, i, Walk(p, q, j + 1)); }
      if 0 < t < j + 1 { WalkDistinct(p, q, u, v, t, j + 1); }
      if j + 1 < t { WalkDistinct(p, q, u, v, j + 1, t); }
      if 0 < t { WalkDistinct(p, q, u, v, 0, t); }
    }
  }

  lemma NoCyclesDone<T(!new)>(was: seq<T>, start: nat, g: nat, p: nat, q: nat)
    requires g > 0 && start + (p + q) * g <= |was|
    ensures CyclesDone(was, was, start, g, p, q, 0)
  {
    forall r: nat, y: nat | r < g && y < p + q ensures Settled(was, was, start, g, p, q, 0, r, y) {
      SpotBelow(start, g, r, y, p + q);
    }
  }

  lemma CycleBegins<T(!new)>(now: seq<T>, was: seq<T>, start: nat, g: nat, p: nat, q: nat, i: nat)
    requires p > 0 && q > 0 && i < g && CyclesDone(now, was, start, g, p, q, i)
    ensures InCycle(now, was, start, g, p, q, i, 0)
  {
    forall t: nat | t < p + q
      ensures Placed(now, was, start, g, i, Walk(p, q, t), Walk(p, q, Source(p + q, 0, t)))
    {
      assert Settled(now, was, start, g, p, q, i, i, Walk(p, q, t));
    }
  }

  lemma CycleEnds<T(!new)>(now: seq<T>, was: seq<T>, start: nat, g: nat, p: nat, q: nat, u: int, v: int, i: nat)
    requires p > 0 && q > 0 && u * p + v * q == 1 && i < g && InCycle(now, was, start, g, p, q, i, p + q)
    ensures CyclesDone(now, was, start, g, p, q, i + 1)
  {
    var done := i + 1;
    forall r: nat, y: nat | r < g && y < p + q ensures Settled(now, was, start, g, p, q, done, r, y) {
      if r == i {
        var t := WalkCovers(p, q, u, v, y);
        assert Placed(now, was, start, g, i, Walk(p, q, t), Walk(p, q, Source(p + q, p + q, t)));
        WalkReturns(p, q);
      } else {
        assert Settled(now, was, start, g, p, q, i, r, y);
      }
    }
  }

  lemma SpotDone<T(!new)>(now: seq<T>, was: seq<T>, start: nat, mid: nat, end: nat, g: nat, p: nat, q: nat, x: nat)
    requires g > 0 && start <= mid <= end <= |was| && mid - start == g * p && end - mid == g * q
    requires (p + q) * g == end - start && CyclesDone(now, was, start, g, p, q, g) && start <= x < end
    ensures now[x] == Exchanged(was, start, mid, end)[x]
  {
    hide Exchanged, Spot, Prev;
    var r, y := SpotOf(start, g, p + q, x);
    assert Settled(now, was, start, g, p, q, g, r, y);
    SpotBefore(start, g, p, q, r, y, mid - start, end - mid);
    ExchangedAt(was, start, mid, end, x);
  }

  /** The entry of a place comes from the other block, from the same position in it. */
  lemma SpotBefore(start: nat, g: nat, p: nat, q: nat, r: nat, y: nat, len1: nat, len2: nat)
    requires r < g && y < p + q && len1 == g * p && len2 == g * q
    ensures Spot(start, g, r, y) < start + len2 ==> Spot(start, g, r, Prev(p, q, y)) == Spot(start, g, r, y) + len1
    ensures Spot(start, g, r, y) >= start + len2 ==> Spot(start, g, r, Prev(p, q, y)) == Spot(start, g, r, y) - len2
  {
    SpotBelow(start, g, r, y, q);
    if y < q { Spread(g, y, p); } else { Spread(g, y, 0 - q); }
  }

  lemma ExchangedAt<T>(s: seq<T>, start: nat, mid: nat, end: nat, x: nat)
    requires start <= mid <= end <= |s| && start <= x < end
    ensures Exchanged(s, start, mid, end)[x]
       == if x < start + (end - mid) then s[x + (mid - start)] else s[x - (end - mid)]
  {
  }

  /** Once every cycle has been walked the two blocks are exchanged. */
  lemma AllCyclesDone<T(!new)>(now: seq<T>, was: seq<T>, start: nat, mid: nat, end: nat, g: nat, p: nat, q: nat)
    requires g > 0 && start <= mid <= end <= |was| && mid - start == g * p && end - mid == g * q
    requires (p + q) * g == end - start && CyclesDone(now, was, start, g, p, q, g)
    ensures now == Exchanged(was, start, mid, end)
  {
    var to := Exchanged(was, start, mid, end);
    forall x: nat | x < |was| ensures now[x] == to[x] {
      if start <= x < end { SpotDone(now, was, start, mid, end, g, p, q, x); }
    }
  }

  method PermuteArgs<T(!new)>(start: nat, mid: nat, end: nat, argv: array<T>)
    requires start < mid < end <= argv.Length
    modifies argv
    ensures argv[..] == Exchanged(old(argv[..]), start, mid, end)
  {
    hide CyclesDone, Exchanged;
    var nnonopts: nat, nopts: nat := mid - start, end - mid;
    var ncycle := Gcd(nnonopts, nopts);
    ghost var p, q, u, v := GcdFacts(nnonopts, nopts);
    ghost var was := argv[..];
    Spread(ncycle, p, q);
    DivMod(p + q, ncycle, 0);
    var cyclelen: nat := (end - start) / ncycle;
    NoCyclesDone(was, start, ncycle, p, q);
    var i: nat := 0;
    while i < ncycle
      invariant i <= ncycle && CyclesDone(argv[..], was, start, ncycle, p, q, i)
    {
      WalkCycle(start, mid, nnonopts, nopts, cyclelen, i, argv, was, ncycle, p, q, u, v);
      i := i + 1;
    }
    AllCyclesDone(argv[..], was, start, mid, end, ncycle, p, q);
  }

  /** The inner loop: one cycle of cyclelen swaps with the entry at cstart. */
  method WalkCycle<T(!new)>(start: nat, mid: nat, nnonopts: nat, nopts: nat, cyclelen: nat, i: nat, argv: array<T>,
                            ghost was: seq<T>, ghost g: nat, ghost p: nat, ghost q: nat, ghost u: int, ghost v: int)
    requires p > 0 && q > 0 && u * p + v * q == 1 && i < g && mid == start + p * g && cyclelen == p + q
    requires nnonopts == p * g && nopts == q * g && CyclesDone(argv[..], was, start, g, p, q, i)
    modifies argv
    ensures CyclesDone(argv[..], was, start, g, p, q, i + 1)
  {
    hide CyclesDone, InCycle, Next;
    var cstart: nat := mid + i;
    var pos: nat := cstart;
    CycleBegins(argv[..], was, start, g, p, q, i);
    var j: nat := 0;
    while j < cyclelen
      invariant j <= cyclelen && InCycle(argv[..], was, start, g, p, q, i, j)
      invariant pos == Spot(start, g, i, Walk(p, q, j)) && cstart == Spot(start, g, i, p)
    {
      ghost var now := argv[..];
      SpotNext(start, g, p, q, i, Walk(p, q, j));
      CycleStep(now, was, start, g, p, q, u, v, i, j);
      if pos >= mid { pos := pos - nnonopts; } else { pos := pos + nopts; }
      var swap := argv[pos];
      argv[pos] := argv[cstart];
      argv[cstart] := swap;
      assert argv[..] == now[pos := now[cstart]][cstart := now[pos]];
      j := j + 1;
    }
    CycleEnds(argv[..], was, start, g, p, q, u, v, i);
  }

  lemma SpotNext(start: nat, g: nat, p: nat, q: nat, i: nat, y: nat)
    requires i < g && y < p + q
    ensures Spot(start, g, i, y) >= start + p * g <==> y >= p
    ensures Spot(start, g, i, Next(p, q, y))
       == if y >= p then Spot(start, g, i, y) - p * g else Spot(start, g, i, y) + q * g
  {
    SpotBelow(start, g, i, y, p);
    if y >= p { Spread(g, y, 0 - p); } else { Spread(g, y, q); }
  }
}
