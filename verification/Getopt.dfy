/** getopt.c: getopt_long over an argv array, whose repeated calls move every option in front of every non-option. */
module Getopt {
  import opened Basics
  import opened Rotation

  // ---------------------------------------------------------- what is being parsed

  datatype HasArg = NoArgument | RequiredArgument | OptionalArgument

  /** How the name of a long option is recognised; abbreviations are up to the table behind it. */
  datatype Match = Unknown | Ambiguous | Found(hasArg: HasArg)

  /** FLAG_PERMUTE alone, with FLAG_ALLARGS, or cleared. */
  datatype Mode = Permute | AllArgs | StopAtFirst

  datatype Syntax = Syntax(options: string, mode: Mode, lookup: string -> Match)

  datatype Returned = Done | InOrder | BadChar | BadArg | Letter(c: char) | Long(name: string)

  /** The flags of getopt_long after the first option letter and POSIXLY_CORRECT have been looked at. */
  function ModeOf(options: string, posixlyCorrect: bool): Mode {
    if options != "" && options[0] == '-' then AllArgs
    else if posixlyCorrect || (options != "" && options[0] == '+') then StopAtFirst
    else Permute
  }

  function SyntaxOf(options: string, posixlyCorrect: bool, lookup: string -> Match): Syntax {
    Syntax(if options != "" && (options[0] == '+' || options[0] == '-') then options[1..] else options,
           ModeOf(options, posixlyCorrect), lookup)
  }

  // ---------------------------------------------------------- one option, on values

  function IndexOf(s: string, c: char): (i: Option<nat>)
    ensures i.Some? ==> i.value < |s| && s[i.value] == c && c !in s[..i.value]
    ensures i.None? ==> c !in s
  {
    if s == "" then None
    else if s[0] == c then Some(0)
    else
      var i := IndexOf(s[1..], c);
      assert s == [s[0]] + s[1..];
      if i.Some? then assert s[..i.value + 1] == [s[0]] + s[1..][..i.value]; Some(i.value + 1) else None
  }

  /** A character of a string, or its terminator. */
  function CharAt(s: string, i: nat): char { if i < |s| then s[i] else '\0' }

  /**
   * What one call does once the scanning pointer is inside an option: what is left to scan of this entry,
   * and how many entries of argv it is done with.
   */
  datatype Scan = Scan(what: Returned, place: string, used: nat, arg: Option<string>)

  function ScanLong(syn: Syntax, current: string, after: seq<string>): (r: Scan)
    ensures r.place == "" && 1 <= r.used <= 1 + |after| && r.what != Done
  {
    var eq := IndexOf(current, '=');
    var name := if eq.Some? then current[..eq.value] else current;
    var tail := if eq.Some? then Some(current[eq.value + 1..]) else None;
    match syn.lookup(name)
    case Unknown => Scan(BadChar, "", 1, None)
    case Ambiguous => Scan(BadChar, "", 1, None)
    case Found(NoArgument) => if eq.Some? then Scan(BadArg, "", 1, None) else Scan(Long(name), "", 1, None)
    case Found(OptionalArgument) => Scan(Long(name), "", 1, tail)
    case Found(RequiredArgument) =>
      if eq.Some? then Scan(Long(name), "", 1, tail)
      else if after == [] then Scan(BadArg, "", 1, None)
      else Scan(Long(name), "", 2, Some(after[0]))
  }

  /** `whole`: the scanning pointer is still at the beginning of its entry, which then is a lone "-". */
  function ScanOption(syn: Syntax, place: string, whole: bool, after: seq<string>): (r: Scan)
    requires place != ""
    ensures r.place == "" ==> 1 <= r.used <= 1 + |after|
    ensures r.place != "" ==> r.used == 0 && |r.place| < |place|
    ensures r.what != Done
  {
    if !whole && place[0] == '-' then ScanLong(syn, place[1..], after) else
      var c, rest, oli := place[0], place[1..], IndexOf(syn.options, place[0]);
      var one := if rest == "" then 1 else 0;
      if c == ':' || (c == '-' && rest != "") || oli.None? then Scan(BadChar, rest, one, None)
      else if c == 'W' && CharAt(syn.options, oli.value + 1) == ';' then
        if rest != "" then ScanLong(syn, rest, after)
        else if after == [] then Scan(BadArg, "", 1, None)
        else var l := ScanLong(syn, after[0], after[1..]); l.(used := l.used + 1)
      else if CharAt(syn.options, oli.value + 1) != ':' then Scan(Letter(c), rest, one, None)
      else if rest != "" then Scan(Letter(c), "", 1, Some(rest))
      else if CharAt(syn.options, oli.value + 2) == ':' then Scan(Letter(c), "", 1, None)
      else if after == [] then Scan(BadArg, "", 1, None)
      else Scan(Letter(c), "", 2, Some(after[0]))
  }

  /** How many entries of argv belong to the option at `place`, its arguments included. */
  function Take(syn: Syntax, place: string, whole: bool, after: seq<string>): (k: nat)
    requires place != ""
    ensures 1 <= k <= 1 + |after|
    decreases |place|
  {
    var r := ScanOption(syn, place, whole, after);
    if r.place == "" then r.used else Take(syn, r.place, false, after)
  }

  // ---------------------------------------------------------- the partition, on values

  predicate NonOption(syn: Syntax, x: string) {
    x == "" || x[0] != '-' || (x == "-" && '-' !in syn.options)
  }

  /** Where scanning of an option entry starts. */
  function PlaceOf(x: string): (p: string)
    requires x != "" && x[0] == '-'
    ensures p != "" && (x == "-" ==> p == x)
  {
    if |x| == 1 then x else x[1..]
  }

  function Marked(n: nat, b: bool): (m: seq<bool>)
    ensures |m| == n && forall i | 0 <= i < n :: m[i] == b
  {
    seq(n, i => b)
  }

  /**
   * Which entries of an argument list come first in the end: options, what they take as arguments, and the
   * "--" that ends them.
   */
  function Marks(syn: Syntax, s: seq<string>): (m: seq<bool>)
    ensures |m| == |s|
    decreases |s|
  {
    if s == [] then []
    else if NonOption(syn, s[0]) then
      match syn.mode
      case Permute => [false] + Marks(syn, s[1..])
      case AllArgs => [true] + Marks(syn, s[1..])
      case StopAtFirst => Marked(|s|, false)
    else if s[0] == "--" then [true] + Marked(|s| - 1, false)
    else
      var k := Take(syn, PlaceOf(s[0]), s[0] == "-", s[1..]);
      Marked(k, true) + Marks(syn, s[k..])
  }

  /** The elements carrying mark b, in order. */
  function Pick<T>(s: seq<T>, m: seq<bool>, b: bool): (r: seq<T>)
    requires |s| == |m|
    ensures |r| <= |s|
  {
    if s == [] then [] else (if m[0] == b then [s[0]] else []) + Pick(s[1..], m[1..], b)
  }

  lemma {:induction false} PickConcat<T>(s: seq<T>, t: seq<T>, m: seq<bool>, n: seq<bool>, b: bool)
    requires |s| == |m| && |t| == |n|
    ensures Pick(s + t, m + n, b) == Pick(s, m, b) + Pick(t, n, b)
  {
    if s == [] {
      assert s + t == t && m + n == n;
    } else {
      assert (s + t)[1..] == s[1..] + t && (m + n)[1..] == m[1..] + n;
      PickConcat(s[1..], t, m[1..], n, b);
    }
  }

  lemma {:induction false} PickAll<T>(s: seq<T>, b: bool)
    ensures Pick(s, Marked(|s|, b), b) == s && Pick(s, Marked(|s|, b), !b) == []
  {
    if s != [] {
      assert Marked(|s|, b)[1..] == Marked(|s| - 1, b);
      PickAll(s[1..], b);
    }
  }

  /** What a whole run of getopt_long calls makes of an argument vector. */
  function Partitioned(syn: Syntax, args: seq<string>): (r: seq<string>)
    requires |args| >= 1
  {
    args[..1] + Pick(args[1..], Marks(syn, args[1..]), true) + Pick(args[1..], Marks(syn, args[1..]), false)
  }

  lemma {:induction false} PickParts<T>(s: seq<T>, m: seq<bool>)
    requires |s| == |m|
    ensures multiset(Pick(s, m, true)) + multiset(Pick(s, m, false)) == multiset(s)
    ensures |Pick(s, m, true)| + |Pick(s, m, false)| == |s|
  {
    if s != [] {
      PickParts(s[1..], m[1..]);
      assert s == [s[0]] + s[1..];
    }
  }

  /** Nothing is lost or invented, and argv[0] stays. */
  lemma PartitionedPermutes(syn: Syntax, args: seq<string>)
    requires |args| >= 1
    ensures multiset(Partitioned(syn, args)) == multiset(args) && Partitioned(syn, args)[0] == args[0]
  {
    PickParts(args[1..], Marks(syn, args[1..]));
    assert args == args[..1] + args[1..];
  }

  /** Without permutation argv is left as it is. */
  lemma {:induction false} UnpermutedSplit(syn: Syntax, s: seq<string>)
    requires syn.mode != Permute
    ensures Pick(s, Marks(syn, s), true) + Pick(s, Marks(syn, s), false) == s
    decreases |s|
  {
    if s == [] {
    } else if NonOption(syn, s[0]) {
      if syn.mode == AllArgs {
        UnpermutedSplit(syn, s[1..]);
      } else {
        PickAll(s, false);
      }
    } else if s[0] == "--" {
      assert Marks(syn, s)[1..] == Marked(|s| - 1, false);
      PickAll(s[1..], false);
    } else {
      var k := Take(syn, PlaceOf(s[0]), s[0] == "-", s[1..]);
      UnpermutedSplit(syn, s[k..]);
      assert s == s[..k] + s[k..];
      FrontPicked(s[..k], s[k..], Marks(syn, s[k..]));
    }
  }

  lemma FrontPicked(a: seq<string>, b: seq<string>, m: seq<bool>)
    requires |m| == |b|
    ensures Pick(a + b, Marked(|a|, true) + m, true) == a + Pick(b, m, true)
    ensures Pick(a + b, Marked(|a|, true) + m, false) == Pick(b, m, false)
  {
    hide Pick;
    PickAll(a, true);
    PickConcat(a, b, Marked(|a|, true), m, true);
    PickConcat(a, b, Marked(|a|, true), m, false);
  }

  // ---------------------------------------------------------- where the entries seen so far are

  /**
   * The entries before i that go in front (F) and those that go behind (B), as argv holds them: options alone,
   * options and then non-options, or a further run of options behind the non-options.
   */
  ghost predicate Laid(v: seq<string>, args: seq<string>, i: nat, ns: int, ne: int, F: seq<string>, B: seq<string>) {
    && |v| == |args| && 1 <= i <= |v| && v[0] == args[0] && v[i..] == args[i..]
    && if ns == -1 then ne == -1 && B == [] && v[1..i] == F
       else if ne == -1 then 1 <= ns < i && v[1..ns] == F && v[ns..i] == B
       else 1 <= ns < ne <= i && v[1..ns] + v[ne..i] == F && v[ns..ne] == B
  }

  /** permute_args joins the two runs of options. */
  lemma LaidExchanged(v: seq<string>, args: seq<string>, i: nat, ns: int, ne: int, F: seq<string>, B: seq<string>)
    requires Laid(v, args, i, ns, ne, F, B) && ne != -1
    ensures Laid(Exchanged(v, ns, ne, i), args, i, i - (ne - ns), -1, F, B)
    ensures Exchanged(v, ns, ne, i)[..i] == args[..1] + F + B && |F| == i - (ne - ns) - 1
  {
    var w := Exchanged(v, ns, ne, i);
    var m := i - (ne - ns);
    assert v == v[..ns] + v[ns..ne] + v[ne..i] + v[i..];
    assert w[..ns] == v[..ns] && w[ns..m] == v[ne..i] && w[m..i] == v[ns..ne] && w[i..] == v[i..];
    assert w[1..m] == v[1..ns] + v[ne..i];
    assert w[..i] == w[..1] + w[1..m] + w[m..i];
  }

  /** With at most one run of each kind the entries seen are partitioned already. */
  lemma LaidTogether(v: seq<string>, args: seq<string>, i: nat, ns: int, F: seq<string>, B: seq<string>)
    requires Laid(v, args, i, ns, -1, F, B)
    ensures v[..i] == args[..1] + F + B && |F| + 1 == (if ns == -1 then i else ns)
  {
    if ns == -1 {
      assert v[..i] == v[..1] + v[1..i];
    } else {
      assert v[..i] == v[..1] + v[1..ns] + v[ns..i];
    }
  }

  /** The entries from i on stay where they are, so the next k of them join the last run. */
  lemma LaidFront(v: seq<string>, args: seq<string>, i: nat, ns: int, ne: int, F: seq<string>, B: seq<string>, k: nat)
    requires Laid(v, args, i, ns, ne, F, B) && i + k <= |v| && (ns == -1 || ne != -1)
    ensures Laid(v, args, i + k, ns, ne, F + args[i..i + k], B)
  {
    assert v[i..i + k] == v[i..][..k] == args[i..][..k] == args[i..i + k];
    assert v[i + k..] == v[i..][k..] == args[i..][k..] == args[i + k..];
    if ns == -1 { assert v[1..i + k] == v[1..i] + v[i..i + k]; }
    else { assert v[ne..i + k] == v[ne..i] + v[i..i + k]; }
  }

  lemma LaidBack(v: seq<string>, args: seq<string>, i: nat, ns: int, F: seq<string>, B: seq<string>)
    requires Laid(v, args, i, ns, -1, F, B) && i < |v|
    ensures Laid(v, args, i + 1, if ns == -1 then i else ns, -1, F, B + [args[i]])
  {
    assert v[i] == v[i..][0] == args[i];
    assert v[i + 1..] == v[i..][1..] == args[i..][1..] == args[i + 1..];
    if ns == -1 { assert v[i..i + 1] == [args[i]]; } else { assert v[ns..i + 1] == v[ns..i] + [v[i]]; }
  }

  /** `seen` marks the entries before i; the next k are marked as going in front. */
  ghost predicate Marking(syn: Syntax, args: seq<string>, i: nat, seen: seq<bool>, k: nat) {
    1 <= i && i + k <= |args| && |seen| == i - 1 && Marks(syn, args[1..])
        == seen + Marked(k, true) + Marks(syn, args[i + k..])
  }

  function Front(args: seq<string>, i: nat, seen: seq<bool>): seq<string>
    requires 1 <= i <= |args| && |seen| == i - 1
  {
    Pick(args[1..i], seen, true)
  }

  function Back(args: seq<string>, i: nat, seen: seq<bool>): seq<string>
    requires 1 <= i <= |args| && |seen| == i - 1
  {
    Pick(args[1..i], seen, false)
  }

  /** k more entries of one kind. */
  lemma SeenMore(args: seq<string>, i: nat, seen: seq<bool>, k: nat, b: bool)
    requires 1 <= i && i + k <= |args| && |seen| == i - 1
    ensures Front(args, i + k, seen + Marked(k, b)) == Front(args, i, seen) + (if b then args[i..i + k] else [])
    ensures Back(args, i + k, seen + Marked(k, b)) == Back(args, i, seen) + (if b then [] else args[i..i + k])
  {
    assert args[1..i + k] == args[1..i] + args[i..i + k];
    PickAll(args[i..i + k], b);
    PickConcat(args[1..i], args[i..i + k], seen, Marked(k, b), true);
    PickConcat(args[1..i], args[i..i + k], seen, Marked(k, b), false);
  }

  /** What is left when a call returns -1 at entry i: nothing, or entries that all go behind. */
  lemma LaidDone(syn: Syntax, v: seq<string>, args: seq<string>, i: nat, seen: seq<bool>)
    requires 1 <= i <= |args| == |v| && |seen| == i - 1 && v[i..] == args[i..]
    requires Marks(syn, args[1..]) == seen + Marked(|args| - i, false)
    requires v[..i] == args[..1] + Front(args, i, seen) + Back(args, i, seen)
    ensures v == Partitioned(syn, args)
    ensures Pick(args[1..], Marks(syn, args[1..]), true) == Front(args, i, seen)
  {
    var k := |args| - i;
    assert args[1..i + k] == args[1..] && args[i..i + k] == args[i..];
    SeenMore(args, i, seen, k, false);
    assert v == v[..i] + v[i..];
    assert Front(args, i, seen) + [] == Front(args, i, seen);
  }

  /** Done with the k entries of an option. */
  lemma MarkingFront(syn: Syntax, args: seq<string>, i: nat, seen: seq<bool>, k: nat)
    requires Marking(syn, args, i, seen, k)
    ensures Marking(syn, args, i + k, seen + Marked(k, true), 0)
  {
    assert seen + Marked(k, true) + Marked(0, true) == seen + Marked(k, true);
  }

  /** What a non-option at i adds. */
  lemma MarkingNonOption(syn: Syntax, args: seq<string>, i: nat, seen: seq<bool>)
    requires Marking(syn, args, i, seen, 0) && i < |args| && NonOption(syn, args[i])
    ensures match syn.mode
      case Permute => Marking(syn, args, i + 1, seen + Marked(1, false), 0)
      case AllArgs => Marking(syn, args, i + 1, seen + Marked(1, true), 0)
      case StopAtFirst => Marks(syn, args[1..]) == seen + Marked(|args| - i, false)
  {
    var s := args[i..];
    assert s[0] == args[i] && s[1..] == args[i + 1..];
    assert seen + Marked(0, true) == seen;
    if syn.mode != StopAtFirst {
      var b := syn.mode == AllArgs;
      assert seen + ([b] + Marks(syn, s[1..])) == seen + Marked(1, b) + Marked(0, true) + Marks(syn, s[1..]);
    }
  }

  /** What an option or the "--" at i adds. */
  lemma MarkingOption(syn: Syntax, args: seq<string>, i: nat, seen: seq<bool>)
    requires Marking(syn, args, i, seen, 0) && i < |args| && !NonOption(syn, args[i])
    ensures args[i] == "--" ==> Marks(syn, args[1..]) == seen + Marked(1, true) + Marked(|args| - i - 1, false)
    ensures args[i] != "--" ==> Marking(syn, args, i, seen, Take(syn, PlaceOf(args[i]), args[i] == "-", args[i + 1..]))
  {
    var s := args[i..];
    assert s[0] == args[i] && s[1..] == args[i + 1..];
    assert seen + Marked(0, true) == seen;
    if args[i] == "--" {
      assert seen + ([true] + Marked(|s| - 1, false)) == seen + Marked(1, true) + Marked(|s| - 1, false);
    } else {
      var k := Take(syn, PlaceOf(args[i]), args[i] == "-", args[i + 1..]);
      assert s[k..] == args[i + k..];
      assert seen + (Marked(k, true) + Marks(syn, s[k..])) == seen + Marked(k, true) + Marks(syn, s[k..]);
    }
  }

  // ---------------------------------------------------------- the scanner and its static state

  class Scanner {
    const argv: array<string>
    var optind: nat
    var place: string
    var nonoptStart: int
    var nonoptEnd: int
    var optarg: Option<string>
    ghost const args: seq<string>
    ghost var seen: seq<bool>

    constructor (argv: array<string>, ghost syn: Syntax)
      requires argv.Length >= 1
      ensures this.argv == argv && args == argv[..] && optind == 1 && Inv(syn)
    {
      this.argv := argv;
      optind, place, nonoptStart, nonoptEnd, optarg := 1, "", -1, -1, None;
      args, seen := argv[..], [];
      new;
      assert [] + Marked(0, true) + Marks(syn, args[1..]) == Marks(syn, args[1..]);
    }

    /** Every entry seen is in one of the runs, the rest are where they were. */
    ghost predicate Lies(syn: Syntax): (r: bool)
      reads this, argv
      ensures r ==>
        if nonoptStart == -1 then nonoptEnd == -1 else nonoptEnd == -1 || 1 <= nonoptStart < nonoptEnd <= optind
    {
      && 1 <= optind <= |args| && |seen| == optind - 1
      && Laid(argv[..], args, optind, nonoptStart, nonoptEnd, Front(args, optind, seen), Back(args, optind, seen))
      && (syn.mode != Permute ==> nonoptStart == -1)
    }

    ghost predicate Holds(syn: Syntax, k: nat)
      reads this, argv
    {
      Lies(syn) && Marking(syn, args, optind, seen, k)
    }

    /** What is left of the option at optind. */
    ghost predicate Scanning(syn: Syntax, whole: bool)
      reads this, argv
    {
      && place != "" && optind < |args| && Holds(syn, Take(syn, place, whole, args[optind + 1..]))
      && (nonoptStart == -1 || nonoptEnd != -1)
    }

    /** Between two calls: after whole options, or inside one. */
    ghost predicate Inv(syn: Syntax)
      reads this, argv
    {
      if place != "" then Scanning(syn, false)
      else Holds(syn, 0) && (nonoptStart == -1 || nonoptStart < nonoptEnd < optind)
    }

    /** The end of the run: argv is partitioned, and optind is the first entry that is not an option. */
    ghost predicate Finished(syn: Syntax)
      reads this, argv
    {
      && |args| >= 1 && argv[..] == Partitioned(syn, args)
      && optind == 1 + |Pick(args[1..], Marks(syn, args[1..]), true)|
    }

    /** parse_long_options: the name at `current`, and possibly the next entry as its argument. */
    method ParseLongOptions(syn: Syntax, current: string) returns (what: Returned)
      requires optind < argv.Length && optarg == None
      modifies this`optind, this`optarg
      ensures var r := ScanLong(syn, current, argv[old(optind) + 1..]);
        what == r.what && optind == old(optind) + r.used && optarg == r.arg
    {
      optind := optind + 1;
      var hasEqual := IndexOf(current, '=');
      var name := if hasEqual.Some? then current[..hasEqual.value] else current;
      var found := syn.lookup(name);
      if !found.Found? { return BadChar; }
      if found.hasArg == NoArgument && hasEqual.Some? { return BadArg; }
      if found.hasArg == RequiredArgument || found.hasArg == OptionalArgument {
        if hasEqual.Some? {
          optarg := Some(current[hasEqual.value + 1..]);
        } else if found.hasArg == RequiredArgument {
          // argv[argc] is a null pointer
          optarg := if optind < argv.Length then Some(argv[optind]) else None;
          optind := optind + 1;
        }
      }
      if found.hasArg == RequiredArgument && optarg == None {
        optind := optind - 1;
        return BadArg;
      }
      return Long(name);
    }

    /** One option letter or one long option, from the scanning pointer on. */
    method ScanHere(syn: Syntax, whole: bool) returns (what: Returned)
      requires place != "" && optind < argv.Length && optarg == None
      requires whole ==> place == "-" && '-' in syn.options
      modifies this`optind, this`optarg, this`place
      ensures var r := ScanOption(syn, old(place), whole, argv[old(optind) + 1..]);
        what == r.what && optind == old(optind) + r.used && place == r.place && optarg == r.arg
    {
      if !whole && place[0] == '-' {
        what := ParseLongOptions(syn, place[1..]);
        place := "";
        return;
      }
      var optchar := place[0];
      place := place[1..];
      var oli := IndexOf(syn.options, optchar);
      if optchar == ':' || (optchar == '-' && place != "") || oli.None? {
        if place == "" { optind := optind + 1; }
        return BadChar;
      }
      if optchar == 'W' && CharAt(syn.options, oli.value + 1) == ';' {
        if place == "" {
          optind := optind + 1;
          if optind >= argv.Length { return BadArg; }
          place := argv[optind];
        }
        what := ParseLongOptions(syn, place);
        place := "";
        return;
      }
      if CharAt(syn.options, oli.value + 1) != ':' {
        if place == "" { optind := optind + 1; }
      } else {
        if place != "" {
          optarg := Some(place);
        } else if CharAt(syn.options, oli.value + 2) != ':' {
          optind := optind + 1;
          if optind >= argv.Length { return BadArg; }
          optarg := Some(argv[optind]);
        }
        place := "";
        optind := optind + 1;
      }
      return Letter(optchar);
    }

    /** permute_args on the entries seen so far, and the static state that goes with it. */
    method Join(syn: Syntax)
      requires Lies(syn) && nonoptStart != -1 && nonoptStart < nonoptEnd < optind
      modifies argv, this`nonoptStart, this`nonoptEnd
      ensures Lies(syn) && nonoptEnd == -1 && 1 <= nonoptStart
      ensures nonoptStart == optind - (old(nonoptEnd) - old(nonoptStart))
    {
      hide Front, Back, Exchanged;
      LaidExchanged(argv[..], args, optind, nonoptStart, nonoptEnd, Front(args, optind, seen),
                    Back(args, optind, seen));
      PermuteArgs(nonoptStart, nonoptEnd, optind, argv);
      nonoptStart := optind - (nonoptEnd - nonoptStart);
      nonoptEnd := -1;
    }

    /** Every way of returning -1: permute if there is anything to permute, and point optind at the first non-option. */
    method Finish(syn: Syntax)
      requires Lies(syn) && Marks(syn, args[1..]) == seen + Marked(|args| - optind, false)
      requires nonoptEnd != -1 ==> nonoptStart < nonoptEnd < optind
      modifies argv, this`nonoptStart, this`nonoptEnd, this`optind
      ensures Finished(syn)
    {
      hide Marks, Partitioned, Front, Back, Pick;
      ghost var i := optind;
      if nonoptEnd != -1 {
        Join(syn);
        optind := nonoptStart;
      } else if nonoptStart != -1 {
        optind := nonoptStart;
      }
      LaidTogether(argv[..], args, i, nonoptStart, Front(args, i, seen), Back(args, i, seen));
      LaidDone(syn, argv[..], args, i, seen);
      nonoptStart := -1;
      nonoptEnd := -1;
    }

    /** A non-option under FLAG_PERMUTE. */
    method SkipNonOption(syn: Syntax)
      requires Holds(syn, 0) && syn.mode == Permute && optind < |args| && NonOption(syn, args[optind])
      requires nonoptEnd != -1 ==> nonoptStart < nonoptEnd < optind
      modifies argv, this`nonoptStart, this`nonoptEnd, this`optind, this`seen
      ensures Holds(syn, 0) && optind == old(optind) + 1 && nonoptEnd == -1
    {
      hide Marks, Front, Back, NonOption;
      MarkingNonOption(syn, args, optind, seen);
      if nonoptStart == -1 {
        nonoptStart := optind;
        LaidBack(argv[..], args, optind, -1, Front(args, optind, seen), Back(args, optind, seen));
      } else {
        if nonoptEnd != -1 { Join(syn); }
        LaidBack(argv[..], args, optind, nonoptStart, Front(args, optind, seen), Back(args, optind, seen));
      }
      SeenMore(args, optind, seen, 1, false);
      assert args[optind..optind + 1] == [args[optind]];
      assert Front(args, optind, seen) + [] == Front(args, optind, seen);
      seen := seen + Marked(1, false);
      optind := optind + 1;
    }

    /** The first entry behind non-options that is none. */
    method StartOptions(syn: Syntax)
      requires Lies(syn) && (nonoptEnd != -1 ==> nonoptStart < nonoptEnd < optind)
      modifies this`nonoptEnd
      ensures Lies(syn) && (nonoptStart == -1 || 1 <= nonoptStart < nonoptEnd <= optind)
    {
      hide Front, Back;
      if nonoptStart != -1 && nonoptEnd == -1 {
        assert argv[optind..optind] == [];
        assert argv[1..nonoptStart] + argv[optind..optind] == argv[1..nonoptStart];
        nonoptEnd := optind;
      }
    }

    /** Moving optind over the next k entries, which go in front. */
    ghost method Took(syn: Syntax, i: nat, k: nat)
      requires 1 <= i && optind == i + k <= |args| && |seen| == i - 1
      requires (nonoptStart == -1 || nonoptEnd != -1) && (syn.mode != Permute ==> nonoptStart == -1)
      requires Laid(argv[..], args, i, nonoptStart, nonoptEnd, Front(args, i, seen), Back(args, i, seen))
      modifies this`seen
      ensures Lies(syn) && seen == old(seen) + Marked(k, true)
    {
      hide Front, Back;
      LaidFront(argv[..], args, i, nonoptStart, nonoptEnd, Front(args, i, seen), Back(args, i, seen), k);
      SeenMore(args, i, seen, k, true);
      assert Back(args, i, seen) + [] == Back(args, i, seen);
      seen := seen + Marked(k, true);
    }

    /** Behind "--" everything is a non-option. */
    ghost method EndOfOptions(syn: Syntax)
      requires 2 <= optind <= |args| && |seen| == optind - 2
      requires (nonoptStart == -1 || nonoptEnd != -1) && (syn.mode != Permute ==> nonoptStart == -1)
      requires Laid(argv[..], args, optind - 1, nonoptStart, nonoptEnd, Front(args, optind - 1, seen),
          Back(args, optind - 1, seen))
      requires Marks(syn, args[1..]) == seen + Marked(1, true) + Marked(|args| - optind, false)
      modifies this`seen
      ensures Lies(syn) && Marks(syn, args[1..]) == seen + Marked(|args| - optind, false)
    {
      Took(syn, optind - 1, 1);
    }

    lemma HoldsFacts(syn: Syntax)
      requires Holds(syn, 0)
      ensures 1 <= optind <= |args| == argv.Length && argv[optind..] == args[optind..]
      ensures optind < |args| ==> argv[optind] == args[optind]
      ensures optind == |args| ==> Marks(syn, args[1..]) == seen + Marked(|args| - optind, false)
    {
      if optind < |args| {
        assert argv[optind] == argv[optind..][0];
      } else {
        assert seen + Marked(0, true) + [] == seen + Marked(0, false);
      }
    }

    /** From label `start`: find the next option, skipping what is in the way; Some(what) if the call ends here. */
    method NextEntry(syn: Syntax) returns (stop: Option<Returned>, whole: bool)
      requires Inv(syn) && place == "" && optarg == None
      modifies this, argv
      ensures stop.None? ==> Scanning(syn, whole) && optarg == None && optind >= old(optind)
      ensures stop.None? && whole ==> place == "-" && '-' in syn.options
      ensures stop.Some? ==> if stop.value == Done then Finished(syn)
                             else stop.value == InOrder && Inv(syn) && optind == old(optind) + 1 && place == ""
    {
      hide Marks, Take, Partitioned, Laid, Marking, Front, Back, Finished;
      whole := false;
      while true
        invariant Holds(syn, 0) && place == "" && optarg == None && optind >= old(optind)
        invariant nonoptEnd != -1 ==> nonoptStart != -1 && nonoptStart < nonoptEnd < optind
        invariant syn.mode != Permute ==> optind == old(optind)
        decreases |args| - optind
      {
        HoldsFacts(syn);
        if optind >= argv.Length {
          Finish(syn);
          return Some(Done), false;
        }
        if NonOption(syn, argv[optind]) {
          MarkingNonOption(syn, args, optind, seen);
          if syn.mode == AllArgs {
            optarg := Some(argv[optind]);
            optind := optind + 1;
            Took(syn, optind - 1, 1);
            return Some(InOrder), false;
          }
          if syn.mode == StopAtFirst {
            Finish(syn);
            return Some(Done), false;
          }
          SkipNonOption(syn);
        } else {
          MarkingOption(syn, args, optind, seen);
          StartOptions(syn);
          if argv[optind] == "--" {
            optind := optind + 1;
            EndOfOptions(syn);
            Finish(syn);
            return Some(Done), false;
          }
          whole := argv[optind] == "-";
          place := PlaceOf(argv[optind]);
          return None, whole;
        }
      }
    }

    /** getopt_long */
    method GetoptLong(syn: Syntax) returns (what: Returned)
      requires Inv(syn)
      modifies this, argv
      ensures what == Done ==> Finished(syn)
      ensures what != Done ==> Inv(syn) && optind <= |args|
      ensures what != Done ==>
        old(optind) < optind || (old(optind) == optind && place != "" && (old(place) == "" || |place| < |old(place)|))
    {
      hide Marks, Partitioned, Laid, Marking, Front, Back, Finished, Take, ScanOption;
      optarg := None;
      var whole := false;
      if place == "" {
        var stop;
        stop, whole := NextEntry(syn);
        if stop.Some? { return stop.value; }
      }
      what := ScanMore(syn, whole);
    }

    /** From the long-option check on. */
    method ScanMore(syn: Syntax, whole: bool) returns (what: Returned)
      requires Scanning(syn, whole) && optarg == None && (whole ==> place == "-" && '-' in syn.options)
      modifies this
      ensures Inv(syn) && optind <= |args| && what != Done
      ensures old(optind) < optind || (old(optind) == optind && place != "" && |place| < |old(place)|)
    {
      hide Marks, Front, Back, ScanOption;
      ghost var i, p := optind, place;
      ScanningFacts(syn, whole);
      what := ScanHere(syn, whole);
      ghost var r := ScanOption(syn, p, whole, args[i + 1..]);
      if place == "" {
        MarkingFront(syn, args, i, seen, r.used);
        Took(syn, i, r.used);
      }
    }

    lemma ScanningFacts(syn: Syntax, whole: bool)
      requires Scanning(syn, whole)
      ensures optind < argv.Length == |args| && argv[optind + 1..] == args[optind + 1..]
    {
      assert argv[optind + 1..] == argv[optind..][1..] == args[optind..][1..] == args[optind + 1..];
    }

    /** while ((c = getopt_long(...)) != -1): every run ends, with argv partitioned. */
    method ParseAll(syn: Syntax)
      requires Inv(syn)
      modifies this, argv
      ensures argv[..] == Partitioned(syn, args)
      ensures optind == 1 + |Pick(args[1..], Marks(syn, args[1..]), true)|
    {
      hide Marks, Partitioned, Inv;
      var c := GetoptLong(syn);
      while c != Done
        invariant if c == Done then Finished(syn) else Inv(syn) && optind <= |args|
        decreases if c == Done then 0 else 1, |args| - optind, place == "", |place|
      {
        c := GetoptLong(syn);
      }
    }
  }

  /** A program's loop over getopt_long: the option string and POSIXLY_CORRECT decide what is permuted. */
  method ParseOptions(argv: array<string>, options: string, posixlyCorrect: bool, lookup: string -> Match)
    returns (optind: nat)
    requires argv.Length >= 1
    modifies argv
    ensures var syn, args := SyntaxOf(options, posixlyCorrect, lookup), old(argv[..]);
      argv[..] == Partitioned(syn, args) && optind == 1 + |Pick(args[1..], Marks(syn, args[1..]), true)|
    ensures posixlyCorrect || (options != "" && options[0] in "+-") ==> argv[..] == old(argv[..])
  {
    hide Pick, Marks, Partitioned;
    var syn := SyntaxOf(options, posixlyCorrect, lookup);
    PartitionedAlone(syn, argv[..]);
    var scanner := new Scanner(argv, syn);
    scanner.ParseAll(syn);
    optind := scanner.optind;
  }

  lemma PartitionedAlone(syn: Syntax, args: seq<string>)
    requires |args| >= 1
    ensures syn.mode != Permute ==> Partitioned(syn, args) == args
  {
    hide Pick, Marks;
    if syn.mode != Permute {
      UnpermutedSplit(syn, args[1..]);
      var f, b := Pick(args[1..], Marks(syn, args[1..]), true), Pick(args[1..], Marks(syn, args[1..]), false);
      assert args[..1] + f + b == args[..1] + (f + b) == args;
    }
  }
}
