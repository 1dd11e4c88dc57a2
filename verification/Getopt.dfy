/**
  GNU getopt of src/gnu_getopt.c: the in-place exchange of blocks, the scan that
  permutes the arguments, and the decoding of short and long options.
 */
module Getopt {
  import opened Slices
  import opened Wrappers

  datatype LongOption = LongOption(name: string, hasArg: nat, flag: bool, val: int)

  datatype Ordering = RequireOrder | Permute | ReturnInOrder

  /** What the caller set up: the option characters, the long options, the modes, and opterr. */
  datatype Setup = Setup(optstring: string, longopts: Option<seq<LongOption>>, longOnly: bool, posixlyCorrect: bool,
                         opterr: bool)

  // ---------- arguments ----------

  /** Not an option: no hyphen in front, or a hyphen alone. */
  predicate NonOption(arg: string) {
    |arg| == 0 || arg[0] != '-' || |arg| == 1
  }

  const DASHES: string := "--"

  /** The name part of a long option. */
  function NameOf(s: string): string {
    s[..Index(s, '=')]
  }

  /** The first characters that the decoder looks at. */
  function Initial(su: Setup, arg: string): string
    requires !NonOption(arg)
  {
    if su.longopts.Some? && arg[1] == '-' then arg[2..] else arg[1..]
  }

  /** Whether an argument is to be looked up as a long option. */
  predicate LooksLong(su: Setup, opts: string, arg: string)
    requires !NonOption(arg)
  {
    && su.longopts.Some?
    && (arg[1] == '-' || (su.longOnly && (|arg| > 2 || Index(opts, arg[1]) == |opts|)))
  }

  // ---------- long option names ----------

  datatype Match = Exact(index: nat) | Abbreviation(index: nat) | Ambiguous | NoMatch

  predicate Abbreviates(table: seq<LongOption>, name: string, i: nat)
    requires i < |table|
  {
    name <= table[i].name
  }

  /** What a lookup must find: the first exact match; without one the only name that starts so. */
  ghost predicate Finds(table: seq<LongOption>, name: string, m: Match) {
    match m
    case Exact(i) =>
      i < |table| && table[i].name == name && forall j :: 0 <= j < i ==> table[j].name != name
    case Abbreviation(i) =>
      && i < |table| && Abbreviates(table, name, i)
      && (forall j :: 0 <= j < |table| ==> table[j].name != name)
      && (forall j :: 0 <= j < |table| && j != i ==> !Abbreviates(table, name, j))
    case Ambiguous =>
      && (forall j :: 0 <= j < |table| ==> table[j].name != name)
      && (exists i, j :: 0 <= i < j < |table| && Abbreviates(table, name, i) && Abbreviates(table, name, j))
    case NoMatch =>
      forall j :: 0 <= j < |table| ==> !Abbreviates(table, name, j)
  }

  /** The loop of the program: the last found, and whether there was a second one. */
  function Lookup(table: seq<LongOption>, name: string, i: nat, found: Option<nat>, ambiguous: bool): Match
    requires i <= |table|
    decreases |table| - i
  {
    if i == |table| then
      if ambiguous then Ambiguous
      else if found.Some? then Abbreviation(found.value)
      else NoMatch
    else if name <= table[i].name then
      if |name| == |table[i].name| then Exact(i)
      else if found.None? then Lookup(table, name, i + 1, Some(i), ambiguous)
      else Lookup(table, name, i + 1, found, true)
    else
      Lookup(table, name, i + 1, found, ambiguous)
  }

  lemma {:induction false} LookupFinds(table: seq<LongOption>, name: string, i: nat, found: Option<nat>, ambiguous: bool)
    requires i <= |table|
    requires forall j :: 0 <= j < i ==> table[j].name != name
    requires found.Some? ==> found.value < i && Abbreviates(table, name, found.value)
    requires found.None? ==> forall j :: 0 <= j < i ==> !Abbreviates(table, name, j)
    requires ambiguous ==> exists j, k :: 0 <= j < k < i && Abbreviates(table, name, j) && Abbreviates(table, name, k)
    requires !ambiguous && found.Some? ==> forall j :: 0 <= j < i && j != found.value ==> !Abbreviates(table, name, j)
    ensures Finds(table, name, Lookup(table, name, i, found, ambiguous))
    decreases |table| - i
  {
    if i == |table| {
    } else if name <= table[i].name {
      if |name| == |table[i].name| {
        assert table[i].name == name;
      } else if found.None? {
        LookupFinds(table, name, i + 1, Some(i), ambiguous);
      } else {
        assert Abbreviates(table, name, found.value) && Abbreviates(table, name, i);
        LookupFinds(table, name, i + 1, found, true);
      }
    } else {
      LookupFinds(table, name, i + 1, found, ambiguous);
    }
  }

  lemma FindsIsUnique(table: seq<LongOption>, name: string, m: Match, n: Match)
    requires Finds(table, name, m) && Finds(table, name, n)
    ensures m == n
  {
    assert m.Exact? ==> Abbreviates(table, name, m.index);
    assert n.Exact? ==> Abbreviates(table, name, n.index);
  }

  method FindLong(table: seq<LongOption>, name: string) returns (m: Match)
    ensures Finds(table, name, m)
    ensures m == Lookup(table, name, 0, None, false)
  {
    var found: Option<nat>, ambiguous := None, false;
    LookupFinds(table, name, 0, None, false);
    for i := 0 to |table|
      invariant Lookup(table, name, 0, None, false) == Lookup(table, name, i, found, ambiguous)
    {
      if name <= table[i].name {
        if |name| == |table[i].name| {
          return Exact(i);
        } else if found.None? {
          found := Some(i);
        } else {
          ambiguous := true;
        }
      }
    }
    if ambiguous {
      return Ambiguous;
    }
    match found
    case Some(i) => return Abbreviation(i);
    case None => return NoMatch;
  }

  // ---------- how many arguments an option takes ----------

  /** Arguments used up by one decoding of a short option character, and the characters left over. */
  function ShortStep(opts: string, s: string, more: bool): (r: (nat, string))
    requires |s| > 0
    ensures r.0 == 0 <==> |r.1| > 0
    ensures r.0 <= 2 && (r.0 == 2 ==> more) && |r.1| < |s|
  {
    var k := Index(opts, s[0]);
    var plain := if |s| == 1 then (1, "") else (0, s[1..]);
    if k == |opts| || s[0] == ':' then plain
    else if k + 1 < |opts| && opts[k + 1] == ':' then
      if k + 2 < |opts| && opts[k + 2] == ':' then (1, "")
      else if |s| == 1 && more then (2, "")
      else (1, "")
    else plain
  }

  /** Arguments used up by a long option; None when it is to be taken as short options. */
  function LongStep(su: Setup, opts: string, arg: string, s: string, more: bool): (r: Option<nat>)
    requires !NonOption(arg) && LooksLong(su, opts, arg) && |s| > 0
    ensures r.Some? ==> 1 <= r.value <= 2 && (r.value == 2 ==> more)
  {
    match Lookup(su.longopts.value, NameOf(s), 0, None, false)
    case Ambiguous => Some(1)
    case NoMatch =>
      if !su.longOnly || arg[1] == '-' || Index(opts, s[0]) == |opts| then Some(1) else None
    case Exact(i) => LongTakes(su.longopts.value, i, s, more)
    case Abbreviation(i) => LongTakes(su.longopts.value, i, s, more)
  }

  function LongTakes(table: seq<LongOption>, i: nat, s: string, more: bool): (r: Option<nat>)
    ensures r.Some? && 1 <= r.value <= 2 && (r.value == 2 ==> more)
  {
    if i < |table| && Index(s, '=') == |s| && table[i].hasArg == 1 && more then Some(2) else Some(1)
  }

  /** One call's decoding: arguments used up, characters left. */
  function Step(su: Setup, opts: string, arg: string, s: string, more: bool): (r: (nat, string))
    requires !NonOption(arg) && |s| > 0
    ensures r.0 == 0 <==> |r.1| > 0
    ensures r.0 <= 2 && (r.0 == 2 ==> more) && |r.1| < |s|
  {
    if LooksLong(su, opts, arg) && LongStep(su, opts, arg, s, more).Some? then
      (LongStep(su, opts, arg, s, more).value, "")
    else
      ShortStep(opts, s, more)
  }

  /** Arguments that the rest of an option argument takes up in all: itself, and perhaps the next one. */
  function Takes(su: Setup, arg: string, s: string, more: bool): (k: nat)
    requires !NonOption(arg) && |s| > 0
    ensures 1 <= k <= 2 && (k == 2 ==> more)
    decreases |s|
  {
    var r := Step(su, su.optstring, arg, s, more);
    if r.0 > 0 then r.0 else Takes(su, arg, r.1, more)
  }

  // ---------- what a call reports ----------

  /** What one call reports: the end, or the code of an option with its argument, if any. */
  datatype Report = End | Opt(code: int, optarg: Option<string>)

  const UNKNOWN := '?' as int

  /** The code for a missing argument. */
  function Missing(opts: string): int {
    if opts != "" && opts[0] == ':' then ':' as int else '?' as int
  }

  /** The mark of an option character: no argument, one that may be left out, or one that is required. */
  datatype Wants = Nothing | Maybe | Required

  function ShortWants(opts: string, k: nat): Wants
    requires k < |opts|
  {
    if k + 1 == |opts| || opts[k + 1] != ':' then Nothing
    else if k + 2 < |opts| && opts[k + 2] == ':' then Maybe
    else Required
  }

  /** A short option: its argument is what follows the character; else, if required, the next argument. */
  function ShortReport(opts: string, s: string, next: Option<string>): Report
    requires |s| > 0
  {
    var k := Index(opts, s[0]);
    var c, rest := s[0] as int, if |s| > 1 then Some(s[1..]) else None;
    if k == |opts| || s[0] == ':' then Opt(UNKNOWN, None)
    else
      match ShortWants(opts, k)
      case Nothing => Opt(c, None)
      case Maybe => Opt(c, rest)
      case Required => if rest.Some? then Opt(c, rest) else if next.Some? then Opt(c, next) else Opt(Missing(opts), None)
  }

  /**
    A long option: its argument is what follows the '='; else, if required, the next argument.
    An argument that it does not take is an error only while errors are printed; else it is ignored.
   */
  function LongReport(su: Setup, table: seq<LongOption>, m: Match, opts: string, s: string, next: Option<string>): Report {
    if !(m.Exact? || m.Abbreviation?) || m.index >= |table| then Opt(UNKNOWN, None)
    else
      var o := table[m.index];
      var code := if o.flag then 0 else o.val;
      if Index(s, '=') < |s| then
        if o.hasArg != 0 then Opt(code, Some(s[Index(s, '=') + 1..]))
        else if su.opterr then Opt(UNKNOWN, None)
        else Opt(code, None)
      else if o.hasArg != 1 then Opt(code, None)
      else if next.Some? then Opt(code, next)
      else Opt(Missing(opts), None)
  }

  /** The report of one decoding. */
  function OptReport(su: Setup, opts: string, arg: string, s: string, next: Option<string>): Report
    requires !NonOption(arg) && |s| > 0
  {
    if LooksLong(su, opts, arg) && LongStep(su, opts, arg, s, next.Some?).Some? then
      LongReport(su, su.longopts.value, Lookup(su.longopts.value, NameOf(s), 0, None, false), opts, s, next)
    else
      ShortReport(opts, s, next)
  }

  lemma InitialLength(su: Setup, arg: string)
    requires !NonOption(arg) && arg != DASHES
    ensures 0 < |Initial(su, arg)| < |arg|
  {
    assert |arg| > 2 || arg == [arg[0], arg[1]];
  }

  function Following(args: seq<string>, i: nat): Option<string> {
    if i + 1 < |args| then Some(args[i + 1]) else None
  }

  /** All the reports from an argument on, given the characters still to be decoded there: operands are passed over. */
  function Reports(su: Setup, args: seq<string>, i: nat, s: string): seq<Report>
    requires i <= |args| && (s != "" ==> i < |args| && !NonOption(args[i]))
    decreases |args| - i, if s != "" then |s| else if i < |args| then |args[i]| else 0
  {
    if s != "" then
      var r := Step(su, su.optstring, args[i], s, i + 1 < |args|);
      [OptReport(su, su.optstring, args[i], s, Following(args, i))] + Reports(su, args, i + r.0, r.1)
    else if i == |args| || args[i] == DASHES then
      []
    else if NonOption(args[i]) then
      Reports(su, args, i + 1, "")
    else
      InitialLength(su, args[i]);
      Reports(su, args, i, Initial(su, args[i]))
  }

  lemma ReportOfOption(su: Setup, args: seq<string>, i: nat, s: string, i': nat, s': string, r: Report)
    requires i < |args| && s != "" && !NonOption(args[i]) && i <= i'
    requires (i' - i, s') == Step(su, su.optstring, args[i], s, i + 1 < |args|)
    requires r == OptReport(su, su.optstring, args[i], s, Following(args, i))
    ensures i' <= |args| && (s' != "" ==> i' < |args| && !NonOption(args[i']))
    ensures Reports(su, args, i, s) == [r] + Reports(su, args, i', s')
  {
  }

  lemma {:induction false} NameBeforeSign(name: string, value: string)
    requires '=' !in name
    ensures Index(name + "=" + value, '=') == |name| && NameOf(name + "=" + value) == name
  {
    var s := name + "=" + value;
    if name != "" {
      assert s[0] == name[0] && name[0] in name;
      assert s[1..] == name[1..] + "=" + value;
      NameBeforeSign(name[1..], value);
    }
    assert s[..|name|] == name;
  }

  /**
    An argument given to a long option that takes none: the call reports an error exactly
    while opterr is set, and otherwise the option as if nothing had been given to it.
   */
  lemma UnwantedArgument(su: Setup, program: string, name: string, value: string)
    requires su.longopts.Some? && '=' !in name
    requires var m := Lookup(su.longopts.value, name, 0, None, false);
      (m.Exact? || m.Abbreviation?) && m.index < |su.longopts.value| && su.longopts.value[m.index].hasArg == 0
    ensures var o := su.longopts.value[Lookup(su.longopts.value, name, 0, None, false).index];
      Reports(su, [program, "--" + (name + "=" + value)], 1, "") ==
        [Opt(if su.opterr then UNKNOWN else if o.flag then 0 else o.val, None)]
  {
    var s := name + "=" + value;
    var arg := "--" + s;
    var args := [program, arg];
    NameBeforeSign(name, value);
    assert arg[2..] == s && arg[0] == '-' && arg[1] == '-';
    var r := Step(su, su.optstring, arg, s, false);
    assert r == (1, "");
    assert Reports(su, args, 2, "") == [];
    assert Reports(su, args, 1, s) == [OptReport(su, su.optstring, arg, s, None)];
  }

  lemma ReportsPassOver(su: Setup, args: seq<string>, i: nat)
    requires i < |args| && NonOption(args[i])
    ensures Reports(su, args, i, "") == Reports(su, args, i + 1, "")
  {
  }

  // ---------- the partition that getopt promises ----------

  /** Options with their arguments, and operands, each in their order; after "--" all are operands. */
  function Split(su: Setup, args: seq<string>, i: nat): (r: (seq<string>, seq<string>))
    requires i <= |args|
    decreases |args| - i
  {
    if i == |args| then ([], [])
    else if args[i] == DASHES then ([DASHES], args[i + 1..])
    else if NonOption(args[i]) then
      var rest := Split(su, args, i + 1);
      (rest.0, [args[i]] + rest.1)
    else
      SplitOption(su, args, i, Initial(su, args[i]))
  }

  /** The same from inside an option argument, with characters still to be decoded. */
  function SplitOption(su: Setup, args: seq<string>, i: nat, s: string): (r: (seq<string>, seq<string>))
    requires i < |args| && !NonOption(args[i])
    decreases |args| - i, 0
  {
    var k := if |s| > 0 then Takes(su, args[i], s, i + 1 < |args|) else 1;
    var rest := Split(su, args, i + k);
    (args[i..i + k] + rest.0, rest.1)
  }

  // ---------- what the partition is ----------

  /** s is a and b merged, each kept in its order. */
  ghost predicate Merges<T>(a: seq<T>, b: seq<T>, s: seq<T>)
    decreases |s|
  {
    if |s| == 0 then |a| == 0 && |b| == 0
    else (|a| > 0 && a[0] == s[0] && Merges(a[1..], b, s[1..])) || (|b| > 0 && b[0] == s[0] && Merges(a, b[1..], s[1..]))
  }

  lemma {:induction false} MergesPrefix<T>(p: seq<T>, a: seq<T>, b: seq<T>, s: seq<T>)
    requires Merges(a, b, s)
    ensures Merges(p + a, b, p + s)
    decreases |p|
  {
    if |p| == 0 {
      assert p + a == a && p + s == s;
    } else {
      MergesPrefix(p[1..], a, b, s);
      assert (p + a)[1..] == p[1..] + a && (p + s)[1..] == p[1..] + s;
    }
  }

  lemma {:induction false} MergesRight<T>(b: seq<T>)
    ensures Merges([], b, b)
    decreases |b|
  {
    if |b| > 0 {
      MergesRight(b[1..]);
    }
  }

  lemma DashesMerge(args: seq<string>, i: nat)
    requires i < |args| && args[i] == DASHES
    ensures Merges([DASHES], args[i + 1..], args[i..])
  {
    MergesRight(args[i + 1..]);
    MergesPrefix([DASHES], [], args[i + 1..], args[i + 1..]);
    assert args[i..] == [DASHES] + args[i + 1..];
    assert [DASHES] + [] == [DASHES];
  }

  lemma OperandMerges(a: seq<string>, b: seq<string>, args: seq<string>, i: nat)
    requires i < |args| && Merges(a, b, args[i + 1..])
    ensures Merges(a, [args[i]] + b, args[i..])
  {
    assert args[i..][1..] == args[i + 1..];
    assert ([args[i]] + b)[1..] == b;
  }

  lemma OptionMerges(a: seq<string>, b: seq<string>, args: seq<string>, i: nat, k: nat)
    requires i + k <= |args| && Merges(a, b, args[i + k..])
    ensures Merges(args[i..i + k] + a, b, args[i..])
  {
    MergesPrefix(args[i..i + k], a, b, args[i + k..]);
    assert args[i..] == args[i..i + k] + args[i + k..];
  }

  /** The partition is a stable one: options and operands, each in their order, make up the arguments. */
  lemma {:induction false} SplitIsStable(su: Setup, args: seq<string>, i: nat)
    requires i <= |args|
    ensures var r := Split(su, args, i); Merges(r.0, r.1, args[i..])
    decreases |args| - i
  {
    if i < |args| {
      if args[i] == DASHES {
        DashesMerge(args, i);
      } else if NonOption(args[i]) {
        var rest := Split(su, args, i + 1);
        SplitIsStable(su, args, i + 1);
        OperandMerges(rest.0, rest.1, args, i);
      } else {
        var s := Initial(su, args[i]);
        var k := if |s| > 0 then Takes(su, args[i], s, i + 1 < |args|) else 1;
        var rest := Split(su, args, i + k);
        SplitIsStable(su, args, i + k);
        OptionMerges(rest.0, rest.1, args, i, k);
      }
    }
  }

  lemma {:induction false} MergesCounts<T>(a: seq<T>, b: seq<T>, s: seq<T>)
    requires Merges(a, b, s)
    ensures |a| + |b| == |s| && multiset(a) + multiset(b) == multiset(s)
    decreases |s|
  {
    if |s| > 0 {
      assert s == [s[0]] + s[1..];
      if |a| > 0 && a[0] == s[0] && Merges(a[1..], b, s[1..]) {
        assert a == [a[0]] + a[1..];
        MergesCounts(a[1..], b, s[1..]);
      } else {
        assert b == [b[0]] + b[1..];
        MergesCounts(a, b[1..], s[1..]);
      }
    }
  }

  // ---------- the scanner ----------

  /** A sequence with two blocks of n elements exchanged. */
  function Swapped<T>(s: seq<T>, p: nat, q: nat, n: nat): (r: seq<T>)
    requires p + n <= q && q + n <= |s|
    ensures |r| == |s|
  {
    seq(|s|, k requires 0 <= k < |s| =>
      if p <= k < p + n then s[k - p + q] else if q <= k < q + n then s[k - q + p] else s[k])
  }

  /** A sequence with the adjacent blocks [bottom, middle) and [middle, top) turned round. */
  function Turned<T>(s: seq<T>, bottom: nat, middle: nat, top: nat): (r: seq<T>)
    requires bottom <= middle <= top <= |s|
    ensures |r| == |s|
  {
    seq(|s|, k requires 0 <= k < |s| =>
      if bottom <= k < bottom + top - middle then s[k - bottom + middle]
      else if bottom + top - middle <= k < top then s[k - (top - middle)]
      else s[k])
  }

  lemma TurnedIsExchange<T>(s: seq<T>, bottom: nat, middle: nat, top: nat)
    requires bottom <= middle <= top <= |s|
    ensures Turned(s, bottom, middle, top) == s[..bottom] + s[middle..top] + s[bottom..middle] + s[top..]
  {
  }

  lemma TurnedEmpty<T>(s: seq<T>, bottom: nat, middle: nat, top: nat)
    requires bottom <= middle <= top <= |s| && (bottom == middle || middle == top)
    ensures Turned(s, bottom, middle, top) == s
  {
  }

  lemma TurnBottom<T>(s: seq<T>, bottom: nat, middle: nat, top: nat, len: nat, far: nat)
    requires bottom <= middle <= far <= top <= |s| && len == middle - bottom == top - far
    ensures Turned(Swapped(s, bottom, far, len), bottom, middle, far) == Turned(s, bottom, middle, top)
  {
  }

  lemma TurnTop<T>(s: seq<T>, bottom: nat, middle: nat, top: nat, len: nat, near: nat)
    requires bottom <= near <= middle <= top <= |s| && len == top - middle == near - bottom
    ensures Turned(Swapped(s, bottom, middle, len), near, middle, top) == Turned(s, bottom, middle, top)
  {
  }

  lemma SwapOneMore<T>(s: seq<T>, p: nat, q: nat, n: nat)
    requires p + n + 1 <= q && q + n + 1 <= |s|
    ensures Swapped(s, p, q, n)[p + n := s[q + n]][q + n := s[p + n]] == Swapped(s, p, q, n + 1)
    ensures Swapped(s, p, q, n)[p + n] == s[p + n] && Swapped(s, p, q, n)[q + n] == s[q + n]
  {
  }

  /** Exchanges two blocks of n elements that do not overlap. */
  method SwapBlocks(argv: array<string>, p: nat, q: nat, n: nat)
    requires p + n <= q && q + n <= argv.Length
    modifies argv
    ensures argv[..] == Swapped(old(argv[..]), p, q, n)
  {
    ghost var s := argv[..];
    assert s == Swapped(s, p, q, 0);
    for i := 0 to n
      invariant argv[..] == Swapped(s, p, q, i)
    {
      SwapOneMore(s, p, q, i);
      assert argv[..][p + i] == s[p + i] && argv[..][q + i] == s[q + i];
      argv[p + i], argv[q + i] := argv[q + i], argv[p + i];
      assert argv[..] == Swapped(s, p, q, i)[p + i := s[q + i]][q + i := s[p + i]];
    }
  }

  /** The bottom block is the short one: it goes to the far end of the top block. */
  method SwapShortBottom(argv: array<string>, bottom: nat, middle: nat, top: nat) returns (top': nat)
    requires bottom < middle < top <= argv.Length && middle - bottom < top - middle
    modifies argv
    ensures middle < top' < top
    ensures Turned(argv[..], bottom, middle, top') == Turned(old(argv[..]), bottom, middle, top)
  {
    var len := middle - bottom;
    top' := top - len;
    TurnBottom(argv[..], bottom, middle, top, len, top');
    SwapBlocks(argv, bottom, top', len);
  }

  /** The top block is the short one: it goes to the near end of the bottom block. */
  method SwapShortTop(argv: array<string>, bottom: nat, middle: nat, top: nat) returns (bottom': nat)
    requires bottom < middle < top <= argv.Length && top - middle <= middle - bottom
    modifies argv
    ensures bottom < bottom' <= middle
    ensures Turned(argv[..], bottom', middle, top) == Turned(old(argv[..]), bottom, middle, top)
  {
    var len := top - middle;
    bottom' := bottom + len;
    TurnTop(argv[..], bottom, middle, top, len, bottom');
    SwapBlocks(argv, bottom, middle, len);
  }

  /**
    Turns [first, last) followed by [last, top) round, in place: the shorter block goes
    to its end of the longer one, and what is left of the longer one is turned next.
   */
  method Exchange(argv: array<string>, first: nat, last: nat, optind: nat)
    requires first <= last <= optind <= argv.Length
    modifies argv
    ensures argv[..] == Turned(old(argv[..]), first, last, optind)
  {
    var bottom: nat, middle: nat, top: nat := first, last, optind;
    ghost var s := argv[..];
    while top > middle > bottom
      invariant bottom <= middle <= top <= argv.Length
      invariant Turned(argv[..], bottom, middle, top) == Turned(s, first, last, optind)
      decreases top - bottom
    {
      if top - middle > middle - bottom {
        top := SwapShortBottom(argv, bottom, middle, top);
      } else {
        bottom := SwapShortTop(argv, bottom, middle, top);
      }
    }
    TurnedEmpty(argv[..], bottom, middle, top);
  }

  // ---------- the state of a permuting scan ----------

  /** How the arguments from optind on will be split, given the characters still to be decoded there. */
  function Rest(su: Setup, orig: seq<string>, optind: nat, nextchar: string): (seq<string>, seq<string>)
    requires optind <= |orig|
    requires nextchar != "" ==> optind < |orig| && !NonOption(orig[optind])
  {
    if nextchar == "" then Split(su, orig, optind) else SplitOption(su, orig, optind, nextchar)
  }

  /**
    A permuting scan under way: options lie below first and from last to optind,
    skipped operands between; what is ahead is untouched, and all of it together is
    what the partition of the original arguments asks for.
   */
  ghost predicate Scanning(su: Setup, orig: seq<string>, a: seq<string>, first: nat, last: nat, optind: nat,
                           nextchar: string)
  {
    && |a| == |orig| && 1 <= first <= last <= optind <= |a|
    && a[0] == orig[0]
    && a[optind..] == orig[optind..]
    && (nextchar != "" ==> optind < |orig| && !NonOption(orig[optind]))
    && Split(su, orig, 1).0 == a[1..first] + a[last..optind] + Rest(su, orig, optind, nextchar).0
    && Split(su, orig, 1).1 == a[first..last] + Rest(su, orig, optind, nextchar).1
  }

  /** A finished scan: the arguments are the partition, and optind is its boundary. */
  ghost predicate Permuted(su: Setup, orig: seq<string>, a: seq<string>, optind: nat) {
    && |orig| > 0
    && var parts := Split(su, orig, 1);
       a == [orig[0]] + parts.0 + parts.1 && optind == 1 + |parts.0|
  }

  lemma ScanStarts(su: Setup, orig: seq<string>)
    requires |orig| > 0
    ensures Scanning(su, orig, orig, 1, 1, 1, "")
  {
  }

  lemma ExchangeKeepsScan(su: Setup, orig: seq<string>, a: seq<string>, first: nat, last: nat, optind: nat,
                          b: seq<string>, f: nat)
    requires Scanning(su, orig, a, first, last, optind, "") && b == Turned(a, first, last, optind)
    requires f == first + (optind - last)
    ensures Scanning(su, orig, b, f, optind, optind, "")
  {
    TurnedSlices(a, first, last, optind);
    assert a[1..first] + a[last..optind] + b[optind..optind] == a[1..first] + a[last..optind];
  }

  lemma TurnedSlices<T>(a: seq<T>, first: nat, last: nat, optind: nat)
    requires 1 <= first <= last <= optind <= |a|
    ensures var b, f := Turned(a, first, last, optind), first + (optind - last);
      && b[0] == a[0] && b[optind..] == a[optind..]
      && b[1..f] == a[1..first] + a[last..optind] && b[f..optind] == a[first..last]
  {
  }

  lemma MoveOnKeepsScan(su: Setup, orig: seq<string>, a: seq<string>, first: nat, optind: nat)
    requires Scanning(su, orig, a, first, first, optind, "")
    ensures Scanning(su, orig, a, optind, optind, optind, "")
  {
    assert a[1..optind] == a[1..first] + a[first..optind];
  }

  lemma SkipKeepsScan(su: Setup, orig: seq<string>, a: seq<string>, first: nat, optind: nat)
    requires Scanning(su, orig, a, first, optind, optind, "") && optind < |a| && NonOption(a[optind])
    ensures Scanning(su, orig, a, first, optind + 1, optind + 1, "")
  {
    assert orig[optind] == orig[optind..][0] == a[optind..][0] == a[optind];
    SliceGrows(a, first, optind);
    SliceOfSlice(a, optind, |a|, 1, |a| - optind);
    SliceOfSlice(orig, optind, |orig|, 1, |orig| - optind);
    var skipped, next, rest := a[first..optind], [a[optind]], Split(su, orig, optind + 1);
    assert Rest(su, orig, optind, "").1 == next + rest.1;
    assert skipped + (next + rest.1) == (skipped + next) + rest.1;
    assert a[1..first] + a[optind..optind] == a[1..first] == a[1..first] + a[optind + 1..optind + 1];
  }

  /** Everything skipped: the operands are at the end already. */
  lemma ScanEnds(su: Setup, orig: seq<string>, a: seq<string>, first: nat)
    requires Scanning(su, orig, a, first, |a|, |a|, "")
    ensures Permuted(su, orig, a, first)
  {
    assert a == [a[0]] + a[1..first] + a[first..];
  }

  lemma SplitAtDashes(su: Setup, orig: seq<string>, a: seq<string>, first: nat, optind: nat)
    requires Scanning(su, orig, a, first, optind, optind, "") && optind < |a| && a[optind] == DASHES
    ensures Split(su, orig, 1).0 == a[1..first] + [DASHES]
    ensures Split(su, orig, 1).1 == a[first..optind] + a[optind + 1..]
  {
    SameAhead(orig, a, optind, 1);
    assert a[optind] == a[optind..optind + 1][0] && orig[optind] == orig[optind..optind + 1][0];
    assert a[1..first] + a[optind..optind] == a[1..first];
  }

  /** "--" joins the options, and all that follows it the operands. */
  lemma DashesEnd(su: Setup, orig: seq<string>, a: seq<string>, first: nat, optind: nat, b: seq<string>)
    requires Scanning(su, orig, a, first, optind, optind, "") && optind < |a| && a[optind] == DASHES
    requires b == Turned(a, first, optind, optind + 1)
    ensures Permuted(su, orig, b, first + 1)
  {
    SplitAtDashes(su, orig, a, first, optind);
    TurnedIsExchange(a, first, optind, optind + 1);
    assert a[..first] == [a[0]] + a[1..first];
    assert a[optind..optind + 1] == [DASHES];
    Regroup([a[0]], a[1..first], [DASHES], a[first..optind], a[optind + 1..]);
  }

  lemma Regroup<T>(head: seq<T>, options: seq<T>, dashes: seq<T>, skipped: seq<T>, rest: seq<T>)
    ensures (head + options) + dashes + skipped + rest == head + (options + dashes) + (skipped + rest)
  {
  }

  lemma OptionStarts(su: Setup, orig: seq<string>, a: seq<string>, first: nat, last: nat, optind: nat)
    requires Scanning(su, orig, a, first, last, optind, "") && optind < |a|
    requires !NonOption(a[optind]) && a[optind] != DASHES
    ensures 0 < |Initial(su, a[optind])| < |a[optind]|
    ensures orig[optind] == a[optind] && Scanning(su, orig, a, first, last, optind, Initial(su, a[optind]))
  {
    assert orig[optind] == orig[optind..][0] == a[optind];
    InitialLength(su, a[optind]);
  }

  lemma SameAhead(orig: seq<string>, a: seq<string>, optind: nat, k: nat)
    requires optind + k <= |orig| == |a| && a[optind..] == orig[optind..]
    ensures a[optind + k..] == orig[optind + k..] && a[optind..optind + k] == orig[optind..optind + k]
  {
    assert a[optind + k..] == a[optind..][k..] && orig[optind + k..] == orig[optind..][k..];
    assert a[optind..optind + k] == a[optind..][..k] && orig[optind..optind + k] == orig[optind..][..k];
  }

  lemma TakeKeepsScan(su: Setup, orig: seq<string>, a: seq<string>, first: nat, last: nat, optind: nat, s: string, k: nat)
    requires Scanning(su, orig, a, first, last, optind, s) && s != ""
    requires k == Takes(su, orig[optind], s, optind + 1 < |orig|)
    ensures Scanning(su, orig, a, first, last, optind + k, "")
  {
    SameAhead(orig, a, optind, k);
    assert a[last..optind + k] == a[last..optind] + orig[optind..optind + k];
    var rest := Split(su, orig, optind + k);
    assert Rest(su, orig, optind, s) == (orig[optind..optind + k] + rest.0, rest.1);
    assert a[1..first] + a[last..optind + k] + rest.0
        == a[1..first] + a[last..optind] + (orig[optind..optind + k] + rest.0);
  }

  lemma StayKeepsScan(su: Setup, orig: seq<string>, a: seq<string>, first: nat, last: nat, optind: nat, s: string, s': string)
    requires Scanning(su, orig, a, first, last, optind, s) && s != "" && s' != ""
    requires Takes(su, orig[optind], s', optind + 1 < |orig|) == Takes(su, orig[optind], s, optind + 1 < |orig|)
    ensures Scanning(su, orig, a, first, last, optind, s')
  {
  }

  lemma ArgumentAhead(su: Setup, orig: seq<string>, a: seq<string>, first: nat, last: nat, optind: nat, s: string)
    requires Scanning(su, orig, a, first, last, optind, s) && optind < |a|
    ensures a[optind] == orig[optind] && Following(a, optind) == Following(orig, optind)
  {
    if optind + 1 < |a| {
      SameAhead(orig, a, optind, 2);
      assert a[optind + 1] == a[optind..optind + 2][1] && orig[optind + 1] == orig[optind..optind + 2][1];
    }
    SameAhead(orig, a, optind, 1);
    assert a[optind] == a[optind..optind + 1][0] && orig[optind] == orig[optind..optind + 1][0];
  }

  /** A decoding that keeps to the count: it ends the argument, or leaves the count as it was. */
  ghost predicate Decoded(su: Setup, arg: string, s: string, more: bool, k: nat, s': string)
    requires !NonOption(arg) && |s| > 0
  {
    if k > 0 then s' == "" && k == Takes(su, arg, s, more)
    else 0 < |s'| < |s| && Takes(su, arg, s', more) == Takes(su, arg, s, more)
  }

  lemma StepDecodes(su: Setup, arg: string, s: string, more: bool)
    requires !NonOption(arg) && |s| > 0
    ensures var r := Step(su, su.optstring, arg, s, more); Decoded(su, arg, s, more, r.0, r.1)
  {
  }

  /** One decoding keeps the scan on its way. */
  lemma DecodingKeepsScan(su: Setup, orig: seq<string>, a: seq<string>, first: nat, last: nat, optind: nat, s: string,
                          optind': nat, s': string)
    requires Scanning(su, orig, a, first, last, optind, s) && s != ""
    requires optind <= optind' && Decoded(su, orig[optind], s, optind + 1 < |a|, optind' - optind, s')
    ensures Scanning(su, orig, a, first, last, optind', s')
  {
    if optind' > optind {
      TakeKeepsScan(su, orig, a, first, last, optind, s, optind' - optind);
    } else {
      StayKeepsScan(su, orig, a, first, last, optind, s, s');
    }
  }
}
