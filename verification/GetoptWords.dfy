/**
  Command lines as they are written down for getopt (src/gnu_getopt.c), word by word, and
  what is read back from them.
 */
module GetoptWords {
  import opened Getopt
  import opened GetoptScanner
  import opened Slices
  import opened Wrappers

  /**
    A word of a command line. Long options: with a value behind '=', with the value as the
    next argument, without one, and names that are not in the table or ambiguous. Short
    ones: some characters that take no value, then one with its value in the same or in the next
    argument, or without one.
   */
  datatype Word =
    | LongWith(entry: nat, name: string, value: string)
    | LongThen(entry: nat, name: string, value: string)
    | LongAlone(entry: nat, name: string)
    | LongBad(name: string, rest: string)
    | ShortWith(flags: string, c: char, value: string)
    | ShortThen(flags: string, c: char, value: string)
    | ShortAlone(flags: string, c: char)
    | Operand(text: string)

  /** The arguments of a word. */
  function Spelled(w: Word): (args: seq<string>)
    ensures 1 <= |args| <= 2
  {
    match w
    case LongWith(_, name, value) => ["--" + (name + "=" + value)]
    case LongThen(_, name, value) => ["--" + name, value]
    case LongAlone(_, name) => ["--" + name]
    case LongBad(name, rest) => ["--" + (name + rest)]
    case ShortWith(flags, c, value) => ["-" + (flags + [c] + value)]
    case ShortThen(flags, c, value) => ["-" + (flags + [c]), value]
    case ShortAlone(flags, c) => ["-" + (flags + [c])]
    case Operand(text) => [text]
  }

  // ---------- what the words mean ----------

  /** The name stands for an entry: it is the name of the first such entry, or begins that of no other. */
  ghost predicate Names(table: seq<LongOption>, name: string, i: nat) {
    Finds(table, name, Exact(i)) || Finds(table, name, Abbreviation(i))
  }

  /** The character is first found at a place of the option string with so many colons behind it. */
  predicate MarkedAt(opts: string, c: char, colons: nat, k: nat) {
    && k < |opts| && opts[k] == c && c !in opts[..k]
    && match colons
       case 0 => k + 1 == |opts| || opts[k + 1] != ':'
       case 1 => k + 1 < |opts| && opts[k + 1] == ':' && (k + 2 == |opts| || opts[k + 2] != ':')
       case 2 => k + 2 < |opts| && opts[k + 1] == opts[k + 2] == ':'
       case _ => false
  }

  ghost predicate Marked(opts: string, c: char, colons: nat) {
    c != ':' && exists k :: MarkedAt(opts, c, colons, k)
  }

  /** A character that takes no value: an option without colons, or no option at all. */
  ghost predicate TakesNone(opts: string, c: char) {
    Marked(opts, c, 0) || c == ':' || c !in opts
  }

  function CharReport(opts: string, c: char): Report {
    if c == ':' || c !in opts then Opt('?' as int, None) else Opt(c as int, None)
  }

  /** Words that can be written for a setup. */
  ghost predicate Proper(su: Setup, w: Word) {
    match w
    case LongWith(i, name, value) =>
      su.longopts.Some? && Names(su.longopts.value, name, i) && '=' !in name
    case LongThen(i, name, value) =>
      su.longopts.Some? && Names(su.longopts.value, name, i) && '=' !in name && name != "" && su.longopts.value[i].hasArg == 1
    case LongAlone(i, name) =>
      su.longopts.Some? && Names(su.longopts.value, name, i) && '=' !in name && name != "" && su.longopts.value[i].hasArg != 1
    case LongBad(name, rest) =>
      && su.longopts.Some? && '=' !in name && name + rest != "" && (rest == "" || rest[0] == '=')
      && (Finds(su.longopts.value, name, NoMatch) || Finds(su.longopts.value, name, Ambiguous))
    case ShortWith(flags, c, value) =>
      && !su.longOnly && (flags + [c])[0] != '-' && (forall f :: f in flags ==> TakesNone(su.optstring, f))
      && (Marked(su.optstring, c, 1) || Marked(su.optstring, c, 2)) && value != ""
    case ShortThen(flags, c, value) =>
      && !su.longOnly && (flags + [c])[0] != '-' && (forall f :: f in flags ==> TakesNone(su.optstring, f))
      && Marked(su.optstring, c, 1)
    case ShortAlone(flags, c) =>
      && !su.longOnly && (flags + [c])[0] != '-' && (forall f :: f in flags ==> TakesNone(su.optstring, f))
      && (TakesNone(su.optstring, c) || Marked(su.optstring, c, 2))
    case Operand(text) => text == "" || text == "-" || text[0] != '-'
  }

  function CodeOf(o: LongOption): int {
    if o.flag then 0 else o.val
  }

  /** The reports that a word asks for: the codes of its options, each with its value. */
  ghost function Meant(su: Setup, w: Word): seq<Report>
    requires Proper(su, w)
  {
    match w
    case LongWith(i, _, value) =>
      var o := su.longopts.value[i];
      [if o.hasArg != 0 then Opt(CodeOf(o), Some(value))
       else if su.opterr then Opt('?' as int, None) else Opt(CodeOf(o), None)]
    case LongThen(i, _, value) => [Opt(CodeOf(su.longopts.value[i]), Some(value))]
    case LongAlone(i, _) => [Opt(CodeOf(su.longopts.value[i]), None)]
    case LongBad(_, _) => [Opt('?' as int, None)]
    case ShortWith(flags, c, value) => CharReports(su.optstring, flags) + [Opt(c as int, Some(value))]
    case ShortThen(flags, c, value) => CharReports(su.optstring, flags) + [Opt(c as int, Some(value))]
    case ShortAlone(flags, c) => CharReports(su.optstring, flags + [c])
    case Operand(_) => []
  }

  function CharReports(opts: string, flags: string): seq<Report> {
    if flags == "" then [] else [CharReport(opts, flags[0])] + CharReports(opts, flags[1..])
  }

  // ---------- long options are read back ----------

  lemma LookupNames(table: seq<LongOption>, name: string, i: nat)
    requires Names(table, name, i)
    ensures var m := Lookup(table, name, 0, None, false); (m == Exact(i) || m == Abbreviation(i)) && i < |table|
  {
    LookupFinds(table, name, 0, None, false);
    if Finds(table, name, Exact(i)) {
      FindsIsUnique(table, name, Lookup(table, name, 0, None, false), Exact(i));
    } else {
      FindsIsUnique(table, name, Lookup(table, name, 0, None, false), Abbreviation(i));
    }
  }

  lemma LookupFails(table: seq<LongOption>, name: string)
    requires Finds(table, name, NoMatch) || Finds(table, name, Ambiguous)
    ensures var m := Lookup(table, name, 0, None, false); m == NoMatch || m == Ambiguous
  {
    LookupFinds(table, name, 0, None, false);
    if Finds(table, name, NoMatch) {
      FindsIsUnique(table, name, Lookup(table, name, 0, None, false), NoMatch);
    } else {
      FindsIsUnique(table, name, Lookup(table, name, 0, None, false), Ambiguous);
    }
  }

  lemma {:induction false} NameThenRest(name: string, rest: string)
    requires '=' !in name && (rest == "" || rest[0] == '=')
    ensures Index(name + rest, '=') == |name| && NameOf(name + rest) == name
  {
    var s := name + rest;
    if name == "" {
      assert s == rest;
    } else {
      assert s[0] == name[0] && name[0] in name;
      assert s[1..] == name[1..] + rest;
      NameThenRest(name[1..], rest);
    }
    assert s[..|name|] == name;
  }

  /** An argument behind two hyphens is decoded in one go. */
  lemma LongArgument(su: Setup, args: seq<string>, i: nat, s: string)
    requires i < |args| && args[i] == "--" + s && s != "" && su.longopts.Some?
    ensures !NonOption(args[i]) && args[i] != DASHES
    ensures Reports(su, args, i, "") == Reports(su, args, i, s)
    ensures Split(su, args, i) == SplitOption(su, args, i, s)
    ensures LooksLong(su, su.optstring, args[i])
  {
    assert args[i][2..] == s && args[i][0] == '-' && args[i][1] == '-';
  }

  lemma LongReads(su: Setup, args: seq<string>, i: nat, s: string, k: nat, r: Report)
    requires i < |args| && args[i] == "--" + s && s != "" && su.longopts.Some? && i + k <= |args|
    requires LooksLong(su, su.optstring, args[i])
    requires LongStep(su, su.optstring, args[i], s, i + 1 < |args|) == Some(k) && k > 0
    requires r == OptReport(su, su.optstring, args[i], s, Following(args, i))
    ensures Reports(su, args, i, "") == [r] + Reports(su, args, i + k, "")
    ensures Split(su, args, i) == (args[i..i + k] + Split(su, args, i + k).0, Split(su, args, i + k).1)
  {
    LongArgument(su, args, i, s);
    ReportOfOption(su, args, i, s, i + k, "", r);
    assert Step(su, su.optstring, args[i], s, i + 1 < |args|) == (k, "");
    assert Takes(su, args[i], s, i + 1 < |args|) == k;
  }

  /** The report of a long option that has been found. */
  lemma FoundReport(su: Setup, opts: string, arg: string, s: string, next: Option<string>, i: nat)
    requires !NonOption(arg) && s != "" && LooksLong(su, opts, arg)
    requires Names(su.longopts.value, NameOf(s), i)
    ensures LongStep(su, opts, arg, s, next.Some?) ==
      Some(if Index(s, '=') == |s| && su.longopts.value[i].hasArg == 1 && next.Some? then 2 else 1)
    ensures OptReport(su, opts, arg, s, next) == LongReport(su, su.longopts.value, Exact(i), opts, s, next)
  {
    LookupNames(su.longopts.value, NameOf(s), i);
  }

  /** The arguments of a word from i on are read as the word means, and count as what it is. */
  ghost predicate ReadAt(su: Setup, args: seq<string>, i: nat, w: Word)
    requires Proper(su, w) && i + |Spelled(w)| <= |args|
  {
    var next := i + |Spelled(w)|;
    && Reports(su, args, i, "") == Meant(su, w) + Reports(su, args, next, "")
    && Split(su, args, i) ==
         if w.Operand? then (Split(su, args, next).0, Spelled(w) + Split(su, args, next).1)
         else (Spelled(w) + Split(su, args, next).0, Split(su, args, next).1)
  }

  lemma ValueBehindSign(su: Setup, args: seq<string>, i: nat, entry: nat, name: string, value: string)
    requires i < |args| && args[i] == "--" + (name + "=" + value) && '=' !in name
    requires su.longopts.Some? && Names(su.longopts.value, name, entry)
    ensures var o := su.longopts.value[entry];
      Reports(su, args, i, "") ==
        [if o.hasArg != 0 then Opt(CodeOf(o), Some(value))
         else if su.opterr then Opt('?' as int, None) else Opt(CodeOf(o), None)] + Reports(su, args, i + 1, "")
    ensures Split(su, args, i) == (args[i..i + 1] + Split(su, args, i + 1).0, Split(su, args, i + 1).1)
  {
    var s := name + "=" + value;
    NameThenRest(name, "=" + value);
    assert name + ("=" + value) == s;
    assert s[|name| + 1..] == value;
    LongArgument(su, args, i, s);
    FoundReport(su, su.optstring, args[i], s, Following(args, i), entry);
    LongReads(su, args, i, s, 1, LongReport(su, su.longopts.value, Exact(entry), su.optstring, s, Following(args, i)));
  }

  lemma LongWithReads(su: Setup, args: seq<string>, i: nat, w: Word)
    requires w.LongWith? && Proper(su, w) && i < |args| && args[i..i + 1] == Spelled(w)
    ensures ReadAt(su, args, i, w)
  {
    assert args[i] == args[i..i + 1][0];
    ValueBehindSign(su, args, i, w.entry, w.name, w.value);
  }

  lemma ValueInNext(su: Setup, args: seq<string>, i: nat, entry: nat, name: string)
    requires i + 1 < |args| && args[i] == "--" + name && '=' !in name && name != ""
    requires su.longopts.Some? && Names(su.longopts.value, name, entry) && su.longopts.value[entry].hasArg == 1
    ensures Reports(su, args, i, "") ==
      [Opt(CodeOf(su.longopts.value[entry]), Some(args[i + 1]))] + Reports(su, args, i + 2, "")
    ensures Split(su, args, i) == (args[i..i + 2] + Split(su, args, i + 2).0, Split(su, args, i + 2).1)
  {
    NameThenRest(name, "");
    assert name + "" == name;
    LongArgument(su, args, i, name);
    FoundReport(su, su.optstring, args[i], name, Following(args, i), entry);
    LongReads(su, args, i, name, 2, Opt(CodeOf(su.longopts.value[entry]), Some(args[i + 1])));
  }

  lemma LongThenReads(su: Setup, args: seq<string>, i: nat, w: Word)
    requires w.LongThen? && Proper(su, w) && i + 1 < |args| && args[i..i + 2] == Spelled(w)
    ensures ReadAt(su, args, i, w)
  {
    assert args[i] == args[i..i + 2][0] && args[i + 1] == args[i..i + 2][1];
    ValueInNext(su, args, i, w.entry, w.name);
  }

  lemma LongAloneReads(su: Setup, args: seq<string>, i: nat, w: Word)
    requires w.LongAlone? && Proper(su, w) && i < |args| && args[i..i + 1] == Spelled(w)
    ensures ReadAt(su, args, i, w)
  {
    assert args[i] == args[i..i + 1][0] == "--" + w.name;
    NameThenRest(w.name, "");
    assert w.name + "" == w.name;
    LongArgument(su, args, i, w.name);
    FoundReport(su, su.optstring, args[i], w.name, Following(args, i), w.entry);
    LongReads(su, args, i, w.name, 1, Meant(su, w)[0]);
  }

  lemma LongBadReads(su: Setup, args: seq<string>, i: nat, w: Word)
    requires w.LongBad? && Proper(su, w) && i < |args| && args[i..i + 1] == Spelled(w)
    ensures ReadAt(su, args, i, w)
  {
    var s := w.name + w.rest;
    assert args[i] == args[i..i + 1][0] == "--" + s;
    NameThenRest(w.name, w.rest);
    LookupFails(su.longopts.value, w.name);
    LongArgument(su, args, i, s);
    assert args[i][1] == '-';
    LongReads(su, args, i, s, 1, Meant(su, w)[0]);
  }

  // ---------- short options are read back ----------

  lemma MarkedIndex(opts: string, c: char, colons: nat)
    requires Marked(opts, c, colons)
    ensures MarkedAt(opts, c, colons, Index(opts, c)) && c in opts
  {
    var k: nat :| MarkedAt(opts, c, colons, k);
    forall j | 0 <= j < k
      ensures opts[j] != c
    {
      assert opts[..k][j] == opts[j];
    }
  }

  lemma NoIndex(opts: string, c: char)
    requires c !in opts
    ensures Index(opts, c) == |opts|
  {
  }

  /** A character that takes no value, with others behind it or as the last one. */
  lemma PlainCharacter(opts: string, s: string, more: bool, next: Option<string>)
    requires s != "" && TakesNone(opts, s[0])
    ensures ShortReport(opts, s, next) == CharReport(opts, s[0])
    ensures ShortStep(opts, s, more) == if |s| == 1 then (1, "") else (0, s[1..])
  {
    if s[0] == ':' {
    } else if s[0] !in opts {
      NoIndex(opts, s[0]);
    } else {
      MarkedIndex(opts, s[0], 0);
    }
  }

  /** A short option that goes on with its value. */
  lemma ValueBehind(opts: string, c: char, value: string, more: bool, next: Option<string>)
    requires (Marked(opts, c, 1) || Marked(opts, c, 2)) && value != ""
    ensures ShortReport(opts, [c] + value, next) == Opt(c as int, Some(value))
    ensures ShortStep(opts, [c] + value, more) == (1, "")
  {
    assert ([c] + value)[1..] == value;
    if Marked(opts, c, 1) {
      MarkedIndex(opts, c, 1);
    } else {
      MarkedIndex(opts, c, 2);
    }
  }

  lemma ValueNext(opts: string, c: char, value: string)
    requires Marked(opts, c, 1)
    ensures ShortReport(opts, [c], Some(value)) == Opt(c as int, Some(value))
    ensures ShortStep(opts, [c], true) == (2, "")
  {
    MarkedIndex(opts, c, 1);
  }

  lemma ValueLeftOut(opts: string, c: char, more: bool, next: Option<string>)
    requires Marked(opts, c, 2)
    ensures ShortReport(opts, [c], next) == Opt(c as int, None) == CharReport(opts, c)
    ensures ShortStep(opts, [c], more) == (1, "")
  {
    MarkedIndex(opts, c, 2);
  }

  /** An argument that is read character by character. */
  ghost predicate IsShort(su: Setup, arg: string, s: string) {
    !su.longOnly && s != "" && s[0] != '-' && arg == "-" + s
  }

  lemma ShortArgument(su: Setup, args: seq<string>, i: nat, s: string)
    requires i < |args| && IsShort(su, args[i], s)
    ensures !NonOption(args[i]) && args[i] != DASHES && !LooksLong(su, su.optstring, args[i])
    ensures Reports(su, args, i, "") == Reports(su, args, i, s)
    ensures Split(su, args, i) == SplitOption(su, args, i, s)
  {
    assert args[i][1..] == s && args[i][0] == '-' && args[i][1] == s[0];
  }

  /** One character that takes no value, and more behind it. */
  lemma OneFlag(su: Setup, args: seq<string>, i: nat, s: string)
    requires i < |args| && !NonOption(args[i]) && !LooksLong(su, su.optstring, args[i])
    requires |s| > 1 && TakesNone(su.optstring, s[0])
    ensures Reports(su, args, i, s) == [CharReport(su.optstring, s[0])] + Reports(su, args, i, s[1..])
    ensures Takes(su, args[i], s, i + 1 < |args|) == Takes(su, args[i], s[1..], i + 1 < |args|)
  {
    PlainCharacter(su.optstring, s, i + 1 < |args|, Following(args, i));
    ReportOfOption(su, args, i, s, i, s[1..], CharReport(su.optstring, s[0]));
  }

  lemma {:induction false} FlagsRead(su: Setup, args: seq<string>, i: nat, flags: string, rest: string)
    requires i < |args| && !NonOption(args[i]) && !LooksLong(su, su.optstring, args[i])
    requires rest != "" && forall f :: f in flags ==> TakesNone(su.optstring, f)
    ensures Reports(su, args, i, flags + rest) == CharReports(su.optstring, flags) + Reports(su, args, i, rest)
    ensures Takes(su, args[i], flags + rest, i + 1 < |args|) == Takes(su, args[i], rest, i + 1 < |args|)
    decreases |flags|
  {
    if flags == "" {
      assert flags + rest == rest;
      assert [] + Reports(su, args, i, rest) == Reports(su, args, i, rest);
    } else {
      var s, tail := flags + rest, flags[1..] + rest;
      assert s[1..] == tail && s[0] == flags[0] && flags[0] in flags;
      OneFlag(su, args, i, s);
      FlagsRead(su, args, i, flags[1..], rest);
      Regroup2([CharReport(su.optstring, flags[0])], CharReports(su.optstring, flags[1..]), Reports(su, args, i, rest));
    }
  }

  lemma Regroup2<T>(a: seq<T>, b: seq<T>, c: seq<T>)
    ensures a + (b + c) == (a + b) + c
  {
  }

  /** Characters without a value, and one that ends its argument. */
  lemma ShortReads(su: Setup, args: seq<string>, i: nat, flags: string, rest: string, k: nat, r: Report)
    requires i + k <= |args| && k > 0 && IsShort(su, args[i], flags + rest) && rest != ""
    requires forall f :: f in flags ==> TakesNone(su.optstring, f)
    requires ShortStep(su.optstring, rest, i + 1 < |args|) == (k, "")
    requires r == ShortReport(su.optstring, rest, Following(args, i))
    ensures Reports(su, args, i, "") == CharReports(su.optstring, flags) + [r] + Reports(su, args, i + k, "")
    ensures Split(su, args, i) == (args[i..i + k] + Split(su, args, i + k).0, Split(su, args, i + k).1)
  {
    ShortArgument(su, args, i, flags + rest);
    FlagsRead(su, args, i, flags, rest);
    assert Step(su, su.optstring, args[i], rest, i + 1 < |args|) == (k, "");
    ReportOfOption(su, args, i, rest, i + k, "", r);
    Regroup2(CharReports(su.optstring, flags), [r], Reports(su, args, i + k, ""));
    assert Takes(su, args[i], rest, i + 1 < |args|) == k;
  }

  lemma ShortWithReads(su: Setup, args: seq<string>, i: nat, w: Word)
    requires w.ShortWith? && Proper(su, w) && i < |args| && args[i..i + 1] == Spelled(w)
    ensures ReadAt(su, args, i, w)
  {
    var rest := [w.c] + w.value;
    assert args[i] == args[i..i + 1][0];
    assert w.flags + [w.c] + w.value == w.flags + rest;
    ValueBehind(su.optstring, w.c, w.value, i + 1 < |args|, Following(args, i));
    ShortReads(su, args, i, w.flags, rest, 1, Opt(w.c as int, Some(w.value)));
  }

  lemma ShortThenReads(su: Setup, args: seq<string>, i: nat, w: Word)
    requires w.ShortThen? && Proper(su, w) && i + 1 < |args| && args[i..i + 2] == Spelled(w)
    ensures ReadAt(su, args, i, w)
  {
    assert args[i] == args[i..i + 2][0] && args[i + 1] == args[i..i + 2][1];
    ValueNext(su.optstring, w.c, w.value);
    ShortReads(su, args, i, w.flags, [w.c], 2, Opt(w.c as int, Some(w.value)));
  }

  lemma {:induction false} CharReportsOneMore(opts: string, flags: string, c: char)
    ensures CharReports(opts, flags + [c]) == CharReports(opts, flags) + [CharReport(opts, c)]
    decreases |flags|
  {
    if flags == "" {
      assert flags + [c] == [c] && CharReports(opts, [c]) == [CharReport(opts, c)] + CharReports(opts, [c][1..]);
    } else {
      assert (flags + [c])[1..] == flags[1..] + [c];
      CharReportsOneMore(opts, flags[1..], c);
    }
  }

  lemma ShortAloneReads(su: Setup, args: seq<string>, i: nat, w: Word)
    requires w.ShortAlone? && Proper(su, w) && i < |args| && args[i..i + 1] == Spelled(w)
    ensures ReadAt(su, args, i, w)
  {
    assert args[i] == args[i..i + 1][0];
    if TakesNone(su.optstring, w.c) {
      PlainCharacter(su.optstring, [w.c], i + 1 < |args|, Following(args, i));
    } else {
      ValueLeftOut(su.optstring, w.c, i + 1 < |args|, Following(args, i));
    }
    ShortReads(su, args, i, w.flags, [w.c], 1, CharReport(su.optstring, w.c));
    CharReportsOneMore(su.optstring, w.flags, w.c);
  }

  lemma OperandReads(su: Setup, args: seq<string>, i: nat, w: Word)
    requires w.Operand? && Proper(su, w) && i < |args| && args[i..i + 1] == Spelled(w)
    ensures ReadAt(su, args, i, w)
  {
    assert args[i] == args[i..i + 1][0] == w.text;
    ReportsPassOver(su, args, i);
    assert [] + Reports(su, args, i + 1, "") == Reports(su, args, i + 1, "");
  }

  lemma WordReads(su: Setup, args: seq<string>, i: nat, w: Word)
    requires Proper(su, w) && i + |Spelled(w)| <= |args| && args[i..i + |Spelled(w)|] == Spelled(w)
    ensures ReadAt(su, args, i, w)
  {
    match w
    case LongWith(_, _, _) => LongWithReads(su, args, i, w);
    case LongThen(_, _, _) => LongThenReads(su, args, i, w);
    case LongAlone(_, _) => LongAloneReads(su, args, i, w);
    case LongBad(_, _) => LongBadReads(su, args, i, w);
    case ShortWith(_, _, _) => ShortWithReads(su, args, i, w);
    case ShortThen(_, _, _) => ShortThenReads(su, args, i, w);
    case ShortAlone(_, _) => ShortAloneReads(su, args, i, w);
    case Operand(_) => OperandReads(su, args, i, w);
  }

  // ---------- whole command lines ----------

  function Written(words: seq<Word>): seq<string> {
    Gathered(words, Spelled)
  }

  /** What a function makes of each word, one after the other. */
  function Gathered<T>(words: seq<Word>, f: Word -> seq<T>): seq<T> {
    if words == [] then [] else f(words[0]) + Gathered(words[1..], f)
  }

  ghost predicate AllProper(su: Setup, words: seq<Word>) {
    forall w :: w in words ==> Proper(su, w)
  }

  ghost function MeantBy(su: Setup): Word -> seq<Report> {
    w => if Proper(su, w) then Meant(su, w) else []
  }

  /** The reports of all words, in order. */
  ghost function AllMeant(su: Setup, words: seq<Word>): seq<Report> {
    Gathered(words, MeantBy(su))
  }

  /** The arguments of the options with their values, and the operands. */
  function OptionArgs(w: Word): seq<string> {
    if w.Operand? then [] else Spelled(w)
  }

  function OperandArgs(w: Word): seq<string> {
    if w.Operand? then Spelled(w) else []
  }

  function OptionsOf(words: seq<Word>): seq<string> {
    Gathered(words, OptionArgs)
  }

  function OperandsOf(words: seq<Word>): seq<string> {
    Gathered(words, OperandArgs)
  }

  predicate StandsAt(args: seq<string>, i: nat, w: Word) {
    i + |Spelled(w)| <= |args| && args[i..i + |Spelled(w)|] == Spelled(w)
  }

  lemma FirstWord(args: seq<string>, i: nat, words: seq<Word>)
    requires words != [] && i + |Written(words)| <= |args| && args[i..i + |Written(words)|] == Written(words)
    ensures var next, end := i + |Spelled(words[0])|, i + |Written(words)|;
      StandsAt(args, i, words[0]) && end == next + |Written(words[1..])| && args[next..end] == Written(words[1..])
  {
    var n, end := |Spelled(words[0])|, i + |Written(words)|;
    SliceOfSlice(args, i, end, 0, n);
    SliceOfSlice(args, i, end, n, |Written(words)|);
    assert Written(words)[..n] == Spelled(words[0]) && Written(words)[n..] == Written(words[1..]);
  }

  /** What holds of each word where it stands holds of the words together. */
  lemma {:induction false} Follows<T>(args: seq<string>, i: nat, words: seq<Word>, f: Word -> seq<T>, at: nat -> seq<T>)
    requires i + |Written(words)| <= |args| && args[i..i + |Written(words)|] == Written(words)
    requires forall j: nat, w :: w in words && StandsAt(args, j, w) ==> at(j) == f(w) + at(j + |Spelled(w)|)
    ensures at(i) == Gathered(words, f) + at(i + |Written(words)|)
    decreases |words|
  {
    if words == [] {
      assert [] + at(i) == at(i);
    } else {
      var w, more := words[0], words[1..];
      var next, end := i + |Spelled(w)|, i + |Written(words)|;
      FirstWord(args, i, words);
      Follows(args, next, more, f, at);
      assert at(i) == f(w) + at(next);
      Regroup2(f(w), Gathered(more, f), at(end));
    }
  }

  /** The reports, the options and the operands from an argument on, as functions of its place. */
  ghost function ReportsAt(su: Setup, args: seq<string>): nat -> seq<Report> {
    (j: nat) => if j <= |args| then Reports(su, args, j, "") else []
  }

  ghost function OptionsAt(su: Setup, args: seq<string>): nat -> seq<string> {
    (j: nat) => if j <= |args| then Split(su, args, j).0 else []
  }

  ghost function OperandsAt(su: Setup, args: seq<string>): nat -> seq<string> {
    (j: nat) => if j <= |args| then Split(su, args, j).1 else []
  }

  lemma WordReports(su: Setup, args: seq<string>, i: nat, w: Word)
    requires Proper(su, w) && StandsAt(args, i, w)
    ensures ReportsAt(su, args)(i) == MeantBy(su)(w) + ReportsAt(su, args)(i + |Spelled(w)|)
  {
    WordReads(su, args, i, w);
  }

  lemma WordSplits(su: Setup, args: seq<string>, i: nat, w: Word)
    requires Proper(su, w) && StandsAt(args, i, w)
    ensures OptionsAt(su, args)(i) == OptionArgs(w) + OptionsAt(su, args)(i + |Spelled(w)|)
    ensures OperandsAt(su, args)(i) == OperandArgs(w) + OperandsAt(su, args)(i + |Spelled(w)|)
  {
    WordReads(su, args, i, w);
    var rest := Split(su, args, i + |Spelled(w)|);
    assert [] + rest.0 == rest.0 && [] + rest.1 == rest.1;
  }

  lemma WordsReport(su: Setup, args: seq<string>, i: nat, words: seq<Word>)
    requires AllProper(su, words) && i + |Written(words)| <= |args| && args[i..i + |Written(words)|] == Written(words)
    ensures ReportsAt(su, args)(i) == AllMeant(su, words) + ReportsAt(su, args)(i + |Written(words)|)
  {
    forall j: nat, w | w in words && StandsAt(args, j, w)
      ensures ReportsAt(su, args)(j) == MeantBy(su)(w) + ReportsAt(su, args)(j + |Spelled(w)|)
    {
      WordReports(su, args, j, w);
    }
    Follows(args, i, words, MeantBy(su), ReportsAt(su, args));
  }

  lemma WordsSplit(su: Setup, args: seq<string>, i: nat, words: seq<Word>)
    requires AllProper(su, words) && i + |Written(words)| <= |args| && args[i..i + |Written(words)|] == Written(words)
    ensures OptionsAt(su, args)(i) == OptionsOf(words) + OptionsAt(su, args)(i + |Written(words)|)
    ensures OperandsAt(su, args)(i) == OperandsOf(words) + OperandsAt(su, args)(i + |Written(words)|)
  {
    forall j: nat, w | w in words && StandsAt(args, j, w)
      ensures OptionsAt(su, args)(j) == OptionArgs(w) + OptionsAt(su, args)(j + |Spelled(w)|)
      ensures OperandsAt(su, args)(j) == OperandArgs(w) + OperandsAt(su, args)(j + |Spelled(w)|)
    {
      WordSplits(su, args, j, w);
    }
    Follows(args, i, words, OptionArgs, OptionsAt(su, args));
    Follows(args, i, words, OperandArgs, OperandsAt(su, args));
  }

  /** A command line of such words, and operands behind "--" if there is that. */
  function Line(program: string, words: seq<Word>, dashes: bool, operands: seq<string>): seq<string> {
    [program] + Written(words) + if dashes then [DASHES] + operands else []
  }

  /** Behind the words nothing is reported, and there are only operands. */
  lemma EndOfLine(su: Setup, args: seq<string>, end: nat, dashes: bool, operands: seq<string>)
    requires end <= |args| && args[end..] == if dashes then [DASHES] + operands else []
    ensures Reports(su, args, end, "") == []
    ensures Split(su, args, end) == if dashes then (["--"], operands) else ([], [])
  {
    if dashes {
      assert args[end] == args[end..][0] && args[end + 1..] == args[end..][1..] == operands;
    } else {
      assert |args[end..]| == 0;
    }
  }

  /** What was written is read back: the reports are what the words mean. */
  lemma LineIsRead(su: Setup, program: string, words: seq<Word>, dashes: bool, operands: seq<string>)
    requires AllProper(su, words)
    ensures Reports(su, Line(program, words, dashes, operands), 1, "") == AllMeant(su, words)
  {
    var args, end := Line(program, words, dashes, operands), 1 + |Written(words)|;
    assert args[1..end] == Written(words) && args[end..] == if dashes then [DASHES] + operands else [];
    WordsReport(su, args, 1, words);
    EndOfLine(su, args, end, dashes, operands);
    assert AllMeant(su, words) + [] == AllMeant(su, words);
  }

  lemma LineSplits(su: Setup, args: seq<string>, end: nat, words: seq<Word>, dashes: bool, operands: seq<string>)
    requires AllProper(su, words) && end == 1 + |Written(words)| <= |args| && args[1..end] == Written(words)
    requires args[end..] == if dashes then [DASHES] + operands else []
    ensures OptionsAt(su, args)(1) == OptionsOf(words) + if dashes then ["--"] else []
    ensures OperandsAt(su, args)(1) == OperandsOf(words) + if dashes then operands else []
  {
    WordsSplit(su, args, 1, words);
    EndOfLine(su, args, end, dashes, operands);
  }

  lemma SplitAt(su: Setup, args: seq<string>, i: nat)
    requires i <= |args|
    ensures Split(su, args, i) == (OptionsAt(su, args)(i), OperandsAt(su, args)(i))
  {
  }

  /** The options are the arguments of their words and the "--"; the operands are those between and behind them. */
  lemma LineIsSplit(su: Setup, program: string, words: seq<Word>, dashes: bool, operands: seq<string>)
    requires AllProper(su, words)
    ensures Split(su, Line(program, words, dashes, operands), 1) ==
      (OptionsOf(words) + if dashes then ["--"] else [], OperandsOf(words) + if dashes then operands else [])
  {
    var args, end := Line(program, words, dashes, operands), 1 + |Written(words)|;
    assert args[1..end] == Written(words) && args[end..] == if dashes then [DASHES] + operands else [];
    LineSplits(su, args, end, words, dashes, operands);
    SplitAt(su, args, 1);
  }

  /** The program's code on such a line: what it reports, and where it leaves the arguments. */
  method ParseLine(su: Setup, program: string, words: seq<Word>, dashes: bool, operands: seq<string>)
    returns (reports: seq<Report>, args: seq<string>, optind: nat)
    requires AllProper(su, words)
    requires !su.posixlyCorrect && (su.optstring == "" || (su.optstring[0] != '-' && su.optstring[0] != '+'))
    ensures reports == AllMeant(su, words)
    ensures args == [program] + (OptionsOf(words) + if dashes then ["--"] else [])
                  + (OperandsOf(words) + if dashes then operands else [])
    ensures optind == 1 + |OptionsOf(words)| + if dashes then 1 else 0
  {
    var line := Line(program, words, dashes, operands);
    var argv := new string[|line|](i requires 0 <= i < |line| => line[i]);
    assert argv[..] == line;
    var scanner := new Scanner(argv, su);
    LineIsRead(su, program, words, dashes, operands);
    LineIsSplit(su, program, words, dashes, operands);
    reports := scanner.Run();
    args, optind := argv[..], scanner.optind;
  }

  // ---------- a value that is missing ----------

  function MissingReport(opts: string): Report {
    Opt(if opts != "" && opts[0] == ':' then ':' as int else '?' as int, None)
  }

  /** An option at the end of the line whose value is missing is an error: ':' where the option string starts so. */
  lemma MissingValue(su: Setup, args: seq<string>, entry: nat, name: string)
    requires args != [] && args[|args| - 1] == "--" + name && '=' !in name && name != ""
    requires su.longopts.Some? && Names(su.longopts.value, name, entry) && su.longopts.value[entry].hasArg == 1
    ensures Reports(su, args, |args| - 1, "") == [MissingReport(su.optstring)]
  {
    var end := |args| - 1;
    NameThenRest(name, "");
    assert name + "" == name;
    LongArgument(su, args, end, name);
    FoundReport(su, su.optstring, args[end], name, None, entry);
    LongReads(su, args, end, name, 1, MissingReport(su.optstring));
  }

  lemma MissingShortValue(su: Setup, args: seq<string>, flags: string, c: char)
    requires args != [] && args[|args| - 1] == "-" + (flags + [c]) && !su.longOnly && (flags + [c])[0] != '-'
    requires Marked(su.optstring, c, 1) && forall f :: f in flags ==> TakesNone(su.optstring, f)
    ensures Reports(su, args, |args| - 1, "") == CharReports(su.optstring, flags) + [MissingReport(su.optstring)]
  {
    MarkedIndex(su.optstring, c, 1);
    ShortReads(su, args, |args| - 1, flags, [c], 1, MissingReport(su.optstring));
  }
}
