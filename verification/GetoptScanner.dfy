/**
  The scan of _getopt_internal in src/gnu_getopt.c as a state machine over argv,
  optind, first_nonopt, last_nonopt and nextchar.
 */
module GetoptScanner {
  import opened Getopt
  import opened Slices
  import opened Wrappers

  class Scanner {
    const argv: array<string>
    const setup: Setup
    /** The arguments as the caller passed them. */
    ghost const orig: seq<string>
    var optind: nat
    var firstNonopt: nat
    var lastNonopt: nat
    /** The characters still to be decoded; empty when the scan is between arguments. */
    var nextchar: string
    var ordering: Ordering
    var initialized: bool

    /** A permuting scan is under way. */
    ghost predicate Permuting()
      reads this, argv
    {
      && initialized && ordering == Permute
      && Scanning(setup, orig, argv[..], firstNonopt, lastNonopt, optind, nextchar)
    }

    /** Characters and arguments still ahead: what a run uses up. */
    ghost function Ahead(): nat
      reads this, argv
    {
      if nextchar != "" then |nextchar| else if optind < argv.Length then |argv[optind]| else 0
    }

    constructor (argv: array<string>, setup: Setup)
      requires argv.Length > 0
      ensures this.argv == argv && this.setup == setup && orig == argv[..]
      ensures !initialized && optind == 1 && nextchar == ""
    {
      this.argv := argv;
      this.setup := setup;
      orig := argv[..];
      optind := 1;
      firstNonopt, lastNonopt := 0, 0;
      nextchar := "";
      ordering := Permute;
      initialized := false;
    }

    /** The first call: no operands skipped yet, and the ordering that the caller asks for. */
    method Initialize() returns (opts: string)
      modifies this
      ensures optind == old(optind) && firstNonopt == lastNonopt == optind && nextchar == "" && initialized
      ensures ordering ==
        if setup.optstring != "" && setup.optstring[0] == '-' then ReturnInOrder
        else if setup.optstring != "" && setup.optstring[0] == '+' then RequireOrder
        else if setup.posixlyCorrect then RequireOrder else Permute
      ensures ordering == Permute ==> opts == setup.optstring
    {
      opts := setup.optstring;
      firstNonopt, lastNonopt := optind, optind;
      nextchar := "";
      if opts != "" && opts[0] == '-' {
        ordering := ReturnInOrder;
        opts := opts[1..];
      } else if opts != "" && opts[0] == '+' {
        ordering := RequireOrder;
        opts := opts[1..];
      } else if setup.posixlyCorrect {
        ordering := RequireOrder;
      } else {
        ordering := Permute;
      }
      initialized := true;
    }

    // ---------- between arguments ----------

    /** The call of exchange, and the record of where the operands have gone. */
    method ExchangeSegments()
      requires Scanning(setup, orig, argv[..], firstNonopt, lastNonopt, optind, "")
      modifies this`firstNonopt, this`lastNonopt, argv
      ensures lastNonopt == optind
      ensures Scanning(setup, orig, argv[..], firstNonopt, optind, optind, "")
    {
      ghost var a, first, last := argv[..], firstNonopt, lastNonopt;
      Exchange(argv, firstNonopt, lastNonopt, optind);
      firstNonopt := firstNonopt + (optind - lastNonopt);
      lastNonopt := optind;
      ExchangeKeepsScan(setup, orig, a, first, last, optind, argv[..], firstNonopt);
    }

    /** Brings the options decoded last before the operands skipped earlier. */
    method BringForward()
      requires Permuting() && nextchar == ""
      modifies this`firstNonopt, this`lastNonopt, argv
      ensures Scanning(setup, orig, argv[..], firstNonopt, optind, optind, "")
    {
      if firstNonopt != lastNonopt && lastNonopt != optind {
        ExchangeSegments();
      } else if lastNonopt != optind {
        MoveOnKeepsScan(setup, orig, argv[..], firstNonopt, optind);
        firstNonopt := optind;
      }
    }

    /** Skips one operand. */
    method SkipOne()
      requires initialized && ordering == Permute && nextchar == "" && optind < argv.Length && NonOption(argv[optind])
      requires Scanning(setup, orig, argv[..], firstNonopt, optind, optind, "")
      modifies this`optind
      ensures optind == old(optind) + 1 && Scanning(setup, orig, argv[..], firstNonopt, optind, optind, "")
      ensures Reports(setup, orig, old(optind), "") == Reports(setup, orig, optind, "")
    {
      SkipKeepsScan(setup, orig, argv[..], firstNonopt, optind);
      ArgumentAhead(setup, orig, argv[..], firstNonopt, optind, optind, "");
      ReportsPassOver(setup, orig, optind);
      optind := optind + 1;
    }

    /** Skips the operands up to the next option. */
    method SkipOperands()
      requires initialized && ordering == Permute && nextchar == ""
      requires Scanning(setup, orig, argv[..], firstNonopt, optind, optind, "")
      modifies this`optind, this`lastNonopt
      ensures Permuting() && lastNonopt == optind >= old(optind)
      ensures optind < argv.Length ==> !NonOption(argv[optind])
      ensures Reports(setup, orig, old(optind), "") == Reports(setup, orig, optind, "")
    {
      while optind < argv.Length && NonOption(argv[optind])
        invariant old(optind) <= optind
        invariant Scanning(setup, orig, argv[..], firstNonopt, optind, optind, "")
        invariant Reports(setup, orig, old(optind), "") == Reports(setup, orig, optind, "")
        decreases argv.Length - optind
      {
        SkipOne();
      }
      lastNonopt := optind;
    }

    /** The argument "--": an option that makes all that follow operands. */
    method EndAtDashes()
      requires Permuting() && nextchar == "" && lastNonopt == optind < argv.Length && argv[optind] == DASHES
      modifies this, argv
      ensures Permuted(setup, orig, argv[..], optind)
    {
      ghost var a, first, at := argv[..], firstNonopt, optind;
      optind := optind + 1;
      if firstNonopt != lastNonopt && lastNonopt != optind {
        Exchange(argv, firstNonopt, lastNonopt, optind);
        firstNonopt := firstNonopt + (optind - lastNonopt);
        lastNonopt := optind;
      } else if firstNonopt == lastNonopt {
        TurnedEmpty(a, first, first, optind);
        firstNonopt := optind;
      }
      DashesEnd(setup, orig, a, first, at, argv[..]);
      lastNonopt := argv.Length;
      optind := argv.Length;
      if firstNonopt != lastNonopt {
        optind := firstNonopt;
      }
    }

    /** Goes on to the next option, or ends the scan. */
    method Advance() returns (atEnd: bool)
      requires Permuting() && nextchar == ""
      modifies this, argv
      ensures atEnd ==> Permuted(setup, orig, argv[..], optind)
      ensures !atEnd ==> Permuting() && nextchar != ""
      ensures !atEnd ==> optind > old(optind) || (optind == old(optind) && Ahead() < old(Ahead()))
      ensures Reports(setup, orig, old(optind), "") == if atEnd then [] else Reports(setup, orig, optind, nextchar)
    {
      ghost var a, start := argv[..], optind;
      BringForward();
      SkipOperands();
      if optind != argv.Length {
        ArgumentAhead(setup, orig, argv[..], firstNonopt, lastNonopt, optind, "");
      }
      if optind != argv.Length && argv[optind] == DASHES {
        EndAtDashes();
        return true;
      }
      if optind == argv.Length {
        ScanEnds(setup, orig, argv[..], firstNonopt);
        if firstNonopt != lastNonopt {
          optind := firstNonopt;
        }
        return true;
      }
      OptionStarts(setup, orig, argv[..], firstNonopt, lastNonopt, optind);
      if optind == start {
        assert a[start] == a[start..][0] == orig[start..][0] == argv[start..][0] == argv[start];
      }
      nextchar := Initial(setup, argv[optind]);
      return false;
    }

    // ---------- inside an argument ----------

    method MyIndex(s: string, c: char) returns (k: nat)
      ensures k == Index(s, c)
    {
      k := 0;
      while k < |s| && s[k] != c
        invariant k <= |s| && Index(s, c) == k + Index(s[k..], c)
      {
        k := k + 1;
      }
    }

    /** Decodes one short option character. */
    method DecodeShort(opts: string) returns (r: Report)
      requires nextchar != "" && optind < argv.Length
      modifies this`optind, this`nextchar
      ensures (optind - old(optind), nextchar) == ShortStep(opts, old(nextchar), old(optind) + 1 < argv.Length)
      ensures r == ShortReport(opts, old(nextchar), Following(argv[..], old(optind)))
    {
      var c := nextchar[0];
      var k := MyIndex(opts, c);
      nextchar := nextchar[1..];
      if nextchar == "" {
        optind := optind + 1;
      }
      if k == |opts| || c == ':' {
        return Opt('?' as int, None);
      }
      if k + 1 < |opts| && opts[k + 1] == ':' {
        var code, optarg := c as int, None;
        if k + 2 < |opts| && opts[k + 2] == ':' {
          if nextchar != "" {
            optarg := Some(nextchar);
            optind := optind + 1;
          }
        } else if nextchar != "" {
          optarg := Some(nextchar);
          optind := optind + 1;
        } else if optind == argv.Length {
          code := if opts[0] == ':' then ':' as int else '?' as int;
        } else {
          optarg := Some(argv[optind]);
          optind := optind + 1;
        }
        nextchar := "";
        return Opt(code, optarg);
      }
      return Opt(c as int, None);
    }

    /** Decodes a long option; None when it is to be taken as short options. */
    method DecodeLong(opts: string) returns (r: Option<Report>)
      requires nextchar != "" && optind < argv.Length && !NonOption(argv[optind])
      requires LooksLong(setup, opts, argv[optind])
      modifies this`optind, this`nextchar
      ensures var step := LongStep(setup, opts, argv[old(optind)], old(nextchar), old(optind) + 1 < argv.Length);
        && (r.None? <==> step.None?)
        && (r.None? ==> optind == old(optind) && nextchar == old(nextchar))
        && (r.Some? ==> optind == old(optind) + step.value && nextchar == "")
      ensures r.Some? ==>
        var table := setup.longopts.value;
        var found := Lookup(table, NameOf(old(nextchar)), 0, None, false);
        r.value == LongReport(setup, table, found, opts, old(nextchar), Following(argv[..], old(optind)))
    {
      var table := setup.longopts.value;
      var nameEnd := MyIndex(nextchar, '=');
      var found := FindLong(table, nextchar[..nameEnd]);
      match found
      case Ambiguous =>
        nextchar := "";
        optind := optind + 1;
        return Some(Opt('?' as int, None));
      case NoMatch =>
        var k := MyIndex(opts, nextchar[0]);
        if !setup.longOnly || argv[optind][1] == '-' || k == |opts| {
          nextchar := "";
          optind := optind + 1;
          return Some(Opt('?' as int, None));
        }
        return None;
      case _ =>
        var i := found.index;
        var optarg := None;
        optind := optind + 1;
        if nameEnd < |nextchar| {
          if table[i].hasArg != 0 {
            optarg := Some(nextchar[nameEnd + 1..]);
          } else if setup.opterr {
            nextchar := "";
            return Some(Opt('?' as int, None));
          }
        } else if table[i].hasArg == 1 {
          if optind == argv.Length {
            nextchar := "";
            return Some(Opt(if opts != "" && opts[0] == ':' then ':' as int else '?' as int, None));
          }
          optarg := Some(argv[optind]);
          optind := optind + 1;
        }
        nextchar := "";
        return Some(Opt(if table[i].flag then 0 else table[i].val, optarg));
    }

    /** Decodes the next option, long or short. */
    method Decode(opts: string) returns (r: Report)
      requires nextchar != "" && optind < argv.Length && !NonOption(argv[optind]) && opts == setup.optstring
      modifies this`optind, this`nextchar
      ensures optind >= old(optind)
      ensures (optind - old(optind), nextchar) ==
        Step(setup, opts, argv[old(optind)], old(nextchar), old(optind) + 1 < argv.Length)
      ensures r == OptReport(setup, opts, argv[old(optind)], old(nextchar), Following(argv[..], old(optind)))
    {
      if LooksLong(setup, opts, argv[optind]) {
        var long := DecodeLong(opts);
        if long.Some? {
          return long.value;
        }
      }
      r := DecodeShort(opts);
    }

    // ---------- calls ----------

    /** Decodes the option that the scan stands at. */
    method DecodeNext() returns (r: Report)
      requires Permuting() && nextchar != ""
      modifies this`optind, this`nextchar
      ensures Permuting() && r != End
      ensures optind > old(optind) || (optind == old(optind) && Ahead() < old(Ahead()))
      ensures old(Reports(setup, orig, optind, nextchar)) == [r] + Reports(setup, orig, optind, nextchar)
    {
      ghost var a, i, s := argv[..], optind, nextchar;
      ArgumentAhead(setup, orig, a, firstNonopt, lastNonopt, i, s);
      r := Decode(setup.optstring);
      StepDecodes(setup, argv[i], s, i + 1 < argv.Length);
      DecodingKeepsScan(setup, orig, argv[..], firstNonopt, lastNonopt, i, s, optind, nextchar);
      ReportOfOption(setup, orig, i, s, optind, nextchar, r);
    }

    /** One call in permuting order. */
    method Next() returns (r: Report)
      requires Permuting()
      modifies this, argv
      ensures r == End ==> Permuted(setup, orig, argv[..], optind)
      ensures r != End ==> Permuting()
      ensures r != End ==> optind > old(optind) || (optind == old(optind) && Ahead() < old(Ahead()))
      // The report is the next one that the arguments as passed ask for.
      ensures r == End ==> old(Reports(setup, orig, optind, nextchar)) == []
      ensures r != End ==> old(Reports(setup, orig, optind, nextchar)) == [r] + Reports(setup, orig, optind, nextchar)
    {
      if nextchar == "" {
        var atEnd := Advance();
        if atEnd {
          return End;
        }
      }
      r := DecodeNext();
    }

    /**
      A whole run in permuting order: it ends, reports every option in order, and leaves the
      arguments as the stable partition of the ones passed in, with optind at the boundary.
     */
    method Run() returns (reports: seq<Report>)
      requires !initialized && optind == 1 && nextchar == "" && argv.Length > 0 && argv[..] == orig
      requires !setup.posixlyCorrect
      requires setup.optstring == "" || (setup.optstring[0] != '-' && setup.optstring[0] != '+')
      modifies this, argv
      ensures Permuted(setup, orig, argv[..], optind)
      ensures Merges(argv[1..optind], argv[optind..], orig[1..])
      ensures multiset(argv[..]) == multiset(orig)
      ensures reports == Reports(setup, orig, 1, "")
    {
      var _ := Initialize();
      ScanStarts(setup, orig);
      reports := [];
      while true
        invariant Permuting()
        invariant reports + Reports(setup, orig, optind, nextchar) == Reports(setup, orig, 1, "")
        decreases argv.Length - optind, Ahead()
      {
        var r := Next();
        if r == End {
          assert reports + [] == reports;
          break;
        }
        ghost var ahead := Reports(setup, orig, optind, nextchar);
        assert reports + ([r] + ahead) == reports + [r] + ahead;
        reports := reports + [r];
      }
      PermutedIsStable(setup, orig, argv[..], optind);
    }
  }

  lemma PermutedIsStable(su: Setup, orig: seq<string>, a: seq<string>, optind: nat)
    requires Permuted(su, orig, a, optind)
    ensures optind <= |a|
    ensures a[1..optind] == Split(su, orig, 1).0 && a[optind..] == Split(su, orig, 1).1
    ensures Merges(a[1..optind], a[optind..], orig[1..])
    ensures multiset(a) == multiset(orig)
  {
    var parts := Split(su, orig, 1);
    assert a[1..optind] == parts.0 && a[optind..] == parts.1;
    SplitIsStable(su, orig, 1);
    MergesCounts(parts.0, parts.1, orig[1..]);
    assert orig == [orig[0]] + orig[1..];
  }
}
