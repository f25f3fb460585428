/**
 * Command-line parsing of src/win32app/main.cpp: parse_args walks argv from
 * index 1 and appends to the global lists positional_args and named_args.
 * A named argument starts with one or two dashes; its name runs to the first
 * '=' or ':' and the rest is its value, or, with no separator, the next argv
 * entry is the value. After the first "--" every argument is positional. A
 * named argument with no separator and nothing after it throws.
 */
module Args {
  /** One result in argv order: which list it goes to and what is appended. */
  datatype Arg = Positional(value: string) | Named(name: string, value: string)

  predicate IsSep(c: char)
  {
    c == '=' || c == ':'
  }

  predicate IsDashed(arg: string)
  {
    |arg| >= 1 && arg[0] == '-'
  }

  /** Where the name starts: after "--" or after "-". */
  function NameStart(arg: string): (start: nat)
    requires IsDashed(arg)
    ensures start == 1 || start == 2
    ensures start <= |arg| && (start == 2 <==> |arg| >= 2 && arg[1] == '-')
  {
    if |arg| >= 2 && arg[1] == '-' then 2 else 1
  }

  /** The first '=' or ':' at or after k, or the end of arg. */
  function SepFrom(arg: string, k: nat): (sep: nat)
    requires k <= |arg|
    ensures k <= sep <= |arg|
    ensures sep < |arg| ==> IsSep(arg[sep])
    ensures forall j :: k <= j < sep ==> !IsSep(arg[j])
    decreases |arg| - k
  {
    if k == |arg| || IsSep(arg[k]) then k else SepFrom(arg, k + 1)
  }

  /** What one turn of the loop does with argv[i]: one result and where to go on, "--", or the throw. */
  datatype Step = Emit(a: Arg, next: nat) | DoubleDash | Missing

  function StepAt(argv: seq<string>, i: nat, noMore: bool): (st: Step)
    requires i < |argv|
    ensures st.Emit? ==> i < st.next <= |argv|
    ensures st.DoubleDash? ==> !noMore && argv[i] == "--"
  {
    var arg := argv[i];
    if noMore then Emit(Positional(arg), i + 1)
    else if arg == "--" then DoubleDash
    else if IsDashed(arg) then
      var start := NameStart(arg);
      var sep := SepFrom(arg, start);
      if sep == |arg| then
        if i + 1 == |argv| then Missing
        else Emit(Named(arg[start..sep], argv[i + 1]), i + 2)
      else Emit(Named(arg[start..sep], arg[sep + 1..]), i + 1)
    else Emit(Positional(arg), i + 1)
  }

  /**
   * What the loop appends from index i on, and whether it ends by throwing
   * for a missing value; noMore is no_more_named.
   */
  function Scan(argv: seq<string>, i: nat, noMore: bool): (r: (seq<Arg>, bool))
    requires i <= |argv|
    decreases |argv| - i
  {
    if i == |argv| then ([], false)
    else
      match StepAt(argv, i, noMore)
      case Emit(a, next) => Cons(a, Scan(argv, next, noMore))
      case DoubleDash => Scan(argv, i + 1, true)
      case Missing => ([], true)
  }

  function Cons(a: Arg, r: (seq<Arg>, bool)): (seq<Arg>, bool)
  {
    ([a] + r.0, r.1)
  }

  /** parse_args(argc, argv): argv[0] is the program and is skipped. */
  function Parse(argv: seq<string>): (seq<Arg>, bool)
  {
    if |argv| == 0 then ([], false) else Scan(argv, 1, false)
  }

  /** The values that go to positional_args, in order. */
  function Positionals(args: seq<Arg>): (r: seq<string>)
    ensures |r| <= |args|
  {
    if args == [] then []
    else
      var last := args[|args| - 1];
      Positionals(args[..|args| - 1]) + (if last.Positional? then [last.value] else [])
  }

  /** The pairs that go to named_args, in order. */
  function Nameds(args: seq<Arg>): (r: seq<(string, string)>)
    ensures |r| <= |args|
  {
    if args == [] then []
    else
      var last := args[|args| - 1];
      Nameds(args[..|args| - 1]) + (if last.Named? then [(last.name, last.value)] else [])
  }

  lemma PositionalsSnoc(args: seq<Arg>, a: Arg)
    ensures Positionals(args + [a]) == Positionals(args) + (if a.Positional? then [a.value] else [])
    ensures Nameds(args + [a]) == Nameds(args) + (if a.Named? then [(a.name, a.value)] else [])
  {
    assert (args + [a])[..|args|] == args;
  }

  /** The two global lists that parse_args appends to. */
  class Arguments {
    var positional: seq<string>
    var named: seq<(string, string)>

    constructor ()
      ensures positional == [] && named == []
    {
      positional := [];
      named := [];
    }

    /** Appends one result to the list it belongs to. */
    method Push(a: Arg)
      modifies this
      ensures a.Positional? ==> positional == old(positional) + [a.value] && named == old(named)
      ensures a.Named? ==> named == old(named) + [(a.name, a.value)] && positional == old(positional)
    {
      if a.Positional? {
        positional := positional + [a.value];
      } else {
        named := named + [(a.name, a.value)];
      }
    }

    /**
     * parse_args: ok is false where the source throws; the lists then keep
     * what was appended before the throw.
     */
    method ParseArgs(argv: seq<string>) returns (ok: bool)
      modifies this
      ensures positional == old(positional) + Positionals(Parse(argv).0)
      ensures named == old(named) + Nameds(Parse(argv).0)
      ensures ok <==> !Parse(argv).1
    {
      if |argv| == 0 {
        assert old(positional) + [] == positional && old(named) + [] == named;
        return true;
      }
      var noMore := false;
      ghost var acc: seq<Arg> := [];
      var i := 1;
      assert [] + Scan(argv, 1, false).0 == Scan(argv, 1, false).0;
      while i < |argv|
        invariant 1 <= i <= |argv|
        invariant positional == old(positional) + Positionals(acc)
        invariant named == old(named) + Nameds(acc)
        invariant Parse(argv) == (acc + Scan(argv, i, noMore).0, Scan(argv, i, noMore).1)
        decreases |argv| - i
      {
        var st := ReadArgument(argv, i, noMore);
        match st {
          case DoubleDash =>
            ScanDoubleDash(argv, i);
            noMore := true;
            i := i + 1;
          case Missing =>
            ScanMissing(argv, i, noMore, acc);
            return false;
          case Emit(a, next) =>
            ScanEmit(argv, i, noMore, acc, a, next);
            Push(a);
            PositionalsSnoc(acc, a);
            acc := acc + [a];
            i := next;
        }
      }
      assert acc + [] == acc;
      ok := true;
    }
  }

  /** A result emitted at i moves from the pending part to the accumulated part. */
  lemma ScanEmit(argv: seq<string>, i: nat, noMore: bool, acc: seq<Arg>, a: Arg, next: nat)
    requires i < |argv| && StepAt(argv, i, noMore) == Emit(a, next)
    ensures acc + Scan(argv, i, noMore).0 == (acc + [a]) + Scan(argv, next, noMore).0
    ensures Scan(argv, i, noMore).1 == Scan(argv, next, noMore).1
  {
    assert acc + ([a] + Scan(argv, next, noMore).0) == (acc + [a]) + Scan(argv, next, noMore).0;
  }

  lemma ScanDoubleDash(argv: seq<string>, i: nat)
    requires i < |argv| && StepAt(argv, i, false) == DoubleDash
    ensures Scan(argv, i, false) == Scan(argv, i + 1, true)
  {
  }

  lemma ScanMissing(argv: seq<string>, i: nat, noMore: bool, acc: seq<Arg>)
    requires i < |argv| && StepAt(argv, i, noMore) == Missing
    ensures acc + Scan(argv, i, noMore).0 == acc && Scan(argv, i, noMore).1
  {
    assert acc + [] == acc;
  }

  /** The body of parse_args's loop for argv[i]: which branch it takes. */
  method ReadArgument(argv: seq<string>, i: nat, noMore: bool) returns (st: Step)
    requires i < |argv|
    ensures st == StepAt(argv, i, noMore)
  {
    var arg := argv[i];
    if noMore {
      st := Emit(Positional(arg), i + 1);
    } else if arg == "--" {
      st := DoubleDash;
    } else if |arg| >= 1 && arg[0] == '-' {
      var start := if |arg| >= 2 && arg[1] == '-' then 2 else 1;
      var sep := FindSep(arg, start);
      var name := arg[start..sep];
      if sep == |arg| {
        if i + 1 == |argv| {
          st := Missing;
        } else {
          st := Emit(Named(name, argv[i + 1]), i + 2);
        }
      } else {
        st := Emit(Named(name, arg[sep + 1..]), i + 1);
      }
    } else {
      st := Emit(Positional(arg), i + 1);
    }
  }

  /** The inner for loop of parse_args: the first '=' or ':' from start on. */
  method FindSep(arg: string, start: nat) returns (sep: nat)
    requires start <= |arg|
    ensures sep == SepFrom(arg, start)
  {
    sep := start;
    while sep < |arg|
      invariant start <= sep <= |arg|
      invariant SepFrom(arg, start) == SepFrom(arg, sep)
      decreases |arg| - sep
    {
      if arg[sep] == '=' || arg[sep] == ':' {
        break;
      }
      sep := sep + 1;
    }
  }

  // ------------------------------------------------------------ properties

  /** The loop reads argv only from index i on. */
  lemma {:induction false} ScanSuffix(argv: seq<string>, i: nat, noMore: bool)
    requires i <= |argv|
    ensures Scan(argv, i, noMore) == Scan(argv[i..], 0, noMore)
    decreases |argv| - i
  {
    var t := argv[i..];
    if i < |argv| {
      assert t[0] == argv[i];
      if i + 1 < |argv| {
        assert t[1] == argv[i + 1];
      }
      assert t[1..] == argv[i + 1..];
      ScanSuffix(argv, i + 1, noMore);
      ScanSuffix(t, 1, noMore);
      ScanSuffix(argv, i + 1, true);
      ScanSuffix(t, 1, true);
      ScanSuffix(argv, i + 1, false);
      ScanSuffix(t, 1, false);
      if i + 2 <= |argv| {
        assert t[2..] == argv[i + 2..];
        ScanSuffix(argv, i + 2, false);
        ScanSuffix(t, 2, false);
      }
    }
  }

  /** argv[0] is skipped: whatever the program name, the results are those of the rest. */
  lemma ProgramNameSkipped(name: string, rest: seq<string>)
    ensures Parse([name] + rest) == Scan(rest, 0, false)
  {
    ScanSuffix([name] + rest, 1, false);
    assert ([name] + rest)[1..] == rest;
  }

  /** Every argument as a positional one, in order. */
  function AllPositional(args: seq<string>): (r: seq<Arg>)
    ensures |r| == |args| && forall k :: 0 <= k < |args| ==> r[k] == Positional(args[k])
  {
    if args == [] then [] else [Positional(args[0])] + AllPositional(args[1..])
  }

  /** After "--" everything is positional, "--" and dashed arguments included, and nothing throws. */
  lemma {:induction false} AfterDoubleDash(argv: seq<string>, i: nat)
    requires i <= |argv|
    ensures Scan(argv, i, true) == (AllPositional(argv[i..]), false)
    decreases |argv| - i
  {
    if i < |argv| {
      AfterDoubleDash(argv, i + 1);
      assert argv[i..][1..] == argv[i + 1..];
    }
  }

  /** With no dashed argument at all, every argument is positional, in order. */
  lemma {:induction false} NoDashes(argv: seq<string>, i: nat, noMore: bool)
    requires i <= |argv|
    requires forall k :: i <= k < |argv| ==> !IsDashed(argv[k])
    ensures Scan(argv, i, noMore) == (AllPositional(argv[i..]), false)
    decreases |argv| - i
  {
    if i < |argv| {
      assert argv[i] != "--";
      NoDashes(argv, i + 1, noMore);
      assert argv[i..][1..] == argv[i + 1..];
    }
  }

  /**
   * A dashed argument before any "--" gives one named result: the name is
   * what follows the one or two dashes up to the first '=' or ':', and the
   * value is the rest after it, or else the next argument.
   */
  lemma NamedArgument(argv: seq<string>, i: nat)
    requires i < |argv| && IsDashed(argv[i]) && argv[i] != "--"
    ensures var arg, r := argv[i], Scan(argv, i, false);
      var start := NameStart(arg);
      (r.0 == [] && r.1) || (
        |r.0| > 0 && r.0[0].Named? &&
        var name, value := r.0[0].name, r.0[0].value;
        (forall k :: 0 <= k < |name| ==> !IsSep(name[k]))
        && ((start + |name| < |arg| && arg == arg[..start] + name + [arg[start + |name|]] + value)
            || (arg == arg[..start] + name && i + 1 < |argv| && value == argv[i + 1])))
  {
    var arg := argv[i];
    var start := NameStart(arg);
    var sep := SepFrom(arg, start);
    if sep < |arg| {
      assert arg == arg[..start] + arg[start..sep] + [arg[sep]] + arg[sep + 1..];
    } else {
      assert arg == arg[..start] + arg[start..sep];
    }
  }

  /** A missing value is reported only for a dashed last argument with no '=' or ':'. */
  lemma {:induction false} MissingValueAtEnd(argv: seq<string>, i: nat, noMore: bool)
    requires i <= |argv|
    requires Scan(argv, i, noMore).1
    ensures |argv| > i && IsDashed(argv[|argv| - 1]) && argv[|argv| - 1] != "--"
    ensures var last := argv[|argv| - 1]; SepFrom(last, NameStart(last)) == |last|
    ensures Scan(argv, i, noMore).0 == [] ==> !noMore
    decreases |argv| - i
  {
    var arg := argv[i];
    if noMore {
      MissingValueAtEnd(argv, i + 1, true);
      AfterDoubleDash(argv, i + 1);
    } else if arg == "--" {
      AfterDoubleDash(argv, i + 1);
    } else if IsDashed(arg) {
      var sep := SepFrom(arg, NameStart(arg));
      if sep == |arg| && i + 1 < |argv| {
        MissingValueAtEnd(argv, i + 2, false);
      } else if sep < |arg| {
        MissingValueAtEnd(argv, i + 1, false);
      }
    } else {
      MissingValueAtEnd(argv, i + 1, false);
    }
  }

  /** The command line `prog -x` throws with no result, whatever the program name; MissingValueAtEnd states the general case. */
  lemma MissingValueExample(prog: string, flag: string)
    requires flag == "-x"
    ensures Parse([prog, flag]) == ([], true)
  {
    assert SepFrom(flag, 1) == SepFrom(flag, 2) == 2;
  }

  /** Each argv entry gives at most one result. */
  lemma {:induction false} AtMostOnePerArgument(argv: seq<string>, i: nat, noMore: bool)
    requires i <= |argv|
    ensures |Scan(argv, i, noMore).0| <= |argv| - i
    decreases |argv| - i
  {
    if i < |argv| {
      AtMostOnePerArgument(argv, i + 1, noMore);
      AtMostOnePerArgument(argv, i + 1, true);
      AtMostOnePerArgument(argv, i + 1, false);
      if i + 2 <= |argv| {
        AtMostOnePerArgument(argv, i + 2, false);
      }
    }
  }
}
