/**
 Google Mock's command line: flags are recognised and removed from argv in place,
 by shifting the rest of the array, trailing null included, one to the left.
 */
module ArgvFilter {
  import opened Base

  /** One entry of argv; None is the null pointer. */
  type Arg = Option<string>

  datatype Flags = Flags(catchLeakedMocks: bool, verbose: string)

  const PREFIX := "--gmock_"
  const CATCH_LEAKED_MOCKS := "catch_leaked_mocks"
  const VERBOSE := "verbose"

  /** The text after "--gmock_flag=", or the empty text if the value may be
      missing and is; None if this is not that flag. */
  function FlagValue(str: string, flag: string, defOptional: bool): Option<string> {
    var flagStr := PREFIX + flag;
    if !(flagStr <= str) then None
    else
      var flagEnd := str[|flagStr|..];
      if defOptional && flagEnd == [] then Some([])
      else if flagEnd == [] || flagEnd[0] != '=' then None
      else Some(flagEnd[1..])
  }

  /** A value is true unless it starts with 0, f or F. */
  function BoolFlag(str: string, flag: string): Option<bool> {
    match FlagValue(str, flag, true)
    case None => None
    case Some(v) => Some(!(v != [] && (v[0] == '0' || v[0] == 'f' || v[0] == 'F')))
  }

  /** The flags after one argument; None if it is not recognised.  The boolean
      flag is tried first. */
  function Recognise(flags: Flags, arg: Arg): Option<Flags> {
    if arg.None? then None
    else
      var b := BoolFlag(arg.value, CATCH_LEAKED_MOCKS);
      if b.Some? then Some(flags.(catchLeakedMocks := b.value))
      else
        var v := FlagValue(arg.value, VERBOSE, false);
        if v.Some? then Some(flags.(verbose := v.value)) else None
  }

  predicate IsFlag(arg: Arg) {
    arg.Some? && (BoolFlag(arg.value, CATCH_LEAKED_MOCKS).Some? || FlagValue(arg.value, VERBOSE, false).Some?)
  }

  // ----- The reference ---------------------------------------------------------------

  /** The unrecognised arguments, in order. */
  function Unrecognised(args: seq<Arg>): seq<Arg> {
    if args == [] then []
    else (if IsFlag(args[0]) then [] else [args[0]]) + Unrecognised(args[1..])
  }

  function FlagsAfter(args: seq<Arg>, flags: Flags): Flags {
    if args == [] then flags
    else
      var before := FlagsAfter(args[..|args| - 1], flags);
      var r := Recognise(before, args[|args| - 1]);
      if r.Some? then r.value else before
  }

  // ----- What the flags mean, in the text of the arguments -----------------------------

  predicate Falsy(v: string) {
    "0" <= v || "f" <= v || "F" <= v
  }

  predicate SetsCatch(arg: Arg) {
    arg.Some? && (arg.value == "--gmock_catch_leaked_mocks" || "--gmock_catch_leaked_mocks=" <= arg.value)
  }

  predicate SetsVerbose(arg: Arg) {
    arg.Some? && "--gmock_verbose=" <= arg.value
  }

  /** The last argument that carries the boolean flag decides it. */
  function LastBool(args: seq<Arg>, default: bool): bool {
    if args == [] then default
    else
      var last := args[|args| - 1];
      if SetsCatch(last) then last.value == "--gmock_catch_leaked_mocks" || !Falsy(last.value[27..])
      else LastBool(args[..|args| - 1], default)
  }

  function LastVerbose(args: seq<Arg>, default: string): string {
    if args == [] then default
    else
      var last := args[|args| - 1];
      if SetsVerbose(last) then last.value[16..] else LastVerbose(args[..|args| - 1], default)
  }

  /** Exactly these three shapes of an argument are flags, and get removed. */
  lemma FlagShapes(arg: Arg)
    ensures IsFlag(arg) <==> SetsCatch(arg) || SetsVerbose(arg)
    ensures arg.Some? && BoolFlag(arg.value, CATCH_LEAKED_MOCKS).Some? <==> SetsCatch(arg)
    ensures arg.Some? && FlagValue(arg.value, VERBOSE, false).Some? <==> SetsVerbose(arg)
  {
    hide FlagValue;
    if arg.Some? {
      FlagPrefix(arg.value, CATCH_LEAKED_MOCKS, true);
      FlagPrefix(arg.value, VERBOSE, false);
      Texts();
    }
  }

  lemma Texts()
    ensures PREFIX + CATCH_LEAKED_MOCKS == "--gmock_catch_leaked_mocks"
    ensures PREFIX + CATCH_LEAKED_MOCKS + "=" == "--gmock_catch_leaked_mocks="
    ensures PREFIX + VERBOSE + "=" == "--gmock_verbose="
  {
  }

  lemma FlagPrefix(str: string, flag: string, defOptional: bool)
    ensures FlagValue(str, flag, defOptional).Some? <==>
              (defOptional && str == PREFIX + flag) || PREFIX + flag + "=" <= str
  {
    var f := PREFIX + flag;
    if f <= str {
      assert str == f + str[|f|..];
      if |f| < |str| {
        assert (f + "=" <= str) <==> str[|f|] == '=';
      }
    }
  }

  lemma ValueOf(flag: string, defOptional: bool, v: string)
    ensures FlagValue(PREFIX + flag + "=" + v, flag, defOptional) == Some(v)
  {
    var f := PREFIX + flag;
    var str := f + "=" + v;
    assert f <= str && str[|f|..] == "=" + v;
    assert ("=" + v)[1..] == v;
  }

  /** "--gmock_catch_leaked_mocks=v" clears the flag exactly when v starts with 0, f or F. */
  lemma CatchText(flags: Flags, v: string)
    ensures Recognise(flags, Some("--gmock_catch_leaked_mocks=" + v)) ==
            Some(flags.(catchLeakedMocks := !("0" <= v || "f" <= v || "F" <= v)))
  {
    ValueOf(CATCH_LEAKED_MOCKS, true, v);
    Texts();
  }

  lemma BareCatchText(flags: Flags)
    ensures Recognise(flags, Some("--gmock_catch_leaked_mocks")) == Some(flags.(catchLeakedMocks := true))
  {
    var str := PREFIX + CATCH_LEAKED_MOCKS;
    Texts();
    assert str[|str|..] == [];
  }

  lemma VerboseText(flags: Flags, v: string)
    ensures Recognise(flags, Some("--gmock_verbose=" + v)) == Some(flags.(verbose := v))
  {
    var str := "--gmock_verbose=" + v;
    ValueOf(VERBOSE, false, v);
    Texts();
    FlagsAreDifferent(str);
  }

  /** No argument is both flags, so trying one first does not matter. */
  lemma FlagsAreDifferent(str: string)
    ensures BoolFlag(str, CATCH_LEAKED_MOCKS).None? || FlagValue(str, VERBOSE, false).None?
  {
    var c, v := PREFIX + CATCH_LEAKED_MOCKS, PREFIX + VERBOSE;
    assert c[8] != v[8];
    assert !(c <= str && v <= str);
  }

  /** Each flag ends up with the value its last occurrence spells out. */
  lemma {:induction false} LastOccurrenceWins(args: seq<Arg>, flags: Flags)
    ensures FlagsAfter(args, flags) == Flags(LastBool(args, flags.catchLeakedMocks), LastVerbose(args, flags.verbose))
  {
    if args != [] {
      LastOccurrenceWins(args[..|args| - 1], flags);
      OneArgument(FlagsAfter(args[..|args| - 1], flags), args[|args| - 1]);
    }
  }

  lemma OneArgument(flags: Flags, arg: Arg)
    ensures var r := Recognise(flags, arg);
            if SetsCatch(arg) then
              r == Some(flags.(catchLeakedMocks := arg.value == "--gmock_catch_leaked_mocks" || !Falsy(arg.value[27..])))
              && !SetsVerbose(arg)
            else if SetsVerbose(arg) then r == Some(flags.(verbose := arg.value[16..]))
            else r == None
  {
    FlagShapes(arg);
    hide Recognise, BoolFlag, FlagValue;
    if SetsCatch(arg) {
      if arg.value == "--gmock_catch_leaked_mocks" {
        BareCatchText(flags);
      } else {
        assert arg.value == "--gmock_catch_leaked_mocks=" + arg.value[27..];
        CatchText(flags, arg.value[27..]);
      }
      FlagsAreDifferent(arg.value);
    } else if SetsVerbose(arg) {
      assert arg.value == "--gmock_verbose=" + arg.value[16..];
      VerboseText(flags, arg.value[16..]);
    } else {
      RecognisesFlags(flags, arg);
    }
  }

  lemma {:induction false} UnrecognisedGrows(args: seq<Arg>, arg: Arg)
    ensures Unrecognised(args + [arg]) == Unrecognised(args) + (if IsFlag(arg) then [] else [arg])
  {
    if args == [] {
      assert args + [arg] == [arg];
    } else {
      UnrecognisedGrows(args[1..], arg);
      assert (args + [arg])[1..] == args[1..] + [arg];
    }
  }

  lemma FlagsGrow(args: seq<Arg>, arg: Arg, flags: Flags)
    ensures FlagsAfter(args + [arg], flags) ==
            var before := FlagsAfter(args, flags);
            if IsFlag(arg) then Recognise(before, arg).value else before
  {
    assert (args + [arg])[..|args|] == args;
  }

  /** What is left holds no flag, so a second pass finds nothing and sets nothing. */
  lemma {:induction false} SecondPassIsIdle(args: seq<Arg>, flags: Flags)
    ensures forall a :: a in Unrecognised(args) ==> a in args && !IsFlag(a)
    ensures Unrecognised(Unrecognised(args)) == Unrecognised(args)
    ensures FlagsAfter(Unrecognised(args), flags) == flags
  {
    if args != [] {
      var front, last := args[..|args| - 1], args[|args| - 1];
      hide IsFlag, FlagsAfter, Unrecognised, Recognise;
      assert args == front + [last];
      SecondPassIsIdle(front, flags);
      UnrecognisedGrows(front, last);
      if IsFlag(last) {
        assert Unrecognised(front) + [] == Unrecognised(front);
      } else {
        UnrecognisedGrows(Unrecognised(front), last);
        FlagsGrow(Unrecognised(front), last, flags);
      }
    }
  }

  /** Nothing is lost or made up: what is left plus the flags is what was given. */
  lemma {:induction false} Conserved(args: seq<Arg>)
    ensures multiset(args) == multiset(Unrecognised(args)) + multiset(Recognised(args))
    ensures forall a :: a in Recognised(args) ==> IsFlag(a)
  {
    if args != [] {
      Conserved(args[1..]);
      assert args == [args[0]] + args[1..];
    }
  }

  function Recognised(args: seq<Arg>): seq<Arg> {
    if args == [] then []
    else (if IsFlag(args[0]) then [args[0]] else []) + Recognised(args[1..])
  }

  // ----- In place ----------------------------------------------------------------------

  function Shifted(a: seq<Arg>, i: nat, argc: nat): seq<Arg>
    requires i <= argc < |a|
  {
    a[..i] + a[i + 1..argc + 1] + a[argc..]
  }

  /** Moves argv[i + 1 .. argc], the trailing null included, one to the left. */
  method ShiftLeft(argv: array<Arg>, i: nat, argc: nat)
    requires i < argc < argv.Length
    modifies argv
    ensures argv[..] == Shifted(old(argv[..]), i, argc)
  {
    var j := i;
    while j != argc
      invariant i <= j <= argc
      invariant forall k :: 0 <= k < argv.Length ==>
        argv[k] == if i <= k < j then old(argv[k + 1]) else old(argv[k])
      decreases argc - j
    {
      argv[j] := argv[j + 1];
      j := j + 1;
    }
    assert argv[..] == Shifted(old(argv[..]), i, argc);
  }

  /** `a` is the original `a0` with the first `k` arguments examined: `i` of the
      current array are done, `argc` are left in all, nulls follow. */
  ghost predicate Progress(a: seq<Arg>, a0: seq<Arg>, argc0: nat, i: nat, argc: nat) {
    && 1 <= i <= argc <= argc0 < |a0| == |a|
    && a[0] == a0[0]
    && a[1..i] == Unrecognised(a0[1..i + (argc0 - argc)])
    && a[i..argc] == a0[i + (argc0 - argc)..argc0]
    && (forall k :: argc <= k <= argc0 ==> a[k] == None)
    && a[argc0 + 1..] == a0[argc0 + 1..]
  }

  lemma KeepOne(a: seq<Arg>, a0: seq<Arg>, argc0: nat, i: nat, argc: nat)
    requires Progress(a, a0, argc0, i, argc) && i < argc && !IsFlag(a[i])
    ensures Progress(a, a0, argc0, i + 1, argc)
    ensures a[i] == a0[i + (argc0 - argc)]
  {
    var k := i + (argc0 - argc);
    assert a[i] == a[i..argc][0] == a0[k];
    UnrecognisedGrows(a0[1..k], a[i]);
    assert a0[1..k + 1] == a0[1..k] + [a[i]];
    assert a[1..i + 1] == a[1..i] + [a[i]];
    assert a[i + 1..argc] == a[i..argc][1..];
    assert a0[k + 1..argc0] == a0[k..argc0][1..];
  }

  lemma RemoveOne(a: seq<Arg>, a0: seq<Arg>, argc0: nat, i: nat, argc: nat)
    requires Progress(a, a0, argc0, i, argc) && i < argc && IsFlag(a[i])
    ensures Progress(Shifted(a, i, argc), a0, argc0, i, argc - 1)
    ensures a[i] == a0[i + (argc0 - argc)]
  {
    hide Shifted, Unrecognised, IsFlag;
    var k := i + (argc0 - argc);
    assert a[i] == a[i..argc][0] == a0[k];
    UnrecognisedGrows(a0[1..k], a[i]);
    assert a0[1..k + 1] == a0[1..k] + [a[i]];
    ShiftedParts(a, i, argc, argc0);
    assert a[i + 1..argc] == a[i..argc][1..];
    assert a0[k + 1..argc0] == a0[k..argc0][1..];
  }

  lemma ShiftedParts(a: seq<Arg>, i: nat, argc: nat, argc0: nat)
    requires 1 <= i < argc <= argc0 < |a|
    requires forall k :: argc <= k <= argc0 ==> a[k] == None
    ensures var a' := Shifted(a, i, argc);
            && |a'| == |a| && a'[0] == a[0]
            && a'[1..i] == a[1..i]
            && a'[i..argc - 1] == a[i + 1..argc]
            && (forall k :: argc - 1 <= k <= argc0 ==> a'[k] == None)
            && a'[argc0 + 1..] == a[argc0 + 1..]
  {
    var a' := Shifted(a, i, argc);
    assert forall k :: 0 <= k < |a| ==> a'[k] == if i <= k < argc then a[k + 1] else a[k];
  }

  lemma StartProgress(a0: seq<Arg>, argc: nat, flags: Flags)
    requires 0 < argc < |a0| && a0[argc] == None
    ensures Progress(a0, a0, argc, 1, argc) && FlagsAfter(a0[1..1], flags) == flags
  {
  }

  lemma EndProgress(a: seq<Arg>, a0: seq<Arg>, argc0: nat, argc: nat)
    requires Progress(a, a0, argc0, argc, argc)
    ensures 1 <= argc <= argc0 < |a0| == |a|
    ensures argc == 1 + |Unrecognised(a0[1..argc0])| && a[0] == a0[0]
    ensures a[1..argc] == Unrecognised(a0[1..argc0]) && a[argc0 + 1..] == a0[argc0 + 1..]
    ensures forall k :: argc <= k <= argc0 ==> a[k] == None
  {
    assert |a[1..argc]| == argc - 1;
  }

  lemma RecognisesFlags(flags: Flags, arg: Arg)
    ensures Recognise(flags, arg).Some? <==> IsFlag(arg)
  {
  }

  /** One round of the loop over argv, up to its increment of the index. */
  method Examine(argv: array<Arg>, i: nat, argc: nat, flags: Flags, ghost a0: seq<Arg>, ghost argc0: nat, ghost flags0: Flags)
    returns (i': int, argc': nat, flags': Flags)
    requires Progress(argv[..], a0, argc0, i, argc) && i < argc
    requires flags == FlagsAfter(a0[1..i + (argc0 - argc)], flags0)
    modifies argv
    ensures 0 <= i' && Progress(argv[..], a0, argc0, i' + 1, argc') && argc' - (i' + 1) < argc - i
    ensures flags' == FlagsAfter(a0[1..i' + 1 + (argc0 - argc')], flags0)
  {
    hide Unrecognised, FlagsAfter, IsFlag, Recognise;
    ghost var a, k := argv[..], i + (argc0 - argc);
    i', argc', flags' := i, argc, flags;
    RecognisesFlags(flags, argv[i]);
    FlagsGrow(a0[1..k], a0[k], flags0);
    assert a0[1..k + 1] == a0[1..k] + [a0[k]];
    var r := Recognise(flags, argv[i]);
    if r.Some? {
      RemoveOne(a, a0, argc0, i, argc);
      flags' := r.value;
      ShiftLeft(argv, i, argc);
      argc' := argc - 1;
      i' := i - 1;
    } else {
      KeepOne(a, a0, argc0, i, argc);
    }
  }

  /** Decrementing the loop variable still terminates: argc - i falls in every round. */
  method InitGoogleMock(argc: int, argv: array<Arg>, flags: Flags) returns (argc': int, flags': Flags)
    requires argc > 0 ==> argc < argv.Length && argv[argc] == None
    modifies argv
    ensures argc <= 0 ==> argc' == argc && flags' == flags && argv[..] == old(argv[..])
    ensures argc > 0 ==>
              var args := old(argv[1..argc]);
              && argc' == 1 + |Unrecognised(args)| <= argc
              && argv[0] == old(argv[0])
              && argv[1..argc'] == Unrecognised(args)
              && (forall k :: argc' <= k <= argc ==> argv[k] == None)
              && argv[argc + 1..] == old(argv[argc + 1..])
              && flags' == Flags(LastBool(args, flags.catchLeakedMocks), LastVerbose(args, flags.verbose))
  {
    argc', flags' := argc, flags;
    if argc <= 0 {
      return;
    }
    hide Progress, Unrecognised, FlagsAfter, LastBool, LastVerbose;
    ghost var a0 := argv[..];
    LastOccurrenceWins(a0[1..argc], flags);
    StartProgress(a0, argc, flags);
    var i := 1;
    while i != argc'
      invariant 1 <= i <= argc' <= argc
      invariant Progress(argv[..], a0, argc, i, argc')
      invariant flags' == FlagsAfter(a0[1..i + (argc - argc')], flags)
      decreases argc' - i
    {
      i, argc', flags' := Examine(argv, i, argc', flags', a0, argc, flags);
      i := i + 1;
      ProgressBounds(argv[..], a0, argc, i, argc');
    }
    EndProgress(argv[..], a0, argc, argc');
    assert a0[1..argc] == old(argv[1..argc]);
    assert argv[..][1..argc'] == argv[1..argc'];
    assert argv[..][argc + 1..] == argv[argc + 1..];
  }

  lemma ProgressBounds(a: seq<Arg>, a0: seq<Arg>, argc0: nat, i: nat, argc: nat)
    requires Progress(a, a0, argc0, i, argc)
    ensures 1 <= i <= argc <= argc0 < |a0| == |a|
  {
  }
}
