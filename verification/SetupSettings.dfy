/**
 What the settings returned by _get_options mean in terms of the argument list itself: which
 arguments are options, which are values, and what each of them contributes.
 */
module SetupSettings {
  import opened SetupOptions

  // ---------- options and values ----------

  predicate NamesGenerator(t: Text, arg: string) {
    arg == "-G" || t.lower(arg) == "--g"
  }

  predicate NamesOption(t: Text, arg: string, name: string) {
    |arg| >= 2 && arg[..2] == "--" && t.lower(arg[2..]) == name
  }

  /** Argument i is a value: the argument before it is an option that takes one, and not a value itself. */
  predicate IsValue(t: Text, args: seq<string>, i: nat)
    requires i < |args|
    decreases i, 0
  {
    i > 0 &&
    (|| GeneratorAt(t, args, i - 1)
     || OptionAt(t, args, i - 1, "cmake")
     || OptionAt(t, args, i - 1, "compiler-flags")
     || OptionAt(t, args, i - 1, "yes")
     || OptionAt(t, args, i - 1, "no"))
  }

  /** Argument i is the option -G or --G. */
  predicate GeneratorAt(t: Text, args: seq<string>, i: nat)
    requires i < |args|
    decreases i, 1
  {
    !IsValue(t, args, i) && NamesGenerator(t, args[i])
  }

  /** Argument i is the long option of the given name. */
  predicate OptionAt(t: Text, args: seq<string>, i: nat, name: string)
    requires i < |args|
    decreases i, 1
  {
    !IsValue(t, args, i) && !NamesGenerator(t, args[i]) && NamesOption(t, args[i], name)
  }

  // ---------- what the arguments contribute ----------

  /** What argument i adds to the extra options for cmake. */
  function Added(t: Text, args: seq<string>, i: nat): seq<string>
    requires i < |args|
  {
    if !IsValue(t, args, i) then []
    else
      var value := t.strip(args[i]);
      if GeneratorAt(t, args, i - 1) then ["-G", value]
      else if OptionAt(t, args, i - 1, "compiler-flags") then ["-DCMAKE_CXX_FLAGS=" + value]
      else if OptionAt(t, args, i - 1, "yes") then ["-D" + value + "=yes"]
      else if OptionAt(t, args, i - 1, "no") then ["-D" + value + "=no"]
      else []
  }

  function AddedBefore(t: Text, args: seq<string>, n: nat): seq<string>
    requires n <= |args|
  {
    if n == 0 then [] else AddedBefore(t, args, n - 1) + Added(t, args, n - 1)
  }

  /** One "repackage" for each such option. */
  function Repackages(t: Text, args: seq<string>, n: nat): seq<string>
    requires n <= |args|
  {
    if n == 0 then []
    else Repackages(t, args, n - 1) + if OptionAt(t, args, n - 1, "repackage") then ["repackage"] else []
  }

  predicate Configures(t: Text, args: seq<string>, i: nat)
    requires i < |args|
  {
    OptionAt(t, args, i, "debug") || OptionAt(t, args, i, "release")
  }

  /** Argument i is the last --debug or --release before n. */
  ghost predicate LastConfig(t: Text, args: seq<string>, n: nat, i: nat)
    requires n <= |args|
  {
    i < n && Configures(t, args, i) && forall j: nat :: i < j < n ==> !Configures(t, args, j)
  }

  /** config is that of the last --debug or --release before n, or else "Release". */
  ghost predicate ConfigIsLast(t: Text, args: seq<string>, n: nat, config: string)
    requires n <= |args|
  {
    && ((forall i: nat :: i < n ==> !Configures(t, args, i)) ==> config == "Release")
    && (forall i: nat :: i < n && LastConfig(t, args, n, i) ==>
          config == if OptionAt(t, args, i, "debug") then "Debug" else "Release")
  }

  /** Argument i is the last --cmake before n. */
  ghost predicate LastCmake(t: Text, args: seq<string>, n: nat, i: nat)
    requires n <= |args|
  {
    i < n && OptionAt(t, args, i, "cmake") && forall j: nat :: i < j < n ==> !OptionAt(t, args, j, "cmake")
  }

  /** path is the value of the last --cmake before n, None if it has none, or else the initial one. */
  ghost predicate PathIsLast(t: Text, args: seq<string>, n: nat, initial: Option<string>, path: Option<string>)
    requires n <= |args|
  {
    && ((forall i: nat :: i < n ==> !OptionAt(t, args, i, "cmake")) ==> path == initial)
    && (forall i: nat :: LastCmake(t, args, n, i) ==> path == if i + 1 < n then Some(args[i + 1]) else None)
  }

  ghost predicate GeneratorHasValue(t: Text, args: seq<string>, n: nat)
    requires n <= |args|
  {
    exists i: nat :: i + 1 < n && GeneratorAt(t, args, i)
  }

  /** The option whose value is expected after the first n arguments. */
  function Expected(t: Text, args: seq<string>, n: nat): Key
    requires n <= |args|
  {
    if n == 0 then NoKey
    else if GeneratorAt(t, args, n - 1) then G
    else if OptionAt(t, args, n - 1, "cmake") then Cmake
    else if OptionAt(t, args, n - 1, "compiler-flags") then CompilerFlags
    else if OptionAt(t, args, n - 1, "yes") then Yes
    else if OptionAt(t, args, n - 1, "no") then No
    else NoKey
  }

  // ---------- reading agrees with that ----------

  lemma {:induction false} ReadSnoc(t: Text, st: State, args: seq<string>, arg: string)
    ensures Read(t, st, args + [arg]) == Step(t, Read(t, st, args), arg).0
    decreases |args|
  {
    hide Step;
    if args == [] {
      assert [] + [arg] == [arg] && [arg][1..] == [];
      assert Read(t, Step(t, st, arg).0, []) == Step(t, st, arg).0;
    } else {
      assert (args + [arg])[1..] == args[1..] + [arg];
      ReadSnoc(t, Step(t, st, args[0]).0, args[1..], arg);
    }
  }

  /** The state after the first n arguments. */
  function StateAfter(t: Text, cmake: Option<string>, args: seq<string>, n: nat): State
    requires n <= |args|
  {
    Read(t, Initial(cmake), args[..n])
  }

  lemma StateStep(t: Text, cmake: Option<string>, args: seq<string>, n: nat)
    requires n < |args|
    ensures StateAfter(t, cmake, args, n + 1) == Step(t, StateAfter(t, cmake, args, n), args[n]).0
  {
    assert args[..n + 1] == args[..n] + [args[n]];
    ReadSnoc(t, Initial(cmake), args[..n], args[n]);
  }

  lemma LongArgument(arg: string)
    ensures IsLong(arg) <==> |arg| >= 2 && arg[..2] == "--"
  {
  }

  lemma {:induction false} KeyIsExpected(t: Text, cmake: Option<string>, args: seq<string>, n: nat)
    requires n <= |args|
    ensures StateAfter(t, cmake, args, n).key == Expected(t, args, n)
    decreases n
  {
    if n > 0 {
      KeyIsExpected(t, cmake, args, n - 1);
      ExpectedIffValue(t, args, n - 1);
      StateStep(t, cmake, args, n - 1);
      LongArgument(args[n - 1]);
      hide StateAfter, IsValue;
    }
  }

  lemma ExpectedIffValue(t: Text, args: seq<string>, i: nat)
    requires i < |args|
    ensures IsValue(t, args, i) <==> Expected(t, args, i) != NoKey
  {
    hide GeneratorAt, OptionAt;
  }

  /** Argument i is taken out of sys.argv: a value, or one of the options. */
  predicate ConsumedAt(t: Text, args: seq<string>, i: nat)
    requires i < |args|
  {
    || IsValue(t, args, i)
    || GeneratorAt(t, args, i)
    || OptionAt(t, args, i, "cmake")
    || OptionAt(t, args, i, "compiler-flags")
    || OptionAt(t, args, i, "yes")
    || OptionAt(t, args, i, "no")
    || OptionAt(t, args, i, "debug")
    || OptionAt(t, args, i, "release")
    || OptionAt(t, args, i, "repackage")
  }

  /** A state expects a value: reading it as such. */
  lemma ValueMeaning(t: Text, args: seq<string>, n: nat, st: State)
    requires 0 < n < |args| && st.key == Expected(t, args, n) && st.key != NoKey
    ensures var s, s' := st.settings, TakeValue(t, st.settings, st.key, args[n]);
            && s'.extra == s.extra + Added(t, args, n)
            && s'.options == s.options && s'.config == s.config
            && s'.cmakePath == (if OptionAt(t, args, n - 1, "cmake") then Some(args[n]) else s.cmakePath)
            && (s'.generatorSet <==> s.generatorSet || GeneratorAt(t, args, n - 1))
  {
    ExpectedIffValue(t, args, n);
    OneOption(t, args, n - 1);
    hide IsValue, GeneratorAt, OptionAt;
  }

  /** An argument is at most one option. */
  lemma OneOption(t: Text, args: seq<string>, i: nat)
    requires i < |args|
    ensures forall x, y :: OptionAt(t, args, i, x) && OptionAt(t, args, i, y) ==> x == y
    ensures forall x :: OptionAt(t, args, i, x) ==> !GeneratorAt(t, args, i) && !IsValue(t, args, i)
    ensures GeneratorAt(t, args, i) ==> !IsValue(t, args, i)
  {
  }

  /** No value is expected: the argument may be an option. */
  lemma OptionMeaning(t: Text, args: seq<string>, n: nat, st: State)
    requires n < |args| && st.key == NoKey && !IsValue(t, args, n)
    ensures var (next, consumed) := Step(t, st, args[n]);
            var s, s' := st.settings, next.settings;
            && (consumed <==> ConsumedAt(t, args, n))
            && s'.extra == s.extra
            && s'.options == s.options + (if OptionAt(t, args, n, "repackage") then ["repackage"] else [])
            && s'.config == (if OptionAt(t, args, n, "debug") then "Debug"
                             else if OptionAt(t, args, n, "release") then "Release" else s.config)
            && s'.cmakePath == (if OptionAt(t, args, n, "cmake") then None else s.cmakePath)
            && s'.generatorSet == s.generatorSet
  {
    hide IsValue;
    LongArgument(args[n]);
    assert st.settings.options + [] == st.settings.options;
  }

  /** What reading argument n does to settings in a state that expects the right value. */
  lemma StepMeaning(t: Text, args: seq<string>, n: nat, st: State)
    requires n < |args| && st.key == Expected(t, args, n)
    ensures var (next, consumed) := Step(t, st, args[n]);
            var s, s' := st.settings, next.settings;
            && (consumed <==> ConsumedAt(t, args, n))
            && s'.extra == s.extra + Added(t, args, n)
            && s'.options == s.options + (if OptionAt(t, args, n, "repackage") then ["repackage"] else [])
            && s'.config == (if OptionAt(t, args, n, "debug") then "Debug"
                             else if OptionAt(t, args, n, "release") then "Release" else s.config)
            && s'.cmakePath == (if OptionAt(t, args, n, "cmake") then None
                                else if n > 0 && OptionAt(t, args, n - 1, "cmake") then Some(args[n])
                                else s.cmakePath)
            && (s'.generatorSet <==> s.generatorSet || (n > 0 && GeneratorAt(t, args, n - 1)))
  {
    hide IsValue, GeneratorAt, OptionAt, TakeValue;
    ExpectedIffValue(t, args, n);
    OneOption(t, args, n);
    if st.key == NoKey {
      OptionMeaning(t, args, n, st);
      assert st.settings.extra + [] == st.settings.extra;
    } else {
      ValueMeaning(t, args, n, st);
      assert st.settings.options + [] == st.settings.options;
    }
  }

  /** The step from n - 1 to n arguments, in these terms. */
  lemma LastStep(t: Text, cmake: Option<string>, args: seq<string>, n: nat)
    requires 0 < n <= |args|
    ensures var s, s' := StateAfter(t, cmake, args, n - 1).settings, StateAfter(t, cmake, args, n).settings;
            && s'.extra == s.extra + Added(t, args, n - 1)
            && s'.options == s.options + (if OptionAt(t, args, n - 1, "repackage") then ["repackage"] else [])
            && s'.config == (if OptionAt(t, args, n - 1, "debug") then "Debug"
                             else if OptionAt(t, args, n - 1, "release") then "Release" else s.config)
            && s'.cmakePath == (if OptionAt(t, args, n - 1, "cmake") then None
                                else if n > 1 && OptionAt(t, args, n - 2, "cmake") then Some(args[n - 1])
                                else s.cmakePath)
            && (s'.generatorSet <==> s.generatorSet || (n > 1 && GeneratorAt(t, args, n - 2)))
  {
    hide StateAfter, Step, OptionAt, GeneratorAt, IsValue, Added, Expected;
    KeyIsExpected(t, cmake, args, n - 1);
    StateStep(t, cmake, args, n - 1);
    StepMeaning(t, args, n - 1, StateAfter(t, cmake, args, n - 1));
  }

  lemma NothingRead(t: Text, cmake: Option<string>, args: seq<string>)
    ensures StateAfter(t, cmake, args, 0) == Initial(cmake)
  {
    assert args[..0] == [];
  }

  lemma {:induction false} ListsMeaning(t: Text, cmake: Option<string>, args: seq<string>, n: nat)
    requires n <= |args|
    ensures StateAfter(t, cmake, args, n).settings.extra == AddedBefore(t, args, n)
    ensures StateAfter(t, cmake, args, n).settings.options == Repackages(t, args, n)
    decreases n
  {
    hide StateAfter, OptionAt, GeneratorAt, IsValue, Added;
    if n == 0 {
      NothingRead(t, cmake, args);
    } else {
      ListsMeaning(t, cmake, args, n - 1);
      LastStep(t, cmake, args, n);
    }
  }

  lemma {:induction false} ConfigMeaning(t: Text, cmake: Option<string>, args: seq<string>, n: nat)
    requires n <= |args|
    ensures ConfigIsLast(t, args, n, StateAfter(t, cmake, args, n).settings.config)
    decreases n
  {
    hide StateAfter, OptionAt, Added;
    if n == 0 {
      NothingRead(t, cmake, args);
    } else {
      ConfigMeaning(t, cmake, args, n - 1);
      LastStep(t, cmake, args, n);
      hide ConfigIsLast;
      ConfigStep(
        t, args, n, StateAfter(t, cmake, args, n - 1).settings.config, StateAfter(t, cmake, args, n).settings.config);
    }
  }

  lemma ConfiguresIff(t: Text, args: seq<string>, i: nat)
    requires i < |args|
    ensures Configures(t, args, i) <==> OptionAt(t, args, i, "debug") || OptionAt(t, args, i, "release")
  {
    hide OptionAt;
  }

  lemma ConfigStep(t: Text, args: seq<string>, n: nat, config: string, config': string)
    requires 0 < n <= |args| && ConfigIsLast(t, args, n - 1, config)
    requires config' == if OptionAt(t, args, n - 1, "debug") then "Debug"
                        else if OptionAt(t, args, n - 1, "release") then "Release" else config
    ensures ConfigIsLast(t, args, n, config')
  {
    hide OptionAt, Configures, LastConfig;
    ConfiguresIff(t, args, n - 1);
    forall i: nat | i < n && LastConfig(t, args, n, i)
      ensures config' == if OptionAt(t, args, i, "debug") then "Debug" else "Release"
    {
      LastConfigBefore(t, args, n, i);
    }
  }

  lemma LastConfigBefore(t: Text, args: seq<string>, n: nat, i: nat)
    requires 0 < n <= |args| && LastConfig(t, args, n, i)
    ensures i < n && (i == n - 1 <==> Configures(t, args, n - 1))
    ensures i < n - 1 ==> LastConfig(t, args, n - 1, i)
  {
    hide Configures;
  }

  lemma {:induction false} PathMeaning(t: Text, cmake: Option<string>, args: seq<string>, n: nat)
    requires n <= |args|
    ensures PathIsLast(t, args, n, cmake, StateAfter(t, cmake, args, n).settings.cmakePath)
    decreases n
  {
    hide StateAfter, OptionAt, Added;
    if n == 0 {
      NothingRead(t, cmake, args);
    } else {
      PathMeaning(t, cmake, args, n - 1);
      LastStep(t, cmake, args, n);
      hide PathIsLast;
      PathStep(
        t, args, n, cmake, StateAfter(t, cmake, args, n - 1).settings.cmakePath,
        StateAfter(t, cmake, args, n).settings.cmakePath);
    }
  }

  lemma PathStep(
    t: Text, args: seq<string>, n: nat, initial: Option<string>, path: Option<string>, path': Option<string>)
    requires 0 < n <= |args| && PathIsLast(t, args, n - 1, initial, path)
    requires path' == if OptionAt(t, args, n - 1, "cmake") then None
                      else if n > 1 && OptionAt(t, args, n - 2, "cmake") then Some(args[n - 1])
                      else path
    ensures PathIsLast(t, args, n, initial, path')
  {
    hide OptionAt, LastCmake;
    forall i: nat | LastCmake(t, args, n, i)
      ensures path' == if i + 1 < n then Some(args[i + 1]) else None
    {
      LastCmakeBefore(t, args, n, i);
    }
  }

  lemma LastCmakeBefore(t: Text, args: seq<string>, n: nat, i: nat)
    requires 0 < n <= |args| && LastCmake(t, args, n, i)
    ensures i < n && (i == n - 1 <==> OptionAt(t, args, n - 1, "cmake"))
    ensures n > 1 && i < n - 1 ==> (i == n - 2 <==> OptionAt(t, args, n - 2, "cmake"))
    ensures i < n - 1 ==> LastCmake(t, args, n - 1, i)
  {
    hide OptionAt;
  }

  lemma {:induction false} GeneratorMeaning(t: Text, cmake: Option<string>, args: seq<string>, n: nat)
    requires n <= |args|
    ensures StateAfter(t, cmake, args, n).settings.generatorSet <==> GeneratorHasValue(t, args, n)
    decreases n
  {
    hide StateAfter, OptionAt, GeneratorAt, Added;
    if n == 0 {
      NothingRead(t, cmake, args);
    } else {
      GeneratorMeaning(t, cmake, args, n - 1);
      LastStep(t, cmake, args, n);
      if n > 1 && GeneratorAt(t, args, n - 2) {
        assert GeneratorHasValue(t, args, n);
      }
    }
  }

  /** The settings that are returned, in terms of the argument list. */
  lemma SettingsMeaning(t: Text, cmake: Option<string>, args: seq<string>)
    ensures var s, n := Read(t, Initial(cmake), args).settings, |args|;
            && s.extra == AddedBefore(t, args, n)
            && s.options == Repackages(t, args, n)
            && ConfigIsLast(t, args, n, s.config)
            && PathIsLast(t, args, n, cmake, s.cmakePath)
            && (s.generatorSet <==> GeneratorHasValue(t, args, n))
  {
    var n := |args|;
    assert args[..n] == args;
    assert StateAfter(t, cmake, args, n) == Read(t, Initial(cmake), args);
    hide StateAfter, ConfigIsLast, PathIsLast, GeneratorHasValue, AddedBefore, Repackages;
    ListsMeaning(t, cmake, args, n);
    ConfigMeaning(t, cmake, args, n);
    PathMeaning(t, cmake, args, n);
    GeneratorMeaning(t, cmake, args, n);
  }

  // ---------- what stays in sys.argv ----------

  /** The arguments before n that are neither values nor options. */
  function Others(t: Text, args: seq<string>, n: nat): seq<string>
    requires n <= |args|
  {
    if n == 0 then [] else Others(t, args, n - 1) + if ConsumedAt(t, args, n - 1) then [] else [args[n - 1]]
  }

  lemma {:induction false} KeptSnoc(t: Text, st: State, args: seq<string>, arg: string)
    ensures Kept(t, st, args + [arg]) ==
            Kept(t, st, args) + if Step(t, Read(t, st, args), arg).1 then [] else [arg]
    decreases |args|
  {
    hide Step;
    var all := args + [arg];
    if args == [] {
      assert all == [arg] && all[1..] == [];
    } else {
      var (next, consumed) := Step(t, st, args[0]);
      assert all[0] == args[0] && all[1..] == args[1..] + [arg];
      KeptSnoc(t, next, args[1..], arg);
      var kept := if consumed then [] else [args[0]];
      var last := if Step(t, Read(t, st, args), arg).1 then [] else [arg];
      assert kept + (Kept(t, next, args[1..]) + last) == kept + Kept(t, next, args[1..]) + last;
    }
  }

  lemma {:induction false} KeptBefore(t: Text, cmake: Option<string>, args: seq<string>, n: nat)
    requires n <= |args|
    ensures Kept(t, Initial(cmake), args[..n]) == Others(t, args, n)
    decreases n
  {
    if n > 0 {
      hide Step, ConsumedAt, Expected, Kept;
      KeptBefore(t, cmake, args, n - 1);
      assert args[..n] == args[..n - 1] + [args[n - 1]];
      KeptSnoc(t, Initial(cmake), args[..n - 1], args[n - 1]);
      KeyIsExpected(t, cmake, args, n - 1);
      StepMeaning(t, args, n - 1, StateAfter(t, cmake, args, n - 1));
    }
  }

  /** The arguments that are kept are those that are neither values nor options. */
  lemma KeptMeaning(t: Text, cmake: Option<string>, args: seq<string>)
    ensures Kept(t, Initial(cmake), args) == Others(t, args, |args|)
  {
    KeptBefore(t, cmake, args, |args|);
    assert args[..|args|] == args;
  }
}
