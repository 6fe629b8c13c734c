/**
 The command-line options of setup.py (_get_options): one pass over a copy of sys.argv that
 removes from sys.argv what it consumes.
 */
module SetupOptions {

  datatype Option<T> = None | Some(value: T)

  /** str.lower and str.strip. */
  datatype Text = Text(lower: string -> string, strip: string -> string)

  /** The option whose value is expected next. */
  datatype Key = NoKey | Cmake | CompilerFlags | Yes | No | G

  datatype Settings = Settings(
    options: seq<string>, config: string, cmakePath: Option<string>, extra: seq<string>, generatorSet: bool)

  datatype State = State(settings: Settings, key: Key)

  predicate IsGenerator(t: Text, arg: string) {
    arg == "-G" || t.lower(arg) == "--g"
  }

  predicate IsLong(arg: string) {
    |arg| >= 2 && arg[0] == '-' && arg[1] == '-'
  }

  /** Taking arg as the value of the pending option. */
  function TakeValue(t: Text, s: Settings, key: Key, arg: string): Settings {
    match key
    case NoKey => s
    case Cmake => s.(cmakePath := Some(arg))
    case CompilerFlags => s.(extra := s.extra + ["-DCMAKE_CXX_FLAGS=" + t.strip(arg)])
    case Yes => s.(extra := s.extra + ["-D" + t.strip(arg) + "=yes"])
    case No => s.(extra := s.extra + ["-D" + t.strip(arg) + "=no"])
    case G => s.(extra := s.extra + ["-G", t.strip(arg)], generatorSet := true)
  }

  /** One argument: the state afterwards and whether the argument is consumed. */
  function Step(t: Text, st: State, arg: string): (State, bool) {
    if st.key != NoKey then (State(TakeValue(t, st.settings, st.key, arg), NoKey), true)
    else if IsGenerator(t, arg) then (st.(key := G), true)
    else if !IsLong(arg) then (st, false)
    else
      var opt := t.lower(arg[2..]);
      if opt == "cmake" then (State(st.settings.(cmakePath := None), Cmake), true)
      else if opt == "yes" then (st.(key := Yes), true)
      else if opt == "no" then (st.(key := No), true)
      else if opt == "compiler-flags" then (st.(key := CompilerFlags), true)
      else if opt == "debug" then (st.(settings := st.settings.(config := "Debug")), true)
      else if opt == "release" then (st.(settings := st.settings.(config := "Release")), true)
      else if opt == "repackage" then (st.(settings := st.settings.(options := st.settings.options + [opt])), true)
      else (st, false)
  }

  /** Reading the arguments from left to right. */
  function Read(t: Text, st: State, args: seq<string>): State
    decreases |args|
  {
    if args == [] then st else Read(t, Step(t, st, args[0]).0, args[1..])
  }

  /** The arguments that are not consumed, in order. */
  function Kept(t: Text, st: State, args: seq<string>): seq<string>
    decreases |args|
  {
    if args == [] then []
    else (if Step(t, st, args[0]).1 then [] else [args[0]]) + Kept(t, Step(t, st, args[0]).0, args[1..])
  }

  function Consumed(t: Text, st: State, args: seq<string>): seq<string>
    decreases |args|
  {
    if args == [] then []
    else (if Step(t, st, args[0]).1 then [args[0]] else []) + Consumed(t, Step(t, st, args[0]).0, args[1..])
  }

  /** list.remove: drops the first element equal to x. */
  function RemoveFirst(xs: seq<string>, x: string): seq<string> {
    if xs == [] then []
    else if xs[0] == x then xs[1..]
    else [xs[0]] + RemoveFirst(xs[1..], x)
  }

  lemma {:induction false} RemoveFirstMultiset(xs: seq<string>, x: string)
    requires x in xs
    ensures multiset(RemoveFirst(xs, x)) == multiset(xs) - multiset{x}
  {
    assert xs == [xs[0]] + xs[1..];
    if xs[0] != x {
      RemoveFirstMultiset(xs[1..], x);
    }
  }

  lemma {:induction false} RemoveFirstOfConcat(front: seq<string>, rest: seq<string>, x: string)
    ensures RemoveFirst(front + rest, x) ==
            if x in front then RemoveFirst(front, x) + rest else front + RemoveFirst(rest, x)
  {
    if front == [] {
      assert front + rest == rest;
      assert front + RemoveFirst(rest, x) == RemoveFirst(rest, x);
    } else {
      var f, others := front[0], front[1..];
      assert front == [f] + others;
      assert (front + rest)[0] == f && (front + rest)[1..] == others + rest;
      if f != x {
        RemoveFirstOfConcat(others, rest, x);
        hide RemoveFirst;
        assert [f] + (RemoveFirst(others, x) + rest) == [f] + RemoveFirst(others, x) + rest;
        assert [f] + (others + RemoveFirst(rest, x)) == [f] + others + RemoveFirst(rest, x);
      }
    }
  }

  /** The interpreter's argument list. */
  class Sys {
    var argv: seq<string>

    constructor (argv: seq<string>)
      ensures this.argv == argv
    {
      this.argv := argv;
    }

    /** Raises an error unless x is present. */
    method Remove(x: string)
      requires x in argv
      modifies this
      ensures argv == RemoveFirst(old(argv), x)
    {
      var i := 0;
      while argv[i] != x
        invariant 0 <= i < |argv|
        invariant x !in argv[..i] && x in argv[i..]
        decreases |argv| - i
      {
        i := i + 1;
      }
      assert argv == argv[..i] + argv[i..];
      RemoveFirstOfConcat(argv[..i], argv[i..], x);
      assert argv[i..][1..] == argv[i + 1..];
      argv := argv[..i] + argv[i + 1..];
    }
  }

  method GetOptions(t: Text, sys: Sys, cmake: Option<string>) returns (settings: Settings)
    modifies sys
    ensures settings == Read(t, Initial(cmake), old(sys.argv)).settings
    ensures sys.argv == Remaining(t, Initial(cmake), [], old(sys.argv))
  {
    hide Step, FrontAfter, RemoveFirst;
    var argv := sys.argv;
    var st := Initial(cmake);
    ghost var front: seq<string> := [];
    for i := 0 to |argv|
      invariant sys.argv == front + argv[i..]
      invariant Read(t, st, argv[i..]) == Read(t, Initial(cmake), argv)
      invariant Remaining(t, st, front, argv[i..]) == Remaining(t, Initial(cmake), [], argv)
    {
      var arg := argv[i];
      assert argv[i..] == [arg] + argv[i + 1..];
      var (next, consumed) := Step(t, st, arg);
      if consumed {
        RemoveInFront(front, arg, argv[i + 1..]);
        sys.Remove(arg);
      } else {
        KeepInFront(front, arg, argv[i + 1..]);
      }
      front := FrontAfter(front, arg, consumed);
      st := next;
    }
    settings := st.settings;
  }

  function Initial(cmake: Option<string>): State {
    State(Settings([], "Release", cmake, [], false), NoKey)
  }

  /**
   What is left of the arguments already seen. Removing an argument that was kept before
   drops the earlier copy, so in effect it moves to the end.
   */
  function FrontAfter(front: seq<string>, arg: string, consumed: bool): seq<string> {
    if !consumed then front + [arg]
    else if arg in front then RemoveFirst(front, arg) + [arg]
    else front
  }

  function Remaining(t: Text, st: State, front: seq<string>, args: seq<string>): seq<string>
    decreases |args|
  {
    if args == [] then front
    else
      var (next, consumed) := Step(t, st, args[0]);
      Remaining(t, next, FrontAfter(front, args[0], consumed), args[1..])
  }

  lemma RemoveInFront(front: seq<string>, arg: string, rest: seq<string>)
    ensures RemoveFirst(front + ([arg] + rest), arg) == FrontAfter(front, arg, true) + rest
  {
    RemoveFirstOfConcat(front, [arg] + rest, arg);
    assert RemoveFirst([arg] + rest, arg) == rest;
    hide RemoveFirst;
    assert RemoveFirst(front, arg) + ([arg] + rest) == RemoveFirst(front, arg) + [arg] + rest;
  }

  lemma KeepInFront(front: seq<string>, arg: string, rest: seq<string>)
    ensures front + ([arg] + rest) == FrontAfter(front, arg, false) + rest
  {
  }

  // ---------- what the pass guarantees ----------

  /** sys.argv ends up with exactly the arguments that are not consumed, each as often as it was kept. */
  lemma {:induction false} RemainingIsKept(t: Text, st: State, front: seq<string>, args: seq<string>)
    ensures multiset(Remaining(t, st, front, args)) == multiset(front) + multiset(Kept(t, st, args))
    decreases |args|
  {
    hide Step;
    if args != [] {
      var (next, consumed) := Step(t, st, args[0]);
      var front' := FrontAfter(front, args[0], consumed);
      RemainingIsKept(t, next, front', args[1..]);
      if consumed && args[0] in front {
        RemoveFirstMultiset(front, args[0]);
      }
    }
  }

  /** Every argument is either kept or consumed. */
  lemma {:induction false} KeptAndConsumed(t: Text, st: State, args: seq<string>)
    ensures multiset(Kept(t, st, args)) + multiset(Consumed(t, st, args)) == multiset(args)
    decreases |args|
  {
    hide Step;
    if args != [] {
      var (next, consumed) := Step(t, st, args[0]);
      KeptAndConsumed(t, next, args[1..]);
      assert args == [args[0]] + args[1..];
      if consumed {
        assert Kept(t, st, args) == Kept(t, next, args[1..]);
      } else {
        assert Consumed(t, st, args) == Consumed(t, next, args[1..]);
      }
    }
  }

  /** So as a multiset it is the original minus exactly the options and values that were consumed. */
  lemma ArgvConserved(t: Text, cmake: Option<string>, args: seq<string>)
    ensures multiset(Remaining(t, Initial(cmake), [], args)) ==
            multiset(args) - multiset(Consumed(t, Initial(cmake), args))
  {
    RemainingIsKept(t, Initial(cmake), [], args);
    KeptAndConsumed(t, Initial(cmake), args);
  }

  // ---------- the order of what is left ----------

  /** Behind the first x in front there are only copies of x. */
  predicate OnlyCopiesBehind(front: seq<string>, x: string) {
    forall i, j :: 0 <= i < j < |front| && front[i] == x ==> front[j] == x
  }

  /** Moving an argument to the end shows unless it is already there. */
  lemma {:induction false} MoveUnseenIff(front: seq<string>, x: string)
    requires x in front
    ensures RemoveFirst(front, x) + [x] == front <==> OnlyCopiesBehind(front, x)
  {
    var f, others := front[0], front[1..];
    assert front == [f] + others;
    if f == x {
      AllCopies(others, x);
      assert OnlyCopiesBehind(front, x) <==> forall j :: 0 <= j < |others| ==> others[j] == x by {
        assert forall j :: 0 < j < |front| ==> front[j] == others[j - 1];
        assert forall j :: 0 <= j < |others| ==> others[j] == front[j + 1];
      }
    } else {
      MoveUnseenIff(others, x);
      var moved := RemoveFirst(others, x) + [x];
      assert RemoveFirst(front, x) + [x] == [f] + moved;
      assert ([f] + moved)[1..] == moved;
      assert OnlyCopiesBehind(front, x) <==> OnlyCopiesBehind(others, x) by {
        assert forall j :: 0 < j < |front| ==> front[j] == others[j - 1];
        assert forall j :: 0 <= j < |others| ==> others[j] == front[j + 1];
      }
    }
  }

  lemma {:induction false} AllCopies(others: seq<string>, x: string)
    ensures others + [x] == [x] + others <==> forall j :: 0 <= j < |others| ==> others[j] == x
  {
    if others != [] {
      var last := |others| - 1;
      AllCopies(others[..last], x);
      assert (others + [x])[..|others|] == others;
      assert ([x] + others)[..|others|] == [x] + others[..last];
      assert others == others[..last] + [others[last]];
      assert (others + [x])[last + 1] == x && ([x] + others)[last + 1] == others[last];
    }
  }

  /** Behind every consumed argument's first copy among those kept before it there are only more copies. */
  predicate MovesUnseen(t: Text, st: State, front: seq<string>, args: seq<string>)
    decreases |args|
  {
    args == [] ||
    var (next, consumed) := Step(t, st, args[0]);
    if consumed then OnlyCopiesBehind(front, args[0]) && MovesUnseen(t, next, front, args[1..])
    else MovesUnseen(t, next, front + [args[0]], args[1..])
  }

  /** After n arguments, what is left of them is what was kept of them, in order. */
  ghost predicate InOrderAfter(t: Text, st: State, front: seq<string>, args: seq<string>, n: nat)
    requires n <= |args|
  {
    Remaining(t, st, front, args[..n]) == front + Kept(t, st, args[..n])
  }

  ghost predicate AlwaysInOrder(t: Text, st: State, front: seq<string>, args: seq<string>) {
    forall n: nat :: n <= |args| ==> InOrderAfter(t, st, front, args, n)
  }

  /** The order is preserved all along exactly if no move of an argument to the end shows. */
  lemma {:induction false} OrderPreservedIff(t: Text, st: State, front: seq<string>, args: seq<string>)
    ensures AlwaysInOrder(t, st, front, args) <==> MovesUnseen(t, st, front, args)
    decreases |args|
  {
    if args == [] {
      assert args[..0] == [] && front + [] == front;
    } else {
      var (next, consumed) := Step(t, st, args[0]);
      var front' := if consumed then front else front + [args[0]];
      hide Step;
      OrderPreservedIff(t, next, front', args[1..]);
      if InOrderAfter(t, st, front, args, 1) {
        FirstMove(t, st, front, args);
      }
      if FrontAfter(front, args[0], consumed) == front' {
        InOrderNext(t, st, front, args);
      }
      if consumed && args[0] in front {
        MoveUnseenIff(front, args[0]);
      }
    }
  }

  lemma FirstMove(t: Text, st: State, front: seq<string>, args: seq<string>)
    requires args != [] && InOrderAfter(t, st, front, args, 1)
    ensures var (next, consumed) := Step(t, st, args[0]);
            FrontAfter(front, args[0], consumed) == front + if consumed then [] else [args[0]]
  {
    hide Step;
    var (next, consumed) := Step(t, st, args[0]);
    var one := args[..1];
    assert one == [args[0]] && one[1..] == [];
    assert Remaining(t, st, front, one) == Remaining(t, next, FrontAfter(front, args[0], consumed), []);
    assert Kept(t, st, one) == (if consumed then [] else [args[0]]) + Kept(t, next, []);
  }

  lemma InOrderShift(t: Text, st: State, front: seq<string>, args: seq<string>, n: nat)
    requires n < |args|
    requires var (next, consumed) := Step(t, st, args[0]);
             FrontAfter(front, args[0], consumed) == front + if consumed then [] else [args[0]]
    ensures var (next, consumed) := Step(t, st, args[0]);
            InOrderAfter(t, st, front, args, n + 1) <==>
            InOrderAfter(t, next, FrontAfter(front, args[0], consumed), args[1..], n)
  {
    hide Step;
    var (next, consumed) := Step(t, st, args[0]);
    var some, rest := args[..n + 1], args[1..];
    assert some[0] == args[0] && some[1..] == rest[..n];
    var kept := if consumed then [] else [args[0]];
    assert Kept(t, st, some) == kept + Kept(t, next, rest[..n]);
    assert front + (kept + Kept(t, next, rest[..n])) == front + kept + Kept(t, next, rest[..n]);
  }

  lemma InOrderNext(t: Text, st: State, front: seq<string>, args: seq<string>)
    requires args != []
    requires var (next, consumed) := Step(t, st, args[0]);
             FrontAfter(front, args[0], consumed) == front + if consumed then [] else [args[0]]
    ensures var (next, consumed) := Step(t, st, args[0]);
            AlwaysInOrder(t, st, front, args) <==>
            AlwaysInOrder(t, next, FrontAfter(front, args[0], consumed), args[1..])
  {
    var (next, consumed) := Step(t, st, args[0]);
    var front' := FrontAfter(front, args[0], consumed);
    assert args[..0] == [] && front + [] == front;
    assert InOrderAfter(t, st, front, args, 0);
    hide Step, InOrderAfter, FrontAfter;
    forall n: nat | n < |args|
      ensures InOrderAfter(t, st, front, args, n + 1) <==> InOrderAfter(t, next, front', args[1..], n)
    {
      InOrderShift(t, st, front, args, n);
    }
    if AlwaysInOrder(t, next, front', args[1..]) {
      forall n: nat | n <= |args| ensures InOrderAfter(t, st, front, args, n) {
        if n > 0 {
          assert InOrderAfter(t, next, front', args[1..], n - 1);
        }
      }
    }
  }

  // ---------- the final order ----------

  /** How many copies of s[p] there are from p on. */
  function Rank(s: seq<string>, p: nat): nat
    requires p < |s|
  {
    multiset(s[p..])[s[p]]
  }

  /** Of every string the last m[x] occurrences in args. */
  function Latest(args: seq<string>, m: multiset<string>): seq<string> {
    if args == [] then []
    else (if Rank(args, 0) <= m[args[0]] then [args[0]] else []) + Latest(args[1..], m)
  }

  lemma {:induction false} LatestOfConcat(args: seq<string>, x: string, m: multiset<string>)
    ensures Latest(args + [x], m + multiset{x}) == Latest(args, m) + [x]
  {
    var m' := m + multiset{x};
    var all := args + [x];
    if args == [] {
      assert all == [x] && all[1..] == [];
      assert Latest(all, m') == [x] + Latest([], m');
    } else {
      assert all[0] == args[0] && all[1..] == args[1..] + [x];
      LatestOfConcat(args[1..], x, m);
      assert all[0..] == all && args[0..] == args;
      assert Rank(all, 0) == Rank(args, 0) + if args[0] == x then 1 else 0;
      var h := if Rank(args, 0) <= m[args[0]] then [args[0]] else [];
      assert h + (Latest(args[1..], m) + [x]) == h + Latest(args[1..], m) + [x];
    }
  }

  /** It has as many copies of every string as asked for, if args has them. */
  lemma {:induction false} LatestCopies(args: seq<string>, m: multiset<string>, x: string)
    ensures multiset(Latest(args, m))[x] == if m[x] < multiset(args)[x] then m[x] else multiset(args)[x]
  {
    if args != [] {
      LatestCopies(args[1..], m, x);
      assert args == [args[0]] + args[1..] && args[0..] == args;
      var h := if Rank(args, 0) <= m[args[0]] then [args[0]] else [];
      assert multiset(Latest(args, m))[x] == multiset(h)[x] + multiset(Latest(args[1..], m))[x];
    }
  }

  lemma LatestMultiset(args: seq<string>, m: multiset<string>)
    requires m <= multiset(args)
    ensures multiset(Latest(args, m)) == m
  {
    hide Latest;
    forall x ensures multiset(Latest(args, m))[x] == m[x] {
      LatestCopies(args, m, x);
    }
  }

  /** Asking for more copies of x than there are makes no difference. */
  lemma {:induction false} LatestSaturated(args: seq<string>, m: multiset<string>, x: string)
    requires multiset(args)[x] <= m[x]
    ensures Latest(args, m + multiset{x}) == Latest(args, m)
  {
    if args != [] {
      assert args == [args[0]] + args[1..] && args[0..] == args;
      LatestSaturated(args[1..], m, x);
    }
  }

  /** One copy of x less is the list without its first x. */
  lemma {:induction false} LatestOneLess(args: seq<string>, m: multiset<string>, x: string)
    requires m[x] < multiset(args)[x]
    ensures Latest(args, m) == RemoveFirst(Latest(args, m + multiset{x}), x)
  {
    var m' := m + multiset{x};
    var a, rest := args[0], args[1..];
    assert args == [a] + rest && args[0..] == args;
    var tail := Latest(rest, m');
    if a == x && Rank(args, 0) <= m'[a] {
      LatestSaturated(rest, m, x);
      assert Latest(args, m') == [x] + tail;
    } else {
      LatestOneLess(rest, m, x);
      var h := if Rank(args, 0) <= m[a] then [a] else [];
      assert Latest(args, m') == h + tail && Latest(args, m) == h + RemoveFirst(tail, x);
      assert h == [] ==> h + tail == tail && h + RemoveFirst(tail, x) == RemoveFirst(tail, x);
      assert h == [a] ==> (h + tail)[1..] == tail;
    }
  }

  lemma {:induction false} LatestWithout(args: seq<string>, x: string, m: multiset<string>)
    requires m[x] == 0
    ensures Latest(args + [x], m) == Latest(args, m)
  {
    var all := args + [x];
    if args == [] {
      assert all == [x] && all[0..] == all && Latest(all, m) == [] + Latest([], m);
    } else {
      assert all[0] == args[0] && all[1..] == args[1..] + [x] && args[0..] == args && all[0..] == all;
      assert args == [args[0]] + args[1..];
      LatestWithout(args[1..], x, m);
    }
  }

  lemma FrontAfterIsLatest(seen: seq<string>, m: multiset<string>, x: string, consumed: bool)
    requires m <= multiset(seen)
    ensures FrontAfter(Latest(seen, m), x, consumed) == Latest(seen + [x], if consumed then m else m + multiset{x})
  {
    hide Latest, RemoveFirst;
    var front := Latest(seen, m);
    LatestMultiset(seen, m);
    assert x in m <==> x in multiset(front);
    if !consumed {
      LatestOfConcat(seen, x, m);
    } else if x in front {
      var less := m - multiset{x};
      assert m == less + multiset{x};
      LatestOneLess(seen, less, x);
      LatestOfConcat(seen, x, less);
    } else {
      LatestWithout(seen, x, m);
    }
  }

  lemma KeptCopies(t: Text, st: State, args: seq<string>, m: multiset<string>)
    requires args != []
    ensures var (next, consumed) := Step(t, st, args[0]);
            m + multiset(Kept(t, st, args)) ==
            (if consumed then m else m + multiset{args[0]}) + multiset(Kept(t, next, args[1..]))
  {
    hide Step;
  }

  lemma {:induction false} RemainingFrom(
    t: Text, st: State, seen: seq<string>, m: multiset<string>, args: seq<string>)
    requires m <= multiset(seen)
    ensures Remaining(t, st, Latest(seen, m), args) == Latest(seen + args, m + multiset(Kept(t, st, args)))
    decreases |args|
  {
    hide Step, Latest, FrontAfter;
    if args == [] {
      assert seen + args == seen;
      assert m + multiset([]) == m;
    } else {
      KeptCopies(t, st, args, m);
      hide Kept;
      var x := args[0];
      var (next, consumed) := Step(t, st, x);
      var m' := if consumed then m else m + multiset{x};
      FrontAfterIsLatest(seen, m, x, consumed);
      RemainingFrom(t, next, seen + [x], m', args[1..]);
      assert seen + [x] + args[1..] == seen + args;
    }
  }

  /**
   An argument that was kept m times ends up at the places of its last m occurrences among
   all arguments, consumed ones included.
   */
  lemma RemainingIsLatest(t: Text, cmake: Option<string>, args: seq<string>)
    ensures var st := Initial(cmake);
            Remaining(t, st, [], args) == Latest(args, multiset(Kept(t, st, args)))
  {
    var st := Initial(cmake);
    RemainingFrom(t, st, [], multiset{}, args);
    assert Latest([], multiset{}) == [];
    hide Latest;
    assert [] + args == args;
    assert multiset{} + multiset(Kept(t, st, args)) == multiset(Kept(t, st, args));
  }

  /** The position of the r-th occurrence of x in args, counted from the end. */
  function PlaceFromEnd(args: seq<string>, x: string, r: nat): nat {
    if args == [] || (args[0] == x && Rank(args, 0) == r) then 0 else 1 + PlaceFromEnd(args[1..], x, r)
  }

  lemma {:induction false} PlaceHasRank(args: seq<string>, x: string, r: nat)
    requires 1 <= r <= multiset(args)[x]
    ensures var p := PlaceFromEnd(args, x, r); p < |args| && args[p] == x && Rank(args, p) == r
  {
    CopiesInTail(args, x);
    hide Rank;
    if args[0] != x || Rank(args, 0) != r {
      PlaceHasRank(args[1..], x, r);
      RankOfTail(args, 1 + PlaceFromEnd(args[1..], x, r));
    }
  }

  lemma CopiesInTail(s: seq<string>, x: string)
    requires x in s
    ensures multiset(s)[x] == multiset(s[1..])[x] + if s[0] == x then 1 else 0
    ensures s[0] == x ==> Rank(s, 0) == multiset(s)[x]
  {
    assert s == [s[0]] + s[1..] && s[0..] == s;
  }

  lemma RankOfTail(s: seq<string>, p: nat)
    requires 1 <= p < |s|
    ensures Rank(s, p) == Rank(s[1..], p - 1)
  {
    assert s[1..][p - 1..] == s[p..];
  }

  lemma RankAtMost(s: seq<string>, p: nat)
    requires p < |s|
    ensures 1 <= Rank(s, p) <= multiset(s)[s[p]]
    ensures p > 0 && s[0] == s[p] ==> Rank(s, p) < multiset(s)[s[p]]
  {
    assert s == s[..p] + s[p..];
    assert s[p] in s[p..];
    assert p > 0 ==> s[..p][0] == s[0];
  }

  /** Where in args the i-th kept argument ends up: as many copies follow there as in kept. */
  function RestingPlace(args: seq<string>, kept: seq<string>, i: nat): nat
    requires i < |kept|
  {
    PlaceFromEnd(args, kept[i], Rank(kept, i))
  }

  /** The kept arguments end up in the order in which they were kept. */
  predicate RestInOrder(args: seq<string>, kept: seq<string>) {
    forall i: nat, j: nat :: i < j < |kept| ==> RestingPlace(args, kept, i) < RestingPlace(args, kept, j)
  }

  /** Placing the kept arguments at their last occurrences gives them back exactly if they rest in order. */
  lemma {:induction false} LatestIffInOrder(args: seq<string>, kept: seq<string>)
    requires multiset(kept) <= multiset(args)
    ensures Latest(args, multiset(kept)) == kept <==> RestInOrder(args, kept)
  {
    var m := multiset(kept);
    if args == [] {
      assert m == multiset{};
      assert kept == [];
    } else {
      var a, rest := args[0], args[1..];
      CopiesInTail(args, a);
      LatestUnfold(args, m);
      hide Latest, RestInOrder, Rank;
      if multiset(args)[a] > m[a] {
        FewerThanTail(args, m);
        LatestIffInOrder(rest, kept);
        SkipFirst(args, kept);
      } else {
        assert a in kept;
        if kept[0] == a {
          MatchFirst(args, kept);
          LatestAfterMatch(args, kept);
          LatestIffInOrder(rest, kept[1..]);
          ConsEqual(a, Latest(rest, m), kept);
        } else {
          FirstOutOfOrder(args, kept);
        }
      }
    }
  }

  lemma FewerThanTail(args: seq<string>, m: multiset<string>)
    requires args != [] && m <= multiset(args) && m[args[0]] < multiset(args)[args[0]]
    ensures m <= multiset(args[1..])
  {
    assert args == [args[0]] + args[1..];
  }

  lemma ConsEqual(a: string, xs: seq<string>, ys: seq<string>)
    requires ys != [] && ys[0] == a
    ensures [a] + xs == ys <==> xs == ys[1..]
  {
    assert ys == [a] + ys[1..];
    assert ([a] + xs)[1..] == xs;
  }

  lemma LatestUnfold(args: seq<string>, m: multiset<string>)
    requires args != []
    ensures Latest(args, m) ==
            if multiset(args)[args[0]] <= m[args[0]] then [args[0]] + Latest(args[1..], m) else Latest(args[1..], m)
  {
    assert args[0..] == args;
  }

  /** No kept argument rests at the first place. */
  lemma SkipFirst(args: seq<string>, kept: seq<string>)
    requires args != [] && multiset(args)[args[0]] > multiset(kept)[args[0]]
    ensures RestInOrder(args, kept) <==> RestInOrder(args[1..], kept)
  {
    assert args[0..] == args;
    forall i: nat | i < |kept| ensures RestingPlace(args, kept, i) == 1 + RestingPlace(args[1..], kept, i) {
      RankAtMost(kept, i);
    }
  }

  /** The first kept argument rests at the first place. */
  lemma MatchFirst(args: seq<string>, kept: seq<string>)
    requires args != [] && kept != [] && kept[0] == args[0]
    requires multiset(kept)[args[0]] == multiset(args)[args[0]]
    ensures RestInOrder(args, kept) <==> RestInOrder(args[1..], kept[1..])
  {
    var rest, others := args[1..], kept[1..];
    FirstRestsFirst(args, kept);
    forall i: nat | 1 <= i < |kept| ensures RestingPlace(args, kept, i) == 1 + RestingPlace(rest, others, i - 1) {
      RankAtMost(kept, i);
      RankOfTail(kept, i);
    }
    hide RestingPlace;
    if RestInOrder(args, kept) {
      forall i: nat, j: nat | i < j < |others| ensures RestingPlace(rest, others, i) < RestingPlace(rest, others, j) {
        assert RestingPlace(args, kept, i + 1) < RestingPlace(args, kept, j + 1);
      }
    }
  }

  lemma FirstRestsFirst(args: seq<string>, kept: seq<string>)
    requires args != [] && kept != [] && kept[0] == args[0]
    requires multiset(kept)[args[0]] == multiset(args)[args[0]]
    ensures RestingPlace(args, kept, 0) == 0
    ensures forall i :: 1 <= i < |kept| && kept[i] == args[0] ==> Rank(kept, i) < Rank(args, 0)
  {
    assert args[0..] == args && kept[0..] == kept;
    forall i | 1 <= i < |kept| && kept[i] == args[0] ensures Rank(kept, i) < Rank(args, 0) {
      RankAtMost(kept, i);
    }
  }

  lemma LatestAfterMatch(args: seq<string>, kept: seq<string>)
    requires args != [] && kept != [] && kept[0] == args[0]
    requires multiset(kept) <= multiset(args) && multiset(kept)[args[0]] == multiset(args)[args[0]]
    ensures multiset(kept[1..]) <= multiset(args[1..])
    ensures Latest(args[1..], multiset(kept)) == Latest(args[1..], multiset(kept[1..]))
  {
    var a, others := args[0], kept[1..];
    assert args == [a] + args[1..] && kept == [a] + others;
    assert multiset(others) + multiset{a} == multiset(kept);
    assert multiset(args[1..]) + multiset{a} == multiset(args);
    LatestSaturated(args[1..], multiset(others), a);
    forall x ensures multiset(others)[x] <= multiset(args[1..])[x] {
      assert multiset(kept)[x] <= multiset(args)[x];
    }
  }

  /** A later kept argument rests at the first place. */
  lemma FirstOutOfOrder(args: seq<string>, kept: seq<string>)
    requires args != [] && kept != [] && kept[0] != args[0]
    requires 1 <= multiset(kept)[args[0]] == multiset(args)[args[0]]
    ensures !RestInOrder(args, kept)
  {
    var a := args[0];
    var j := PlaceFromEnd(kept, a, multiset(kept)[a]);
    PlaceHasRank(kept, a, multiset(kept)[a]);
    assert args[0..] == args;
    assert !(RestingPlace(args, kept, 0) < RestingPlace(args, kept, j));
  }

  lemma KeptAreArguments(t: Text, st: State, args: seq<string>)
    ensures multiset(Kept(t, st, args)) <= multiset(args)
  {
    KeptAndConsumed(t, st, args);
  }

  /**
   What is left is in the original order exactly if the kept arguments rest in order. That is
   less than MovesUnseen asks for: a later move can undo an earlier one.
   */
  lemma FinalOrderIff(t: Text, cmake: Option<string>, args: seq<string>)
    ensures var kept := Kept(t, Initial(cmake), args);
            Remaining(t, Initial(cmake), [], args) == kept <==> RestInOrder(args, kept)
  {
    RemainingIsLatest(t, cmake, args);
    KeptAreArguments(t, Initial(cmake), args);
    LatestIffInOrder(args, Kept(t, Initial(cmake), args));
  }

  /** The value of --cmake can take the place of its earlier copy, which reorders what is left. */
  lemma EchoReorders(t: Text)
    requires t.lower("cmake") == "cmake"
    requires forall x :: x in {"a", "c", "--cmake"} ==> t.lower(x) != "--g"
    ensures var args := ["a", "c", "--cmake", "a"];
            && Kept(t, Initial(None), args) == ["a", "c"]
            && Remaining(t, Initial(None), [], args) == ["c", "a"]
  {
    var st := Initial(None);
    var args := ["a", "c", "--cmake", "a"];
    assert "--cmake"[2..] == "cmake";
    var pending := State(st.settings, Cmake);
    assert Step(t, st, "a") == (st, false) && Step(t, st, "c") == (st, false);
    assert Step(t, st, "--cmake") == (pending, true);
    var (last, consumed) := Step(t, pending, "a");
    hide Step;
    assert args[1..] == ["c", "--cmake", "a"] && args[1..][1..] == ["--cmake", "a"];
    assert ["--cmake", "a"][1..] == ["a"] && ["a"][1..] == [];
    assert Kept(t, pending, ["a"]) == [] + Kept(t, last, []);
    assert Kept(t, st, ["--cmake", "a"]) == [] + Kept(t, pending, ["a"]);
    assert Kept(t, st, ["c", "--cmake", "a"]) == ["c"] + Kept(t, st, ["--cmake", "a"]);
    assert RemoveFirst(["a", "c"], "a") + ["a"] == ["c", "a"];
    assert [] + ["a"] == ["a"] && ["a"] + ["c"] == ["a", "c"];
    assert Remaining(t, pending, ["a", "c"], ["a"]) == Remaining(t, last, ["c", "a"], []);
    assert Remaining(t, st, ["a", "c"], ["--cmake", "a"]) == Remaining(t, pending, ["a", "c"], ["a"]);
    assert Remaining(t, st, ["a"], ["c", "--cmake", "a"]) == Remaining(t, st, ["a", "c"], ["--cmake", "a"]);
  }

  ghost predicate Distinct(xs: seq<string>) {
    forall i, j :: 0 <= i < j < |xs| ==> xs[i] != xs[j]
  }

  lemma {:induction false} DistinctMovesUnseen(t: Text, st: State, front: seq<string>, args: seq<string>)
    requires Distinct(args)
    requires forall x :: x in front ==> x !in args
    ensures MovesUnseen(t, st, front, args)
    decreases |args|
  {
    hide Step;
    if args != [] {
      var (next, consumed) := Step(t, st, args[0]);
      assert args[0] in args && args[0] !in front;
      assert forall x :: x in args[1..] ==> x in args;
      DistinctMovesUnseen(t, next, if consumed then front else front + [args[0]], args[1..]);
    }
  }

  /** Distinct arguments keep their order, after every step and so in the end. */
  lemma DistinctArgumentsKeepOrder(t: Text, cmake: Option<string>, args: seq<string>)
    requires Distinct(args)
    ensures Remaining(t, Initial(cmake), [], args) == Kept(t, Initial(cmake), args)
  {
    var st := Initial(cmake);
    DistinctMovesUnseen(t, st, [], args);
    OrderPreservedIff(t, st, [], args);
    assert InOrderAfter(t, st, [], args, |args|);
    assert args[..|args|] == args;
    assert [] + Kept(t, st, args) == Kept(t, st, args);
  }
}
