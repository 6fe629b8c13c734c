/**
 The block timers (dlib::timing): 500 slots with a 64-bit accumulator, from which start
 subtracts the current time and to which stop adds it, and a 40-byte name.
 */
module Timing {
  import opened Arithmetic
  import opened FixedWidth

  const TIME_SLOTS: nat := 500
  const NAME_LENGTH: nat := 40
  const MODULUS: nat := 0x1_0000_0000_0000_0000

  /** The calls since the program began; a start without a name carries the empty one. */
  datatype Event = Start(slot: nat, name: string, time: nat) | Stop(slot: nat, time: nat) | Clear

  /** Stop times minus start times of slot i since the last clear. */
  function Elapsed(h: seq<Event>, i: nat): int {
    if h == [] then 0
    else
      var e, before := h[|h| - 1], Elapsed(h[..|h| - 1], i);
      match e
      case Start(s, _, t) => if s == i then before - t else before
      case Stop(s, t) => if s == i then before + t else before
      case Clear => 0
  }

  /** The first non-empty name given to slot i since the last clear, cut to 39 characters. */
  function FirstName(h: seq<Event>, i: nat): string {
    if h == [] then ""
    else
      var e, before := h[|h| - 1], FirstName(h[..|h| - 1], i);
      match e
      case Start(s, name, _) => if s == i && before == "" then Cut(name) else before
      case Stop(_, _) => before
      case Clear => ""
  }

  function Cut(name: string): string {
    if |name| < NAME_LENGTH then name else name[..NAME_LENGTH - 1]
  }

  /** Call k names slot i: a start with a non-empty name, and no clear since. */
  predicate NamesSlot(h: seq<Event>, i: nat, k: nat)
    requires k < |h|
  {
    h[k].Start? && h[k].slot == i && h[k].name != "" && forall m :: k < m < |h| ==> !h[m].Clear?
  }

  /** It is the first call that does. */
  predicate NamesFirst(h: seq<Event>, i: nat, k: nat)
    requires k < |h|
  {
    NamesSlot(h, i, k) && forall j: nat :: j < k ==> !NamesSlot(h, i, j)
  }

  /** What stays of a name in a buffer of 40 characters, the last of which ends it. */
  ghost predicate CutName(name: string, kept: string) {
    kept <= name && |kept| == if |name| < 39 then |name| else 39
  }

  lemma NamesSlotBefore(h: seq<Event>, i: nat, k: nat)
    requires k + 1 < |h|
    ensures NamesSlot(h, i, k) <==> NamesSlot(h[..|h| - 1], i, k) && !h[|h| - 1].Clear?
  {
    assert forall m :: 0 <= m < |h| - 1 ==> h[..|h| - 1][m] == h[m];
  }

  /**
   A slot has no name exactly if no start since the last clear carried one; otherwise it has
   the name of the first of these starts, cut to 39 characters.
   */
  lemma {:induction false} FirstNameMeaning(h: seq<Event>, i: nat)
    ensures FirstName(h, i) == "" <==> forall k: nat :: k < |h| ==> !NamesSlot(h, i, k)
    ensures forall k: nat :: k < |h| && NamesFirst(h, i, k) ==> CutName(h[k].name, FirstName(h, i))
  {
    if h != [] {
      hide FirstName, NamesSlot, Cut;
      var u, n := h[..|h| - 1], |h| - 1;
      FirstNameMeaning(u, i);
      FirstNameUnfold(h, i);
      CutLaw(h[n]);
      forall k: nat | k < n ensures NamesSlot(h, i, k) <==> NamesSlot(u, i, k) && !h[n].Clear? {
        NamesSlotBefore(h, i, k);
      }
      NamesSlotLast(h, i);
    }
  }

  lemma CutLaw(e: Event)
    ensures e.Start? ==> CutName(e.name, Cut(e.name)) && (Cut(e.name) == "" <==> e.name == "")
  {
  }

  lemma NamesSlotLast(h: seq<Event>, i: nat)
    requires h != []
    ensures NamesSlot(h, i, |h| - 1) ==> h[|h| - 1].Start? && h[|h| - 1].name != ""
  {
  }

  lemma FirstNameUnfold(h: seq<Event>, i: nat)
    requires h != []
    ensures var before := FirstName(h[..|h| - 1], i);
            FirstName(h, i) == if h[|h| - 1].Clear? then ""
                               else if before == "" && NamesSlot(h, i, |h| - 1) then Cut(h[|h| - 1].name)
                               else before
  {
  }

  lemma ModStep(a: int, b: int, m: nat)
    requires m > 0
    ensures (a % m + b) % m == (a + b) % m
  {
    var q := a / m;
    assert a == q * m + a % m;
    ModCongruent(a % m + b, a + b, -q, m);
  }

  /** The static buffers. `history` records the calls; Valid says what they made of the buffers. */
  class Timers {
    const times: array<nat>
    const names: array<string>
    ghost var history: seq<Event>

    ghost predicate Valid()
      reads this, times, names
    {
      && times.Length == names.Length == TIME_SLOTS
      && (forall i :: 0 <= i < TIME_SLOTS ==> times[i] == Elapsed(history, i) % MODULUS)
      && (forall i :: 0 <= i < TIME_SLOTS ==> names[i] == FirstName(history, i))
    }

    constructor ()
      ensures Valid() && fresh(times) && fresh(names)
      ensures history == []
    {
      times := new nat[TIME_SLOTS](i => 0);
      names := new string[TIME_SLOTS](i => "");
      history := [];
    }

    /** Subtracts the time from the accumulator of the slot and names the slot if it has no name yet. */
    method Start(i: nat, name: string, now: nat)
      requires Valid() && i < TIME_SLOTS
      modifies this`history, times, names
      ensures Valid()
      ensures history == old(history) + [Event.Start(i, name, now)]
    {
      ModStep(Elapsed(history, i), -(now as int), MODULUS);
      times[i] := (times[i] - now) % MODULUS;
      if names[i] == "" {
        names[i] := Cut(name);
      }
      history := history + [Event.Start(i, name, now)];
      assert history[..|history| - 1] == old(history);
    }

    method Stop(i: nat, now: nat)
      requires Valid() && i < TIME_SLOTS
      modifies this`history, times
      ensures Valid()
      ensures history == old(history) + [Event.Stop(i, now)]
    {
      ModStep(Elapsed(history, i), now, MODULUS);
      times[i] := (times[i] + now) % MODULUS;
      history := history + [Event.Stop(i, now)];
      assert history[..|history| - 1] == old(history);
    }

    method Clear()
      requires Valid()
      modifies this`history, times, names
      ensures Valid()
      ensures history == old(history) + [Event.Clear]
      ensures forall i :: 0 <= i < TIME_SLOTS ==> times[i] == 0 && names[i] == ""
    {
      for i := 0 to TIME_SLOTS
        invariant forall k :: 0 <= k < i ==> times[k] == 0 && names[k] == ""
        invariant history == old(history)
      {
        times[i] := 0;
        names[i] := "";
      }
      history := history + [Event.Clear];
    }

    /** If the true total fits 64 bits, the accumulator holds it, whatever underflow there was in between. */
    lemma TotalIsExact(i: nat)
      requires Valid() && i < TIME_SLOTS
      ensures times[i] == Elapsed(history, i) <==> 0 <= Elapsed(history, i) < MODULUS
    {
    }

    /** The name of a slot is the first non-empty one it was given since the last clear. */
    lemma NameIsFirst(i: nat)
      requires Valid() && i < TIME_SLOTS
      ensures names[i] == "" <==> forall k: nat :: k < |history| ==> !NamesSlot(history, i, k)
      ensures forall k: nat :: k < |history| && NamesFirst(history, i, k) ==> CutName(history[k].name, names[i])
    {
      hide NamesSlot, NamesFirst;
      FirstNameMeaning(history, i);
    }
  }

  // ---------- what the total means ----------

  /** How many starts of slot i are not stopped yet. */
  function Running(h: seq<Event>, i: nat): int {
    if h == [] then 0
    else
      var e, before := h[|h| - 1], Running(h[..|h| - 1], i);
      match e
      case Start(s, _, _) => if s == i then before + 1 else before
      case Stop(s, _) => if s == i then before - 1 else before
      case Clear => 0
  }

  /** The time of the last start or stop, or 0. */
  function LastTime(h: seq<Event>): nat {
    if h == [] then 0
    else
      match h[|h| - 1]
      case Start(_, _, t) => t
      case Stop(_, t) => t
      case Clear => LastTime(h[..|h| - 1])
  }

  /** Time since the last clear, each moment weighted with the number of running starts of slot i. */
  function RunningTime(h: seq<Event>, i: nat): int {
    if h == [] then 0
    else
      var u, e := h[..|h| - 1], h[|h| - 1];
      if e.Clear? then 0 else RunningTime(u, i) + Running(u, i) * (LastTime(h) - LastTime(u))
  }

  /** When all starts of a slot have been stopped, its total is the time weighted with the nesting depth. */
  lemma {:induction false} ElapsedIsRunningTime(h: seq<Event>, i: nat)
    ensures Elapsed(h, i) + Running(h, i) * LastTime(h) == RunningTime(h, i)
  {
    if h != [] && !h[|h| - 1].Clear? {
      var u := h[..|h| - 1];
      ElapsedIsRunningTime(u, i);
      Weighted(Running(u, i), LastTime(h), LastTime(u));
      Next(Running(u, i), LastTime(h));
    }
  }

  lemma Weighted(d: int, t: int, t0: int)
    ensures d * (t - t0) == d * t - d * t0
  {
  }

  lemma Next(d: int, t: int)
    ensures (d + 1) * t == d * t + t && (d - 1) * t == d * t - t
  {
  }

  /** Times never go back and no slot is stopped more often than it was started. */
  ghost predicate Sane(h: seq<Event>, i: nat) {
    h != [] ==>
      var u := h[..|h| - 1];
      Sane(u, i) && LastTime(u) <= LastTime(h) && Running(h, i) >= 0
  }

  lemma {:induction false} RunningTimeNonNegative(h: seq<Event>, i: nat)
    requires Sane(h, i)
    ensures RunningTime(h, i) >= 0 && Running(h, i) >= 0
  {
    if h != [] {
      var u := h[..|h| - 1];
      RunningTimeNonNegative(u, i);
      MulNonNegative(Running(u, i), LastTime(h) - LastTime(u));
    }
  }

  /** A slot of which every start was stopped holds its running time, counted with multiplicity. */
  lemma BalancedTotal(timers: Timers, i: nat)
    requires timers.Valid() && i < TIME_SLOTS
    requires Sane(timers.history, i) && Running(timers.history, i) == 0
    requires RunningTime(timers.history, i) < MODULUS
    ensures timers.times[i] == RunningTime(timers.history, i)
  {
    ElapsedIsRunningTime(timers.history, i);
    RunningTimeNonNegative(timers.history, i);
    timers.TotalIsExact(i);
  }
}
