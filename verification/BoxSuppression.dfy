/**
 Suppression of overlapping training boxes (ignore_overlapped_boxes): of two boxes that
 overlap, the smaller one is set to be ignored. The flags and the count that the loops
 compute are also given in terms of the boxes they are called with.
 */
module BoxSuppression {
  import opened Rectangles

  /** The overlap test and the area of rectangles; nothing is assumed about them. */
  datatype Geometry<!R> = Geometry(overlaps: (R, R) -> bool, area: R -> nat)

  datatype Box<R> = Box(rect: R, ignore: bool)

  function Ignored<R>(b: seq<Box<R>>, k: nat): seq<Box<R>>
    requires k < |b|
  {
    b[k := b[k].(ignore := true)]
  }

  /** The turn of box i from its comparison with box j on: the boxes afterwards and the count. */
  function Turn<R>(g: Geometry<R>, b: seq<Box<R>>, i: nat, j: nat): (r: (seq<Box<R>>, nat))
    requires i < j <= |b|
    ensures |r.0| == |b|
    decreases |b| - j
  {
    if j == |b| then (b, 0)
    else if b[j].ignore || !g.overlaps(b[i].rect, b[j].rect) then Turn(g, b, i, j + 1)
    else
      var loser := if g.area(b[i].rect) < g.area(b[j].rect) then i else j;
      var (r, c) := Turn(g, Ignored(b, loser), i, j + 1);
      (r, c + 1)
  }

  /** The turns of the boxes from i on. */
  function Turns<R>(g: Geometry<R>, b: seq<Box<R>>, i: nat): (r: (seq<Box<R>>, nat))
    requires i <= |b|
    ensures |r.0| == |b|
    decreases |b| - i
  {
    if i == |b| then (b, 0)
    else if b[i].ignore then Turns(g, b, i + 1)
    else
      var (s, c) := Turn(g, b, i, i + 1);
      var (r, d) := Turns(g, s, i + 1);
      (r, c + d)
  }

  method IgnoreOverlappedBoxes<R>(g: Geometry<R>, boxes: array<Box<R>>) returns (numIgnored: nat)
    modifies boxes
    ensures (boxes[..], numIgnored) == Turns(g, old(boxes[..]), 0)
  {
    ghost var whole := Turns(g, boxes[..], 0);
    numIgnored := 0;
    for i := 0 to boxes.Length
      invariant Turns(g, boxes[..], i).0 == whole.0
      invariant numIgnored + Turns(g, boxes[..], i).1 == whole.1
    {
      if boxes[i].ignore {
        continue;
      }
      ghost var turn, before := Turn(g, boxes[..], i, i + 1), numIgnored;
      for j := i + 1 to boxes.Length
        invariant Turn(g, boxes[..], i, j).0 == turn.0
        invariant numIgnored - before + Turn(g, boxes[..], i, j).1 == turn.1
      {
        if boxes[j].ignore {
          continue;
        }
        if g.overlaps(boxes[i].rect, boxes[j].rect) {
          ghost var b := boxes[..];
          numIgnored := numIgnored + 1;
          if g.area(boxes[i].rect) < g.area(boxes[j].rect) {
            boxes[i] := boxes[i].(ignore := true);
            assert boxes[..] == Ignored(b, i);
          } else {
            boxes[j] := boxes[j].(ignore := true);
            assert boxes[..] == Ignored(b, j);
          }
        }
      }
    }
  }

  // ---------- what the suppression guarantees ----------

  /** Only ignore flags change, and they are only turned on. */
  ghost predicate OnlyIgnores<R>(b: seq<Box<R>>, r: seq<Box<R>>) {
    && |r| == |b|
    && forall k :: 0 <= k < |b| ==> r[k].rect == b[k].rect && (b[k].ignore ==> r[k].ignore)
  }

  lemma {:induction false} TurnOnlyIgnores<R>(g: Geometry<R>, b: seq<Box<R>>, i: nat, j: nat)
    requires i < j <= |b|
    ensures OnlyIgnores(b, Turn(g, b, i, j).0)
    ensures forall k :: 0 <= k < j && k != i ==> Turn(g, b, i, j).0[k] == b[k]
    decreases |b| - j
  {
    if j < |b| {
      TurnOnlyIgnores(g, b, i, j + 1);
      TurnOnlyIgnores(g, Ignored(b, i), i, j + 1);
      TurnOnlyIgnores(g, Ignored(b, j), i, j + 1);
    }
  }

  lemma {:induction false} TurnsOnlyIgnore<R>(g: Geometry<R>, b: seq<Box<R>>, i: nat)
    requires i <= |b|
    ensures OnlyIgnores(b, Turns(g, b, i).0)
    decreases |b| - i
  {
    if i < |b| {
      TurnsOnlyIgnore(g, b, i + 1);
      TurnOnlyIgnores(g, b, i, i + 1);
      TurnsOnlyIgnore(g, Turn(g, b, i, i + 1).0, i + 1);
    }
  }

  /** Kept boxes p and q, in this order, do not overlap. */
  ghost predicate Apart<R>(g: Geometry<R>, b: seq<Box<R>>, p: nat, q: nat)
    requires p < |b| && q < |b|
  {
    b[p].ignore || b[q].ignore || !g.overlaps(b[p].rect, b[q].rect)
  }

  lemma {:induction false} TurnSeparates<R>(g: Geometry<R>, b: seq<Box<R>>, i: nat, j: nat)
    requires i < j <= |b|
    ensures forall q :: j <= q < |b| ==> Apart(g, Turn(g, b, i, j).0, i, q)
    decreases |b| - j
  {
    if j < |b| {
      TurnSeparates(g, b, i, j + 1);
      TurnSeparates(g, Ignored(b, i), i, j + 1);
      TurnSeparates(g, Ignored(b, j), i, j + 1);
      TurnOnlyIgnores(g, b, i, j + 1);
      TurnOnlyIgnores(g, Ignored(b, i), i, j + 1);
      TurnOnlyIgnores(g, Ignored(b, j), i, j + 1);
    }
  }

  /** Afterwards no two kept boxes overlap. */
  lemma {:induction false} TurnsSeparate<R>(g: Geometry<R>, b: seq<Box<R>>, i: nat)
    requires i <= |b|
    ensures forall p, q :: i <= p < q < |b| ==> Apart(g, Turns(g, b, i).0, p, q)
    decreases |b| - i
  {
    if i < |b| {
      var s := if b[i].ignore then b else Turn(g, b, i, i + 1).0;
      var r := Turns(g, b, i).0;
      if !b[i].ignore {
        TurnSeparates(g, b, i, i + 1);
      }
      TurnsSeparate(g, s, i + 1);
      TurnsOnlyIgnore(g, s, i + 1);
      assert r == Turns(g, s, i + 1).0;
      forall q | i < q < |b| ensures Apart(g, r, i, q) {
        assert Apart(g, s, i, q);
      }
    }
  }

  /** Box k was newly ignored because of box m: kept at first, overlapping, and at least as large. */
  ghost predicate Because<R>(g: Geometry<R>, b: seq<Box<R>>, k: nat, m: nat)
    requires k < |b| && m < |b|
  {
    && !b[m].ignore
    && (if k < m then g.overlaps(b[k].rect, b[m].rect) && g.area(b[k].rect) < g.area(b[m].rect)
        else m < k && g.overlaps(b[m].rect, b[k].rect) && g.area(b[k].rect) <= g.area(b[m].rect))
  }

  ghost predicate Justified<R>(g: Geometry<R>, b: seq<Box<R>>, r: seq<Box<R>>)
    requires |r| == |b|
  {
    forall k: nat :: k < |b| && r[k].ignore && !b[k].ignore ==> exists m: nat :: m < |b| && Because(g, b, k, m)
  }

  /** Later states keep the justification: their reasons hold of the first state. */
  lemma JustifiedFrom<R>(g: Geometry<R>, b: seq<Box<R>>, s: seq<Box<R>>, r: seq<Box<R>>)
    requires OnlyIgnores(b, s) && |r| == |b|
    requires Justified(g, b, s) && Justified(g, s, r)
    ensures Justified(g, b, r)
  {
    forall k: nat | k < |b| && r[k].ignore && !b[k].ignore ensures exists m: nat :: m < |b| && Because(g, b, k, m) {
      if !s[k].ignore {
        var m: nat :| m < |s| && Because(g, s, k, m);
        assert Because(g, b, k, m);
      }
    }
  }

  lemma {:induction false} TurnJustified<R>(g: Geometry<R>, b: seq<Box<R>>, b0: seq<Box<R>>, i: nat, j: nat)
    requires i < j <= |b|
    requires OnlyIgnores(b0, b) && !b0[i].ignore && Justified(g, b0, b)
    ensures Justified(g, b0, Turn(g, b, i, j).0)
    decreases |b| - j
  {
    if j < |b| {
      if b[j].ignore || !g.overlaps(b[i].rect, b[j].rect) {
        TurnJustified(g, b, b0, i, j + 1);
      } else if g.area(b[i].rect) < g.area(b[j].rect) {
        assert Because(g, b0, i, j);
        TurnJustified(g, Ignored(b, i), b0, i, j + 1);
      } else {
        assert Because(g, b0, j, i);
        TurnJustified(g, Ignored(b, j), b0, i, j + 1);
      }
    }
  }

  /** Every newly ignored box overlaps an initially kept box of at least its area. */
  lemma {:induction false} TurnsJustified<R>(g: Geometry<R>, b: seq<Box<R>>, i: nat)
    requires i <= |b|
    ensures Justified(g, b, Turns(g, b, i).0)
    decreases |b| - i
  {
    if i < |b| {
      if b[i].ignore {
        TurnsJustified(g, b, i + 1);
      } else {
        var s := Turn(g, b, i, i + 1).0;
        TurnJustified(g, b, b, i, i + 1);
        TurnOnlyIgnores(g, b, i, i + 1);
        TurnsJustified(g, s, i + 1);
        JustifiedFrom(g, b, s, Turns(g, s, i + 1).0);
      }
    }
  }

  /** f is the first kept box of largest area. */
  ghost predicate FirstLargest<R>(g: Geometry<R>, b: seq<Box<R>>, f: nat) {
    && f < |b| && !b[f].ignore
    && forall k: nat :: k < |b| && !b[k].ignore ==>
         g.area(b[k].rect) < g.area(b[f].rect) || (g.area(b[k].rect) == g.area(b[f].rect) && f <= k)
  }

  /** The first kept box of largest area survives. */
  lemma FirstLargestSurvives<R>(g: Geometry<R>, b: seq<Box<R>>, f: nat)
    requires FirstLargest(g, b, f)
    ensures !Turns(g, b, 0).0[f].ignore
  {
    TurnsJustified(g, b, 0);
    assert forall m: nat :: m < |b| ==> !Because(g, b, f, m);
  }

  // ---------- the returned count ----------

  function CountIgnored<R>(b: seq<Box<R>>): nat {
    if b == [] then 0 else CountIgnored(b[..|b| - 1]) + if b[|b| - 1].ignore then 1 else 0
  }

  lemma {:induction false} CountIgnoredOneMore<R>(b: seq<Box<R>>, k: nat)
    requires k < |b|
    ensures CountIgnored(Ignored(b, k)) == CountIgnored(b) + if b[k].ignore then 0 else 1
  {
    var n := |b| - 1;
    if k == n {
      assert Ignored(b, k)[..n] == b[..n];
    } else {
      assert Ignored(b, k)[..n] == Ignored(b[..n], k);
      CountIgnoredOneMore(b[..n], k);
    }
  }

  /** The kept boxes from j on that overlap box i and are larger. */
  function Larger<R>(g: Geometry<R>, b: seq<Box<R>>, i: nat, j: nat): nat
    requires i < j <= |b|
    decreases |b| - j
  {
    if j == |b| then 0
    else
      Larger(g, b, i, j + 1) +
      if !b[j].ignore && g.overlaps(b[i].rect, b[j].rect) && g.area(b[i].rect) < g.area(b[j].rect) then 1 else 0
  }

  /** What a turn counts too much: the larger boxes after the first one. */
  function TurnExcess(larger: nat, alreadyIgnored: bool): nat {
    if alreadyIgnored then larger else if larger == 0 then 0 else larger - 1
  }

  lemma {:induction false} LargerUnchanged<R>(g: Geometry<R>, b: seq<Box<R>>, i: nat, k: nat, j: nat)
    requires i < j <= |b| && k < j
    ensures Larger(g, Ignored(b, k), i, j) == Larger(g, b, i, j)
    decreases |b| - j
  {
    if j < |b| {
      LargerUnchanged(g, b, i, k, j + 1);
    }
  }

  lemma {:induction false} TurnCount<R>(g: Geometry<R>, b: seq<Box<R>>, i: nat, j: nat)
    requires i < j <= |b|
    ensures var (r, c) := Turn(g, b, i, j);
            c == CountIgnored(r) - CountIgnored(b) + TurnExcess(Larger(g, b, i, j), b[i].ignore)
    decreases |b| - j
  {
    if j < |b| {
      if b[j].ignore || !g.overlaps(b[i].rect, b[j].rect) {
        TurnCount(g, b, i, j + 1);
      } else {
        var loser := if g.area(b[i].rect) < g.area(b[j].rect) then i else j;
        TurnCount(g, Ignored(b, loser), i, j + 1);
        LargerUnchanged(g, b, i, loser, j + 1);
        CountIgnoredOneMore(b, loser);
      }
    }
  }

  // ---------- the outcome, read off the boxes the loops are called with ----------

  /** Box q beats the later box k: they overlap and k is not larger. */
  predicate Beats<R>(g: Geometry<R>, b: seq<Box<R>>, q: nat, k: nat)
    requires q < |b| && k < |b|
  {
    g.overlaps(b[q].rect, b[k].rect) && g.area(b[q].rect) >= g.area(b[k].rect)
  }

  /**
   Box k is still kept when box i has its turn: it is kept at first and not beaten by a box
   that was itself still kept on its own turn.
   */
  predicate KeptAt<R>(g: Geometry<R>, b: seq<Box<R>>, i: nat, k: nat)
    requires i <= |b| && k < |b|
    decreases i
  {
    !b[k].ignore && forall q: nat :: q < i && KeptAt(g, b, q, q) ==> !Beats(g, b, q, k)
  }

  /** On its turn box i meets the kept box k, which overlaps it and is larger. */
  predicate MeetsLarger<R>(g: Geometry<R>, b: seq<Box<R>>, i: nat, k: nat)
    requires i < |b| && k < |b|
  {
    i < k && KeptAt(g, b, i, k) && g.overlaps(b[i].rect, b[k].rect) && g.area(b[i].rect) < g.area(b[k].rect)
  }

  /** Box k is kept on its turn and meets no larger box then. */
  predicate Survives<R>(g: Geometry<R>, b: seq<Box<R>>, k: nat)
    requires k < |b|
  {
    KeptAt(g, b, k, k) && forall j: nat :: j < |b| ==> !MeetsLarger(g, b, k, j)
  }

  /** What the turn of box i does to itself and to the boxes behind it. */
  lemma {:induction false} TurnEffect<R>(g: Geometry<R>, b: seq<Box<R>>, i: nat, j: nat)
    requires i < j <= |b|
    ensures forall k: nat :: j <= k < |b| ==>
              (Turn(g, b, i, j).0[k].ignore <==> b[k].ignore || Beats(g, b, i, k))
    ensures Turn(g, b, i, j).0[i].ignore <==> b[i].ignore || Larger(g, b, i, j) > 0
    decreases |b| - j
  {
    if j < |b| {
      if b[j].ignore || !g.overlaps(b[i].rect, b[j].rect) {
        TurnEffect(g, b, i, j + 1);
        TurnOnlyIgnores(g, b, i, j + 1);
      } else {
        var loser := if g.area(b[i].rect) < g.area(b[j].rect) then i else j;
        TurnEffect(g, Ignored(b, loser), i, j + 1);
        TurnOnlyIgnores(g, Ignored(b, loser), i, j + 1);
        LargerUnchanged(g, b, i, loser, j + 1);
      }
    }
  }

  /** How many larger boxes from j on box i meets. */
  function LargerMet<R>(g: Geometry<R>, b: seq<Box<R>>, i: nat, j: nat): nat
    requires i < j <= |b|
    decreases |b| - j
  {
    if j == |b| then 0 else LargerMet(g, b, i, j + 1) + if MeetsLarger(g, b, i, j) then 1 else 0
  }

  ghost predicate OneMet<R>(g: Geometry<R>, b: seq<Box<R>>, i: nat, j: nat)
    requires i < j <= |b|
  {
    exists k: nat :: j <= k < |b| && MeetsLarger(g, b, i, k)
  }

  ghost predicate TwoMet<R>(g: Geometry<R>, b: seq<Box<R>>, i: nat, j: nat)
    requires i < j <= |b|
  {
    exists k: nat, m: nat :: j <= k < m < |b| && MeetsLarger(g, b, i, k) && MeetsLarger(g, b, i, m)
  }

  lemma {:induction false} LargerMetCounts<R>(g: Geometry<R>, b: seq<Box<R>>, i: nat, j: nat)
    requires i < j <= |b|
    ensures LargerMet(g, b, i, j) > 0 <==> OneMet(g, b, i, j)
    ensures LargerMet(g, b, i, j) > 1 <==> TwoMet(g, b, i, j)
    decreases |b| - j
  {
    hide MeetsLarger;
    if j < |b| {
      LargerMetCounts(g, b, i, j + 1);
      assert OneMet(g, b, i, j) <==> OneMet(g, b, i, j + 1) || MeetsLarger(g, b, i, j);
      if TwoMet(g, b, i, j) && !TwoMet(g, b, i, j + 1) {
        var k: nat, m: nat :| j <= k < m < |b| && MeetsLarger(g, b, i, k) && MeetsLarger(g, b, i, m);
        assert k == j;
        assert OneMet(g, b, i, j + 1);
      }
    }
  }

  /** s is what the turns before that of box i have made of b. */
  ghost predicate AtTurn<R>(g: Geometry<R>, b: seq<Box<R>>, s: seq<Box<R>>, i: nat) {
    && i <= |b| == |s|
    && (forall k: nat :: k < |b| ==> s[k].rect == b[k].rect)
    && (forall k: nat :: k < i ==> (s[k].ignore <==> !Survives(g, b, k)))
    && (forall k: nat :: i <= k < |b| ==> (s[k].ignore <==> !KeptAt(g, b, i, k)))
  }

  lemma {:induction false} LargerIsMet<R>(g: Geometry<R>, b: seq<Box<R>>, s: seq<Box<R>>, i: nat, j: nat)
    requires AtTurn(g, b, s, i) && i < j <= |b|
    ensures Larger(g, s, i, j) == LargerMet(g, b, i, j)
    decreases |b| - j
  {
    if j < |b| {
      LargerIsMet(g, b, s, i, j + 1);
    }
  }

  lemma KeptAtNext<R>(g: Geometry<R>, b: seq<Box<R>>, i: nat, k: nat)
    requires i < |b| && k < |b|
    ensures KeptAt(g, b, i + 1, k) <==> KeptAt(g, b, i, k) && !(KeptAt(g, b, i, i) && Beats(g, b, i, k))
  {
  }

  lemma SurvivesIffNoneMet<R>(g: Geometry<R>, b: seq<Box<R>>, i: nat)
    requires i < |b|
    ensures Survives(g, b, i) <==> KeptAt(g, b, i, i) && LargerMet(g, b, i, i + 1) == 0
  {
    LargerMetCounts(g, b, i, i + 1);
    hide KeptAt;
    assert forall k: nat :: k < |b| && MeetsLarger(g, b, i, k) ==> i + 1 <= k;
  }

  /** The boxes after the turn of box i, which is skipped if the box is ignored. */
  function AfterTurn<R>(g: Geometry<R>, s: seq<Box<R>>, i: nat): (r: seq<Box<R>>)
    requires i < |s|
    ensures |r| == |s|
  {
    if s[i].ignore then s else Turn(g, s, i, i + 1).0
  }

  lemma NextTurn<R>(g: Geometry<R>, b: seq<Box<R>>, s: seq<Box<R>>, i: nat)
    requires AtTurn(g, b, s, i) && i < |b|
    ensures AtTurn(g, b, AfterTurn(g, s, i), i + 1)
  {
    var r := AfterTurn(g, s, i);
    TurnEffect(g, s, i, i + 1);
    TurnOnlyIgnores(g, s, i, i + 1);
    LargerIsMet(g, b, s, i, i + 1);
    SurvivesIffNoneMet(g, b, i);
    hide KeptAt, Survives, Larger, LargerMet, Turn;
    forall k: nat | k < |b| ensures r[k].rect == b[k].rect {
    }
    forall k: nat | i < k < |b| ensures r[k].ignore <==> !KeptAt(g, b, i + 1, k) {
      KeptAtNext(g, b, i, k);
      assert Beats(g, s, i, k) == Beats(g, b, i, k);
    }
  }

  /** What the turns count too much: the larger boxes beyond the first that a box meets. */
  function Excess<R>(g: Geometry<R>, b: seq<Box<R>>, i: nat): nat
    requires i <= |b|
    decreases |b| - i
  {
    if i == |b| then 0
    else Excess(g, b, i + 1) + if KeptAt(g, b, i, i) then TurnExcess(LargerMet(g, b, i, i + 1), false) else 0
  }

  lemma {:induction false} OutcomeFrom<R>(g: Geometry<R>, b: seq<Box<R>>, s: seq<Box<R>>, i: nat)
    requires AtTurn(g, b, s, i)
    ensures var (r, c) := Turns(g, s, i);
            AtTurn(g, b, r, |b|) && c == CountIgnored(r) - CountIgnored(s) + Excess(g, b, i)
    decreases |b| - i
  {
    if i < |b| {
      NextTurn(g, b, s, i);
      OutcomeFrom(g, b, AfterTurn(g, s, i), i + 1);
      TurnCount(g, s, i, i + 1);
      LargerIsMet(g, b, s, i, i + 1);
      hide KeptAt, Survives, LargerMet, Larger, Turn, CountIgnored;
    }
  }

  /** Exactly the boxes that survive in this sense are kept; nothing else about the boxes changes. */
  lemma FinalFlags<R>(g: Geometry<R>, b: seq<Box<R>>)
    ensures Turns(g, b, 0).0 == seq(|b|, k requires 0 <= k < |b| => Box(b[k].rect, !Survives(g, b, k)))
  {
    OutcomeFrom(g, b, b, 0);
    hide Survives;
  }

  /** The returned number is the number of newly ignored boxes plus the excess. */
  lemma CountOfTurns<R>(g: Geometry<R>, b: seq<Box<R>>)
    ensures var (r, c) := Turns(g, b, 0); c == CountIgnored(r) - CountIgnored(b) + Excess(g, b, 0)
  {
    OutcomeFrom(g, b, b, 0);
  }

  /** Box i is kept on its turn and meets two different larger boxes then. */
  ghost predicate MeetsTwo<R>(g: Geometry<R>, b: seq<Box<R>>, i: nat)
    requires i < |b|
  {
    KeptAt(g, b, i, i) && TwoMet(g, b, i, i + 1)
  }

  lemma {:induction false} ExcessIff<R>(g: Geometry<R>, b: seq<Box<R>>, i: nat)
    requires i <= |b|
    ensures Excess(g, b, i) == 0 <==> forall p: nat :: i <= p < |b| ==> !MeetsTwo(g, b, p)
    decreases |b| - i
  {
    if i < |b| {
      ExcessIff(g, b, i + 1);
      LargerMetCounts(g, b, i, i + 1);
      assert Excess(g, b, i) == 0 <==> Excess(g, b, i + 1) == 0 && !MeetsTwo(g, b, i);
    }
  }

  /** It is never too small, and exact if and only if no box that is kept on its turn meets two larger ones. */
  lemma CountExactIff<R>(g: Geometry<R>, b: seq<Box<R>>)
    ensures var (r, c) := Turns(g, b, 0);
            && c >= CountIgnored(r) - CountIgnored(b)
            && (c == CountIgnored(r) - CountIgnored(b) <==>
                forall i: nat :: i < |b| ==> !MeetsTwo(g, b, i))
  {
    CountOfTurns(g, b);
    ExcessIff(g, b, 0);
  }

  // ---------- the documented promise ----------

  /** Of two boxes, in order, the one that is to be ignored if they overlap, and the other one. */
  function Loser<R>(g: Geometry<R>, b: seq<Box<R>>, p: nat, q: nat): (l: nat)
    requires p < q < |b|
    ensures l < |b|
  {
    if g.area(b[p].rect) < g.area(b[q].rect) then p else q
  }

  function Winner<R>(g: Geometry<R>, b: seq<Box<R>>, p: nat, q: nat): (w: nat)
    requires p < q < |b|
    ensures w < |b|
  {
    if Loser(g, b, p, q) == p then q else p
  }

  /** Kept boxes of the input that overlap. */
  predicate Overlapping<R>(g: Geometry<R>, b: seq<Box<R>>, p: nat, q: nat)
    requires p < |b| && q < |b|
  {
    !b[p].ignore && !b[q].ignore && g.overlaps(b[p].rect, b[q].rect)
  }

  /** Of every two overlapping boxes the smaller one is ignored. */
  ghost predicate SmallerIgnored<R>(g: Geometry<R>, b: seq<Box<R>>, r: seq<Box<R>>)
    requires |r| == |b|
  {
    forall p: nat, q: nat :: p < q < |b| && Overlapping(g, b, p, q) ==> r[Loser(g, b, p, q)].ignore
  }

  /** The promise is kept exactly if of no two overlapping boxes the smaller one survives. */
  lemma SmallerIgnoredIff<R>(g: Geometry<R>, b: seq<Box<R>>)
    ensures SmallerIgnored(g, b, Turns(g, b, 0).0) <==>
            forall p: nat, q: nat :: p < q < |b| && Overlapping(g, b, p, q) ==> !Survives(g, b, Loser(g, b, p, q))
  {
    FinalFlags(g, b);
    hide Survives, Overlapping, Loser;
  }

  /** That takes a larger box which was itself beaten before the two could meet. */
  lemma SurvivingLoser<R>(g: Geometry<R>, b: seq<Box<R>>, p: nat, q: nat)
    requires p < q < |b| && Overlapping(g, b, p, q)
    requires Survives(g, b, Loser(g, b, p, q))
    ensures exists m: nat :: m < p && KeptAt(g, b, m, m) && Beats(g, b, m, Winner(g, b, p, q))
  {
    var w := Winner(g, b, p, q);
    assert !KeptAt(g, b, p, w) by {
      if w == p {
        assert KeptAt(g, b, q, q) && Beats(g, b, p, q);
      } else {
        assert !MeetsLarger(g, b, p, q);
      }
    }
  }

  // ---------- examples ----------

  function TestRectangles(): Geometry<Rectangle> {
    Geometry((a: Rectangle, b: Rectangle) => TestBoxOverlap(a, b), (a: Rectangle) => a.Area())
  }

  /** One row of pixels from left up to, but not including, right. */
  function Row(left: int, right: int): Box<Rectangle> {
    Box(Rectangle(left, 0, right - 1, 0), false)
  }

  /** A small box in front of two larger ones that overlap it but not each other is counted twice. */
  lemma CountedTwice()
    ensures var b := [Row(0, 100), Row(-60, 100), Row(0, 160)];
            Turns(TestRectangles(), b, 0) == ([b[0].(ignore := true), b[1], b[2]], 2)
  {
    var g, b := TestRectangles(), [Row(0, 100), Row(-60, 100), Row(0, 160)];
    var s := [b[0].(ignore := true), b[1], b[2]];
    assert Ignored(b, 0) == s && Ignored(s, 0) == s;
    assert Turn(g, s, 0, 3) == (s, 0);
    assert Turn(g, s, 0, 2) == (s, 1);
    assert Turn(g, b, 0, 1) == (s, 2);
    assert Turn(g, s, 1, 2) == (s, 0) && Turn(g, s, 2, 3) == (s, 0);
    assert Turns(g, s, 3) == (s, 0);
    assert Turns(g, s, 2) == (s, 0);
    assert Turns(g, s, 1) == (s, 0);
  }

  /** In a chain the last box is kept although the larger one in the middle, now ignored, overlaps it. */
  lemma SmallerKept()
    ensures var b := [Row(0, 100), Row(30, 125), Row(55, 145)];
            && Turns(TestRectangles(), b, 0).0 == [b[0], b[1].(ignore := true), b[2]]
            && Overlapping(TestRectangles(), b, 1, 2) && Loser(TestRectangles(), b, 1, 2) == 2
  {
    var g, b := TestRectangles(), [Row(0, 100), Row(30, 125), Row(55, 145)];
    var s := [b[0], b[1].(ignore := true), b[2]];
    assert Ignored(b, 1) == s;
    assert Turn(g, s, 0, 3) == (s, 0);
    assert Turn(g, s, 0, 2) == (s, 0);
    assert Turn(g, b, 0, 1) == (s, 1);
    assert Turn(g, s, 2, 3) == (s, 0);
    assert Turns(g, s, 3) == (s, 0);
    assert Turns(g, s, 2) == (s, 0);
    assert Turns(g, s, 1) == (s, 0);
  }
}
