/**
 What a read leaves in its destination: when that depends on what the destination held, and
 when an exception leaves an initial value in it, as the documentation promises.
 */
module CodecDestinations {
  import opened FixedWidth
  import opened Ordering
  import opened Streams
  import opened Codec
  import opened CodecTheorems
  import I = IntCode

  // ---------- the value that was there before ----------

  /** Types of which a completed read never shows what the destination held. */
  predicate Overwrites(ty: Ty)
    decreases Rank(ty)
  {
    match ty
    case Chars => false
    case Pair(_, b) => Overwrites(b)
    case Vector(e) => Overwrites(e)
    case Array(e, _) => Overwrites(e)
    case _ => true
  }

  /** Two reads that end alike and complete with the same result, except perhaps at the end of the input. */
  ghost predicate Alike<T>(p: Reading<T>, q: Reading<T>, same: bool) {
    && (p.Complete? <==> q.Complete?)
    && (p.Broken? <==> q.Broken?)
    && (p.Complete? ==> p.rest == q.rest && (p.item == q.item || (!same && p.rest == [])))
  }

  lemma {:induction false} ReadsAlike(ty: Ty, d1: Value, d2: Value, bs: seq<byte>)
    ensures Alike(Decode(ty, d1, bs), Decode(ty, d2, bs), Overwrites(ty))
    decreases Rank(ty), 0
  {
    match ty
    case Pair(a, b) => PairsAlike(a, b, d1, d2, bs);
    case Vector(e) => VectorsAlike(e, d1, d2, bs);
    case Array(e, n) => ArraysAlike(e, n, d1, d2, bs);
    case _ =>
  }

  lemma {:induction false} PairsAlike(a: Ty, b: Ty, d1: Value, d2: Value, bs: seq<byte>)
    ensures Alike(Decode(Pair(a, b), d1, bs), Decode(Pair(a, b), d2, bs), Overwrites(b))
    decreases Rank(a) + Rank(b), 1
  {
    hide Decode, Overwrites;
    DecodePair(a, b, d1, bs);
    DecodePair(a, b, d2, bs);
    ReadsAlike(a, First(d1), First(d2), bs);
    var p := Decode(a, First(d1), bs);
    if p.Complete? {
      if p.rest == [] {
        DecodeNothing(b, Second(d1));
        DecodeNothing(b, Second(d2));
      }
      ReadsAlike(b, Second(d1), Second(d2), p.rest);
    }
  }

  lemma {:induction false} VectorsAlike(e: Ty, d1: Value, d2: Value, bs: seq<byte>)
    ensures Alike(Decode(Vector(e), d1, bs), Decode(Vector(e), d2, bs), Overwrites(e))
    decreases Rank(e), 0x1_0000_0000_0000_0001
  {
    hide Decode, DecodeN, DecodeCount;
    DecodeVector(e, d1, bs);
    DecodeVector(e, d2, bs);
    var count := DecodeCount(bs);
    if count.Parsed? {
      var n := count.value;
      SlotsAlike(e, Resize(ItemsOf(d1), n, Initial(e)), Resize(ItemsOf(d2), n, Initial(e)), count.rest);
    }
  }

  lemma {:induction false} ArraysAlike(e: Ty, length: nat, d1: Value, d2: Value, bs: seq<byte>)
    ensures Alike(Decode(Array(e, length), d1, bs), Decode(Array(e, length), d2, bs), Overwrites(e))
    decreases Rank(e), 0x1_0000_0000_0000_0001
  {
    hide Decode, DecodeN, DecodeCount;
    DecodeArray(e, length, d1, bs);
    DecodeArray(e, length, d2, bs);
    var count := DecodeCount(bs);
    if count.Parsed? && count.value == length {
      SlotsAlike(e, Resize(ItemsOf(d1), length, Initial(e)), Resize(ItemsOf(d2), length, Initial(e)), count.rest);
    }
  }

  lemma {:induction false} SlotsAlike(e: Ty, s1: seq<Value>, s2: seq<Value>, bs: seq<byte>)
    requires |s1| == |s2|
    ensures Alike(DecodeN(e, Slots(s1), |s1|, bs), DecodeN(e, Slots(s2), |s2|, bs), Overwrites(e))
    decreases Rank(e), 1 + |s1|
  {
    hide Decode;
    if s1 != [] {
      ReadsAlike(e, s1[0], s2[0], bs);
      var p := Decode(e, s1[0], bs);
      if p.Complete? {
        SlotsAlike(e, s1[1..], s2[1..], p.rest);
        if p.rest == [] && |s1| > 1 {
          DecodeNothing(e, s1[1]);
          DecodeNothing(e, s2[1]);
        }
      }
    }
  }

  /** Two destinations and an input on which the difference between them shows. */
  lemma {:induction false} DestinationWitness(ty: Ty) returns (d1: Value, d2: Value, bs: seq<byte>)
    requires WellFormed(ty) && !Overwrites(ty)
    ensures IsOf(ty, d1) && IsOf(ty, d2)
    ensures var p, q := Decode(ty, d1, bs), Decode(ty, d2, bs); p.Complete? && q.Complete? && p.item != q.item
    decreases Rank(ty)
  {
    match ty
    case Chars =>
      d1, d2, bs := BytesV([1]), BytesV([2]), Count(1) + [];
      MissingChar(1);
      MissingChar(2);
      assert [1 as byte] != [2 as byte];
    case Pair(a, b) =>
      var y1, y2, tail := DestinationWitness(b);
      InitialIsOf(a);
      d1, d2, bs := PairV(Initial(a), y1), PairV(Initial(a), y2), Encode(a, Initial(a)) + tail;
      hide Decode;
      RoundTrip(a, Initial(a), Initial(a), tail);
      DecodePair(a, b, d1, bs);
      DecodePair(a, b, d2, bs);
    case Vector(e) =>
      var y1, y2, tail := DestinationWitness(e);
      d1, d2, bs := SeqV([y1]), SeqV([y2]), Count(1) + tail;
      hide Decode, DecodeN;
      LastOfVector(e, y1, tail);
      LastOfVector(e, y2, tail);
      DifferentLast([], Decode(e, y1, tail).item, Decode(e, y2, tail).item);
    case Array(e, n) =>
      var y1, y2, tail := DestinationWitness(e);
      InitialIsOf(e);
      d1, d2 := SeqV(seq(n - 1, _ => Initial(e)) + [y1]), SeqV(seq(n - 1, _ => Initial(e)) + [y2]);
      bs := Count(n) + (EncodeAll(e, seq(n - 1, _ => Initial(e))) + tail);
      hide Decode, DecodeN;
      LastOfArray(e, n, y1, tail);
      LastOfArray(e, n, y2, tail);
      DifferentLast(seq(n - 1, _ => Initial(e)), Decode(e, y1, tail).item, Decode(e, y2, tail).item);
  }

  /** A char that is missing from the input keeps its value. */
  lemma MissingChar(c: byte)
    ensures Decode(Chars, BytesV([c]), Count(1) + []) == Complete(BytesV([c]), [])
  {
    CountRoundTrip(1, []);
    var was: seq<byte> := [c];
    assert Resize(was, 1, 0) == was && Overwrite(was, []) == was;
  }

  lemma DifferentLast(xs: seq<Value>, y1: Value, y2: Value)
    requires y1 != y2
    ensures xs + [y1] != xs + [y2]
  {
    assert (xs + [y1])[|xs|] != (xs + [y2])[|xs|];
  }

  lemma LastOfVector(e: Ty, y: Value, tail: seq<byte>)
    requires Decode(e, y, tail).Complete?
    ensures var p := Decode(Vector(e), SeqV([y]), Count(1) + tail);
            p.Complete? && p.item == SeqV([] + [Decode(e, y, tail).item])
  {
    hide Decode, DecodeN;
    CountRoundTrip(1, tail);
    DecodeVector(e, SeqV([y]), Count(1) + tail);
    assert EncodeAll(e, []) == [] && [] + tail == tail;
    assert Resize([y], 1, Initial(e)) == [y];
    LastSlot(e, [], y, tail);
    assert [] + [y] == [y];
  }

  lemma LastOfArray(e: Ty, n: nat, y: Value, tail: seq<byte>)
    requires 1 <= n && Sized(n) && IsOf(e, Initial(e)) && Decode(e, y, tail).Complete?
    ensures var blank := seq(n - 1, _ => Initial(e));
            var p := Decode(Array(e, n), SeqV(blank + [y]), Count(n) + (EncodeAll(e, blank) + tail));
            p.Complete? && p.item == SeqV(blank + [Decode(e, y, tail).item])
  {
    hide Decode, DecodeN, IsOf;
    var blank := seq(n - 1, _ => Initial(e));
    CountRoundTrip(n, EncodeAll(e, blank) + tail);
    DecodeArray(e, n, SeqV(blank + [y]), Count(n) + (EncodeAll(e, blank) + tail));
    assert Resize(blank + [y], n, Initial(e)) == blank + [y];
    LastSlot(e, blank, y, tail);
  }

  /** Reading items and, into a slot that holds y, one more element. */
  lemma {:induction false} LastSlot(e: Ty, items: seq<Value>, y: Value, tail: seq<byte>)
    requires forall x :: x in items ==> IsOf(e, x)
    ensures DecodeN(e, Slots(items + [y]), |items| + 1, EncodeAll(e, items) + tail) ==
            match Decode(e, y, tail)
            case Complete(x, rest) => Complete(items + [x], rest)
            case Broken(x) => Broken(items + [x])
            case Unknown => Unknown
    decreases |items|
  {
    hide Decode, DecodeN, Encode, IsOf;
    var n := |items| + 1;
    DecodeNStep(e, Slots(items + [y]), n, EncodeAll(e, items) + tail);
    if items == [] {
      assert [] + tail == tail && [] + [y] == [y];
      match Decode(e, y, tail)
      case Complete(x, rest) =>
        NoElements(e, rest);
        assert [x] + [] == [x] && [] + [x] == [x];
      case Broken(x) => assert [x] + [] == [x] && [] + [x] == [x];
      case Unknown =>
    } else {
      var first, others := items[0], items[1..];
      assert (items + [y])[1..] == others + [y];
      assert EncodeAll(e, items) + tail == Encode(e, first) + (EncodeAll(e, others) + tail);
      RoundTrip(e, first, first, EncodeAll(e, others) + tail);
      LastSlot(e, others, y, tail);
      assert forall x :: [first] + (others + [x]) == items + [x];
    }
  }

  lemma NoElements(e: Ty, bs: seq<byte>)
    ensures DecodeN(e, Slots([]), 0, bs) == Complete([], bs)
  {
  }

  /** Completed reads of a type do not depend on the destination. */
  ghost predicate IgnoresDestination(ty: Ty) {
    forall d1, d2, bs ::
      IsOf(ty, d1) && IsOf(ty, d2) && Decode(ty, d1, bs).Complete? ==> Decode(ty, d1, bs) == Decode(ty, d2, bs)
  }

  /**
   Reading into a variable that is in use gives what reading into a fresh one gives, on every
   input, exactly for the types that cannot end in a vector of char or unsigned char.
   */
  lemma IgnoresDestinationIff(ty: Ty)
    requires WellFormed(ty)
    ensures IgnoresDestination(ty) <==> Overwrites(ty)
  {
    hide Decode, IsOf, Overwrites, WellFormed;
    if Overwrites(ty) {
      forall d1, d2, bs | IsOf(ty, d1) && IsOf(ty, d2) && Decode(ty, d1, bs).Complete?
        ensures Decode(ty, d1, bs) == Decode(ty, d2, bs)
      {
        ReadsAlike(ty, d1, d2, bs);
      }
    } else {
      var d1, d2, bs := DestinationWitness(ty);
      assert Decode(ty, d1, bs) != Decode(ty, d2, bs);
    }
  }

  // ---------- inside a map ----------

  /** The entry {1, {'a', 'b'}} and the start {2, {'c'}} of another one that should have two chars. */
  const WHOLE_ENTRY: seq<byte> := [1] + (Count(2) + [97, 98])
  const CUT_ENTRY: seq<byte> := [2] + (Count(2) + [99])

  /**
   The variables of the loop that fills a map live as long as the loop: the vector that is
   cut short after its first char keeps the second char of the one before.
   */
  lemma EntryKeepsBytes(less: (Value, Value) -> bool)
    requires less(CharV(1), CharV(2)) && !less(CharV(2), CharV(1))
    ensures Decode(Map(Char, Chars, less), SeqV([]), Count(2) + (WHOLE_ENTRY + CUT_ENTRY)) ==
            Complete(SeqV([PairV(CharV(1), BytesV([97, 98])), PairV(CharV(2), BytesV([99, 98]))]), [])
  {
    hide Decode, DecodeN, DecodeCount, Initial, InsertEntries;
    var e, bs := Pair(Char, Chars), WHOLE_ENTRY + CUT_ENTRY;
    var x, y := PairV(CharV(1), BytesV([97, 98])), PairV(CharV(2), BytesV([99, 98]));
    CountRoundTrip(2, bs);
    DecodeMap(Char, Chars, less, SeqV([]), Count(2) + bs);
    DecodeNStep(e, Variable(Initial(e)), 2, bs);
    WholeEntry(Initial(e));
    DecodeNStep(e, Variable(x), 1, CUT_ENTRY);
    CutEntry(x);
    NoVariables(e, y);
    assert [y] + [] == [y] && [x] + [y] == [x, y];
    InsertTwo(less, x, y);
  }

  lemma WholeEntry(entry: Value)
    ensures Decode(Pair(Char, Chars), entry, WHOLE_ENTRY + CUT_ENTRY) ==
            Complete(PairV(CharV(1), BytesV([97, 98])), CUT_ENTRY)
  {
    hide DecodeCount, CUT_ENTRY;
    var s: seq<byte> := [97, 98];
    assert WHOLE_ENTRY + CUT_ENTRY == [1] + (Count(2) + (s + CUT_ENTRY));
    EntryOfTwo(1, entry, s, CUT_ENTRY);
    assert (s + CUT_ENTRY)[..2] == s && (s + CUT_ENTRY)[2..] == CUT_ENTRY;
  }

  lemma CutEntry(entry: Value)
    requires entry == PairV(CharV(1), BytesV([97, 98]))
    ensures Decode(Pair(Char, Chars), entry, CUT_ENTRY) == Complete(PairV(CharV(2), BytesV([99, 98])), [])
  {
    hide DecodeCount;
    var s, was: seq<byte> := [99], [97, 98];
    assert CUT_ENTRY == [2] + (Count(2) + (s + []));
    EntryOfTwo(2, entry, s, []);
    assert Overwrite(Resize(was, 2, 0), s + []) == [99, 98];
  }

  lemma EntryOfTwo(c: byte, entry: Value, s: seq<byte>, rest: seq<byte>)
    ensures Decode(Pair(Char, Chars), entry, [c] + (Count(2) + (s + rest))) ==
            Complete(
              PairV(CharV(c), BytesV(Overwrite(Resize(BytesOf(Second(entry)), 2, 0), s + rest))), Behind(2, s + rest))
  {
    hide DecodeCount;
    CountRoundTrip(2, s + rest);
    assert ([c] + (Count(2) + (s + rest)))[1..] == Count(2) + (s + rest);
  }

  lemma NoVariables(e: Ty, y: Value)
    ensures DecodeN(e, Variable(y), 0, []) == Complete([], [])
  {
  }

  lemma InsertTwo(less: (Value, Value) -> bool, x: Value, y: Value)
    requires x.PairV? && y.PairV? && less(x.fst, y.fst) && !less(y.fst, x.fst)
    ensures InsertEntries(less, [], [x, y]) == [x, y]
  {
    assert [x, y][1..] == [y] && [y][1..] == [] && [x][1..] == [];
    assert Insert(less, [], x.fst, x.snd) == [x];
    assert Insert(less, [], y.fst, y.snd) == [y];
    assert Insert(less, [x], y.fst, y.snd) == [x] + [y];
    assert InsertEntries(less, [x, y], []) == [x, y];
    assert InsertEntries(less, [x], [y]) == InsertEntries(less, [x] + [y], []);
  }

  // ---------- the value that is there after an exception ----------

  /** What the documentation promises: after an exception the destination has an initial value. */
  ghost predicate ResetsOnException(ty: Ty) {
    forall dest, bs :: IsOf(ty, dest) && Decode(ty, dest, bs).Broken? ==> Decode(ty, dest, bs).item == Initial(ty)
  }

  /** Every type has a value that is not the initial one. */
  lemma {:induction false} OtherValue(ty: Ty) returns (v: Value)
    requires WellFormed(ty)
    ensures IsOf(ty, v) && v != Initial(ty)
    decreases Rank(ty)
  {
    match ty
    case Int(t) =>
      v := IntV(1);
      I.PowBounds(t.size);
    case Bool => v := BoolV(true);
    case Char => v := CharV(1);
    case Float => v := FloatV(1, 0);
    case Pair(a, b) =>
      var y := OtherValue(b);
      InitialIsOf(a);
      v := PairV(Initial(a), y);
    case Vector(e) =>
      InitialIsOf(e);
      v := SeqV([Initial(e)]);
    case Chars => v := BytesV([1]);
    case Bools => v := BoolsV([true]);
    case Map(k, r, less) =>
      InitialIsOf(Pair(k, r));
      v := SeqV([Initial(Pair(k, r))]);
    case Set(e, less) =>
      InitialIsOf(e);
      v := SeqV([Initial(e)]);
    case Array(e, n) =>
      var x := OtherValue(e);
      v := SeqV(seq(n, _ => x));
      assert v.items[0] != Initial(ty).items[0];
    case Str => v := BytesV([1]);
    case CharArray(n) =>
      v := BytesV(seq(n, _ => 1));
      assert v.bytes[0] != Initial(ty).bytes[0];
  }

  /** One of two elements: the loop of a map or set gets to the first one. */
  lemma OneOfTwo(e: Ty, x: Value)
    requires IsOf(e, x)
    ensures var bs := Count(2) + (Encode(e, x) + []);
            && DecodeCount(bs) == Parsed(2, Encode(e, x) + [])
            && DecodeN(e, Variable(Initial(e)), 2, Encode(e, x) + []) == Broken([x])
  {
    hide Decode, DecodeN, DecodeCount, IsOf, Encode;
    var bs := Encode(e, x) + [];
    CountRoundTrip(2, bs);
    RoundTrip(e, x, Initial(e), []);
    DecodeNStep(e, Variable(Initial(e)), 2, bs);
    DecodeNStep(e, Variable(x), 1, []);
    DecodeNothing(e, x);
    assert [x] + [] == [x];
  }

  /** A map or set that breaks off after its first element keeps it. */
  lemma MapKeepsFirst(k: Ty, r: Ty, less: (Value, Value) -> bool, dest: Value)
    requires WellFormed(Pair(k, r))
    ensures var x := Initial(Pair(k, r));
            IsOf(Pair(k, r), x) &&
            Decode(Map(k, r, less), dest, Count(2) + (Encode(Pair(k, r), x) + [])) == Broken(SeqV([x]))
  {
    hide Decode, DecodeN, DecodeCount, IsOf, Encode;
    var e := Pair(k, r);
    var x := Initial(e);
    InitialIsOf(e);
    OneOfTwo(e, x);
    DecodeMap(k, r, less, dest, Count(2) + (Encode(e, x) + []));
    assert InsertEntries(less, [], [x]) == InsertEntries(less, [x], []) by {
      assert [x][1..] == [];
    }
  }

  lemma SetKeepsFirst(e: Ty, less: (Value, Value) -> bool, dest: Value)
    requires WellFormed(e)
    ensures var x := Initial(e);
            IsOf(e, x) && Decode(Set(e, less), dest, Count(2) + (Encode(e, x) + [])) == Broken(SeqV([x]))
  {
    hide Decode, DecodeN, DecodeCount, IsOf, Encode;
    var x := Initial(e);
    InitialIsOf(e);
    OneOfTwo(e, x);
    DecodeSet(e, less, dest, Count(2) + (Encode(e, x) + []));
    assert InsertElements(less, [], [x]) == InsertElements(less, [x], []) by {
      assert [x][1..] == [];
    }
  }

  /** At the end of the input, most types leave the destination as it was. */
  lemma NothingRead(ty: Ty, dest: Value)
    requires !ty.Int? && !ty.Pair? && !ty.Map? && !ty.Set?
    ensures Decode(ty, dest, []) == Broken(dest)
  {
  }

  lemma ExceptionWitness(ty: Ty) returns (dest: Value, bs: seq<byte>)
    requires WellFormed(ty) && !ty.Int?
    ensures IsOf(ty, dest) && Decode(ty, dest, bs).Broken? && Decode(ty, dest, bs).item != Initial(ty)
  {
    hide Decode, IsOf, Encode;
    match ty
    case Map(k, r, less) =>
      var e := Pair(k, r);
      InitialIsOf(ty);
      MapKeepsFirst(k, r, less, SeqV([]));
      dest, bs := SeqV([]), Count(2) + (Encode(e, Initial(e)) + []);
    case Set(e, less) =>
      InitialIsOf(ty);
      SetKeepsFirst(e, less, SeqV([]));
      dest, bs := SeqV([]), Count(2) + (Encode(e, Initial(e)) + []);
    case Pair(a, b) =>
      var y := OtherValue(b);
      InitialIsOf(a);
      PairIsOf(a, b, Initial(a), y);
      dest, bs := PairV(Initial(a), y), [];
      DecodeNothing(a, Initial(a));
      DecodePair(a, b, dest, []);
    case _ =>
      dest := OtherValue(ty);
      bs := [];
      NothingRead(ty, dest);
  }

  lemma PairIsOf(a: Ty, b: Ty, x: Value, y: Value)
    requires IsOf(a, x) && IsOf(b, y)
    ensures IsOf(Pair(a, b), PairV(x, y))
  {
  }

  /** The promise holds for integers, which are set to zero first, and for no other type. */
  lemma ResetsOnExceptionIff(ty: Ty)
    requires WellFormed(ty)
    ensures ResetsOnException(ty) <==> ty.Int?
  {
    if !ty.Int? {
      hide Decode, IsOf, WellFormed;
      var dest, bs := ExceptionWitness(ty);
      assert Decode(ty, dest, bs).item != Initial(ty);
    }
  }

  /** Types whose reader leaves nothing behind in a variable that still has its initial value. */
  predicate LeavesInitial(ty: Ty)
    decreases Rank(ty)
  {
    match ty
    case Pair(_, _) => false
    case Vector(_) => false
    case Map(_, _, _) => false
    case Set(_, _) => false
    case Str => false
    case Array(e, n) => n == 1 && LeavesInitial(e)
    case CharArray(n) => n == 1
    case _ => true
  }

  lemma {:induction false} LeavesInitialHolds(ty: Ty, bs: seq<byte>)
    requires WellFormed(ty) && LeavesInitial(ty) && Decode(ty, Initial(ty), bs).Broken?
    ensures Decode(ty, Initial(ty), bs).item == Initial(ty)
    decreases Rank(ty)
  {
    match ty
    case Array(e, n) =>
      hide Decode, DecodeN, DecodeCount;
      var x := Initial(e);
      assert Initial(ty) == SeqV([x]);
      assert Resize([x], 1, x) == [x];
      DecodeArray(e, n, Initial(ty), bs);
      if DecodeCount(bs).Parsed? && DecodeCount(bs).value == 1 {
        OneSlot(e, x, DecodeCount(bs).rest);
        LeavesInitialHolds(e, DecodeCount(bs).rest);
      }
    case CharArray(n) =>
      var was: seq<byte> := [0];
      assert Initial(ty) == BytesV(was);
      assert Resize(was, 1, 0) == was && Overwrite(was, []) + [] == was;
    case _ =>
  }

  lemma OneSlot(e: Ty, x: Value, bs: seq<byte>)
    requires Decode(e, x, bs).Broken?
    ensures DecodeN(e, Slots([x]), 1, bs) == Broken([Decode(e, x, bs).item])
  {
    hide Decode, DecodeN;
    DecodeNStep(e, Slots([x]), 1, bs);
    var y := Decode(e, x, bs).item;
    assert [y] + [x][1..] == [y];
  }

  /** An array of several elements keeps the first one it reads. */
  lemma ArrayKeepsFirst(e: Ty, n: nat, x: Value)
    requires 2 <= n && Sized(n) && IsOf(e, x)
    ensures var p := Decode(Array(e, n), Initial(Array(e, n)), Count(n) + (Encode(e, x) + []));
            p.Broken? && p.item.SeqV? && p.item.items != [] && p.item.items[0] == x
  {
    hide Decode, DecodeN, DecodeCount, IsOf, Encode;
    var bs, slots := Encode(e, x) + [], seq(n, _ => Initial(e));
    CountRoundTrip(n, bs);
    DecodeArray(e, n, Initial(Array(e, n)), Count(n) + bs);
    assert Resize(slots, n, Initial(e)) == slots;
    RoundTrip(e, x, slots[0], []);
    DecodeNStep(e, Slots(slots), n, bs);
    DecodeNStep(e, Slots(slots[1..]), n - 1, []);
    DecodeNothing(e, slots[1..][0]);
  }

  /** Reading bs throws and leaves something in a variable that had its initial value. */
  ghost predicate LeavesOther(ty: Ty, bs: seq<byte>) {
    var p := Decode(ty, Initial(ty), bs);
    p.Broken? && p.item != Initial(ty)
  }

  lemma {:induction false} FreshWitness(ty: Ty) returns (bs: seq<byte>)
    requires WellFormed(ty) && !LeavesInitial(ty)
    ensures LeavesOther(ty, bs)
    decreases Rank(ty)
  {
    hide LeavesOther, IsOf, Encode;
    match ty
    case Pair(a, b) =>
      var x := OtherValue(a);
      bs := Encode(a, x) + [];
      PairLeavesOther(a, b, x);
    case Vector(e) =>
      bs := Count(1) + [];
      VectorLeavesOther(e);
    case Map(k, r, less) =>
      MapKeepsFirst(k, r, less, SeqV([]));
      bs := Count(2) + (Encode(Pair(k, r), Initial(Pair(k, r))) + []);
      MapLeavesOther(ty, bs);
    case Set(e, less) =>
      SetKeepsFirst(e, less, SeqV([]));
      bs := Count(2) + (Encode(e, Initial(e)) + []);
      MapLeavesOther(ty, bs);
    case Str =>
      bs := Count(1) + [];
      StringLeavesOther();
    case CharArray(n) =>
      bs := Count(n) + [1];
      CharArrayLeavesOther(n);
    case Array(e, n) =>
      if n >= 2 {
        var x := OtherValue(e);
        bs := Count(n) + (Encode(e, x) + []);
        ArrayLeavesOther(e, n, x);
      } else {
        var tail := FreshWitness(e);
        bs := Count(1) + tail;
        ElementLeavesOther(e, tail);
      }
  }

  lemma PairLeavesOther(a: Ty, b: Ty, x: Value)
    requires IsOf(a, x) && x != Initial(a)
    ensures LeavesOther(Pair(a, b), Encode(a, x) + [])
  {
    hide Decode, IsOf, Encode;
    RoundTrip(a, x, Initial(a), []);
    DecodeNothing(b, Initial(b));
    DecodePair(a, b, Initial(Pair(a, b)), Encode(a, x) + []);
  }

  lemma VectorLeavesOther(e: Ty)
    ensures LeavesOther(Vector(e), Count(1) + [])
  {
    hide Decode, DecodeN, DecodeCount;
    CountRoundTrip(1, []);
    DecodeVector(e, SeqV([]), Count(1) + []);
    assert Resize([], 1, Initial(e)) == [Initial(e)];
    DecodeNothing(e, Initial(e));
    OneSlot(e, Initial(e), []);
  }

  lemma MapLeavesOther(ty: Ty, bs: seq<byte>)
    requires ty.Map? || ty.Set?
    requires exists x :: Decode(ty, SeqV([]), bs) == Broken(SeqV([x]))
    ensures LeavesOther(ty, bs)
  {
    hide Decode;
  }

  lemma StringLeavesOther()
    ensures LeavesOther(Str, Count(1) + [])
  {
    CountRoundTrip(1, []);
    hide DecodeCount;
  }

  lemma CharArrayLeavesOther(n: nat)
    requires 2 <= n && Sized(n)
    ensures LeavesOther(CharArray(n), Count(n) + [1])
  {
    hide DecodeCount, Overwrite, Resize;
    CountRoundTrip(n, [1]);
    KeepsFirstChar(n);
    var was: seq<byte> := seq(n, _ => 0);
    assert Initial(CharArray(n)) == BytesV(was);
    assert (Overwrite(was, [1]) + [])[0] != was[0];
  }

  lemma ArrayLeavesOther(e: Ty, n: nat, x: Value)
    requires 2 <= n && Sized(n) && IsOf(e, x) && x != Initial(e)
    ensures LeavesOther(Array(e, n), Count(n) + (Encode(e, x) + []))
  {
    hide Decode, IsOf, Encode;
    ArrayKeepsFirst(e, n, x);
    assert Initial(Array(e, n)).items[0] == Initial(e);
  }

  lemma ElementLeavesOther(e: Ty, tail: seq<byte>)
    requires LeavesOther(e, tail)
    ensures LeavesOther(Array(e, 1), Count(1) + tail)
  {
    hide Decode, DecodeN, DecodeCount;
    CountRoundTrip(1, tail);
    assert Initial(Array(e, 1)) == SeqV([Initial(e)]);
    assert Resize([Initial(e)], 1, Initial(e)) == [Initial(e)];
    DecodeArray(e, 1, Initial(Array(e, 1)), Count(1) + tail);
    OneSlot(e, Initial(e), tail);
    DifferentLast([], Decode(e, Initial(e), tail).item, Initial(e));
  }

  lemma KeepsFirstChar(n: nat)
    requires n >= 2
    ensures var was: seq<byte> := seq(n, _ => 0);
            && Resize(was, n, 0) == was
            && Overwrite(was, [1])[0] == 1
  {
  }

  /** An exception leaves a variable initial that was so before. */
  ghost predicate FreshStaysInitial(ty: Ty) {
    forall bs :: Decode(ty, Initial(ty), bs).Broken? ==> Decode(ty, Initial(ty), bs).item == Initial(ty)
  }

  /** For a variable that had an initial value before, the promise holds exactly for these types. */
  lemma FreshStaysInitialIff(ty: Ty)
    requires WellFormed(ty)
    ensures FreshStaysInitial(ty) <==> LeavesInitial(ty)
  {
    hide Decode, WellFormed, LeavesInitial;
    if LeavesInitial(ty) {
      forall bs | Decode(ty, Initial(ty), bs).Broken?
        ensures Decode(ty, Initial(ty), bs).item == Initial(ty)
      {
        LeavesInitialHolds(ty, bs);
      }
    } else {
      var bs := FreshWitness(ty);
      assert Decode(ty, Initial(ty), bs).item != Initial(ty);
    }
  }
}
