/**
 The laws of the serialization format: every value reads back as itself, whatever the
 destination held, with whatever follows it left unread; and cutting an encoding short is
 noticed except, precisely, at the bytes of a trailing vector of char, unsigned char or bool.
 */
module CodecTheorems {
  import opened FixedWidth
  import opened Ordering
  import opened Streams
  import opened Codec
  import I = IntCode

  lemma CountRoundTrip(n: nat, rest: seq<byte>)
    requires Sized(n)
    ensures DecodeCount(Count(n) + rest) == Parsed(n, rest)
  {
    assert InRange(ULONG, n) by {
      I.PowBounds(8);
      assert Pow256(4) == 0x1_0000_0000 && Pow256(8) == 0x1_0000_0000_0000_0000;
    }
    I.RoundTripIffInRange(ULONG, n, rest);
  }

  // ---------- maps and sets: inserting ascending keys rebuilds the container ----------

  lemma {:induction false} InsertLast(less: (Value, Value) -> bool, entries: seq<Value>, d: Value, r: Value)
    requires StrictWeakOrder(less)
    requires forall x :: x in entries ==> x.PairV? && less(x.fst, d)
    ensures Insert(less, entries, d, r) == entries + [PairV(d, r)]
  {
    if entries != [] {
      Asymmetric(less, entries[0].fst, d);
      InsertLast(less, entries[1..], d, r);
      assert entries == [entries[0]] + entries[1..];
    }
  }

  lemma {:induction false} InsertEntriesRebuilds(less: (Value, Value) -> bool, done: seq<Value>, added: seq<Value>)
    requires StrictWeakOrder(less)
    requires forall x :: x in done + added ==> x.PairV?
    requires Ascending(less, Keys(done + added))
    ensures InsertEntries(less, done, added) == done + added
    decreases |added|
  {
    if added != [] {
      var all := done + added;
      assert added[0] == all[|done|];
      forall x | x in done ensures x.PairV? && less(x.fst, added[0].fst) {
        var i :| 0 <= i < |done| && done[i] == x;
        assert all[i] == x;
        assert less(Keys(all)[i], Keys(all)[|done|]);
      }
      InsertLast(less, done, added[0].fst, added[0].snd);
      assert done + [added[0]] + added[1..] == all;
      InsertEntriesRebuilds(less, done + [added[0]], added[1..]);
    }
  }

  lemma {:induction false} InsertElementLast(less: (Value, Value) -> bool, elements: seq<Value>, d: Value)
    requires StrictWeakOrder(less)
    requires forall x :: x in elements ==> less(x, d)
    ensures InsertElement(less, elements, d) == elements + [d]
  {
    if elements != [] {
      Asymmetric(less, elements[0], d);
      InsertElementLast(less, elements[1..], d);
      assert elements == [elements[0]] + elements[1..];
    }
  }

  lemma {:induction false} InsertElementsRebuilds(less: (Value, Value) -> bool, done: seq<Value>, added: seq<Value>)
    requires StrictWeakOrder(less)
    requires Ascending(less, done + added)
    ensures InsertElements(less, done, added) == done + added
    decreases |added|
  {
    if added != [] {
      var all := done + added;
      assert added[0] == all[|done|];
      forall x | x in done ensures less(x, added[0]) {
        var i :| 0 <= i < |done| && done[i] == x;
        assert less(all[i], all[|done|]);
      }
      InsertElementLast(less, done, added[0]);
      assert done + [added[0]] + added[1..] == all;
      InsertElementsRebuilds(less, done + [added[0]], added[1..]);
    }
  }

  // ---------- round trip ----------

  lemma BoolsRoundTrip(bools: seq<bool>)
    ensures BytesToBools(BoolBytes(bools)) == bools
  {
  }

  lemma FloatRoundTrip(v: Value, dest: Value, rest: seq<byte>)
    requires IsOf(Float, v)
    ensures Decode(Float, dest, Encode(Float, v) + rest) == Complete(v, rest)
  {
    Int16Storable(v.mantissa);
    Int16Storable(v.exponent);
    var em, ee := I.Encode(v.mantissa), I.Encode(v.exponent);
    assert em + ee + rest == em + (ee + rest);
    I.ControlByteBits(v.mantissa);
    I.RoundTripIffInRange(INT64, v.mantissa, ee + rest);
    I.RoundTripIffInRange(INT16, v.exponent, rest);
  }

  lemma BytesRoundTrip(bytes: seq<byte>, was: seq<byte>, rest: seq<byte>)
    requires Sized(|bytes|) && |was| == |bytes|
    ensures DecodeCount(Count(|bytes|) + bytes + rest) == Parsed(|bytes|, bytes + rest)
    ensures Overwrite(was, bytes + rest) == bytes && Behind(|bytes|, bytes + rest) == rest
  {
    CountRoundTrip(|bytes|, bytes + rest);
    assert Count(|bytes|) + bytes + rest == Count(|bytes|) + (bytes + rest);
  }

  /** Every value of every type reads back as itself into any variable, and what follows it stays unread. */
  lemma {:induction false} RoundTrip(ty: Ty, v: Value, dest: Value, rest: seq<byte>)
    requires IsOf(ty, v)
    ensures Decode(ty, dest, Encode(ty, v) + rest) == Complete(v, rest)
    decreases Rank(ty), 0
  {
    match ty
    case Int(t) =>
      I.InRangeIsStorable(t, v.i);
      I.RoundTripIffInRange(t, v.i, rest);
    case Bool =>
    case Char =>
    case Float => FloatRoundTrip(v, dest, rest);
    case Pair(a, b) =>
      assert Encode(a, v.fst) + Encode(b, v.snd) + rest == Encode(a, v.fst) + (Encode(b, v.snd) + rest);
      RoundTrip(a, v.fst, First(dest), Encode(b, v.snd) + rest);
      RoundTrip(b, v.snd, Second(dest), rest);
    case Vector(e) =>
      RoundTripSeq(e, v.items, Slots(Resize(ItemsOf(dest), |v.items|, Initial(e))), rest);
    case Chars =>
      BytesRoundTrip(v.bytes, Resize(BytesOf(dest), |v.bytes|, 0), rest);
    case Bools =>
      BytesRoundTrip(BoolBytes(v.bools), Resize([], |v.bools|, 0), rest);
      BoolsRoundTrip(v.bools);
    case Map(k, r, less) =>
      RoundTripSeq(Pair(k, r), v.items, Variable(Initial(Pair(k, r))), rest);
      assert [] + v.items == v.items;
      InsertEntriesRebuilds(less, [], v.items);
    case Set(e, less) =>
      RoundTripSeq(e, v.items, Variable(Initial(e)), rest);
      assert [] + v.items == v.items;
      InsertElementsRebuilds(less, [], v.items);
    case Array(e, n) =>
      RoundTripSeq(e, v.items, Slots(Resize(ItemsOf(dest), n, Initial(e))), rest);
    case Str =>
      BytesRoundTrip(v.bytes, Resize(BytesOf(dest), |v.bytes|, 0), rest);
    case CharArray(_) => CharArrayRoundTrip(ty, v, dest, rest);
  }

  /** What is written of a char array: not a terminator at its end. */
  ghost function Sent(bytes: seq<byte>): seq<byte>
    requires bytes != []
  {
    if bytes[|bytes| - 1] == 0 then bytes[..|bytes| - 1] else bytes
  }

  lemma CharArrayUnfold(ty: Ty, v: Value, dest: Value, bs: seq<byte>)
    requires ty.CharArray? && IsOf(ty, v)
    ensures v.BytesV? && Sized(|v.bytes|) && |v.bytes| == ty.length >= 1
    ensures Encode(ty, v) == Count(|Sent(v.bytes)|) + Sent(v.bytes)
    ensures UncheckedTail(ty, v) == 0
    ensures DecodeCount(bs).Rejected? ==> Decode(ty, dest, bs).Broken?
    ensures DecodeCount(bs).Parsed? && DecodeCount(bs).value == |Sent(v.bytes)| ==>
              var n, rest := |Sent(v.bytes)|, DecodeCount(bs).rest;
              var bytes := Overwrite(Resize(BytesOf(dest), n, 0), rest) + if n == ty.length then [] else [0];
              Decode(ty, dest, bs) ==
              if n <= |rest| then Complete(BytesV(bytes), Behind(n, rest)) else Broken(BytesV(bytes))
  {
    hide DecodeCount;
  }

  lemma CharArrayRoundTrip(ty: Ty, v: Value, dest: Value, rest: seq<byte>)
    requires ty.CharArray? && IsOf(ty, v)
    ensures Decode(ty, dest, Encode(ty, v) + rest) == Complete(v, rest)
  {
    hide Decode, DecodeCount, Encode, IsOf, UncheckedTail, Count, Overwrite, Resize, Behind;
    CharArrayUnfold(ty, v, dest, Encode(ty, v) + rest);
    var sent := Sent(v.bytes);
    BytesRoundTrip(sent, Resize(BytesOf(dest), |sent|, 0), rest);
    assert sent + (if |sent| == ty.length then [] else [0]) == v.bytes;
  }

  lemma {:induction false} RoundTripSeq(e: Ty, items: seq<Value>, to: Target, rest: seq<byte>)
    requires Sized(|items|) && HasRoom(to, |items|)
    requires forall x :: x in items ==> IsOf(e, x)
    ensures var all := EncodeAll(e, items) + rest;
            && DecodeCount(Count(|items|) + EncodeAll(e, items) + rest) == Parsed(|items|, all)
            && DecodeN(e, to, |items|, all) == Complete(items, rest)
    decreases Rank(e), 2 + |items|
  {
    hide Decode, Encode, IsOf, DecodeN, EncodeAll, DecodeCount;
    assert Count(|items|) + EncodeAll(e, items) + rest == Count(|items|) + (EncodeAll(e, items) + rest);
    CountRoundTrip(|items|, EncodeAll(e, items) + rest);
    RoundTripAll(e, items, to, rest);
  }

  lemma {:induction false} RoundTripAll(e: Ty, items: seq<Value>, to: Target, rest: seq<byte>)
    requires HasRoom(to, |items|)
    requires forall x :: x in items ==> IsOf(e, x)
    ensures DecodeN(e, to, |items|, EncodeAll(e, items) + rest) == Complete(items, rest)
    decreases Rank(e), 1 + |items|
  {
    hide Decode, Encode, IsOf;
    if items == [] {
      assert [] + rest == rest;
    } else {
      var first, others := Encode(e, items[0]), EncodeAll(e, items[1..]);
      assert first + others + rest == first + (others + rest);
      RoundTrip(e, items[0], Current(to), others + rest);
      RoundTripAll(e, items[1..], Advance(to, items[0]), rest);
      assert [items[0]] + items[1..] == items;
    }
  }

  // ---------- objects written one after another ----------

  datatype Object = Object(ty: Ty, value: Value)

  ghost predicate WellTyped(objects: seq<Object>) {
    forall o :: o in objects ==> IsOf(o.ty, o.value)
  }

  ghost function EncodeObjects(objects: seq<Object>): seq<byte>
    requires WellTyped(objects)
  {
    if objects == [] then [] else Encode(objects[0].ty, objects[0].value) + EncodeObjects(objects[1..])
  }

  /** Reading into variables of the given types, one after another. */
  function DecodeObjects(variables: seq<Object>, bs: seq<byte>): Parse<seq<Value>> {
    if variables == [] then Parsed([], bs)
    else
      match Decode(variables[0].ty, variables[0].value, bs)
      case Complete(x, rest) =>
        (match DecodeObjects(variables[1..], rest)
         case Parsed(xs, rest') => Parsed([x] + xs, rest')
         case Rejected => Rejected
         case Unspecified => Unspecified)
      case Broken(_) => Rejected
      case Unknown => Unspecified
  }

  ghost predicate SameTypes(objects: seq<Object>, variables: seq<Object>) {
    && |objects| == |variables|
    && forall i :: 0 <= i < |objects| ==> objects[i].ty == variables[i].ty
  }

  ghost function Values(objects: seq<Object>): (vs: seq<Value>)
    ensures |vs| == |objects|
  {
    seq(|objects|, i requires 0 <= i < |objects| => objects[i].value)
  }

  /** Objects of any types written to one stream read back in order into variables of these types. */
  lemma {:induction false} ObjectsRoundTrip(objects: seq<Object>, variables: seq<Object>, rest: seq<byte>)
    requires WellTyped(objects) && SameTypes(objects, variables)
    ensures DecodeObjects(variables, EncodeObjects(objects) + rest) == Parsed(Values(objects), rest)
  {
    hide Decode, Encode, IsOf;
    if objects == [] {
      assert [] + rest == rest;
    } else {
      var o, others := objects[0], objects[1..];
      var first, more := Encode(o.ty, o.value), EncodeObjects(others);
      assert first + more + rest == first + (more + rest);
      RoundTrip(o.ty, o.value, variables[0].value, more + rest);
      ObjectsRoundTrip(others, variables[1..], rest);
      assert Values(objects) == [o.value] + Values(others);
    }
  }

  // ---------- truncated input ----------

  /**
   How many bytes at the end of the encoding of v are read without a check: the contents of
   a vector of char, unsigned char or bool that comes last.
   */
  ghost function UncheckedTail(ty: Ty, v: Value): nat
    requires IsOf(ty, v)
    decreases Rank(ty)
  {
    match ty
    case Chars => |v.bytes|
    case Bools => |v.bools|
    case Pair(_, b) => UncheckedTail(b, v.snd)
    case Vector(e) => if v.items == [] then 0 else UncheckedTail(e, v.items[|v.items| - 1])
    case Map(k, r, _) => if v.items == [] then 0 else UncheckedTail(Pair(k, r), v.items[|v.items| - 1])
    case Set(e, _) => if v.items == [] then 0 else UncheckedTail(e, v.items[|v.items| - 1])
    case Array(e, _) => if v.items == [] then 0 else UncheckedTail(e, v.items[|v.items| - 1])
    case _ => 0
  }

  ghost function LastUncheckedTail(e: Ty, items: seq<Value>): nat
    requires forall x :: x in items ==> IsOf(e, x)
  {
    if items == [] then 0 else UncheckedTail(e, items[|items| - 1])
  }

  lemma {:induction false} UncheckedTailBound(ty: Ty, v: Value)
    requires IsOf(ty, v)
    ensures UncheckedTail(ty, v) < |Encode(ty, v)|
    decreases Rank(ty), 0
  {
    match ty
    case Pair(_, b) => UncheckedTailBound(b, v.snd);
    case Vector(e) => LastTailBound(e, v.items);
    case Map(k, r, _) => LastTailBound(Pair(k, r), v.items);
    case Set(e, _) => LastTailBound(e, v.items);
    case Array(e, _) => LastTailBound(e, v.items);
    case _ =>
  }

  lemma {:induction false} LastTailBound(e: Ty, items: seq<Value>)
    requires forall x :: x in items ==> IsOf(e, x)
    ensures LastUncheckedTail(e, items) <= |EncodeAll(e, items)|
    ensures items != [] ==> LastUncheckedTail(e, items) < |EncodeAll(e, items)|
    decreases Rank(e), 1 + |items|
  {
    if |items| == 1 {
      UncheckedTailBound(e, items[0]);
    } else if |items| > 1 {
      LastTailBound(e, items[1..]);
    }
  }

  /** What a reader makes of an encoding that misses its last bytes and should end in `tail` unchecked ones. */
  ghost predicate CutShort<T>(p: Reading<T>, missing: nat, tail: nat) {
    if missing <= tail then p.Complete? && p.rest == [] else p.Broken?
  }

  lemma {:induction false} DecodeNothing(ty: Ty, dest: Value)
    ensures Decode(ty, dest, []).Broken?
    decreases Rank(ty)
  {
    if ty.Pair? {
      DecodeNothing(ty.first, First(dest));
    }
  }

  /**
   The first n bytes of an encoding are accepted exactly when all that is missing belongs to
   the unchecked tail; otherwise the reader throws.
   */
  lemma {:induction false} Truncation(ty: Ty, v: Value, n: nat, dest: Value)
    requires IsOf(ty, v) && n < |Encode(ty, v)|
    ensures CutShort(Decode(ty, dest, Encode(ty, v)[..n]), |Encode(ty, v)| - n, UncheckedTail(ty, v))
    decreases Rank(ty), 1
  {
    hide Decode, Encode, IsOf, UncheckedTail;
    match ty
    case Pair(_, _) => TruncationPair(ty, v, n, dest);
    case Vector(_) => TruncationContainer(ty, v, n, dest);
    case Map(_, _, _) => TruncationContainer(ty, v, n, dest);
    case Set(_, _) => TruncationContainer(ty, v, n, dest);
    case Array(_, _) => TruncationContainer(ty, v, n, dest);
    case Chars => TruncationBytes(ty, v, n, dest);
    case Bools => TruncationBools(ty, v, n, dest);
    case Str => TruncationBytes(ty, v, n, dest);
    case CharArray(_) => TruncationCharArray(ty, v, n, dest);
    case Float => TruncationFloat(v, n, dest);
    case _ => TruncationScalar(ty, v, n, dest);
  }

  lemma TruncationScalar(ty: Ty, v: Value, n: nat, dest: Value)
    requires (ty.Int? || ty.Bool? || ty.Char?) && IsOf(ty, v) && n < |Encode(ty, v)|
    ensures CutShort(Decode(ty, dest, Encode(ty, v)[..n]), |Encode(ty, v)| - n, UncheckedTail(ty, v))
  {
    if ty.Int? {
      I.InRangeIsStorable(ty.t, v.i);
      I.UnpackOfPrefix(ty.t, v.i, n);
    }
  }

  lemma TruncationBytes(ty: Ty, v: Value, n: nat, dest: Value)
    requires (ty.Chars? || ty.Str?) && IsOf(ty, v) && n < |Encode(ty, v)|
    ensures CutShort(Decode(ty, dest, Encode(ty, v)[..n]), |Encode(ty, v)| - n, UncheckedTail(ty, v))
  {
    TruncationCount(|v.bytes|, v.bytes, n);
  }

  lemma TruncationBools(ty: Ty, v: Value, n: nat, dest: Value)
    requires ty.Bools? && IsOf(ty, v) && n < |Encode(ty, v)|
    ensures CutShort(Decode(ty, dest, Encode(ty, v)[..n]), |Encode(ty, v)| - n, UncheckedTail(ty, v))
  {
    TruncationCount(|v.bools|, BoolBytes(v.bools), n);
  }

  lemma TruncationCharArray(ty: Ty, v: Value, n: nat, dest: Value)
    requires ty.CharArray? && IsOf(ty, v) && n < |Encode(ty, v)|
    ensures CutShort(Decode(ty, dest, Encode(ty, v)[..n]), |Encode(ty, v)| - n, UncheckedTail(ty, v))
  {
    hide Decode, DecodeCount, Encode, IsOf, UncheckedTail, Count, Overwrite, Resize;
    CharArrayUnfold(ty, v, dest, Encode(ty, v)[..n]);
    TruncationCount(|Sent(v.bytes)|, Sent(v.bytes), n);
  }

  /** Vectors, maps, sets and arrays: a size and elements of one type. */
  predicate IsContainer(ty: Ty) {
    ty.Vector? || ty.Map? || ty.Set? || ty.Array?
  }

  function ElementType(ty: Ty): Ty
    requires IsContainer(ty)
  {
    match ty
    case Vector(e) => e
    case Map(k, r, _) => Pair(k, r)
    case Set(e, _) => e
    case Array(e, _) => e
  }

  /** Where n elements of the container are read to. */
  function ElementTarget(ty: Ty, dest: Value, n: nat): (to: Target)
    requires IsContainer(ty)
    ensures HasRoom(to, n)
  {
    var e := ElementType(ty);
    if ty.Map? || ty.Set? then Variable(Initial(e)) else Slots(Resize(ItemsOf(dest), n, Initial(e)))
  }

  /** A container is read as its elements are. */
  ghost predicate EndsAlike(p: Reading<Value>, q: Reading<seq<Value>>) {
    && (p.Complete? <==> q.Complete?)
    && (p.Broken? <==> q.Broken?)
    && (p.Complete? ==> p.rest == q.rest)
  }

  lemma ContainerUnfold(ty: Ty, v: Value, dest: Value, bs: seq<byte>)
    requires IsContainer(ty) && IsOf(ty, v)
    ensures v.SeqV? && Sized(|v.items|) && forall x :: x in v.items ==> IsOf(ElementType(ty), x)
    ensures Encode(ty, v) == Count(|v.items|) + EncodeAll(ElementType(ty), v.items)
    ensures UncheckedTail(ty, v) == LastUncheckedTail(ElementType(ty), v.items)
    ensures DecodeCount(bs).Rejected? ==> Decode(ty, dest, bs).Broken?
    ensures DecodeCount(bs).Parsed? && DecodeCount(bs).value == |v.items| ==>
              var n, rest := |v.items|, DecodeCount(bs).rest;
              EndsAlike(Decode(ty, dest, bs), DecodeN(ElementType(ty), ElementTarget(ty, dest, n), n, rest))
  {
    hide DecodeN, DecodeCount, EncodeAll, StrictWeakOrder, Ascending;
  }

  lemma {:induction false} TruncationContainer(ty: Ty, v: Value, n: nat, dest: Value)
    requires IsContainer(ty) && IsOf(ty, v) && n < |Encode(ty, v)|
    ensures CutShort(Decode(ty, dest, Encode(ty, v)[..n]), |Encode(ty, v)| - n, UncheckedTail(ty, v))
    decreases Rank(ty), 0
  {
    hide Decode, DecodeN, DecodeCount, Encode, EncodeAll, IsOf, UncheckedTail, LastUncheckedTail;
    ContainerUnfold(ty, v, dest, Encode(ty, v)[..n]);
    TruncationSeq(ElementType(ty), v.items, n, ElementTarget(ty, dest, |v.items|));
  }

  lemma {:induction false} TruncationPair(ty: Ty, v: Value, n: nat, dest: Value)
    requires ty.Pair? && IsOf(ty, v) && n < |Encode(ty, v)|
    ensures CutShort(Decode(ty, dest, Encode(ty, v)[..n]), |Encode(ty, v)| - n, UncheckedTail(ty, v))
    decreases Rank(ty), 0
  {
    var ea, eb := Encode(ty.first, v.fst), Encode(ty.second, v.snd);
    if n < |ea| {
      assert (ea + eb)[..n] == ea[..n];
      TruncationInFirst(ty.first, ty.second, v, n, dest);
    } else {
      assert (ea + eb)[..n] == ea + eb[..n - |ea|];
      TruncationInSecond(ty.first, ty.second, v, n - |ea|, dest);
    }
  }

  lemma TruncationFloat(v: Value, n: nat, dest: Value)
    requires IsOf(Float, v) && n < |Encode(Float, v)|
    ensures CutShort(Decode(Float, dest, Encode(Float, v)[..n]), |Encode(Float, v)| - n, UncheckedTail(Float, v))
  {
    Int16Storable(v.mantissa);
    Int16Storable(v.exponent);
    var em, ee := I.Encode(v.mantissa), I.Encode(v.exponent);
    if n < |em| {
      assert (em + ee)[..n] == em[..n];
      I.UnpackOfPrefix(INT64, v.mantissa, n);
      I.ControlByteBits(v.mantissa);
    } else {
      var k := n - |em|;
      assert (em + ee)[..n] == em + ee[..k];
      I.ControlByteBits(v.mantissa);
      I.RoundTripIffInRange(INT64, v.mantissa, ee[..k]);
      I.UnpackOfPrefix(INT16, v.exponent, k);
    }
  }

  lemma {:induction false} TruncationInFirst(a: Ty, b: Ty, v: Value, n: nat, dest: Value)
    requires IsOf(Pair(a, b), v) && n < |Encode(a, v.fst)|
    ensures Decode(Pair(a, b), dest, Encode(a, v.fst)[..n]).Broken?
    ensures UncheckedTail(b, v.snd) < |Encode(b, v.snd)|
    decreases Rank(a) + Rank(b), 2
  {
    Truncation(a, v.fst, n, First(dest));
    DecodeNothing(b, Second(dest));
    UncheckedTailBound(b, v.snd);
  }

  lemma {:induction false} TruncationInSecond(a: Ty, b: Ty, v: Value, k: nat, dest: Value)
    requires IsOf(Pair(a, b), v) && k < |Encode(b, v.snd)|
    ensures CutShort(
              Decode(Pair(a, b), dest, Encode(a, v.fst) + Encode(b, v.snd)[..k]),
              |Encode(b, v.snd)| - k, UncheckedTail(b, v.snd))
    decreases Rank(a) + Rank(b), 2
  {
    RoundTrip(a, v.fst, First(dest), Encode(b, v.snd)[..k]);
    Truncation(b, v.snd, k, Second(dest));
  }

  lemma TruncationCount(size: nat, contents: seq<byte>, n: nat)
    requires Sized(size) && n < |Count(size) + contents|
    ensures var c := Count(size);
            DecodeCount((c + contents)[..n]) == if n < |c| then Rejected else Parsed(size, contents[..n - |c|])
  {
    var c := Count(size);
    if n < |c| {
      assert (c + contents)[..n] == c[..n];
      I.UnpackOfPrefix(ULONG, size, n);
    } else {
      assert (c + contents)[..n] == c + contents[..n - |c|];
      CountRoundTrip(size, contents[..n - |c|]);
    }
  }

  /** A size and elements: what the size reader and then the element loop make of the first n bytes. */
  lemma {:induction false} TruncationSeq(e: Ty, items: seq<Value>, n: nat, to: Target)
    requires Sized(|items|) && HasRoom(to, |items|)
    requires forall x :: x in items ==> IsOf(e, x)
    requires n < |Count(|items|) + EncodeAll(e, items)|
    ensures var c, all, tail := Count(|items|), EncodeAll(e, items), LastUncheckedTail(e, items);
            var count := DecodeCount((c + all)[..n]);
            if n < |c| then count == Rejected && tail <= |all|
            else
              && count == Parsed(|items|, all[..n - |c|])
              && CutShort(DecodeN(e, to, |items|, all[..n - |c|]), |c + all| - n, tail)
    decreases Rank(e), 3 + |items|
  {
    hide Decode, Encode, IsOf, UncheckedTail, DecodeN, EncodeAll, LastUncheckedTail;
    var c, all := Count(|items|), EncodeAll(e, items);
    TruncationCount(|items|, all, n);
    if n < |c| {
      LastTailBound(e, items);
    } else {
      TruncationAll(e, items, n - |c|, to);
    }
  }

  lemma {:induction false} TruncationAll(e: Ty, items: seq<Value>, n: nat, to: Target)
    requires HasRoom(to, |items|)
    requires forall x :: x in items ==> IsOf(e, x)
    requires n < |EncodeAll(e, items)|
    ensures CutShort(
              DecodeN(e, to, |items|, EncodeAll(e, items)[..n]), |EncodeAll(e, items)| - n, LastUncheckedTail(e, items))
    decreases Rank(e), 2 + |items|
  {
    hide Decode, Encode, IsOf, UncheckedTail;
    var first, others := Encode(e, items[0]), EncodeAll(e, items[1..]);
    if n < |first| {
      assert (first + others)[..n] == first[..n];
      TruncationFirst(e, items, n, to);
    } else {
      var k := n - |first|;
      assert (first + others)[..n] == first + others[..k];
      RoundTrip(e, items[0], Current(to), others[..k]);
      TruncationAll(e, items[1..], k, Advance(to, items[0]));
    }
  }

  lemma {:induction false} TruncationFirst(e: Ty, items: seq<Value>, n: nat, to: Target)
    requires HasRoom(to, |items|)
    requires items != [] && forall x :: x in items ==> IsOf(e, x)
    requires n < |Encode(e, items[0])|
    ensures CutShort(
              DecodeN(e, to, |items|, Encode(e, items[0])[..n]),
              |EncodeAll(e, items)| - n, LastUncheckedTail(e, items))
    decreases Rank(e), 2
  {
    hide Decode, Encode, IsOf, UncheckedTail;
    Truncation(e, items[0], n, Current(to));
    UncheckedTailBound(e, items[0]);
    LastTailBound(e, items[1..]);
    var p := Decode(e, Current(to), Encode(e, items[0])[..n]);
    if p.Complete? && |items| > 1 {
      DecodeNothing(e, Current(Advance(to, p.item)));
    }
  }

  /** Types whose encodings never end in unchecked bytes. */
  predicate Checked(ty: Ty)
    decreases Rank(ty)
  {
    match ty
    case Chars => false
    case Bools => false
    case Pair(_, b) => Checked(b)
    case Vector(e) => Checked(e)
    case Map(k, r, _) => Checked(r)
    case Set(e, _) => Checked(e)
    case Array(e, _) => Checked(e)
    case _ => true
  }

  lemma {:induction false} CheckedHasNoTail(ty: Ty, v: Value)
    requires IsOf(ty, v) && Checked(ty)
    ensures UncheckedTail(ty, v) == 0
    decreases Rank(ty)
  {
    match ty
    case Pair(_, b) => CheckedHasNoTail(b, v.snd);
    case Vector(e) => if v.items != [] { CheckedHasNoTail(e, v.items[|v.items| - 1]); }
    case Map(k, r, _) => if v.items != [] { CheckedHasNoTail(Pair(k, r), v.items[|v.items| - 1]); }
    case Set(e, _) => if v.items != [] { CheckedHasNoTail(e, v.items[|v.items| - 1]); }
    case Array(e, _) => if v.items != [] { CheckedHasNoTail(e, v.items[|v.items| - 1]); }
    case _ =>
  }

  /** For such types no proper prefix of an encoding is accepted. */
  lemma PrefixRejected(ty: Ty, v: Value, n: nat, dest: Value)
    requires IsOf(ty, v) && Checked(ty) && n < |Encode(ty, v)|
    ensures Decode(ty, dest, Encode(ty, v)[..n]).Broken?
  {
    Truncation(ty, v, n, dest);
    CheckedHasNoTail(ty, v);
  }

  /** The types C++ can form: arrays are not empty, comparators are strict weak orders. */
  ghost predicate WellFormed(ty: Ty)
    decreases Rank(ty)
  {
    match ty
    case Pair(a, b) => WellFormed(a) && WellFormed(b)
    case Vector(e) => WellFormed(e)
    case Map(k, r, less) => WellFormed(k) && WellFormed(r) && StrictWeakOrder(less)
    case Set(e, less) => WellFormed(e) && StrictWeakOrder(less)
    case Array(e, n) => WellFormed(e) && 1 <= n && Sized(n)
    case CharArray(n) => 1 <= n && Sized(n)
    case _ => true
  }

  lemma {:induction false} InitialIsOf(ty: Ty)
    requires WellFormed(ty)
    ensures IsOf(ty, Initial(ty))
    decreases Rank(ty)
  {
    match ty
    case Int(t) => TwoHalves(t.size);
    case Pair(a, b) =>
      InitialIsOf(a);
      InitialIsOf(b);
    case Array(e, n) => InitialIsOf(e);
    case _ =>
  }

  lemma {:induction false} UncheckedWitness(ty: Ty) returns (v: Value)
    requires WellFormed(ty) && !Checked(ty)
    ensures IsOf(ty, v) && UncheckedTail(ty, v) > 0
    decreases Rank(ty)
  {
    match ty
    case Chars => v := BytesV([0]);
    case Bools => v := BoolsV([true]);
    case Pair(a, b) =>
      var y := UncheckedWitness(b);
      InitialIsOf(a);
      v := PairV(Initial(a), y);
    case Vector(e) =>
      var x := UncheckedWitness(e);
      v := SeqV([x]);
    case Map(k, r, less) =>
      var y := UncheckedWitness(r);
      InitialIsOf(k);
      v := SeqV([PairV(Initial(k), y)]);
      assert v.items[|v.items| - 1] == PairV(Initial(k), y);
    case Set(e, less) =>
      var x := UncheckedWitness(e);
      v := SeqV([x]);
    case Array(e, n) =>
      var x := UncheckedWitness(e);
      v := SeqV(seq(n, _ => x));
      assert v.items[n - 1] == x;
  }

  /** No proper prefix of the encoding of any value is accepted. */
  ghost predicate PrefixFree(ty: Ty) {
    forall v, n: nat, dest ::
      IsOf(ty, v) && n < |Encode(ty, v)| ==> Decode(ty, dest, Encode(ty, v)[..n]).Broken?
  }

  /** A type's encodings are prefix-free exactly when they never end in unchecked bytes. */
  lemma PrefixFreeIffChecked(ty: Ty)
    requires WellFormed(ty)
    ensures PrefixFree(ty) <==> Checked(ty)
  {
    hide Decode, Encode, IsOf, UncheckedTail, Checked, WellFormed;
    if Checked(ty) {
      forall v, n: nat, dest | IsOf(ty, v) && n < |Encode(ty, v)|
        ensures Decode(ty, dest, Encode(ty, v)[..n]).Broken?
      {
        PrefixRejected(ty, v, n, dest);
      }
    } else {
      var v := UncheckedWitness(ty);
      var n: nat := |Encode(ty, v)| - 1;
      Truncation(ty, v, n, v);
      assert !Decode(ty, v, Encode(ty, v)[..n]).Broken?;
    }
  }

  /** The vector {'h', 'i'} cut after its first char is read as {'h', '\0'} into an empty vector, without an error. */
  lemma TruncatedCharsAccepted()
    ensures var v := BytesV([104, 105]);
            && Decode(Chars, BytesV([]), Encode(Chars, v)) == Complete(v, [])
            && Decode(Chars, BytesV([]), Encode(Chars, v)[..3]) == Complete(BytesV([104, 0]), [])
  {
    var v := BytesV([104, 105]);
    var e := Encode(Chars, v);
    assert Count(2) == [1, 2];
    RoundTrip(Chars, v, BytesV([]), []);
    assert e + [] == e;
    TruncationCount(2, v.bytes, 3);
    assert v.bytes[..1] == [104];
    var blank: seq<byte> := [0, 0];
    assert Resize(BytesOf(BytesV([])), 2, 0) == blank;
    assert Overwrite(blank, [104]) == [104, 0];
  }

  // ---------- C strings ----------

  /** A null-terminated char array is written exactly as the string in front of the terminator. */
  lemma CStringEncoding(a: seq<byte>)
    requires |a| >= 1 && Sized(|a|) && a[|a| - 1] == 0
    ensures Encode(CharArray(|a|), BytesV(a)) == Encode(Str, BytesV(a[..|a| - 1]))
  {
  }

  /** A string one shorter than a char array reads into it, terminator restored; one of equal length fills it. */
  lemma StringIntoCharArray(s: seq<byte>, length: nat, dest: Value, rest: seq<byte>)
    requires Sized(|s|) && Sized(length) && length >= 1
    ensures Decode(CharArray(length), dest, Encode(Str, BytesV(s)) + rest) ==
            if |s| == length then Complete(BytesV(s), rest)
            else if |s| + 1 == length then Complete(BytesV(s + [0]), rest)
            else Broken(dest)
  {
    assert Encode(Str, BytesV(s)) == Count(|s|) + s;
    BytesRoundTrip(s, Resize(BytesOf(dest), |s|, 0), rest);
    assert s + [] == s;
  }
}
