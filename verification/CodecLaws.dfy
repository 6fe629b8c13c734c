/**
 Laws of reading on arbitrary bytes: what comes out always is a value of the type, maps and
 sets are in order whatever was written, and what each byte means. The encodings of some
 values are written out byte by byte.
 */
module CodecLaws {
  import opened FixedWidth
  import opened Ordering
  import opened Streams
  import opened Codec
  import opened CodecMaps
  import opened CodecTheorems
  import I = IntCode

  // ---------- every read leaves a value of the type ----------

  lemma IntsInRange(t: IntType, bs: seq<byte>)
    ensures I.Unpack(t, bs).Parsed? ==> InRange(t, I.Unpack(t, bs).value)
    ensures InRange(t, 0)
  {
    I.PowBounds(t.size);
    if I.Unpack(t, bs).Parsed? {
      var size := I.SizeField(t, bs[0]);
      var magnitude: int := I.Value(bs[1..][..size]);
      WrapInRange(t, magnitude);
      WrapInRange(t, -magnitude);
    }
  }

  lemma {:induction false} InsertEntriesIsOf(
    e: Ty, less: (Value, Value) -> bool, entries: seq<Value>, added: seq<Value>)
    requires e.Pair? && forall x :: x in entries || x in added ==> IsOf(e, x)
    ensures forall x :: x in InsertEntries(less, entries, added) ==> IsOf(e, x)
    ensures |InsertEntries(less, entries, added)| <= |entries| + |added|
    decreases |added|
  {
    if added != [] {
      var a := added[0];
      InsertIsOf(e, less, entries, a);
      InsertEntriesIsOf(e, less, Insert(less, entries, a.fst, a.snd), added[1..]);
    }
  }

  lemma {:induction false} InsertIsOf(e: Ty, less: (Value, Value) -> bool, entries: seq<Value>, a: Value)
    requires e.Pair? && IsOf(e, a) && forall x :: x in entries ==> IsOf(e, x)
    ensures forall x :: x in Insert(less, entries, a.fst, a.snd) ==> IsOf(e, x)
    ensures |Insert(less, entries, a.fst, a.snd)| <= |entries| + 1
  {
    if entries != [] {
      var x := entries[0];
      assert x in entries && forall y :: y in entries[1..] ==> y in entries;
      assert IsOf(e, PairV(x.fst, a.snd)) && PairV(a.fst, a.snd) == a;
      InsertIsOf(e, less, entries[1..], a);
      hide IsOf;
    }
  }

  lemma {:induction false} InsertElementsIsOf(
    e: Ty, less: (Value, Value) -> bool, elements: seq<Value>, added: seq<Value>)
    requires forall x :: x in elements || x in added ==> IsOf(e, x)
    ensures forall x :: x in InsertElements(less, elements, added) ==> IsOf(e, x)
    ensures |InsertElements(less, elements, added)| <= |elements| + |added|
    decreases |added|
  {
    hide IsOf;
    if added != [] {
      forall x | x in InsertElement(less, elements, added[0]) ensures IsOf(e, x) {
        InsertElementKeys(less, elements, added[0], x);
      }
      InsertElementSize(less, elements, added[0]);
      InsertElementsIsOf(e, less, InsertElement(less, elements, added[0]), added[1..]);
    }
  }

  lemma {:induction false} InsertElementSize(less: (Value, Value) -> bool, elements: seq<Value>, d: Value)
    ensures |InsertElement(less, elements, d)| <= |elements| + 1
  {
    if elements != [] {
      InsertElementSize(less, elements[1..], d);
    }
  }

  /** The entries read so far make a map, also when reading breaks off. */
  lemma MapIsOf(k: Ty, r: Ty, less: (Value, Value) -> bool, added: seq<Value>)
    requires StrictWeakOrder(less) && Sized(|added|)
    requires forall x :: x in added ==> IsOf(Pair(k, r), x)
    ensures IsOf(Map(k, r, less), SeqV(InsertEntries(less, [], added)))
  {
    InsertEntriesIsOf(Pair(k, r), less, [], added);
    InsertEntriesMeaning(less, [], added, IntV(0));
    hide InsertEntries;
  }

  lemma SetIsOf(e: Ty, less: (Value, Value) -> bool, added: seq<Value>)
    requires StrictWeakOrder(less) && Sized(|added|)
    requires forall x :: x in added ==> IsOf(e, x)
    ensures IsOf(Set(e, less), SeqV(InsertElements(less, [], added)))
  {
    InsertElementsIsOf(e, less, [], added);
    ReadSetMeaning(less, [], added, IntV(0));
    hide InsertElements;
  }

  /** All variables read into hold values of the element type. */
  ghost predicate HoldsValues(e: Ty, to: Target) {
    match to
    case Slots(slots) => forall x :: x in slots ==> IsOf(e, x)
    case Variable(x) => IsOf(e, x)
  }

  /** What a read leaves, complete or not, is a value of the type. */
  ghost predicate LeavesValue(ty: Ty, p: Reading<Value>) {
    !p.Unknown? ==> IsOf(ty, p.item)
  }

  ghost predicate LeavesValues(e: Ty, to: Target, n: nat, p: Reading<seq<Value>>) {
    && (!p.Unknown? ==> |p.item| <= n && forall x :: x in p.item ==> IsOf(e, x))
    && (to.Slots? && !p.Unknown? ==> |p.item| == n)
  }

  /** Whatever the input, a variable that holds a value of its type holds one after reading into it. */
  lemma {:induction false} DecodeIsOf(ty: Ty, dest: Value, bs: seq<byte>)
    requires WellFormed(ty) && IsOf(ty, dest)
    ensures LeavesValue(ty, Decode(ty, dest, bs))
    decreases Rank(ty), 0
  {
    match ty
    case Int(t) => IntsInRange(t, bs);
    case Bool =>
    case Char =>
    case Float => FloatIsOf(dest, bs);
    case Pair(a, b) => PairIsOf(a, b, dest, bs);
    case Vector(e) => VectorIsOf(e, dest, bs);
    case Chars => hide DecodeCount;
    case Bools => hide DecodeCount;
    case Map(k, r, less) => ReadMapIsOf(k, r, less, dest, bs);
    case Set(e, less) => ReadSetIsOf(e, less, dest, bs);
    case Array(e, n) => ArrayIsOf(e, n, dest, bs);
    case Str => hide DecodeCount;
    case CharArray(_) => hide DecodeCount;
  }

  lemma FloatIsOf(dest: Value, bs: seq<byte>)
    requires IsOf(Float, dest)
    ensures LeavesValue(Float, Decode(Float, dest, bs))
  {
    IntsInRange(INT64, bs);
    if I.Unpack(INT64, bs).Parsed? {
      IntsInRange(INT16, I.Unpack(INT64, bs).rest);
    }
    hide InRange, I.Unpack;
  }

  lemma {:induction false} PairIsOf(a: Ty, b: Ty, dest: Value, bs: seq<byte>)
    requires WellFormed(Pair(a, b)) && IsOf(Pair(a, b), dest)
    ensures LeavesValue(Pair(a, b), Decode(Pair(a, b), dest, bs))
    decreases Rank(a) + Rank(b), 1
  {
    hide Decode;
    DecodePair(a, b, dest, bs);
    DecodeIsOf(a, First(dest), bs);
    var p := Decode(a, First(dest), bs);
    if p.Complete? {
      DecodeIsOf(b, Second(dest), p.rest);
    }
  }

  lemma {:induction false} VectorIsOf(e: Ty, dest: Value, bs: seq<byte>)
    requires WellFormed(e) && IsOf(Vector(e), dest)
    ensures LeavesValue(Vector(e), Decode(Vector(e), dest, bs))
    decreases Rank(e), 0x2_0000_0000_0000_0000
  {
    hide Decode, DecodeN, DecodeCount;
    DecodeVector(e, dest, bs);
    var count := DecodeCount(bs);
    if count.Parsed? {
      InitialIsOf(e);
      ElementsIsOf(e, Slots(Resize(ItemsOf(dest), count.value, Initial(e))), count.value, count.rest);
    }
  }

  lemma {:induction false} ArrayIsOf(e: Ty, length: nat, dest: Value, bs: seq<byte>)
    requires WellFormed(Array(e, length)) && IsOf(Array(e, length), dest)
    ensures LeavesValue(Array(e, length), Decode(Array(e, length), dest, bs))
    decreases Rank(e), 0x2_0000_0000_0000_0000
  {
    hide Decode, DecodeN, DecodeCount;
    DecodeArray(e, length, dest, bs);
    var count := DecodeCount(bs);
    if count.Parsed? && count.value == length {
      InitialIsOf(e);
      ElementsIsOf(e, Slots(Resize(ItemsOf(dest), length, Initial(e))), length, count.rest);
    }
  }

  lemma {:induction false} ReadMapIsOf(k: Ty, r: Ty, less: (Value, Value) -> bool, dest: Value, bs: seq<byte>)
    requires WellFormed(Map(k, r, less))
    ensures LeavesValue(Map(k, r, less), Decode(Map(k, r, less), dest, bs))
    decreases Rank(k) + Rank(r) + 1, 0x2_0000_0000_0000_0000
  {
    hide Decode, DecodeN, DecodeCount, InsertEntries;
    var e := Pair(k, r);
    DecodeMap(k, r, less, dest, bs);
    var count := DecodeCount(bs);
    if count.Parsed? {
      InitialIsOf(e);
      ElementsIsOf(e, Variable(Initial(e)), count.value, count.rest);
      var p := DecodeN(e, Variable(Initial(e)), count.value, count.rest);
      if !p.Unknown? {
        MapIsOf(k, r, less, p.item);
      }
    }
  }

  lemma {:induction false} ReadSetIsOf(e: Ty, less: (Value, Value) -> bool, dest: Value, bs: seq<byte>)
    requires WellFormed(Set(e, less))
    ensures LeavesValue(Set(e, less), Decode(Set(e, less), dest, bs))
    decreases Rank(e), 0x2_0000_0000_0000_0000
  {
    hide Decode, DecodeN, DecodeCount, InsertElements;
    DecodeSet(e, less, dest, bs);
    var count := DecodeCount(bs);
    if count.Parsed? {
      InitialIsOf(e);
      ElementsIsOf(e, Variable(Initial(e)), count.value, count.rest);
      var p := DecodeN(e, Variable(Initial(e)), count.value, count.rest);
      if !p.Unknown? {
        SetIsOf(e, less, p.item);
      }
    }
  }

  lemma {:induction false} ElementsIsOf(e: Ty, to: Target, n: nat, bs: seq<byte>)
    requires WellFormed(e) && HasRoom(to, n) && HoldsValues(e, to)
    ensures LeavesValues(e, to, n, DecodeN(e, to, n, bs))
    decreases Rank(e), 1 + n
  {
    hide Decode, DecodeN, IsOf, WellFormed;
    if n == 0 {
      NoElementsIsOf(e, to, bs);
    } else {
      DecodeNStep(e, to, n, bs);
      DecodeIsOf(e, Current(to), bs);
      var p := Decode(e, Current(to), bs);
      if p.Complete? {
        ElementsIsOf(e, Advance(to, p.item), n - 1, p.rest);
      }
    }
  }

  lemma NoElementsIsOf(e: Ty, to: Target, bs: seq<byte>)
    requires HasRoom(to, 0)
    ensures LeavesValues(e, to, 0, DecodeN(e, to, 0, bs))
  {
  }

  // ---------- maps and sets, whatever order they were written in ----------

  /**
   Reading a map from any bytes: its keys ascend, and it holds, under the first of equivalent
   keys that were read, the value that was read last.
   */
  lemma DecodedMap(k: Ty, r: Ty, less: (Value, Value) -> bool, dest: Value, bs: seq<byte>, c: Value)
    returns (added: seq<Value>)
    requires StrictWeakOrder(less)
    requires Decode(Map(k, r, less), dest, bs).Complete?
    ensures DecodeCount(bs).Parsed? && |added| == DecodeCount(bs).value && AllPairs(added)
    ensures DecodeN(Pair(k, r), Variable(Initial(Pair(k, r))), |added|, DecodeCount(bs).rest) ==
            Complete(added, Decode(Map(k, r, less), dest, bs).rest)
    ensures var m := Decode(Map(k, r, less), dest, bs).item;
            && m.SeqV? && IsMap(less, m.items)
            && (Find(less, added, c).Found? <==> FindLast(less, added, c).Found?)
            && Find(less, m.items, c) ==
               if Find(less, added, c).Missing? then Missing
               else Found(PairV(Find(less, added, c).entry.fst, FindLast(less, added, c).entry.snd))
  {
    hide Decode, DecodeN, DecodeCount, InsertEntries, Find, FindLast;
    DecodeMap(k, r, less, dest, bs);
    var count := DecodeCount(bs);
    added := DecodeN(Pair(k, r), Variable(Initial(Pair(k, r))), count.value, count.rest).item;
    EntriesArePairs(k, r, Initial(Pair(k, r)), count.value, count.rest);
    ReadMapMeaning(less, added, c);
  }

  lemma {:induction false} EntriesArePairs(k: Ty, r: Ty, entry: Value, n: nat, bs: seq<byte>)
    ensures var p := DecodeN(Pair(k, r), Variable(entry), n, bs); p.Complete? ==> AllPairs(p.item)
    decreases n
  {
    hide Decode, DecodeN, AllPairs;
    if n == 0 {
      NoEntries(Pair(k, r), entry, bs);
    } else {
      DecodeNStep(Pair(k, r), Variable(entry), n, bs);
      DecodePair(k, r, entry, bs);
      var p := Decode(Pair(k, r), entry, bs);
      if p.Complete? {
        EntriesArePairs(k, r, p.item, n - 1, p.rest);
        var q := DecodeN(Pair(k, r), Variable(p.item), n - 1, p.rest);
        if q.Complete? {
          OneMorePair(p.item, q.item);
        }
      }
    }
  }

  lemma NoEntries(e: Ty, entry: Value, bs: seq<byte>)
    ensures DecodeN(e, Variable(entry), 0, bs) == Complete([], bs) && AllPairs([])
  {
  }

  lemma OneMorePair(x: Value, xs: seq<Value>)
    requires x.PairV? && AllPairs(xs)
    ensures AllPairs([x] + xs)
  {
  }

  /** Reading a set from any bytes: it is in order and holds the first of equivalent elements. */
  lemma DecodedSet(e: Ty, less: (Value, Value) -> bool, dest: Value, bs: seq<byte>, c: Value)
    returns (added: seq<Value>)
    requires StrictWeakOrder(less)
    requires Decode(Set(e, less), dest, bs).Complete?
    ensures DecodeCount(bs).Parsed? && |added| == DecodeCount(bs).value
    ensures DecodeN(e, Variable(Initial(e)), |added|, DecodeCount(bs).rest) ==
            Complete(added, Decode(Set(e, less), dest, bs).rest)
    ensures var m := Decode(Set(e, less), dest, bs).item;
            m.SeqV? && IsSet(less, m.items) && FindElement(less, m.items, c) == FindElement(less, added, c)
  {
    hide Decode, DecodeN, DecodeCount, InsertElements;
    DecodeSet(e, less, dest, bs);
    var count := DecodeCount(bs);
    added := DecodeN(e, Variable(Initial(e)), count.value, count.rest).item;
    ReadSetMeaning(less, [], added, c);
  }

  // ---------- what single bytes mean ----------

  /** Exactly the two bytes that are written for a bool are accepted. */
  lemma BoolBytesAccepted(dest: Value, bs: seq<byte>)
    ensures var yes, no := Encode(Bool, BoolV(true)), Encode(Bool, BoolV(false));
            Decode(Bool, dest, bs) ==
            if yes <= bs then Complete(BoolV(true), bs[|yes|..])
            else if no <= bs then Complete(BoolV(false), bs[|no|..])
            else Broken(dest)
  {
    assert Encode(Bool, BoolV(true)) == [49] && Encode(Bool, BoolV(false)) == [48];
  }

  /** In a vector of bool a '1' is true and every other byte is false; missing bytes are false too. */
  lemma BoolVectorBytes(n: nat, bytes: seq<byte>, rest: seq<byte>, dest: Value)
    requires Sized(n) && (|bytes| == n || (|bytes| < n && rest == []))
    ensures var p := Decode(Bools, dest, Count(n) + (bytes + rest));
            && p.Complete? && p.rest == rest && p.item.BoolsV? && |p.item.bools| == n
            && forall i :: 0 <= i < n ==> (p.item.bools[i] <==> i < |bytes| && bytes[i] == 0x31)
  {
    CountRoundTrip(n, bytes + rest);
    hide DecodeCount;
    var blank: seq<byte> := Resize([], n, 0);
    OverwriteAt(blank, bytes + rest);
    assert forall i :: 0 <= i < n ==> blank[i] == 0;
  }

  /** Reading over a buffer: bytes that are there replace its contents, the others leave them. */
  lemma OverwriteAt(was: seq<byte>, bs: seq<byte>)
    ensures forall i :: 0 <= i < |was| ==> Overwrite(was, bs)[i] == if i < |bs| then bs[i] else was[i]
  {
  }

  /** Resizing keeps the elements that fit and fills up with the given one. */
  lemma ResizeAt<T>(items: seq<T>, n: nat, x: T)
    ensures forall i :: 0 <= i < n ==> Resize(items, n, x)[i] == if i < |items| then items[i] else x
  {
  }

  /** A vector of char over a used one: the old contents stay where bytes are missing. */
  lemma CharVectorBytes(n: nat, bytes: seq<byte>, dest: Value)
    requires Sized(n) && |bytes| <= n && dest.BytesV?
    ensures var p := Decode(Chars, dest, Count(n) + bytes);
            && p.Complete? && p.rest == [] && p.item.BytesV? && |p.item.bytes| == n
            && forall i :: 0 <= i < n ==>
                 p.item.bytes[i] == if i < |bytes| then bytes[i]
                                    else if i < |dest.bytes| then dest.bytes[i] else 0
  {
    CountRoundTrip(n, bytes);
    hide DecodeCount;
    ResizeAt(dest.bytes, n, 0);
    OverwriteAt(Resize(dest.bytes, n, 0), bytes);
  }

  /** An array is left alone if another size was stored. */
  lemma ArrayOfOtherSize(e: Ty, length: nat, size: nat, dest: Value, rest: seq<byte>)
    requires Sized(size) && size != length
    ensures Decode(Array(e, length), dest, Count(size) + rest) == Broken(dest)
  {
    hide Decode, DecodeCount, DecodeN;
    CountRoundTrip(size, rest);
    DecodeArray(e, length, dest, Count(size) + rest);
  }

  /** A first byte with one of the bits 0x10, 0x20 and 0x40 is the older floating point format. */
  lemma FloatFormatByte(dest: Value, high: bool, bits: nat, low: nat, rest: seq<byte>)
    requires 1 <= bits < 8 && low < 16
    ensures Decode(Float, dest, [(if high then 128 else 0) + 16 * bits + low] + rest) == Unknown
  {
    var first: byte := (if high then 128 else 0) + 16 * bits + low;
    assert first / 16 % 8 == bits;
    hide I.Unpack;
  }

  /**
   An exception in the middle of a vector: the elements before it have been read, the one that
   threw holds what its reader left, and those after it are untouched.
   */
  lemma {:induction false} BrokenSlots(e: Ty, slots: seq<Value>, bs: seq<byte>) returns (i: nat)
    requires DecodeN(e, Slots(slots), |slots|, bs).Broken?
    ensures var items := DecodeN(e, Slots(slots), |slots|, bs).item;
            && i < |items| == |slots|
            && items[i + 1..] == slots[i + 1..]
            && var p := DecodeN(e, Slots(slots[..i]), i, bs);
            && p.Complete? && items[..i] == p.item
            && Decode(e, slots[i], p.rest) == Broken(items[i])
    decreases |slots|
  {
    hide Decode, DecodeN;
    if slots == [] {
      NoSlots(e, bs);
    } else {
      var others := slots[1..];
      DecodeNStep(e, Slots(slots), |slots|, bs);
      var p := Decode(e, slots[0], bs);
      if p.Broken? {
        i := 0;
        NoSlots(e, bs);
        assert slots[..0] == [];
      } else {
        var j := BrokenSlots(e, others, p.rest);
        i := j + 1;
        DecodeNStep(e, Slots(slots[..i]), i, bs);
        assert slots[..i][1..] == others[..j] && others[j + 1..] == slots[i + 1..];
      }
    }
  }

  lemma NoSlots(e: Ty, bs: seq<byte>)
    ensures DecodeN(e, Slots([]), 0, bs) == Complete([], bs)
  {
  }

  // ---------- encodings byte by byte ----------

  const INT32: IntType := IntType(4, true)

  lemma IntegerBytes()
    ensures I.Encode(0) == [1, 0]
    ensures I.Encode(1) == [1, 1]
    ensures I.Encode(-1) == [0x81, 1]
    ensures I.Encode(300) == [2, 44, 1]
    ensures I.Encode(-65536) == [0x83, 0, 0, 1]
  {
    assert I.Digits(256) == [0, 1] && I.Digits(65536) == [0] + [0, 1];
  }

  lemma SimpleBytes()
    ensures Encode(Bool, BoolV(true)) == [0x31] && Encode(Bool, BoolV(false)) == [0x30]
    ensures Encode(Char, CharV(97)) == [97]
    ensures Encode(Pair(Char, Bool), PairV(CharV(97), BoolV(true))) == [97, 0x31]
  {
  }

  /** Initial values are zeros and empty containers. */
  lemma InitialBytes()
    ensures IsOf(Int(INT32), Initial(Int(INT32))) && Encode(Int(INT32), Initial(Int(INT32))) == [1, 0]
    ensures Encode(Bool, Initial(Bool)) == [0x30] && Encode(Char, Initial(Char)) == [0]
    ensures IsOf(Float, Initial(Float)) && Encode(Float, Initial(Float)) == [1, 0, 1, 0]
    ensures Encode(Str, Initial(Str)) == Encode(Chars, Initial(Chars)) == Encode(Bools, Initial(Bools)) == [1, 0]
  {
    I.PowBounds(4);
    I.PowBounds(8);
    I.PowBounds(2);
    assert Count(0) == [1, 0];
  }

  /** The number one as a double: the mantissa 16, then the exponent -4. */
  lemma FloatBytes()
    ensures IsOf(Float, FloatV(16, -4))
    ensures Encode(Float, FloatV(16, -4)) == [1, 16, 0x81, 4]
  {
    I.PowBounds(8);
    I.PowBounds(2);
    assert I.Digits(16) == [16] && I.Digits(4) == [4];
  }

  lemma BufferBytes()
    ensures Encode(Str, BytesV([97, 98])) == [1, 2, 97, 98]
    ensures Encode(Chars, BytesV([97, 98])) == [1, 2, 97, 98]
    ensures Encode(Bools, BoolsV([true, false])) == [1, 2, 0x31, 0x30]
    ensures Encode(CharArray(2), BytesV([97, 98])) == [1, 2, 97, 98]
    ensures Encode(CharArray(3), BytesV([97, 98, 0])) == [1, 2, 97, 98]
  {
    assert Count(2) == [1, 2];
    assert BoolBytes([true, false]) == [0x31, 0x30];
    assert [97 as byte, 98, 0][..2] == [97, 98];
  }

  lemma {:induction false} TwoElements(e: Ty, x: Value, y: Value)
    requires IsOf(e, x) && IsOf(e, y)
    ensures EncodeAll(e, [x, y]) == Encode(e, x) + Encode(e, y)
  {
    hide Encode, IsOf;
    assert [x, y][1..] == [y] && [y][1..] == [];
    assert EncodeAll(e, [y]) == Encode(e, y) + EncodeAll(e, []);
  }

  /** Size first, then the elements in order. */
  lemma VectorBytes()
    ensures var items := [CharV(98), CharV(97)];
            && Encode(Vector(Char), SeqV(items)) == [1, 2, 98, 97]
            && Encode(Array(Char, 2), SeqV(items)) == [1, 2, 98, 97]
  {
    assert Count(2) == [1, 2];
    TwoElements(Char, CharV(98), CharV(97));
  }

  lemma SetBytes(less: (Value, Value) -> bool)
    requires IsOf(Set(Char, less), SeqV([CharV(97), CharV(98)]))
    ensures Encode(Set(Char, less), SeqV([CharV(97), CharV(98)])) == [1, 2, 97, 98]
  {
    assert Count(2) == [1, 2];
    TwoElements(Char, CharV(97), CharV(98));
    hide StrictWeakOrder, Ascending;
  }

  /** In a map every key comes before its value. */
  lemma MapBytes(less: (Value, Value) -> bool)
    requires IsOf(Map(Char, Bool, less), SeqV([PairV(CharV(97), BoolV(true)), PairV(CharV(98), BoolV(false))]))
    ensures Encode(Map(Char, Bool, less), SeqV([PairV(CharV(97), BoolV(true)), PairV(CharV(98), BoolV(false))])) ==
            [1, 2, 97, 0x31, 98, 0x30]
  {
    var e, x, y := Pair(Char, Bool), PairV(CharV(97), BoolV(true)), PairV(CharV(98), BoolV(false));
    assert Count(2) == [1, 2];
    TwoElements(e, x, y);
    MapUnfold(Char, Bool, less, [x, y]);
    assert Encode(e, x) == [97, 0x31] && Encode(e, y) == [98, 0x30];
    hide Encode, EncodeAll, IsOf;
  }

  lemma MapUnfold(k: Ty, r: Ty, less: (Value, Value) -> bool, entries: seq<Value>)
    requires IsOf(Map(k, r, less), SeqV(entries))
    ensures Sized(|entries|) && forall x :: x in entries ==> IsOf(Pair(k, r), x)
    ensures Encode(Map(k, r, less), SeqV(entries)) == Count(|entries|) + EncodeAll(Pair(k, r), entries)
  {
    hide StrictWeakOrder, Ascending;
  }
}
