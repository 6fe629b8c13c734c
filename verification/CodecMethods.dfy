/**
 The serialize and deserialize routines themselves: they write to and consume streams, and
 loop over the elements of containers. Their effect is what Encode and Decode describe. A
 routine that reads takes the value its destination holds and returns the one it leaves there.
 */
module CodecMethods {
  import opened FixedWidth
  import opened Ordering
  import opened Streams
  import opened Codec
  import I = IntCode

  method WriteCount(n: nat, out: OutStream)
    requires Sized(n)
    modifies out
    ensures out.written == old(out.written) + Count(n)
  {
    assert InRange(ULONG, n) by {
      I.PowBounds(8);
      assert Pow256(4) == 0x1_0000_0000 && Pow256(8) == 0x1_0000_0000_0000_0000;
    }
    I.PackInt(ULONG, n, out);
  }

  method Serialize(ty: Ty, v: Value, out: OutStream)
    requires IsOf(ty, v)
    modifies out
    ensures out.written == old(out.written) + Encode(ty, v)
    decreases Rank(ty), 0
  {
    match ty
    case Int(t) => I.PackInt(t, v.i, out);
    case Bool => out.Write([if v.b then 49 else 48]);
    case Char => out.Write([v.c]);
    case Float =>
      I.PackInt(INT64, v.mantissa, out);
      I.PackInt(INT16, v.exponent, out);
    case Pair(a, b) =>
      Serialize(a, v.fst, out);
      Serialize(b, v.snd, out);
    case Vector(e) => SerializeSeq(e, v.items, out);
    case Chars => SerializeBytes(v.bytes, out);
    case Bools =>
      var temp := BoolBytes(v.bools);
      SerializeBytes(temp, out);
    case Map(k, r, _) => SerializeSeq(Pair(k, r), v.items, out);
    case Set(e, _) => SerializeSeq(e, v.items, out);
    case Array(e, _) => SerializeSeq(e, v.items, out);
    case Str => SerializeBytes(v.bytes, out);
    case CharArray(n) =>
      if v.bytes[n - 1] == 0 {
        SerializeBytes(v.bytes[..n - 1], out);
      } else {
        SerializeBytes(v.bytes, out);
      }
  }

  method SerializeBytes(bytes: seq<byte>, out: OutStream)
    requires Sized(|bytes|)
    modifies out
    ensures out.written == old(out.written) + (Count(|bytes|) + bytes)
  {
    WriteCount(|bytes|, out);
    out.Write(bytes);
  }

  lemma EncodeAllStep(e: Ty, items: seq<Value>, i: nat, w: seq<byte>)
    requires i < |items| && forall x :: x in items ==> IsOf(e, x)
    ensures w + EncodeAll(e, items[i..]) == w + Encode(e, items[i]) + EncodeAll(e, items[i + 1..])
  {
    assert items[i..][1..] == items[i + 1..];
  }

  /** The size, then the elements in order. */
  method SerializeSeq(e: Ty, items: seq<Value>, out: OutStream)
    requires Sized(|items|)
    requires forall x :: x in items ==> IsOf(e, x)
    modifies out
    ensures out.written == old(out.written) + (Count(|items|) + EncodeAll(e, items))
    decreases Rank(e), 1
  {
    ghost var whole := out.written + (Count(|items|) + EncodeAll(e, items));
    WriteCount(|items|, out);
    assert items[0..] == items;
    for i := 0 to |items|
      invariant out.written + EncodeAll(e, items[i..]) == whole
    {
      EncodeAllStep(e, items, i, out.written);
      Serialize(e, items[i], out);
    }
    assert out.written + EncodeAll(e, []) == out.written;
  }

  // ---------- reading ----------

  method ReadCount(stream: InStream) returns (r: Outcome<nat>)
    modifies stream
    ensures Agrees(DecodeCount(old(stream.unread)), r, stream.unread)
  {
    var q := I.UnpackInt(ULONG, stream);
    match q
    case Ok(n) => return Ok(n);
    case Thrown => return Thrown;
    case Undefined => return Undefined;
  }

  /** How a routine that reads ends. */
  datatype Status = Success | Exception | Stuck

  /** A routine that ended with st, leaving item in its destination and unread in the stream, did what p says. */
  ghost predicate Leaves<T>(p: Reading<T>, st: Status, item: T, unread: seq<byte>) {
    match p
    case Complete(x, rest) => st == Success && item == x && unread == rest
    case Broken(x) => st == Exception && item == x
    case Unknown => st == Stuck
  }

  method Deserialize(ty: Ty, dest: Value, stream: InStream) returns (st: Status, item: Value)
    modifies stream
    ensures Leaves(Decode(ty, dest, old(stream.unread)), st, item, stream.unread)
    decreases Rank(ty), 0
  {
    match ty
    case Int(t) => st, item := ReadInt(t, dest, stream);
    case Bool => st, item := ReadBool(dest, stream);
    case Char =>
      var ch := stream.Bump();
      if ch < 0 {
        st, item := Exception, dest;
      } else {
        st, item := Success, CharV(ch);
      }
    case Float => st, item := ReadFloat(dest, stream);
    case Pair(a, b) => st, item := ReadPair(a, b, dest, stream);
    case Vector(e) => st, item := ReadVector(e, dest, stream);
    case Chars => st, item := ReadChars(dest, stream);
    case Bools => st, item := ReadBools(dest, stream);
    case Map(k, v, less) => st, item := ReadMap(k, v, less, dest, stream);
    case Set(e, less) => st, item := ReadSet(e, less, dest, stream);
    case Array(e, n) => st, item := ReadArray(e, n, dest, stream);
    case Str => st, item := ReadString(dest, stream);
    case CharArray(n) => st, item := ReadCharArray(n, dest, stream);
  }

  method ReadInt(t: IntType, dest: Value, stream: InStream) returns (st: Status, item: Value)
    modifies stream
    ensures Leaves(Decode(Int(t), dest, old(stream.unread)), st, item, stream.unread)
  {
    item := IntV(0);
    var q := I.UnpackInt(t, stream);
    match q
    case Ok(i) => st, item := Success, IntV(i);
    case Thrown => st := Exception;
    case Undefined => st := Stuck;
  }

  method ReadBool(dest: Value, stream: InStream) returns (st: Status, item: Value)
    modifies stream
    ensures Leaves(Decode(Bool, dest, old(stream.unread)), st, item, stream.unread)
  {
    st, item := Success, dest;
    var ch := stream.Bump();
    if ch == 49 {
      item := BoolV(true);
    } else if ch == 48 {
      item := BoolV(false);
    } else {
      st := Exception;
    }
  }

  /** The first byte is only looked at to tell the binary format from the ASCII one. */
  method ReadFloat(dest: Value, stream: InStream) returns (st: Status, item: Value)
    modifies stream
    ensures Leaves(Decode(Float, dest, old(stream.unread)), st, item, stream.unread)
  {
    item := dest;
    if stream.unread == [] {
      return Exception, item;
    }
    if stream.unread[0] / 16 % 8 != 0 {
      return Stuck, item;
    }
    var m := I.UnpackInt(INT64, stream);
    match m
    case Thrown => st := Exception;
    case Undefined => st := Stuck;
    case Ok(mantissa) =>
      var e := I.UnpackInt(INT16, stream);
      match e
      case Ok(exponent) => st, item := Success, FloatV(mantissa, exponent);
      case Thrown => st := Exception;
      case Undefined => st := Stuck;
  }

  method ReadPair(a: Ty, b: Ty, dest: Value, stream: InStream) returns (st: Status, item: Value)
    modifies stream
    ensures Leaves(Decode(Pair(a, b), dest, old(stream.unread)), st, item, stream.unread)
    decreases Rank(a) + Rank(b), 1
  {
    var first, second := First(dest), Second(dest);
    st, first := Deserialize(a, first, stream);
    if st == Success {
      st, second := Deserialize(b, second, stream);
    }
    item := PairV(first, second);
  }

  /** One round of the loop over the slots of a container, of which some are filled already. */
  lemma SlotStep(e: Ty, filled: seq<Value>, slots: seq<Value>, bs: seq<byte>)
    requires slots != []
    ensures var whole := Prepend(filled, DecodeN(e, Slots(slots), |slots|, bs));
            match Decode(e, slots[0], bs)
            case Complete(x, rest) =>
              whole == Prepend(filled + [x], DecodeN(e, Slots(slots[1..]), |slots[1..]|, rest))
            case Broken(x) => whole == Broken(filled + [x] + slots[1..])
            case Unknown => whole == Unknown
  {
    hide Decode, DecodeN, Prepend;
    DecodeNStep(e, Slots(slots), |slots|, bs);
    match Decode(e, slots[0], bs)
    case Complete(x, rest) => PrependTwice(filled, x, DecodeN(e, Slots(slots[1..]), |slots[1..]|, rest));
    case Broken(x) => PrependBroken(filled, x, slots[1..]);
    case Unknown => PrependUnknown(filled);
  }

  lemma PrependBroken(xs: seq<Value>, x: Value, ys: seq<Value>)
    ensures Prepend(xs, Broken([x] + ys)) == Broken(xs + [x] + ys)
  {
    assert xs + ([x] + ys) == xs + [x] + ys;
  }

  lemma PrependUnknown(xs: seq<Value>)
    ensures Prepend(xs, Unknown) == Unknown
  {
  }

  lemma PrependTwice(xs: seq<Value>, x: Value, p: Reading<seq<Value>>)
    ensures Prepend(xs, Prepend([x], p)) == Prepend(xs + [x], p)
  {
    if !p.Unknown? {
      assert xs + ([x] + p.item) == xs + [x] + p.item;
    }
  }

  /** The loop over the slots of a vector or array. */
  method ReadSlots(e: Ty, slots: seq<Value>, stream: InStream) returns (st: Status, items: seq<Value>)
    modifies stream
    ensures Leaves(DecodeN(e, Slots(slots), |slots|, old(stream.unread)), st, items, stream.unread)
    decreases Rank(e), 1
  {
    ghost var whole := DecodeN(e, Slots(slots), |slots|, stream.unread);
    ghost var filled, left := [], slots;
    PrependNothing(whole);
    hide Decode, DecodeN, Prepend;
    items := slots;
    st := Success;
    var i := 0;
    while i < |slots|
      invariant i + |left| == |slots| && |filled| == i
      invariant items == filled + left && st == Success
      invariant whole == Prepend(filled, DecodeN(e, Slots(left), |left|, stream.unread))
    {
      SlotStep(e, filled, left, stream.unread);
      var x;
      st, x := Deserialize(e, items[i], stream);
      FillSlot(filled, left, x);
      items := items[i := x];
      if st != Success {
        return;
      }
      filled, left := filled + [x], left[1..];
      i := i + 1;
    }
    NoMoreSlots(e, items, stream.unread);
  }

  lemma FillSlot(filled: seq<Value>, left: seq<Value>, x: Value)
    requires left != []
    ensures (filled + left)[|filled| := x] == filled + [x] + left[1..]
  {
  }

  lemma PrependNothing(p: Reading<seq<Value>>)
    ensures Prepend([], p) == p
  {
    if !p.Unknown? {
      assert [] + p.item == p.item;
    }
  }

  lemma NoMoreSlots(e: Ty, items: seq<Value>, bs: seq<byte>)
    ensures Prepend(items, DecodeN(e, Slots([]), 0, bs)) == Complete(items, bs)
  {
    assert items + [] == items;
  }

  method ReadVector(e: Ty, dest: Value, stream: InStream) returns (st: Status, item: Value)
    modifies stream
    ensures Leaves(Decode(Vector(e), dest, old(stream.unread)), st, item, stream.unread)
    decreases Rank(e), 2
  {
    item := dest;
    var size := ReadCount(stream);
    match size
    case Thrown => st := Exception;
    case Undefined => st := Stuck;
    case Ok(n) =>
      var items := Resize(ItemsOf(dest), n, Initial(e));
      st, items := ReadSlots(e, items, stream);
      item := SeqV(items);
  }

  method ReadArray(e: Ty, length: nat, dest: Value, stream: InStream) returns (st: Status, item: Value)
    modifies stream
    ensures Leaves(Decode(Array(e, length), dest, old(stream.unread)), st, item, stream.unread)
    decreases Rank(e), 2
  {
    item := dest;
    var size := ReadCount(stream);
    match size
    case Thrown => st := Exception;
    case Undefined => st := Stuck;
    case Ok(n) =>
      if n != length {
        return Exception, item;
      }
      var items := Resize(ItemsOf(dest), n, Initial(e));
      st, items := ReadSlots(e, items, stream);
      item := SeqV(items);
  }

  /** Reads over the bytes of a buffer; complete tells whether all of them were there. */
  method ReadOver(was: seq<byte>, stream: InStream) returns (bytes: seq<byte>, complete: bool)
    modifies stream
    ensures bytes == Overwrite(was, old(stream.unread))
    ensures complete == (|was| <= |old(stream.unread)|)
    ensures stream.unread == Behind(|was|, old(stream.unread))
  {
    var read := stream.Read(|was|);
    complete := |read| == |was|;
    bytes := read + was[|read|..];
  }

  /** No check after the read. */
  method ReadChars(dest: Value, stream: InStream) returns (st: Status, item: Value)
    modifies stream
    ensures Leaves(Decode(Chars, dest, old(stream.unread)), st, item, stream.unread)
  {
    item := dest;
    var size := ReadCount(stream);
    match size
    case Thrown => st := Exception;
    case Undefined => st := Stuck;
    case Ok(n) =>
      var bytes := Resize(BytesOf(dest), n, 0);
      var complete;
      bytes, complete := ReadOver(bytes, stream);
      st, item := Success, BytesV(bytes);
  }

  /** Reads a temporary vector of unsigned char. */
  method ReadBools(dest: Value, stream: InStream) returns (st: Status, item: Value)
    modifies stream
    ensures Leaves(Decode(Bools, dest, old(stream.unread)), st, item, stream.unread)
  {
    item := dest;
    var temp;
    st, temp := ReadChars(BytesV([]), stream);
    if st == Success {
      item := BoolsV(BytesToBools(BytesOf(temp)));
    }
  }

  method ReadString(dest: Value, stream: InStream) returns (st: Status, item: Value)
    modifies stream
    ensures Leaves(Decode(Str, dest, old(stream.unread)), st, item, stream.unread)
  {
    item := dest;
    var size := ReadCount(stream);
    match size
    case Thrown => st := Exception;
    case Undefined => st := Stuck;
    case Ok(n) =>
      var bytes := Resize(BytesOf(dest), n, 0);
      var complete;
      bytes, complete := ReadOver(bytes, stream);
      item := BytesV(bytes);
      st := if complete then Success else Exception;
  }

  method ReadCharArray(length: nat, dest: Value, stream: InStream) returns (st: Status, item: Value)
    modifies stream
    ensures Leaves(Decode(CharArray(length), dest, old(stream.unread)), st, item, stream.unread)
  {
    item := dest;
    var size := ReadCount(stream);
    match size
    case Thrown => st := Exception;
    case Undefined => st := Stuck;
    case Ok(n) =>
      if n != length && n + 1 != length {
        return Exception, item;
      }
      var bytes := Resize(BytesOf(dest), n, 0);
      var complete;
      bytes, complete := ReadOver(bytes, stream);
      item := BytesV(bytes + if n == length then [] else [0]);
      st := if complete then Success else Exception;
  }

  lemma PairsDecodeToPairs(k: Ty, v: Ty, entry: Value, bs: seq<byte>)
    ensures Decode(Pair(k, v), entry, bs).Complete? ==> Decode(Pair(k, v), entry, bs).item.PairV?
  {
  }

  /** One round of the loop that fills a map, with an entry left over from the round before. */
  lemma EntryStep(
    k: Ty, v: Ty, less: (Value, Value) -> bool, item: seq<Value>, entry: Value, n: nat, bs: seq<byte>)
    requires n > 0
    ensures var whole := AsMap(less, item, DecodeN(Pair(k, v), Variable(entry), n, bs));
            match Decode(Pair(k, v), entry, bs)
            case Complete(x, rest) =>
              && x.PairV?
              && whole == AsMap(less, Insert(less, item, x.fst, x.snd), DecodeN(Pair(k, v), Variable(x), n - 1, rest))
            case Broken(_) => whole == Broken(SeqV(item))
            case Unknown => whole == Unknown
  {
    hide Decode, DecodeN, Insert;
    var p := Decode(Pair(k, v), entry, bs);
    PairsDecodeToPairs(k, v, entry, bs);
    DecodeNStep(Pair(k, v), Variable(entry), n, bs);
    if p.Complete? {
      InsertFirst(less, item, p.item, DecodeN(Pair(k, v), Variable(p.item), n - 1, p.rest));
    }
  }

  lemma InsertFirst(less: (Value, Value) -> bool, item: seq<Value>, x: Value, q: Reading<seq<Value>>)
    requires x.PairV?
    ensures AsMap(less, item, Prepend([x], q)) == AsMap(less, Insert(less, item, x.fst, x.snd), q)
  {
    if !q.Unknown? {
      assert ([x] + q.item)[1..] == q.item;
    }
  }

  lemma NoMoreEntries(e: Ty, less: (Value, Value) -> bool, item: seq<Value>, entry: Value, bs: seq<byte>)
    ensures AsMap(less, item, DecodeN(e, Variable(entry), 0, bs)) == Complete(SeqV(item), bs)
  {
  }

  /** The map is cleared, and every key and value read is put into it. */
  method ReadMap(k: Ty, v: Ty, less: (Value, Value) -> bool, ghost dest: Value, stream: InStream)
    returns (st: Status, item: Value)
    modifies stream
    ensures Leaves(Decode(Map(k, v, less), dest, old(stream.unread)), st, item, stream.unread)
    decreases Rank(k) + Rank(v), 3
  {
    item := SeqV([]);
    var size := ReadCount(stream);
    match size
    case Thrown => st := Exception;
    case Undefined => st := Stuck;
    case Ok(n) =>
      var entries;
      st, entries := ReadEntries(k, v, less, n, stream);
      item := SeqV(entries);
  }

  /** The loop of a map, whose variables live as long as the loop. */
  method ReadEntries(k: Ty, v: Ty, less: (Value, Value) -> bool, n: nat, stream: InStream)
    returns (st: Status, item: seq<Value>)
    modifies stream
    ensures Leaves(
              AsMap(less, [], DecodeN(Pair(k, v), Variable(Initial(Pair(k, v))), n, old(stream.unread))),
              st, SeqV(item), stream.unread)
    decreases Rank(k) + Rank(v), 2
  {
    hide Decode, DecodeN, Insert, InsertEntries, AsMap, Initial;
    ghost var whole := AsMap(less, [], DecodeN(Pair(k, v), Variable(Initial(Pair(k, v))), n, stream.unread));
    item := [];
    var entry := Initial(Pair(k, v));
    st := Success;
    var i := 0;
    while i < n
      invariant 0 <= i <= n && st == Success
      invariant whole == AsMap(less, item, DecodeN(Pair(k, v), Variable(entry), n - i, stream.unread))
    {
      EntryStep(k, v, less, item, entry, n - i, stream.unread);
      st, entry := ReadPair(k, v, entry, stream);
      if st != Success {
        return;
      }
      item := Insert(less, item, entry.fst, entry.snd);
      i := i + 1;
    }
    NoMoreEntries(Pair(k, v), less, item, entry, stream.unread);
  }

  lemma ElementStep(e: Ty, less: (Value, Value) -> bool, item: seq<Value>, d: Value, n: nat, bs: seq<byte>)
    requires n > 0
    ensures var whole := AsSet(less, item, DecodeN(e, Variable(d), n, bs));
            match Decode(e, d, bs)
            case Complete(d', rest) =>
              whole == AsSet(less, InsertElement(less, item, d'), DecodeN(e, Variable(d'), n - 1, rest))
            case Broken(_) => whole == Broken(SeqV(item))
            case Unknown => whole == Unknown
  {
    hide Decode, DecodeN;
    DecodeNStep(e, Variable(d), n, bs);
    var p := Decode(e, d, bs);
    if p.Complete? {
      var q := DecodeN(e, Variable(p.item), n - 1, p.rest);
      if !q.Unknown? {
        assert ([p.item] + q.item)[1..] == q.item;
      }
    }
  }

  lemma NoMoreElements(e: Ty, less: (Value, Value) -> bool, item: seq<Value>, d: Value, bs: seq<byte>)
    ensures AsSet(less, item, DecodeN(e, Variable(d), 0, bs)) == Complete(SeqV(item), bs)
  {
  }

  /** The set is cleared, and every element read is inserted. */
  method ReadSet(e: Ty, less: (Value, Value) -> bool, ghost dest: Value, stream: InStream)
    returns (st: Status, item: Value)
    modifies stream
    ensures Leaves(Decode(Set(e, less), dest, old(stream.unread)), st, item, stream.unread)
    decreases Rank(e), 2
  {
    item := SeqV([]);
    var size := ReadCount(stream);
    match size
    case Thrown => st := Exception;
    case Undefined => st := Stuck;
    case Ok(n) =>
      var elements;
      st, elements := ReadElements(e, less, n, stream);
      item := SeqV(elements);
  }

  /** The loop of a set, whose variable lives as long as the loop. */
  method ReadElements(e: Ty, less: (Value, Value) -> bool, n: nat, stream: InStream)
    returns (st: Status, item: seq<Value>)
    modifies stream
    ensures Leaves(
              AsSet(less, [], DecodeN(e, Variable(Initial(e)), n, old(stream.unread))),
              st, SeqV(item), stream.unread)
    decreases Rank(e), 1
  {
    hide Decode, DecodeN, InsertElement, InsertElements, AsSet, Initial;
    ghost var whole := AsSet(less, [], DecodeN(e, Variable(Initial(e)), n, stream.unread));
    item := [];
    var d := Initial(e);
    st := Success;
    var i := 0;
    while i < n
      invariant 0 <= i <= n && st == Success
      invariant whole == AsSet(less, item, DecodeN(e, Variable(d), n - i, stream.unread))
    {
      ElementStep(e, less, item, d, n - i, stream.unread);
      st, d := Deserialize(e, d, stream);
      if st != Success {
        return;
      }
      item := InsertElement(less, item, d);
      i := i + 1;
    }
    NoMoreElements(e, less, item, d, stream.unread);
  }
}
