/**
 The serialization format for every supported combination of types: integers, bool, char,
 floating point details, pairs, vectors, maps, sets, arrays and strings, nested to any depth.
 `Encode` and `Decode` describe the bytes, and what reading makes of the variable read into;
 the theorems about them are in CodecTheorems.
 */
module Codec {
  import opened FixedWidth
  import opened Ordering
  import opened Streams
  import I = IntCode

  /** The serializable types. Maps and sets carry their comparator. */
  datatype Ty =
    | Int(t: IntType)
    | Bool
    | Char
    | Float
    | Pair(first: Ty, second: Ty)
    | Vector(elem: Ty)
    | Chars
    | Bools
    | Map(key: Ty, val: Ty, less: (Value, Value) -> bool)
    | Set(elem: Ty, less: (Value, Value) -> bool)
    | Array(elem: Ty, length: nat)
    | Str
    | CharArray(length: nat)

  /** Their values. A map is the ascending sequence of its entries, a set that of its elements. */
  datatype Value =
    | IntV(i: int)
    | BoolV(b: bool)
    | CharV(c: byte)
    | FloatV(mantissa: int, exponent: int)
    | PairV(fst: Value, snd: Value)
    | SeqV(items: seq<Value>)
    | BytesV(bytes: seq<byte>)
    | BoolsV(bools: seq<bool>)

  const ULONG: IntType := IntType(8, false)
  const INT64: IntType := IntType(8, true)
  const INT16: IntType := IntType(2, true)

  /** Nesting depth measure; a map counts as more than the pair type of its entries. */
  function Rank(ty: Ty): nat {
    match ty
    case Pair(a, b) => 1 + Rank(a) + Rank(b)
    case Vector(e) => 1 + Rank(e)
    case Map(k, v, _) => 2 + Rank(k) + Rank(v)
    case Set(e, _) => 1 + Rank(e)
    case Array(e, _) => 1 + Rank(e)
    case _ => 0
  }

  /** Sizes are written as unsigned long. */
  predicate Sized(n: nat) {
    n < 0x1_0000_0000_0000_0000
  }

  ghost predicate Ascending(less: (Value, Value) -> bool, keys: seq<Value>) {
    forall i, j :: 0 <= i < j < |keys| ==> less(keys[i], keys[j])
  }

  ghost function Keys(entries: seq<Value>): (keys: seq<Value>)
    requires forall x :: x in entries ==> x.PairV?
    ensures |keys| == |entries|
    ensures forall i :: 0 <= i < |keys| ==> keys[i] == entries[i].fst
  {
    seq(|entries|, i requires 0 <= i < |entries| => entries[i].fst)
  }

  /** v is a value of type ty. */
  ghost predicate IsOf(ty: Ty, v: Value)
    decreases Rank(ty)
  {
    match ty
    case Int(t) => v.IntV? && InRange(t, v.i)
    case Bool => v.BoolV?
    case Char => v.CharV?
    case Float => v.FloatV? && InRange(INT64, v.mantissa) && InRange(INT16, v.exponent)
    case Pair(a, b) => v.PairV? && IsOf(a, v.fst) && IsOf(b, v.snd)
    case Vector(e) => v.SeqV? && Sized(|v.items|) && forall x :: x in v.items ==> IsOf(e, x)
    case Chars => v.BytesV? && Sized(|v.bytes|)
    case Bools => v.BoolsV? && Sized(|v.bools|)
    case Map(k, r, less) =>
      && v.SeqV? && Sized(|v.items|)
      && (forall x :: x in v.items ==> IsOf(Pair(k, r), x))
      && StrictWeakOrder(less) && Ascending(less, Keys(v.items))
    case Set(e, less) =>
      && v.SeqV? && Sized(|v.items|)
      && (forall x :: x in v.items ==> IsOf(e, x))
      && StrictWeakOrder(less) && Ascending(less, v.items)
    case Array(e, n) => v.SeqV? && Sized(n) && |v.items| == n && forall x :: x in v.items ==> IsOf(e, x)
    case Str => v.BytesV? && Sized(|v.bytes|)
    case CharArray(n) => v.BytesV? && Sized(n) && |v.bytes| == n >= 1
  }

  function Count(n: nat): seq<byte>
    requires Sized(n)
  {
    I.Encode(n)
  }

  function BoolByte(b: bool): byte {
    if b then 49 else 48
  }

  function BoolBytes(bools: seq<bool>): (bytes: seq<byte>)
    ensures |bytes| == |bools|
  {
    seq(|bools|, i requires 0 <= i < |bools| => BoolByte(bools[i]))
  }

  function BytesToBools(bytes: seq<byte>): (bools: seq<bool>)
    ensures |bools| == |bytes|
  {
    seq(|bytes|, i requires 0 <= i < |bytes| => bytes[i] == 49)
  }

  lemma Int16Storable(v: int)
    requires InRange(INT16, v) || InRange(INT64, v)
    ensures I.Storable(v)
  {
    if InRange(INT16, v) {
      I.InRangeIsStorable(INT16, v);
    } else {
      I.InRangeIsStorable(INT64, v);
    }
  }

  /** The bytes written for v. */
  ghost function Encode(ty: Ty, v: Value): (e: seq<byte>)
    requires IsOf(ty, v)
    ensures |e| >= 1
    decreases Rank(ty), 0
  {
    match ty
    case Int(t) => I.InRangeIsStorable(t, v.i); I.Encode(v.i)
    case Bool => [BoolByte(v.b)]
    case Char => [v.c]
    case Float =>
      Int16Storable(v.mantissa); Int16Storable(v.exponent);
      I.Encode(v.mantissa) + I.Encode(v.exponent)
    case Pair(a, b) => Encode(a, v.fst) + Encode(b, v.snd)
    case Vector(e) => Count(|v.items|) + EncodeAll(e, v.items)
    case Chars => Count(|v.bytes|) + v.bytes
    case Bools => Count(|v.bools|) + BoolBytes(v.bools)
    case Map(k, r, _) => Count(|v.items|) + EncodeAll(Pair(k, r), v.items)
    case Set(e, _) => Count(|v.items|) + EncodeAll(e, v.items)
    case Array(e, _) => Count(|v.items|) + EncodeAll(e, v.items)
    case Str => Count(|v.bytes|) + v.bytes
    case CharArray(n) =>
      if v.bytes[n - 1] == 0 then Count(n - 1) + v.bytes[..n - 1] else Count(n) + v.bytes
  }

  ghost function EncodeAll(ty: Ty, vs: seq<Value>): seq<byte>
    requires forall x :: x in vs ==> IsOf(ty, x)
    decreases Rank(ty), 1 + |vs|
  {
    if vs == [] then [] else Encode(ty, vs[0]) + EncodeAll(ty, vs[1..])
  }

  /** item[d] = r on the entries of a map in ascending order. */
  function Insert(less: (Value, Value) -> bool, entries: seq<Value>, d: Value, r: Value): seq<Value> {
    if entries == [] || !entries[0].PairV? then [PairV(d, r)]
    else if less(d, entries[0].fst) then [PairV(d, r)] + entries
    else if less(entries[0].fst, d) then [entries[0]] + Insert(less, entries[1..], d, r)
    else [PairV(entries[0].fst, r)] + entries[1..]
  }

  function InsertEntries(less: (Value, Value) -> bool, entries: seq<Value>, added: seq<Value>): seq<Value>
    decreases |added|
  {
    if added == [] || !added[0].PairV? then entries
    else InsertEntries(less, Insert(less, entries, added[0].fst, added[0].snd), added[1..])
  }

  /** item.insert(d) on the elements of a set in ascending order. */
  function InsertElement(less: (Value, Value) -> bool, elements: seq<Value>, d: Value): seq<Value> {
    if elements == [] then [d]
    else if less(d, elements[0]) then [d] + elements
    else if less(elements[0], d) then [elements[0]] + InsertElement(less, elements[1..], d)
    else elements
  }

  function InsertElements(less: (Value, Value) -> bool, elements: seq<Value>, added: seq<Value>): seq<Value>
    decreases |added|
  {
    if added == [] then elements
    else InsertElements(less, InsertElement(less, elements, added[0]), added[1..])
  }

  /** A size field; every container starts with one. */
  function DecodeCount(bs: seq<byte>): (p: Parse<nat>)
    ensures p.Parsed? ==> Sized(p.value)
  {
    match I.Unpack(ULONG, bs)
    case Parsed(n, rest) =>
      WrappedCount(bs);
      Parsed(n, rest)
    case Rejected => Rejected
    case Unspecified => Unspecified
  }

  lemma WrappedCount(bs: seq<byte>)
    requires I.Unpack(ULONG, bs).Parsed?
    ensures I.Unpack(ULONG, bs).value >= 0 && Sized(I.Unpack(ULONG, bs).value)
  {
    var size := I.SizeField(ULONG, bs[0]);
    WrapInRange(ULONG, I.Value(bs[1..][..size]));
    I.InRangeIsStorable(ULONG, I.Unpack(ULONG, bs).value);
  }

  // ---------- reading into a variable ----------

  /**
   What reading makes of the destination: it is complete and `rest` is left unread, or a
   serialization_error leaves it as it then is. `Unknown` is input on which the routines leave
   the defined language or enter the legacy ASCII format.
   */
  datatype Reading<+T> = Complete(item: T, rest: seq<byte>) | Broken(item: T) | Unknown

  /** A value-initialised variable of type ty. */
  function Initial(ty: Ty): Value
    decreases Rank(ty)
  {
    match ty
    case Int(_) => IntV(0)
    case Bool => BoolV(false)
    case Char => CharV(0)
    case Float => FloatV(0, 0)
    case Pair(a, b) => PairV(Initial(a), Initial(b))
    case Vector(_) => SeqV([])
    case Chars => BytesV([])
    case Bools => BoolsV([])
    case Map(_, _, _) => SeqV([])
    case Set(_, _) => SeqV([])
    case Array(e, n) => SeqV(seq(n, _ => Initial(e)))
    case Str => BytesV([])
    case CharArray(n) => BytesV(seq(n, _ => 0))
  }

  /** The parts of a destination, which is a value of its type. */
  function First(v: Value): Value {
    if v.PairV? then v.fst else IntV(0)
  }

  function Second(v: Value): Value {
    if v.PairV? then v.snd else IntV(0)
  }

  function ItemsOf(v: Value): seq<Value> {
    if v.SeqV? then v.items else []
  }

  function BytesOf(v: Value): seq<byte> {
    if v.BytesV? then v.bytes else []
  }

  /** resize(n): elements that fit are kept, new ones are copies of x. */
  function Resize<T>(items: seq<T>, n: nat, x: T): (r: seq<T>)
    ensures |r| == n
  {
    if n <= |items| then items[..n] else items + seq(n - |items|, _ => x)
  }

  /** in.read of |was| bytes over was: missing bytes leave what was there. */
  function Overwrite(was: seq<byte>, bs: seq<byte>): (r: seq<byte>)
    ensures |r| == |was|
  {
    if |was| <= |bs| then bs[..|was|] else bs + was[|bs|..]
  }

  function Behind(n: nat, bs: seq<byte>): seq<byte> {
    if n <= |bs| then bs[n..] else []
  }

  /** Where the elements of a container are read to: into its own elements, or into one loop variable. */
  datatype Target = Slots(slots: seq<Value>) | Variable(variable: Value)

  predicate HasRoom(to: Target, n: nat) {
    to.Slots? ==> |to.slots| == n
  }

  function Current(to: Target): Value
    requires to.Slots? ==> to.slots != []
  {
    if to.Slots? then to.slots[0] else to.variable
  }

  /** The target for the next element after x has been read. */
  function Advance(to: Target, x: Value): Target
    requires to.Slots? ==> to.slots != []
  {
    if to.Slots? then Slots(to.slots[1..]) else Variable(x)
  }

  /** The elements from the current one on if reading it leaves x and throws; a variable is then lost. */
  function LeftBehind(to: Target, x: Value): seq<Value>
    requires to.Slots? ==> to.slots != []
  {
    if to.Slots? then [x] + to.slots[1..] else []
  }

  /** Reading a value of type ty into a variable that holds dest. */
  function Decode(ty: Ty, dest: Value, bs: seq<byte>): Reading<Value>
    decreases Rank(ty), 0
  {
    match ty
    case Int(t) =>
      (match I.Unpack(t, bs)
       case Parsed(i, rest) => Complete(IntV(i), rest)
       case Rejected => Broken(IntV(0))
       case Unspecified => Unknown)
    case Bool =>
      if bs == [] || (bs[0] != 48 && bs[0] != 49) then Broken(dest) else Complete(BoolV(bs[0] == 49), bs[1..])
    case Char => if bs == [] then Broken(dest) else Complete(CharV(bs[0]), bs[1..])
    case Float => DecodeFloat(dest, bs)
    case Pair(a, b) =>
      (match Decode(a, First(dest), bs)
       case Complete(x, rest) =>
         (match Decode(b, Second(dest), rest)
          case Complete(y, rest') => Complete(PairV(x, y), rest')
          case Broken(y) => Broken(PairV(x, y))
          case Unknown => Unknown)
       case Broken(x) => Broken(PairV(x, Second(dest)))
       case Unknown => Unknown)
    case Vector(e) =>
      (match DecodeCount(bs)
       case Parsed(n, rest) => Items(DecodeN(e, Slots(Resize(ItemsOf(dest), n, Initial(e))), n, rest))
       case Rejected => Broken(dest)
       case Unspecified => Unknown)
    case Chars =>
      (match DecodeCount(bs)
       case Parsed(n, rest) => Complete(BytesV(Overwrite(Resize(BytesOf(dest), n, 0), rest)), Behind(n, rest))
       case Rejected => Broken(dest)
       case Unspecified => Unknown)
    case Bools =>
      (match DecodeCount(bs)
       case Parsed(n, rest) =>
         Complete(BoolsV(BytesToBools(Overwrite(Resize([], n, 0), rest))), Behind(n, rest))
       case Rejected => Broken(dest)
       case Unspecified => Unknown)
    case Map(k, r, less) =>
      (match DecodeCount(bs)
       case Parsed(n, rest) =>
         AsMap(less, [], DecodeN(Pair(k, r), Variable(Initial(Pair(k, r))), n, rest))
       case Rejected => Broken(SeqV([]))
       case Unspecified => Unknown)
    case Set(e, less) =>
      (match DecodeCount(bs)
       case Parsed(n, rest) => AsSet(less, [], DecodeN(e, Variable(Initial(e)), n, rest))
       case Rejected => Broken(SeqV([]))
       case Unspecified => Unknown)
    case Array(e, length) =>
      (match DecodeCount(bs)
       case Parsed(n, rest) =>
         if n == length then Items(DecodeN(e, Slots(Resize(ItemsOf(dest), n, Initial(e))), n, rest)) else Broken(dest)
       case Rejected => Broken(dest)
       case Unspecified => Unknown)
    case Str =>
      (match DecodeCount(bs)
       case Parsed(n, rest) =>
         var bytes := Overwrite(Resize(BytesOf(dest), n, 0), rest);
         if n <= |rest| then Complete(BytesV(bytes), rest[n..]) else Broken(BytesV(bytes))
       case Rejected => Broken(dest)
       case Unspecified => Unknown)
    case CharArray(length) =>
      (match DecodeCount(bs)
       case Parsed(n, rest) =>
         if n != length && n + 1 != length then Broken(dest)
         else
           var bytes := Overwrite(Resize(BytesOf(dest), n, 0), rest) + if n == length then [] else [0];
           if n <= |rest| then Complete(BytesV(bytes), rest[n..]) else Broken(BytesV(bytes))
       case Rejected => Broken(dest)
       case Unspecified => Unknown)
  }

  /** The byte 0x70 mask sends old ASCII data to a parser that is not modelled. */
  function DecodeFloat(dest: Value, bs: seq<byte>): Reading<Value> {
    if bs == [] then Broken(dest)
    else if bs[0] / 16 % 8 != 0 then Unknown
    else
      match I.Unpack(INT64, bs)
      case Parsed(m, rest) =>
        (match I.Unpack(INT16, rest)
         case Parsed(e, rest') => Complete(FloatV(m, e), rest')
         case Rejected => Broken(dest)
         case Unspecified => Unknown)
      case Rejected => Broken(dest)
      case Unspecified => Unknown
  }

  /** n elements, one after another. */
  function DecodeN(e: Ty, to: Target, n: nat, bs: seq<byte>): (p: Reading<seq<Value>>)
    requires HasRoom(to, n)
    ensures p.Complete? ==> |p.item| == n
    decreases Rank(e), 1 + n
  {
    if n == 0 then Complete([], bs)
    else
      match Decode(e, Current(to), bs)
      case Complete(x, rest) =>
        (match DecodeN(e, Advance(to, x), n - 1, rest)
         case Complete(xs, rest') => Complete([x] + xs, rest')
         case Broken(xs) => Broken([x] + xs)
         case Unknown => Unknown)
      case Broken(x) => Broken(LeftBehind(to, x))
      case Unknown => Unknown
  }

  function Items(p: Reading<seq<Value>>): (q: Reading<Value>) {
    match p
    case Complete(xs, rest) => Complete(SeqV(xs), rest)
    case Broken(xs) => Broken(SeqV(xs))
    case Unknown => Unknown
  }

  /** The map that holds `entries` already, with the entries read put into it. */
  function AsMap(less: (Value, Value) -> bool, entries: seq<Value>, p: Reading<seq<Value>>): Reading<Value> {
    match p
    case Complete(xs, rest) => Complete(SeqV(InsertEntries(less, entries, xs)), rest)
    case Broken(xs) => Broken(SeqV(InsertEntries(less, entries, xs)))
    case Unknown => Unknown
  }

  function AsSet(less: (Value, Value) -> bool, elements: seq<Value>, p: Reading<seq<Value>>): Reading<Value> {
    match p
    case Complete(xs, rest) => Complete(SeqV(InsertElements(less, elements, xs)), rest)
    case Broken(xs) => Broken(SeqV(InsertElements(less, elements, xs)))
    case Unknown => Unknown
  }

  // ---------- one step of each ----------

  ghost function Prepend(xs: seq<Value>, p: Reading<seq<Value>>): Reading<seq<Value>> {
    match p
    case Complete(ys, rest) => Complete(xs + ys, rest)
    case Broken(ys) => Broken(xs + ys)
    case Unknown => Unknown
  }

  lemma DecodeNStep(e: Ty, to: Target, n: nat, bs: seq<byte>)
    requires n > 0 && HasRoom(to, n)
    ensures DecodeN(e, to, n, bs) ==
            match Decode(e, Current(to), bs)
            case Complete(x, rest) => Prepend([x], DecodeN(e, Advance(to, x), n - 1, rest))
            case Broken(x) => Broken(LeftBehind(to, x))
            case Unknown => Unknown
  {
    hide Decode;
  }

  lemma DecodePair(a: Ty, b: Ty, dest: Value, bs: seq<byte>)
    ensures var p, whole := Decode(a, First(dest), bs), Decode(Pair(a, b), dest, bs);
            && (p.Broken? ==> whole == Broken(PairV(p.item, Second(dest))))
            && (p.Unknown? ==> whole == Unknown)
            && (p.Complete? ==>
                  var q := Decode(b, Second(dest), p.rest);
                  && (q.Complete? ==> whole == Complete(PairV(p.item, q.item), q.rest))
                  && (q.Broken? ==> whole == Broken(PairV(p.item, q.item)))
                  && (q.Unknown? ==> whole == Unknown))
  {
  }

  /** A size and a loop, for the four kinds of containers. */
  lemma DecodeVector(e: Ty, dest: Value, bs: seq<byte>)
    ensures Decode(Vector(e), dest, bs) ==
            match DecodeCount(bs)
            case Parsed(n, rest) => Items(DecodeN(e, Slots(Resize(ItemsOf(dest), n, Initial(e))), n, rest))
            case Rejected => Broken(dest)
            case Unspecified => Unknown
  {
    hide DecodeN, DecodeCount;
  }

  lemma DecodeArray(e: Ty, length: nat, dest: Value, bs: seq<byte>)
    ensures Decode(Array(e, length), dest, bs) ==
            match DecodeCount(bs)
            case Parsed(n, rest) =>
              if n == length then Items(DecodeN(e, Slots(Resize(ItemsOf(dest), n, Initial(e))), n, rest))
              else Broken(dest)
            case Rejected => Broken(dest)
            case Unspecified => Unknown
  {
    hide DecodeN, DecodeCount;
  }

  lemma DecodeMap(k: Ty, r: Ty, less: (Value, Value) -> bool, dest: Value, bs: seq<byte>)
    ensures Decode(Map(k, r, less), dest, bs) ==
            match DecodeCount(bs)
            case Parsed(n, rest) => AsMap(less, [], DecodeN(Pair(k, r), Variable(Initial(Pair(k, r))), n, rest))
            case Rejected => Broken(SeqV([]))
            case Unspecified => Unknown
  {
    hide DecodeN, DecodeCount, AsMap;
  }

  lemma DecodeSet(e: Ty, less: (Value, Value) -> bool, dest: Value, bs: seq<byte>)
    ensures Decode(Set(e, less), dest, bs) ==
            match DecodeCount(bs)
            case Parsed(n, rest) => AsSet(less, [], DecodeN(e, Variable(Initial(e)), n, rest))
            case Rejected => Broken(SeqV([]))
            case Unspecified => Unknown
  {
    hide DecodeN, DecodeCount, AsSet;
  }
}
