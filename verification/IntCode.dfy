/**
 The integer code: a control byte with sign flag and byte count, then the magnitude in
 little-endian order (pack_int and unpack_int).
 */
module IntCode {
  import opened FixedWidth
  import opened Streams

  /** The little-endian base-256 digits of m, at least one and without leading zeros. */
  function Digits(m: nat): (d: seq<byte>)
    ensures |d| >= 1
  {
    if m < 256 then [m] else [m % 256] + Digits(m / 256)
  }

  function Value(d: seq<byte>): nat {
    if d == [] then 0 else d[0] + 256 * Value(d[1..])
  }

  function Abs(v: int): nat {
    if v < 0 then -v else v
  }

  /** The values of all supported integral types: those of int64 and of uint64. */
  predicate Storable(v: int) {
    -0x8000_0000_0000_0000 <= v < 0x1_0000_0000_0000_0000
  }

  lemma InRangeIsStorable(t: IntType, v: int)
    requires InRange(t, v)
    ensures Storable(v)
  {
    PowBounds(t.size);
  }

  lemma PowBounds(k: nat)
    requires 1 <= k <= 8
    ensures 256 <= Pow256(k) <= 0x1_0000_0000_0000_0000
    ensures 128 <= Half(k) <= 0x8000_0000_0000_0000
  {
    Pow256Monotone(1, k);
    Pow256Monotone(k, 8);
    assert Pow256(8) == 0x1_0000_0000_0000_0000 by {
      assert Pow256(4) == 0x1_0000_0000;
    }
    TwoHalves(k);
  }

  lemma {:induction false} Pow256Monotone(j: nat, k: nat)
    requires j <= k
    ensures Pow256(j) <= Pow256(k)
  {
    if j < k {
      Pow256Monotone(j, k - 1);
    }
  }

  /** The digit count is least: k digits suffice exactly for magnitudes below 256^k. */
  lemma {:induction false} DigitCount(m: nat, k: nat)
    requires k >= 1
    ensures |Digits(m)| <= k <==> m < Pow256(k)
  {
    if k == 1 {
      assert Pow256(1) == 256;
    } else {
      Pow256Monotone(1, k);
      assert Pow256(1) == 256;
      if m >= 256 {
        DigitCount(m / 256, k - 1);
      }
    }
  }

  lemma {:induction false} ValueOfDigits(m: nat)
    ensures Value(Digits(m)) == m
  {
    if m >= 256 {
      ValueOfDigits(m / 256);
      assert Digits(m)[1..] == Digits(m / 256);
    }
  }

  lemma StorableDigits(v: int)
    requires Storable(v)
    ensures |Digits(Abs(v))| <= 8
  {
    assert Pow256(4) == 0x1_0000_0000;
    assert Pow256(8) == 0x1_0000_0000_0000_0000;
    DigitCount(Abs(v), 8);
  }

  /** The encoding of an integer; it does not depend on the type the integer is stored in. */
  function Encode(v: int): (e: seq<byte>)
    requires Storable(v)
    ensures |e| >= 2
  {
    StorableDigits(v);
    [(if v < 0 then 128 else 0) + |Digits(Abs(v))|] + Digits(Abs(v))
  }

  /** The byte count in a control byte; a sign flag makes it too large for the unsigned reader. */
  function SizeField(t: IntType, control: byte): nat {
    if t.signed then control % 16 else control / 128 * 128 + control % 16
  }

  function UnpackBody(t: IntType, negative: bool, size: nat, body: seq<byte>): Parse<int> {
    if size > t.size || |body| < size then Rejected
    else if size == 0 then Unspecified
    else
      var magnitude: int := Value(body[..size]);
      Parsed(Wrap(t, if negative then -magnitude else magnitude), body[size..])
  }

  /** Reading an integer into a variable of type t. */
  function Unpack(t: IntType, bs: seq<byte>): Parse<int> {
    if bs == [] then Rejected
    else UnpackBody(t, t.signed && bs[0] >= 128, SizeField(t, bs[0]), bs[1..])
  }

  // ---------- the format ----------

  lemma {:induction false} LittleEndian(low: seq<byte>, high: seq<byte>)
    ensures Value(low + high) == Value(low) + Pow256(|low|) * Value(high)
  {
    if low == [] {
      assert low + high == high;
    } else {
      assert (low + high)[1..] == low[1..] + high;
      LittleEndian(low[1..], high);
      assert Value(low + high) == low[0] + 256 * Value(low[1..] + high);
      Horner(low[0], Value(low[1..]), Pow256(|low| - 1), Value(high));
    }
  }

  lemma Horner(d: int, v: int, p: int, x: int)
    ensures d + 256 * (v + p * x) == (d + 256 * v) + (256 * p) * x
  {
  }

  lemma {:induction false} LastDigit(m: nat)
    ensures m > 0 ==> Digits(m)[|Digits(m)| - 1] != 0
  {
    if m >= 256 {
      LastDigit(m / 256);
    }
  }

  /** A control byte with sign and count, and the magnitude in that many bytes, without leading zeros. */
  lemma EncodeFormat(v: int)
    requires Storable(v)
    ensures var e := Encode(v);
            && 2 <= |e| <= 9
            && e[0] == (if v < 0 then 128 else 0) + |e| - 1
            && Value(e[1..]) == Abs(v)
            && (|e| > 2 ==> e[|e| - 1] != 0)
  {
    StorableDigits(v);
    ValueOfDigits(Abs(v));
    LastDigit(Abs(v));
    assert Encode(v)[1..] == Digits(Abs(v));
  }

  /** The control byte: the sign, three bits that are ignored, and the number of bytes that follow. */
  function Control(negative: bool, ignored: nat, count: nat): byte
    requires ignored < 8 && count < 16
  {
    (if negative then 128 else 0) + 16 * ignored + count
  }

  /**
   What any control byte and any bytes behind it are read as: the value of these bytes with
   the sign, reduced to the type. Too many bytes, or a sign for an unsigned type, are errors.
   */
  lemma UnpackAny(t: IntType, negative: bool, ignored: nat, body: seq<byte>, rest: seq<byte>)
    requires ignored < 8 && |body| < 16
    ensures var p := Unpack(t, [Control(negative, ignored, |body|)] + (body + rest));
            var v: int := if negative then -(Value(body) as int) else Value(body);
            if |body| > t.size || (negative && !t.signed) then p == Rejected
            else if body == [] then p == Unspecified
            else p.Parsed? && p.rest == rest && InRange(t, p.value) && (v - p.value) % Pow256(t.size) == 0
  {
    hide Control, SizeField, UnpackBody, Value, Wrap, Pow256, InRange;
    var c := Control(negative, ignored, |body|);
    var bs := [c] + (body + rest);
    assert bs[0] == c && bs[1..] == body + rest;
    SizeFieldOfControl(t, negative, ignored, |body|);
    if negative && !t.signed {
      BodyTooLong(t, false, |body| + 128, body + rest);
    } else {
      BodyAny(t, negative, body, rest);
    }
  }

  lemma BodyTooLong(t: IntType, negative: bool, size: nat, bs: seq<byte>)
    requires size > t.size
    ensures UnpackBody(t, negative, size, bs) == Rejected
  {
  }

  lemma BodyAny(t: IntType, negative: bool, body: seq<byte>, rest: seq<byte>)
    ensures var p := UnpackBody(t, negative, |body|, body + rest);
            var v: int := if negative then -(Value(body) as int) else Value(body);
            if |body| > t.size then p == Rejected
            else if body == [] then p == Unspecified
            else p.Parsed? && p.rest == rest && InRange(t, p.value) && (v - p.value) % Pow256(t.size) == 0
  {
    hide Value, Wrap, Pow256, InRange;
    assert (body + rest)[..|body|] == body && (body + rest)[|body|..] == rest;
    WrapMeaning(t, if negative then -(Value(body) as int) else Value(body));
  }

  lemma WrapMeaning(t: IntType, v: int)
    ensures InRange(t, Wrap(t, v)) && (v - Wrap(t, v)) % Pow256(t.size) == 0
  {
    hide Wrap, Pow256, InRange;
    WrapInRange(t, v);
    var k := WrapCongruent(t, v);
    MultipleMod(k, Pow256(t.size));
  }

  lemma MultipleMod(k: int, m: nat)
    requires m > 0
    ensures k * m % m == 0
  {
    DivModUnique(k * m, m, k, 0);
  }

  lemma SizeFieldOfControl(t: IntType, negative: bool, ignored: nat, count: nat)
    requires ignored < 8 && count < 16
    ensures var c := Control(negative, ignored, count);
            SizeField(t, c) == count + (if negative && !t.signed then 128 else 0) && (c >= 128 <==> negative)
  {
  }

  /** Fewer bytes than announced are an error. */
  lemma UnpackShort(t: IntType, negative: bool, ignored: nat, count: nat, body: seq<byte>)
    requires ignored < 8 && |body| < count < 16
    ensures Unpack(t, [Control(negative, ignored, count)] + body) == Rejected
  {
    SizeFieldOfControl(t, negative, ignored, count);
    assert ([Control(negative, ignored, count)] + body)[1..] == body;
  }

  /** What reading an encoded integer gives, for every stored value, every receiving type and any bytes behind it. */
  lemma UnpackOfEncode(t: IntType, v: int, rest: seq<byte>)
    requires Storable(v)
    ensures Unpack(t, Encode(v) + rest) ==
            if (v < 0 && !t.signed) || |Digits(Abs(v))| > t.size then Rejected else Parsed(Wrap(t, v), rest)
  {
    var d := Digits(Abs(v));
    StorableDigits(v);
    ValueOfDigits(Abs(v));
    var control, bs := Encode(v)[0], Encode(v) + rest;
    assert bs[0] == control && bs[1..] == d + rest;
    SizeFieldOfCount(t, v < 0, |d|);
    assert (d + rest)[..|d|] == d && (d + rest)[|d|..] == rest;
  }

  lemma SizeFieldOfCount(t: IntType, negative: bool, count: nat)
    requires count <= 8
    ensures SizeField(t, (if negative then 128 else 0) + count) == count + if negative && !t.signed then 128 else 0
  {
  }

  /** An integer read into any type comes back as itself exactly when the type can hold it. */
  lemma RoundTripIffInRange(t: IntType, v: int, rest: seq<byte>)
    requires Storable(v)
    ensures Unpack(t, Encode(v) + rest) == Parsed(v, rest) <==> InRange(t, v)
  {
    UnpackOfEncode(t, v, rest);
    WrapInRange(t, v);
    if InRange(t, v) {
      WrapIdentity(t, v);
      TwoHalves(t.size);
      DigitCount(Abs(v), t.size);
    }
  }

  /**
   A value that does not fit is accepted, and silently replaced, exactly when a signed type
   has enough bytes for the magnitude; in all other cases the reader throws.
   */
  lemma SilentWrap(t: IntType, v: int, rest: seq<byte>)
    requires Storable(v) && !InRange(t, v)
    ensures Unpack(t, Encode(v) + rest) ==
            if t.signed && Abs(v) < Pow256(t.size) then Parsed(Wrap(t, v), rest) else Rejected
    ensures Wrap(t, v) != v
  {
    UnpackOfEncode(t, v, rest);
    DigitCount(Abs(v), t.size);
    WrapInRange(t, v);
  }

  /** For instance, 3000000000 written as an unsigned int and read as an int. */
  lemma SilentWrapExample()
    ensures Unpack(IntType(4, true), Encode(3_000_000_000)) == Parsed(-1_294_967_296, [])
  {
    var t: IntType := IntType(4, true);
    assert Pow256(4) == 0x1_0000_0000 && Half(4) == 0x8000_0000;
    SilentWrap(t, 3_000_000_000, []);
    assert Encode(3_000_000_000) + [] == Encode(3_000_000_000);
  }

  /** No proper prefix of an encoded integer is accepted, whatever type is read. */
  lemma UnpackOfPrefix(t: IntType, v: int, n: nat)
    requires Storable(v) && n < |Encode(v)|
    ensures Unpack(t, Encode(v)[..n]) == Rejected
  {
    StorableDigits(v);
    SizeFieldOfCount(t, v < 0, |Digits(Abs(v))|);
  }

  /** The control byte keeps the bits 0x70 clear; the float reader tells formats apart by them. */
  lemma ControlByteBits(v: int)
    requires Storable(v)
    ensures Encode(v)[0] / 16 % 8 == 0
  {
    StorableDigits(v);
  }

  lemma EncodeInjective(v: int, w: int)
    requires Storable(v) && Storable(w) && Encode(v) == Encode(w)
    ensures v == w
  {
    StorableDigits(v);
    StorableDigits(w);
    assert Encode(v)[1..] == Digits(Abs(v)) && Encode(w)[1..] == Digits(Abs(w));
    ValueOfDigits(Abs(v));
    ValueOfDigits(Abs(w));
  }

  /**
   The state of pack_int's loop before byte i: g is what is left of the magnitude. `item` is
   g itself, or -g for the minimum of a signed type, whose negation wraps back to itself.
   */
  ghost predicate Packing(t: IntType, i: nat, item: int, g: nat) {
    && 1 <= i <= t.size
    && g < Pow256(t.size - i + 1)
    && (item == g || (item + g == 0 && g == Half(t.size - i + 1)))
  }

  lemma PackingStart(t: IntType, v: int)
    requires InRange(t, v)
    ensures Packing(t, 1, if v < 0 then Wrap(t, -v) else v, Abs(v))
  {
    TwoHalves(t.size);
    if v < 0 {
      if v + Half(t.size) == 0 {
        WrapSame(t, -v, v, 1);
        WrapIdentity(t, v);
      } else {
        WrapIdentity(t, -v);
      }
    }
  }

  /** One byte is split off; the loop ends here exactly when it was the last digit. */
  lemma PackingStep(t: IntType, i: nat, item: int, g: nat)
    requires Packing(t, i, item, g)
    ensures item % 256 == g % 256
    ensures item / 256 == 0 || i == t.size ==> g < 256
    ensures item / 256 != 0 && i < t.size ==> g >= 256 && Packing(t, i + 1, item / 256, g / 256)
  {
    var k := t.size - i;
    assert Pow256(k + 1) == 256 * Pow256(k);
    if item != g {
      assert g == 128 * Pow256(k);
      if k > 0 {
        MinusMultiple(item, g, Half(k));
      } else {
        assert g == 128 && item == -128;
      }
    }
  }

  lemma MinusMultiple(item: int, g: int, h: int)
    requires g == 256 * h && item + g == 0
    ensures item % 256 == g % 256 == 0 && item / 256 == -h && g / 256 == h
  {
  }

  lemma DigitsUnfold(g: nat)
    ensures g < 256 ==> Digits(g) == [g % 256]
    ensures g >= 256 ==> Digits(g) == [g % 256] + Digits(g / 256)
  {
  }

  lemma SplitDigit(done: seq<byte>, g: nat)
    ensures g < 256 ==> done + Digits(g) == done + [g % 256]
    ensures g >= 256 ==> done + Digits(g) == done + [g % 256] + Digits(g / 256)
  {
    hide Digits;
    DigitsUnfold(g);
    if g >= 256 {
      var e := Digits(g / 256);
      assert done + ([g % 256] + e) == done + [g % 256] + e;
    }
  }

  /** The loop of pack_int: the digits of the magnitude go to buf[1..size + 1]. */
  method FillDigits(t: IntType, item0: int, ghost g0: nat, buf: array<byte>) returns (size: nat)
    requires Packing(t, 1, item0, g0)
    requires buf.Length == 9
    modifies buf
    ensures 1 <= size <= t.size
    ensures buf[1..size + 1] == Digits(g0)
  {
    hide Digits;
    ghost var g, done: seq<byte> := g0, [];
    size := t.size;
    var item := item0;
    var i := 1;
    while true
      invariant Packing(t, i, item, g)
      invariant |done| == i - 1 && done + Digits(g) == Digits(g0)
      invariant forall k :: 0 <= k < |done| ==> buf[1 + k] == done[k]
      invariant size == t.size
      decreases t.size - i
    {
      PackingStep(t, i, item, g);
      SplitDigit(done, g);
      buf[i] := item % 256;
      done := done + [g % 256];
      item := item / 256;
      if item == 0 {
        size := i;
        break;
      }
      if i == t.size {
        break;
      }
      g := g / 256;
      i := i + 1;
    }
    assert buf[1..size + 1] == done;
  }

  /** Writes an integer of type t. A signed minimum wraps under `item *= -1`, as two's complement does. */
  method PackInt(t: IntType, value: int, out: OutStream)
    requires InRange(t, value)
    modifies out
    ensures Storable(value)
    ensures out.written == old(out.written) + Encode(value)
  {
    InRangeIsStorable(t, value);
    StorableDigits(value);
    PackingStart(t, value);
    var buf := new byte[9];
    var neg := 0;
    var item := value;
    if t.signed && item < 0 {
      neg := 128;
      item := Wrap(t, -item);
    }
    var size := FillDigits(t, item, Abs(value), buf);
    ghost var d := buf[1..size + 1];
    buf[0] := size + neg;
    assert buf[..size + 1] == [buf[0]] + d;
    out.Write(buf[..size + 1]);
  }

  /** The loop of unpack_int: bytes are shifted in from the last to the first. */
  method Assemble(t: IntType, buf: seq<byte>) returns (item: int)
    requires buf != []
    ensures item == Wrap(t, Value(buf))
  {
    item := 0;
    WrapIdentity(t, 0);
    var i := |buf| - 1;
    while true
      invariant 0 <= i < |buf|
      invariant item == Wrap(t, Value(buf[i + 1..]))
      decreases i
    {
      WrapShift(t, Value(buf[i + 1..]), buf[i]);
      item := Wrap(t, Wrap(t, item * 256) + buf[i]);
      assert buf[i..][1..] == buf[i + 1..];
      if i == 0 {
        break;
      }
      i := i - 1;
    }
    assert buf[0..] == buf;
  }

  /** Reads an integer of type t. */
  method UnpackInt(t: IntType, stream: InStream) returns (r: Outcome<int>)
    modifies stream
    ensures Agrees(Unpack(t, old(stream.unread)), r, stream.unread)
  {
    ghost var bs := stream.unread;
    var ch := stream.Bump();
    if ch < 0 {
      return Thrown;
    }
    var isNegative := t.signed && ch >= 128;
    var size := SizeField(t, ch);
    if size > t.size {
      return Thrown;
    }
    var buf := stream.Read(size);
    if |buf| != size {
      return Thrown;
    }
    if size == 0 {
      return Undefined;
    }
    assert buf == bs[1..][..size] && stream.unread == bs[1..][size..];
    var item := Assemble(t, buf);
    if isNegative {
      WrapNegate(t, Value(buf));
      item := Wrap(t, -item);
    }
    return Ok(item);
  }
}
