/** The binary codec. Integers are written most significant byte first at their
    full width; strings and blobs as an 8-byte length followed by their bytes; a
    `Value` as a one-byte type tag followed by the payload of its alternative. A
    stream is a sequence of bytes: writing appends to it, reading consumes a prefix
    of it. */
module Serialization {
  import opened Common

  // ---------------------------------------------------------------------------
  // Arithmetic helpers

  function Pow256(n: nat): (p: nat)
    ensures p > 0
  {
    if n == 0 then 1 else 256 * Pow256(n - 1)
  }

  lemma MulMonotone(a: int, b: int, d: nat)
    ensures a <= b ==> a * d <= b * d
  {
  }

  lemma MulAssoc(a: int, b: int, c: int)
    ensures a * (b * c) == (a * b) * c
  {
  }

  lemma DivModOfSum(q: nat, d: nat, r: nat)
    requires r < d
    ensures (q * d + r) / d == q && (q * d + r) % d == r
  {
    var x := q * d + r;
    var q', r' := x / d, x % d;
    assert q' * d + r' == q * d + r;
    MulMonotone(q' , q - 1, d);
    MulMonotone(q + 1, q', d);
    assert q' * d == q * d + (r - r');
  }

  lemma MulDivCancel(a: nat, b: nat, c: nat)
    requires b > 0 && c > 0
    ensures (a * c) / (b * c) == a / b && (a * c) % (b * c) == (a % b) * c
  {
    var q, r := a / b, a % b;
    assert a == q * b + r;
    assert a * c == q * (b * c) + r * c;
    assert r * c < b * c;
    DivModOfSum(q, b * c, r * c);
  }

  lemma PowAdd(m: nat, n: nat)
    ensures Pow256(m + n) == Pow256(m) * Pow256(n)
    decreases m
  {
    if m > 0 {
      PowAdd(m - 1, n);
    }
  }

  /** The top byte of a `width + 1`-byte number fits in a byte. */
  lemma TopByteFits(x: nat, width: nat)
    requires x < Pow256(width + 1)
    ensures x / Pow256(width) < 256
  {
    var p := Pow256(width);
    assert x >= (x / p) * p;
    MulMonotone(256, x / p, p);
  }

  // ---------------------------------------------------------------------------
  // Integers

  /** The `width` bytes of `x`, most significant first. */
  function BigEndian(x: nat, width: nat): (bs: Bytes)
    requires x < Pow256(width)
    ensures |bs| == width
    decreases width
  {
    if width == 0 then []
    else
      var p := Pow256(width - 1);
      TopByteFits(x, width - 1);
      var top: uint8 := x / p;
      var low: Bytes := BigEndian(x % p, width - 1);
      [top] + low
  }

  /** The number whose most-significant-first bytes are `bs`. */
  function FromBigEndian(bs: Bytes): (x: nat)
    ensures x < Pow256(|bs|)
  {
    if bs == [] then 0
    else
      var rest := FromBigEndian(bs[1..]);
      var p := Pow256(|bs| - 1);
      assert bs[0] * p + rest < 256 * p by {
        MulMonotone(bs[0], 255, p);
      }
      bs[0] * p + rest
  }

  /** Reading the bytes written for `x` gives back `x`. */
  lemma {:induction false} FromBigEndianOfBigEndian(x: nat, width: nat)
    requires x < Pow256(width)
    ensures FromBigEndian(BigEndian(x, width)) == x
    decreases width
  {
    if width > 0 {
      var p := Pow256(width - 1);
      FromBigEndianOfBigEndian(x % p, width - 1);
      assert BigEndian(x, width)[1..] == BigEndian(x % p, width - 1);
    }
  }

  /** Writing back what was read gives the same bytes. */
  lemma {:induction false} BigEndianOfFromBigEndian(bs: Bytes)
    ensures BigEndian(FromBigEndian(bs), |bs|) == bs
  {
    if bs != [] {
      var p := Pow256(|bs| - 1);
      var rest := FromBigEndian(bs[1..]);
      DivModOfSum(bs[0], p, rest);
      BigEndianOfFromBigEndian(bs[1..]);
    }
  }

  /** Appending a byte shifts the number read so far by eight bits. */
  lemma {:induction false} FromBigEndianSnoc(bs: Bytes, b: uint8)
    ensures FromBigEndian(bs + [b]) == FromBigEndian(bs) * 256 + b
  {
    if bs != [] {
      var p, tail := Pow256(|bs| - 1), FromBigEndian(bs[1..]);
      assert (bs + [b])[1..] == bs[1..] + [b];
      FromBigEndianSnoc(bs[1..], b);
      assert FromBigEndian(bs + [b]) == bs[0] * Pow256(|bs|) + (tail * 256 + b);
      assert Pow256(|bs|) == p * 256 by { PowAdd(|bs| - 1, 1); }
      MulAssoc(bs[0], p, 256);
      assert FromBigEndian(bs) * 256 == (bs[0] * p) * 256 + tail * 256;
    }
  }

  /** One step of the shifting writer. `v` holds `r`, the part of the value not
      yet written, shifted up by `i` bytes: its top byte is the next byte of
      `r`, and shifting `v` left by eight drops exactly that byte. */
  lemma ShiftStep(v: nat, r: nat, i: nat, width: nat)
    requires i < width && r < Pow256(width - i) && v == r * Pow256(i)
    ensures 0 <= v / Pow256(width - 1) == r / Pow256(width - i - 1) < 256
    ensures (v * 256) % Pow256(width) == (r % Pow256(width - i - 1)) * Pow256(i + 1)
  {
    var low, shift, shift' := Pow256(width - i - 1), Pow256(i), Pow256(i + 1);
    assert v / Pow256(width - 1) == r / low by {
      PowAdd(width - i - 1, i);
      ScaledQuotient(v, r, low, shift, Pow256(width - 1));
    }
    assert v * 256 == r * shift' by {
      PowAdd(i, 1);
      MulAssoc(r, shift, 256);
    }
    assert (r * shift') % Pow256(width) == (r % low) * shift' by {
      PowAdd(width - i - 1, i + 1);
      ScaledRemainder(r, low, shift', Pow256(width));
    }
    TopByteFits(r, width - i - 1);
  }

  lemma ScaledQuotient(v: nat, r: nat, low: nat, shift: nat, p: nat)
    requires low > 0 && shift > 0 && v == r * shift && p == low * shift
    ensures v / p == r / low
  {
    MulDivCancel(r, low, shift);
  }

  lemma ScaledRemainder(r: nat, low: nat, shift: nat, p: nat)
    requires low > 0 && shift > 0 && p == low * shift
    ensures (r * shift) % p == (r % low) * shift
  {
    MulDivCancel(r, low, shift);
  }

  /** `Serialize<T>` for a multi-byte integer type of `width` bytes: fill a
      buffer by repeatedly taking the top byte and shifting left by eight. */
  method SerializeInteger(val: nat, width: nat, os: Bytes) returns (os': Bytes)
    requires width > 1 && val < Pow256(width)
    ensures os' == os + BigEndian(val, width)
  {
    var buffer := new uint8[width];
    var v := val;
    ghost var r: nat := val;
    var i := 0;
    while i < width
      invariant 0 <= i <= width
      invariant r < Pow256(width - i)
      invariant v == r * Pow256(i)
      invariant buffer[..i] + BigEndian(r, width - i) == BigEndian(val, width)
    {
      ShiftStep(v, r, i, width);
      ghost var r' := r % Pow256(width - i - 1);
      // `ch = val >> 8 * (sizeof(T) - 1)`
      buffer[i] := v / Pow256(width - 1);
      // `val <<= 8`, dropping the bits shifted out of the type
      v := (v * 256) % Pow256(width);
      assert buffer[..i + 1] == buffer[..i] + [buffer[i]];
      r := r';
      i := i + 1;
    }
    os' := os + buffer[..];
  }

  /** The value read for an integer of `width` bytes, and what is left of the
      stream; nothing when the stream holds fewer than `width` bytes. */
  function DecodeInteger(input: Bytes, width: nat): Option<(nat, Bytes)>
  {
    if |input| < width then None else Some((FromBigEndian(input[..width]), input[width..]))
  }

  /** `Deserialize<T>` for a multi-byte integer type: read `width` bytes and
      accumulate `val = (val << 8) | ch`. */
  method DeserializeInteger(input: Bytes, width: nat) returns (r: Option<(nat, Bytes)>)
    requires width > 1
    ensures r == DecodeInteger(input, width)
    ensures r.Some? ==> r.value.0 < Pow256(width) && |r.value.1| == |input| - width
  {
    if |input| < width {
      return None;
    }
    var val: nat := 0;
    var i := 0;
    while i < width
      invariant 0 <= i <= width
      invariant val == FromBigEndian(input[..i])
    {
      assert input[..i + 1] == input[..i] + [input[i]];
      FromBigEndianSnoc(input[..i], input[i]);
      val := val * 256 + input[i];
      i := i + 1;
    }
    return Some((val, input[width..]));
  }

  /** The integer round trip: reading what was written gives the value back and
      leaves exactly the bytes that followed. */
  lemma IntegerRoundTrip(x: nat, width: nat, rest: Bytes)
    requires x < Pow256(width)
    ensures DecodeInteger(BigEndian(x, width) + rest, width) == Some((x, rest))
  {
    var bs := BigEndian(x, width) + rest;
    assert bs[..width] == BigEndian(x, width);
    assert bs[width..] == rest;
    FromBigEndianOfBigEndian(x, width);
  }

  /** `SerializationTest`'s values are written as the expected bytes. */
  lemma ExampleIntegers()
    ensures Pow256(4) == 0x1_0000_0000
    ensures BigEndian(0xFF0000FF, 4) == [0xFF, 0, 0, 0xFF]
  {
    WidthBounds();
    assert Pow256(3) == 0x100_0000 && Pow256(2) == 0x1_0000 && Pow256(1) == 0x100;
    DivModOfSum(0xFF, Pow256(3), 0xFF);
    DivModOfSum(0, Pow256(2), 0xFF);
    DivModOfSum(0, Pow256(1), 0xFF);
    DivModOfSum(0xFF, Pow256(0), 0);
  }

  /** One-byte integers are written as that one byte, which reads back
      as itself whatever follows. */
  function SerializeByte(b: uint8): (bs: Bytes)
    ensures forall rest :: DeserializeByte(bs + rest) == (b, rest)
  {
    [b]
  }

  /** `Deserialize<uint8_t>` is `is.get()`: one byte; on an exhausted stream
      `get()` returns end-of-file, which converts to the byte 0xFF. */
  function DeserializeByte(input: Bytes): (r: (uint8, Bytes))
    ensures input != [] ==> r.0 == input[0] && r.1 == input[1..]
    ensures input == [] ==> r.0 == 0xFF && r.1 == []
  {
    if input == [] then (0xFF, []) else (input[0], input[1..])
  }

  /** `x` is representable in `width` bytes of two's complement. */
  predicate FitsSigned(x: int, width: nat)
  {
    -(Half(width) as int) <= x < Half(width)
  }

  /** Half of `Pow256(width)`: the first value whose top bit is set. */
  function Half(width: nat): (h: nat)
    ensures width > 0 ==> Pow256(width) == 2 * h
  {
    if width == 0 then 0 else 128 * Pow256(width - 1)
  }

  /** A signed integer is written as its two's-complement bits. */
  function Signed(x: int, width: nat): (bs: Bytes)
    requires FitsSigned(x, width)
    ensures |bs| == width
  {
    BigEndian(TwosComplement(x, width), width)
  }

  /** The bits of a signed integer, read as an unsigned one. */
  function TwosComplement(x: int, width: nat): (u: nat)
    requires FitsSigned(x, width)
    ensures u < Pow256(width)
  {
    if x < 0 then assert width > 0; x + Pow256(width) else x
  }

  /** Reading a signed integer reinterprets the bits as two's complement. */
  function FromSigned(bs: Bytes): (x: int)
    requires |bs| > 0
    ensures FitsSigned(x, |bs|)
  {
    var u := FromBigEndian(bs);
    if u >= Half(|bs|) then u - Pow256(|bs|) else u
  }

  lemma SignedRoundTrip(x: int, width: nat)
    requires width > 0 && FitsSigned(x, width)
    ensures FromSigned(Signed(x, width)) == x
  {
    FromBigEndianOfBigEndian(TwosComplement(x, width), width);
  }

  // ---------------------------------------------------------------------------
  // Strings and blobs

  const MaxLength: nat := 0x1_0000_0000_0000_0000

  /** The bytes written for a string or blob: an 8-byte length, then the data. */
  function EncodeBytes(b: Bytes): (bs: Bytes)
    requires |b| < MaxLength
  {
    WidthBounds();
    BigEndian(|b|, 8) + b
  }

  /** `Serialize` for a string or blob. */
  method SerializeBytes(b: Bytes, os: Bytes) returns (os': Bytes)
    requires |b| < MaxLength
    ensures os' == os + EncodeBytes(b)
    ensures |os'| == |os| + 8 + |b|
  {
    WidthBounds();
    os' := SerializeInteger(|b|, 8, os);
    os' := os' + b;
  }

  /** What reading a string or blob gives: the length, then exactly that many
      bytes; nothing when the stream ends first. */
  function DecodeBytes(input: Bytes): Option<(Bytes, Bytes)>
  {
    match DecodeInteger(input, 8)
    case None => None
    case Some((size, rest)) =>
      if |rest| < size then None else Some((rest[..size], rest[size..]))
  }

  /** `Deserialize` for a string or blob. */
  method DeserializeBytes(input: Bytes) returns (r: Option<(Bytes, Bytes)>)
    ensures r == DecodeBytes(input)
  {
    var size := DeserializeInteger(input, 8);
    if size.None? {
      return None;
    }
    var (n, rest) := size.value;
    if |rest| < n {
      return None;
    }
    return Some((rest[..n], rest[n..]));
  }

  lemma BytesRoundTrip(b: Bytes, rest: Bytes)
    requires |b| < MaxLength
    ensures |EncodeBytes(b)| == 8 + |b|
    ensures DecodeBytes(EncodeBytes(b) + rest) == Some((b, rest))
  {
    assert EncodeBytes(b) + rest == BigEndian(|b|, 8) + (b + rest);
    IntegerRoundTrip(|b|, 8, b + rest);
    assert (b + rest)[..|b|] == b;
    assert (b + rest)[|b|..] == rest;
  }

  // ---------------------------------------------------------------------------
  // Values

  /** The `ValueType` enumeration. Its order is not the order of the variant:
      `Monostate` comes last. */
  const TagUint32: uint8 := 0
  const TagUint64: uint8 := 1
  const TagFloat: uint8 := 2
  const TagDouble: uint8 := 3
  const TagString: uint8 := 4
  const TagBlob: uint8 := 5
  const TagMonostate: uint8 := 6

  /** The tag written for the alternative `v` holds: one of the seven
      enumerators, the last one exactly for monostate. */
  function TypeTag(v: Value): (t: uint8)
    ensures t <= TagMonostate
    ensures t == TagMonostate <==> v.Monostate?
  {
    match v
    case U32(_) => TagUint32
    case U64(_) => TagUint64
    case Float(_, _) => TagFloat
    case Double(_, _) => TagDouble
    case String(_) => TagString
    case Blob(_) => TagBlob
    case Monostate => TagMonostate
  }

  /** A value whose strings and blobs can carry an 8-byte length. */
  predicate Serializable(v: Value)
  {
    (v.String? ==> |v.text| < MaxLength) && (v.Blob? ==> |v.blob| < MaxLength)
  }

  /** How many payload bytes follow the tag. */
  function PayloadSize(v: Value): nat
  {
    match v
    case Monostate => 0
    case U32(_) => 4
    case U64(_) => 8
    case Float(_, _) => 4 + 4
    case Double(_, _) => 8 + 4
    case String(s) => 8 + |s|
    case Blob(b) => 8 + |b|
  }

  /** The bytes written for the alternative `v` holds, after its tag. */
  function Payload(v: Value): (bs: Bytes)
    requires Serializable(v)
    ensures |bs| == PayloadSize(v)
  {
    match v
    case Monostate => []
    case U32(x) => BigEndian(x, 4)
    case U64(x) => BigEndian(x, 8)
    case Float(m, e) => Signed(m, 4) + Signed(e, 4)
    case Double(m, e) => Signed(m, 8) + Signed(e, 4)
    case String(s) => EncodeBytes(s)
    case Blob(b) => EncodeBytes(b)
  }

  /** `Serialize(const Value&)`: the tag, then, unless the value is monostate,
      the payload of its alternative. */
  function SerializeValue(v: Value): (bs: Bytes)
    requires Serializable(v)
    ensures |bs| == 1 + PayloadSize(v)
    ensures bs[0] == TypeTag(v)
  {
    [TypeTag(v)] + Payload(v)
  }

  /** Reading a signed integer of `width` bytes. */
  function DecodeSigned(input: Bytes, width: nat): (r: Option<(int, Bytes)>)
    requires width > 0
    ensures r.Some? ==> FitsSigned(r.value.0, width)
  {
    if |input| < width then None else Some((FromSigned(input[..width]), input[width..]))
  }

  lemma WidthBounds()
    ensures Pow256(4) == 0x1_0000_0000
    ensures Pow256(8) == 0x1_0000_0000_0000_0000
  {
    PowAdd(4, 4);
  }

  function DecodeU32(input: Bytes): Option<(Value, Bytes)>
  {
    match DecodeInteger(input, 4)
    case None => None
    case Some((x, r)) => WidthBounds(); Some((U32(x), r))
  }

  function DecodeU64(input: Bytes): Option<(Value, Bytes)>
  {
    match DecodeInteger(input, 8)
    case None => None
    case Some((x, r)) => WidthBounds(); Some((U64(x), r))
  }

  /** A float is read as its 4-byte mantissa, then its 4-byte exponent. */
  function DecodeFloat(input: Bytes): Option<(Value, Bytes)>
  {
    match DecodeSigned(input, 4)
    case None => None
    case Some((m, r)) =>
      match DecodeSigned(r, 4)
      case None => None
      case Some((e, r')) => WidthBounds(); Some((Float(m, e), r'))
  }

  /** A double is read as its 8-byte mantissa, then its 4-byte exponent. */
  function DecodeDouble(input: Bytes): Option<(Value, Bytes)>
  {
    match DecodeSigned(input, 8)
    case None => None
    case Some((m, r)) =>
      match DecodeSigned(r, 4)
      case None => None
      case Some((e, r')) => WidthBounds(); Some((Double(m, e), r'))
  }

  function DecodeString(input: Bytes): Option<(Value, Bytes)>
  {
    match DecodeBytes(input)
    case None => None
    case Some((s, r)) => Some((String(s), r))
  }

  function DecodeBlob(input: Bytes): Option<(Value, Bytes)>
  {
    match DecodeBytes(input)
    case None => None
    case Some((b, r)) => Some((Blob(b), r))
  }

  /** `rest` is what is left of `input` once a prefix has been read. */
  predicate Leftover(rest: Bytes, input: Bytes)
  {
    |rest| <= |input| && rest == input[|input| - |rest|..]
  }

  /** The payload named by `tag`. A tag that names no alternative with a
      payload gives monostate and reads nothing. */
  function DecodePayload(tag: uint8, input: Bytes): (r: Option<(Value, Bytes)>)
    ensures r.Some? ==> Leftover(r.value.1, input)
    ensures tag > TagBlob ==> r == Some((Monostate, input))
    ensures tag <= TagBlob && r.Some? ==> |r.value.1| < |input|
  {
    if tag == TagUint32 then DecodeU32(input)
    else if tag == TagUint64 then DecodeU64(input)
    else if tag == TagFloat then DecodeFloat(input)
    else if tag == TagDouble then DecodeDouble(input)
    else if tag == TagString then DecodeString(input)
    else if tag == TagBlob then DecodeBlob(input)
    else Some((Monostate, input))
  }

  /** `Deserialize<Value>`: read the tag, then the payload it names. The
      end-of-file byte names no alternative, so an exhausted stream reads as
      monostate. Nothing is returned when the payload is cut short. */
  function DeserializeValue(input: Bytes): (r: Option<(Value, Bytes)>)
    ensures r.Some? ==> Leftover(r.value.1, input)
    ensures input != [] && r.Some? ==> |r.value.1| < |input|
    ensures input == [] ==> r == Some((Monostate, []))
  {
    var (tag, rest) := DeserializeByte(input);
    DecodePayload(tag, rest)
  }

  lemma SignedDecodes(x: int, width: nat, rest: Bytes)
    requires width > 0 && FitsSigned(x, width)
    ensures DecodeSigned(Signed(x, width) + rest, width) == Some((x, rest))
  {
    var bs := Signed(x, width) + rest;
    assert bs[..width] == Signed(x, width);
    assert bs[width..] == rest;
    SignedRoundTrip(x, width);
  }

  /** The payload round trip for each alternative. */
  lemma PayloadRoundTrip(v: Value, rest: Bytes)
    requires Serializable(v)
    ensures DecodePayload(TypeTag(v), Payload(v) + rest) == Some((v, rest))
  {
    match v
    case Monostate =>
      assert Payload(v) + rest == rest;
    case U32(x) =>
      WidthBounds();
      IntegerRoundTrip(x, 4, rest);
    case U64(x) =>
      WidthBounds();
      IntegerRoundTrip(x, 8, rest);
    case Float(m, e) =>
      PairRoundTrip(m, 4, e, rest);
    case Double(m, e) =>
      PairRoundTrip(m, 8, e, rest);
    case String(s) =>
      BytesRoundTrip(s, rest);
    case Blob(b) =>
      BytesRoundTrip(b, rest);
  }

  /** A mantissa of `width` bytes followed by a 4-byte exponent reads back as
      the pair. */
  lemma PairRoundTrip(m: int, width: nat, e: int, rest: Bytes)
    requires width > 0 && FitsSigned(m, width) && FitsSigned(e, 4)
    ensures DecodeSigned(Signed(m, width) + Signed(e, 4) + rest, width) == Some((m, Signed(e, 4) + rest))
    ensures DecodeSigned(Signed(e, 4) + rest, 4) == Some((e, rest))
  {
    assert Signed(m, width) + Signed(e, 4) + rest == Signed(m, width) + (Signed(e, 4) + rest);
    SignedDecodes(m, width, Signed(e, 4) + rest);
    SignedDecodes(e, 4, rest);
  }

  /** A stream that starts with the bytes `enc` written for `v` reads as `v`
      when the tag `enc` starts with names a payload that reads as `v`. */
  lemma TagThenPayload(enc: Bytes, rest: Bytes, v: Value)
    requires enc != [] && DecodePayload(enc[0], enc[1..] + rest) == Some((v, rest))
    ensures DeserializeValue(enc + rest) == Some((v, rest))
  {
    assert (enc + rest)[0] == enc[0];
    assert (enc + rest)[1..] == enc[1..] + rest;
  }

  /** The value round trip: decoding consumes exactly the bytes written for `v`
      and gives `v` back, whatever follows them. */
  lemma ValueRoundTrip(v: Value, rest: Bytes)
    requires Serializable(v)
    ensures DeserializeValue(SerializeValue(v) + rest) == Some((v, rest))
  {
    var enc := SerializeValue(v);
    assert enc[1..] == Payload(v);
    PayloadRoundTrip(v, rest);
    TagThenPayload(enc, rest, v);
  }

  /** A tag byte past `Blob`, or an exhausted stream, reads as monostate and
      consumes nothing beyond the tag. */
  lemma UnknownTagIsMonostate(tag: uint8, rest: Bytes)
    requires tag > TagBlob
    ensures DeserializeValue([tag] + rest) == Some((Monostate, rest))
    ensures DeserializeValue([]) == Some((Monostate, []))
  {
    assert ([tag] + rest)[1..] == rest;
  }

  /** Monostate is written as the single byte 6. */
  lemma MonostateIsOneByte()
    ensures SerializeValue(Monostate) == [6]
  {
  }

  // ---------------------------------------------------------------------------
  // Back-to-back values

  /** The stream after writing every value of `vs` in order. */
  function SerializeAll(vs: seq<Value>): Bytes
    requires forall i :: 0 <= i < |vs| ==> Serializable(vs[i])
  {
    if vs == [] then [] else SerializeValue(vs[0]) + SerializeAll(vs[1..])
  }

  /** Reading `n` values in order; nothing if one of them cannot be read. */
  function DeserializeMany(input: Bytes, n: nat): Option<(seq<Value>, Bytes)>
  {
    if n == 0 then Some(([], input))
    else
      match DeserializeValue(input)
      case None => None
      case Some((v, rest)) =>
        match DeserializeMany(rest, n - 1)
        case None => None
        case Some((vs, rest')) => Some(([v] + vs, rest'))
  }

  /** Reading `n` values is reading one, then `n - 1` from where it ends. */
  lemma ManyStep(input: Bytes, v: Value, tail: Bytes, vs: seq<Value>, rest: Bytes, n: nat)
    requires n > 0 && DeserializeValue(input) == Some((v, tail))
    requires DeserializeMany(tail, n - 1) == Some((vs, rest))
    ensures DeserializeMany(input, n) == Some(([v] + vs, rest))
  {
  }

  /** The stream after writing `vs` starts with the bytes of the first value. */
  lemma AllSplits(vs: seq<Value>, rest: Bytes)
    requires vs != [] && forall i :: 0 <= i < |vs| ==> Serializable(vs[i])
    ensures SerializeAll(vs) + rest == SerializeValue(vs[0]) + (SerializeAll(vs[1..]) + rest)
  {
  }

  /** Values written back to back are read back in the same order. */
  lemma {:induction false} ManyRoundTrip(vs: seq<Value>, rest: Bytes)
    requires forall i :: 0 <= i < |vs| ==> Serializable(vs[i])
    ensures DeserializeMany(SerializeAll(vs) + rest, |vs|) == Some((vs, rest))
  {
    if vs != [] {
      var enc, tail := SerializeValue(vs[0]), SerializeAll(vs[1..]) + rest;
      AllSplits(vs, rest);
      ValueRoundTrip(vs[0], tail);
      ManyRoundTrip(vs[1..], rest);
      ManyStep(enc + tail, vs[0], tail, vs[1..], rest, |vs|);
      assert [vs[0]] + vs[1..] == vs;
    } else {
      assert SerializeAll(vs) + rest == rest;
    }
  }
}
