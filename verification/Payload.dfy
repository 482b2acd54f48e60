// networking/codec/payload.go, packet.go and value.go: typed payload fields on the wire.
module Payload {
  import opened Wrappers
  import opened Octets
  import Frames

  type Int32 = n: int | -0x8000_0000 <= n < 0x8000_0000
  type Uint16 = Frames.Uint16
  type Uint32 = n: int | 0 <= n < 0x1_0000_0000
  type Bits64 = n: int | 0 <= n < 0x1_0000_0000_0000_0000

  datatype Kind =
    | BooleanKind | Int32Kind | Uint16Kind | Uint32Kind | StringKind | ByteKind | DoubleKind
    | UnknownKind(code: nat)

  datatype Field = Field(name: string, kind: Kind, optional: bool)

  type Definition = seq<Field>

  // A double is its IEEE-754 bit pattern, a string its octets.
  datatype Value = Value(boolean: bool, int32: Int32, uint16: Uint16, uint32: Uint32, text: seq<Byte>,
                         octet: Byte, double: Bits64)

  const ZERO := Value(false, 0, 0, 0, [], 0, 0)

  datatype Error = InvalidField | StringTooLarge | TruncatedPayload | UnexpectedPayload

  const MAX_TEXT := 0xFFFF

  // ---------------------------------------------------------------- one value

  function Unsigned(n: Int32): Uint32 {
    if n < 0 then n + 0x1_0000_0000 else n
  }

  function Signed(n: Uint32): Int32 {
    if n >= 0x8000_0000 then n - 0x1_0000_0000 else n
  }

  function EncodeValue(kind: Kind, v: Value): Result<seq<Byte>, Error> {
    match kind
    case BooleanKind => Ok([if v.boolean then 1 else 0])
    case Int32Kind => Ok(Fixed(4, Unsigned(v.int32)))
    case Uint16Kind => Ok(Fixed(2, v.uint16))
    case Uint32Kind => Ok(Fixed(4, v.uint32))
    case StringKind => if |v.text| > MAX_TEXT then Err(StringTooLarge) else Ok(Fixed(2, |v.text|) + v.text)
    case ByteKind => Ok([v.octet])
    case DoubleKind => Ok(Fixed(8, v.double))
    case UnknownKind(_) => Err(InvalidField)
  }

  lemma Powers()
    ensures Power256(2) == 0x1_0000 && Power256(4) == 0x1_0000_0000 && Power256(8) == 0x1_0000_0000_0000_0000
  {
    assert Power256(6) == 0x1_0000_0000_0000;
  }

  // The first width octets of src as a big-endian number.
  function Number(width: nat, src: seq<Byte>): (n: nat)
    requires |src| >= width
    ensures n < Power256(width)
  {
    ValueBelow(src[..width]);
    Octets.Value(src[..width])
  }

  // One value and what follows it.
  datatype Taken = Taken(value: Value, rest: seq<Byte>)

  function DecodeValue(kind: Kind, src: seq<Byte>): Result<Taken, Error> {
    Powers();
    match kind
    case BooleanKind =>
      if |src| < 1 then Err(TruncatedPayload) else Ok(Taken(ZERO.(boolean := src[0] != 0), src[1..]))
    case Int32Kind =>
      if |src| < 4 then Err(TruncatedPayload) else Ok(Taken(ZERO.(int32 := Signed(Number(4, src))), src[4..]))
    case Uint16Kind =>
      if |src| < 2 then Err(TruncatedPayload) else Ok(Taken(ZERO.(uint16 := Number(2, src)), src[2..]))
    case Uint32Kind =>
      if |src| < 4 then Err(TruncatedPayload) else Ok(Taken(ZERO.(uint32 := Number(4, src)), src[4..]))
    case StringKind => DecodeString(src)
    case ByteKind =>
      if |src| < 1 then Err(TruncatedPayload) else Ok(Taken(ZERO.(octet := src[0]), src[1..]))
    case DoubleKind =>
      if |src| < 8 then Err(TruncatedPayload) else Ok(Taken(ZERO.(double := Number(8, src)), src[8..]))
    case UnknownKind(_) => Err(InvalidField)
  }

  function DecodeString(src: seq<Byte>): Result<Taken, Error> {
    if |src| < 2 then Err(TruncatedPayload)
    else
      var size := Number(2, src);
      if |src| < 2 + size then Err(TruncatedPayload)
      else Ok(Taken(ZERO.(text := src[2..2 + size]), src[2 + size..]))
  }

  // The value with everything dropped that a field of this kind does not carry.
  function Canonical(kind: Kind, v: Value): Value {
    match kind
    case BooleanKind => ZERO.(boolean := v.boolean)
    case Int32Kind => ZERO.(int32 := v.int32)
    case Uint16Kind => ZERO.(uint16 := v.uint16)
    case Uint32Kind => ZERO.(uint32 := v.uint32)
    case StringKind => ZERO.(text := v.text)
    case ByteKind => ZERO.(octet := v.octet)
    case DoubleKind => ZERO.(double := v.double)
    case UnknownKind(_) => ZERO
  }

  // Two's complement: a signed integer and its wire form agree modulo 2^32, and are the same
  // number where that is not negative.
  lemma TwosComplement(n: Int32, u: Uint32)
    ensures (Unsigned(n) - n) % 0x1_0000_0000 == 0 && (n >= 0 ==> Unsigned(n) == n)
    ensures (Signed(u) - u) % 0x1_0000_0000 == 0 && (u < 0x8000_0000 ==> Signed(u) == u)
  {
  }

  // What each kind looks like on the wire: big-endian numbers, signed ones modulo 2^32, a
  // string behind its length.
  lemma WireForm(kind: Kind, v: Value)
    ensures EncodeValue(kind, v).Ok? <==> !kind.UnknownKind? && (kind == StringKind ==> |v.text| < 0x1_0000)
    ensures EncodeValue(kind, v).Ok? ==>
      var r := EncodeValue(kind, v).value;
      match kind
      case BooleanKind => r == [if v.boolean then 1 else 0]
      case Int32Kind => |r| == 4 && (Octets.Value(r) - v.int32) % 0x1_0000_0000 == 0
      case Uint16Kind => |r| == 2 && Octets.Value(r) == v.uint16
      case Uint32Kind => |r| == 4 && Octets.Value(r) == v.uint32
      case StringKind => |r| >= 2 && Octets.Value(r[..2]) == |v.text| && r[2..] == v.text
      case ByteKind => r == [v.octet]
      case DoubleKind => |r| == 8 && Octets.Value(r) == v.double
      case UnknownKind(_) => true
    ensures EncodeValue(kind, v).Err? ==>
      EncodeValue(kind, v).error == if kind.UnknownKind? then InvalidField else StringTooLarge
  {
    hide Fixed, Power256;
    Powers();
    match kind
    case Int32Kind =>
      ValueOfFixed(4, Unsigned(v.int32));
      TwosComplement(v.int32, 0);
    case Uint16Kind => ValueOfFixed(2, v.uint16);
    case Uint32Kind => ValueOfFixed(4, v.uint32);
    case StringKind =>
      if |v.text| <= MAX_TEXT {
        ValueOfFixed(2, |v.text|);
        assert (Fixed(2, |v.text|) + v.text)[..2] == Fixed(2, |v.text|);
      }
    case DoubleKind => ValueOfFixed(8, v.double);
    case _ =>
  }

  lemma NumberOfFixed(width: nat, n: nat, more: seq<Byte>)
    requires n < Power256(width)
    ensures Number(width, Fixed(width, n) + more) == n
    ensures (Fixed(width, n) + more)[width..] == more
  {
    ValueOfFixed(width, n);
    assert (Fixed(width, n) + more)[..width] == Fixed(width, n);
  }

  lemma FixedOfNumber(width: nat, src: seq<Byte>)
    requires |src| >= width
    ensures Fixed(width, Number(width, src)) == src[..width]
  {
    FixedOfValue(src[..width]);
  }

  // Reading back what was written gives the value and leaves what follows.
  lemma DecodeOfEncode(kind: Kind, v: Value, more: seq<Byte>)
    requires EncodeValue(kind, v).Ok?
    ensures DecodeValue(kind, EncodeValue(kind, v).value + more) == Ok(Taken(Canonical(kind, v), more))
  {
    hide Number, Fixed, Power256;
    Powers();
    match kind
    case BooleanKind =>
    case Int32Kind => NumberOfFixed(4, Unsigned(v.int32), more);
    case Uint16Kind => NumberOfFixed(2, v.uint16, more);
    case Uint32Kind => NumberOfFixed(4, v.uint32, more);
    case StringKind => DecodeOfString(v.text, more);
    case ByteKind =>
    case DoubleKind => NumberOfFixed(8, v.double, more);
  }

  lemma DecodeOfString(text: seq<Byte>, more: seq<Byte>)
    requires |text| <= MAX_TEXT
    ensures DecodeString(Fixed(2, |text|) + text + more) == Ok(Taken(ZERO.(text := text), more))
  {
    hide Number, Fixed, Power256;
    Powers();
    assert Fixed(2, |text|) + text + more == Fixed(2, |text|) + (text + more);
    NumberOfFixed(2, |text|, text + more);
  }

  // What writing back a decoded value may change: a true octet other than 1 becomes 1.
  predicate SameOctets(a: seq<Byte>, b: seq<Byte>) {
    |a| == |b| && forall i :: 0 <= i < |a| ==> a[i] == b[i] || (a[i] == 1 && b[i] > 1)
  }

  lemma EncodeOfDecode(kind: Kind, src: seq<Byte>)
    requires DecodeValue(kind, src).Ok?
    ensures var t := DecodeValue(kind, src).value;
            && Canonical(kind, t.value) == t.value
            && EncodeValue(kind, t.value).Ok?
            && |t.rest| < |src|
            && t.rest == src[|src| - |t.rest|..]
            && SameOctets(EncodeValue(kind, t.value).value, src[..|src| - |t.rest|])
            && (kind != BooleanKind ==> EncodeValue(kind, t.value).value == src[..|src| - |t.rest|])
  {
    hide Number, Fixed, Power256;
    Powers();
    match kind
    case BooleanKind =>
    case Int32Kind => FixedOfNumber(4, src);
    case Uint16Kind => FixedOfNumber(2, src);
    case Uint32Kind => FixedOfNumber(4, src);
    case StringKind => EncodeOfString(src);
    case ByteKind =>
    case DoubleKind => FixedOfNumber(8, src);
  }

  // How many octets a value takes before its text.
  function Width(kind: Kind): nat {
    match kind
    case BooleanKind => 1
    case Int32Kind => 4
    case Uint16Kind => 2
    case Uint32Kind => 4
    case StringKind => 2
    case ByteKind => 1
    case DoubleKind => 8
    case UnknownKind(_) => 0
  }

  // Reading a value fails exactly for an unknown kind, and with the other error when the
  // octets end before the value or its text does.
  lemma ReadingFails(kind: Kind, src: seq<Byte>)
    ensures DecodeValue(kind, src) == Err(InvalidField) <==> kind.UnknownKind?
    ensures DecodeValue(kind, src) == Err(TruncatedPayload) <==>
      !kind.UnknownKind?
      && (|src| < Width(kind) || (kind == StringKind && |src| < 2 + Octets.Value(src[..2])))
    ensures DecodeValue(kind, src).Err? ==> DecodeValue(kind, src).error in {InvalidField, TruncatedPayload}
    ensures DecodeValue(kind, src).Ok? ==>
      |DecodeValue(kind, src).value.rest|
      == |src| - Width(kind) - (if kind == StringKind then |DecodeValue(kind, src).value.value.text| else 0)
  {
    hide Power256;
  }

  // A value that was read carries what its kind says and nothing else.
  lemma ReadCarries(kind: Kind, src: seq<Byte>)
    requires DecodeValue(kind, src).Ok?
    ensures var v := DecodeValue(kind, src).value.value;
      && (kind != BooleanKind ==> !v.boolean) && (kind != Int32Kind ==> v.int32 == 0)
      && (kind != Uint16Kind ==> v.uint16 == 0) && (kind != Uint32Kind ==> v.uint32 == 0)
      && (kind != StringKind ==> v.text == []) && (kind != ByteKind ==> v.octet == 0)
      && (kind != DoubleKind ==> v.double == 0)
  {
    hide Number;
  }

  lemma EncodeOfString(src: seq<Byte>)
    requires DecodeString(src).Ok?
    ensures var t := DecodeString(src).value;
            && t.value == ZERO.(text := t.value.text)
            && |t.value.text| <= MAX_TEXT
            && |t.rest| < |src|
            && t.rest == src[|src| - |t.rest|..]
            && Fixed(2, |t.value.text|) + t.value.text == src[..|src| - |t.rest|]
  {
    hide Fixed, Power256;
    Powers();
    FixedOfNumber(2, src);
    assert src[..2] + src[2..2 + Number(2, src)] == src[..2 + Number(2, src)];
  }

  // ---------------------------------------------------------------- whole payloads

  function Prepend(b: seq<Byte>, r: Result<seq<Byte>, Error>): Result<seq<Byte>, Error> {
    if r.Ok? then Ok(b + r.value) else r
  }

  // Each field in order with its value; fields left without one must be optional.
  function Fields(definition: Definition, values: seq<Value>): Result<seq<Byte>, Error>
    requires |values| <= |definition|
  {
    if definition == [] then Ok([])
    else if values == [] then
      if definition[0].optional then Fields(definition[1..], []) else Err(InvalidField)
    else
      var head := EncodeValue(definition[0].kind, values[0]);
      if head.Ok? then Prepend(head.value, Fields(definition[1..], values[1..])) else head
  }

  function Encode(definition: Definition, values: seq<Value>): Result<seq<Byte>, Error> {
    if |values| > |definition| then Err(InvalidField) else Fields(definition, values)
  }

  function Remaining(values: seq<Value>, i: nat): seq<Value> {
    if i <= |values| then values[i..] else []
  }

  method AppendPayload(dst: seq<Byte>, definition: Definition, values: seq<Value>)
    returns (r: seq<Byte>, error: Option<Error>)
    ensures dst <= r
    ensures match Encode(definition, values)
            case Ok(b) => error == None && r == dst + b
            case Err(e) => error == Some(e)
  {
    if |values| > |definition| {
      return dst, Some(InvalidField);
    }
    r := dst;
    assert r[|dst|..] == [] && definition[0..] == definition && Remaining(values, 0) == values;
    PrependNothing(Encode(definition, values));
    var index := 0;
    while index < |definition|
      invariant 0 <= index <= |definition|
      invariant dst <= r
      invariant Encode(definition, values)
                == Prepend(r[|dst|..], Fields(definition[index..], Remaining(values, index)))
    {
      hide EncodeValue;
      var field := definition[index];
      FieldsStep(definition, values, index);
      if index >= |values| {
        if !field.optional {
          return r, Some(InvalidField);
        }
      } else {
        var head := EncodeValue(field.kind, values[index]);
        if head.Err? {
          return r, Some(head.error);
        }
        PrependTwice(r[|dst|..], head.value, Fields(definition[index + 1..], Remaining(values, index + 1)));
        r := r + head.value;
        assert r[|dst|..] == r[|dst|..|r| - |head.value|] + head.value;
      }
      index := index + 1;
    }
    error := None;
  }

  lemma PrependNothing(r: Result<seq<Byte>, Error>)
    ensures Prepend([], r) == r
  {
    if r.Ok? {
      assert [] + r.value == r.value;
    }
  }

  lemma PrependTwice(a: seq<Byte>, b: seq<Byte>, r: Result<seq<Byte>, Error>)
    ensures Prepend(a, Prepend(b, r)) == Prepend(a + b, r)
  {
    if r.Ok? {
      assert a + (b + r.value) == a + b + r.value;
    }
  }

  lemma FieldsStep(definition: Definition, values: seq<Value>, index: nat)
    requires |values| <= |definition| && index < |definition|
    ensures Fields(definition[index..], Remaining(values, index)) ==
            (if index >= |values| then
               if definition[index].optional then Fields(definition[index + 1..], Remaining(values, index + 1))
               else Err(InvalidField)
             else
               var head := EncodeValue(definition[index].kind, values[index]);
               if head.Ok? then Prepend(head.value, Fields(definition[index + 1..], Remaining(values, index + 1)))
               else head)
  {
    hide EncodeValue;
    assert definition[index..][1..] == definition[index + 1..];
    if index < |values| {
      assert values[index..][1..] == values[index + 1..];
    }
  }

  datatype Decoded = Decoded(values: seq<Value>, rest: seq<Byte>, error: Option<Error>)

  // Values in field order; an optional field that does not fit ends the payload.
  function Decode(definition: Definition, src: seq<Byte>): Decoded {
    if definition == [] then Decoded([], src, None)
    else
      match DecodeValue(definition[0].kind, src)
      case Err(e) =>
        if definition[0].optional && e == TruncatedPayload then Decoded([], src, None)
        else Decoded([], src, Some(e))
      case Ok(t) =>
        var more := Decode(definition[1..], t.rest);
        more.(values := [t.value] + more.values)
  }

  method DecodePayload(dst: seq<Value>, definition: Definition, src: seq<Byte>)
    returns (values: seq<Value>, rest: seq<Byte>, error: Option<Error>)
    ensures var d := Decode(definition, src); values == dst + d.values && rest == d.rest && error == d.error
  {
    hide DecodeValue;
    values, rest := dst, src;
    var index := 0;
    while index < |definition|
      invariant 0 <= index <= |definition|
      invariant var d, more := Decode(definition, src), Decode(definition[index..], rest);
                dst + d.values == values + more.values && d.rest == more.rest && d.error == more.error
    {
      var field := definition[index];
      assert definition[index..][0] == field && definition[index..][1..] == definition[index + 1..];
      var taken := DecodeValue(field.kind, rest);
      if taken.Err? {
        if field.optional && taken.error == TruncatedPayload {
          return values, rest, None;
        }
        return values, rest, Some(taken.error);
      }
      values := values + [taken.value.value];
      rest := taken.value.rest;
      index := index + 1;
    }
    error := None;
  }

  // ---------------------------------------------------------------- packets

  function NewPacket(header: Uint16, definition: Definition, values: seq<Value>): Result<Frames.Packet, Error> {
    match Encode(definition, values)
    case Err(e) => Err(e)
    case Ok(b) => Ok(Frames.Packet(header, b))
  }

  function DecodePacketExact(packet: Frames.Packet, definition: Definition): Result<seq<Value>, Error> {
    var d := Decode(definition, packet.payload);
    if d.error.Some? then Err(d.error.value)
    else if d.rest != [] then Err(UnexpectedPayload)
    else Ok(d.values)
  }

  // A packet is refused for the error of its payload, or for octets left behind it.
  lemma PacketRefused(packet: Frames.Packet, definition: Definition)
    ensures var d, r := Decode(definition, packet.payload), DecodePacketExact(packet, definition);
      && (r.Ok? <==> d.error == None && |d.rest| == 0)
      && (r == Err(UnexpectedPayload) <==> d.error == None && |d.rest| > 0)
      && (d.error.Some? ==> r == Err(d.error.value) && d.error.value in {InvalidField, TruncatedPayload})
      && (r.Ok? ==> r.value == d.values)
  {
    DecodeErrors(definition, packet.payload);
  }

  lemma {:induction false} DecodeErrors(definition: Definition, src: seq<Byte>)
    ensures Decode(definition, src).error in {None, Some(InvalidField), Some(TruncatedPayload)}
    decreases |definition|
  {
    hide DecodeValue;
    if definition != [] {
      ReadingFails(definition[0].kind, src);
      var t := DecodeValue(definition[0].kind, src);
      if t.Ok? {
        DecodeErrors(definition[1..], t.value.rest);
      }
    }
  }

  predicate Writable(kind: Kind, v: Value) {
    !kind.UnknownKind? && (kind == StringKind ==> |v.text| <= MAX_TEXT)
  }

  predicate OptionalFrom(definition: Definition, i: nat) {
    forall k :: i <= k < |definition| ==> definition[k].optional
  }

  // The value lists that a definition accepts.
  predicate Accepted(definition: Definition, values: seq<Value>) {
    && |values| <= |definition|
    && (forall k :: 0 <= k < |values| ==> Writable(definition[k].kind, values[k]))
    && OptionalFrom(definition, |values|)
  }

  function CanonicalAll(definition: Definition, values: seq<Value>): (r: seq<Value>)
    requires |values| <= |definition|
    ensures |r| == |values|
  {
    seq(|values|, k requires 0 <= k < |values| => Canonical(definition[k].kind, values[k]))
  }

  lemma AcceptedTail(definition: Definition, values: seq<Value>)
    requires definition != [] && values != []
    ensures Accepted(definition, values) <==>
              Writable(definition[0].kind, values[0]) && Accepted(definition[1..], values[1..])
  {
    var d, v := definition[1..], values[1..];
    if Accepted(definition, values) {
      assert forall k :: 0 <= k < |v| ==> d[k] == definition[k + 1] && v[k] == values[k + 1];
      assert forall k :: 0 <= k < |d| ==> d[k] == definition[k + 1];
    }
    if Writable(definition[0].kind, values[0]) && Accepted(d, v) {
      forall k | 0 <= k < |values| ensures Writable(definition[k].kind, values[k]) {
        if k > 0 {
          assert definition[k] == d[k - 1] && values[k] == v[k - 1];
        }
      }
      forall k | |values| <= k < |definition| ensures definition[k].optional {
        assert definition[k] == d[k - 1];
      }
    }
  }

  lemma OptionalTail(definition: Definition)
    requires definition != []
    ensures OptionalFrom(definition, 0) <==> definition[0].optional && OptionalFrom(definition[1..], 0)
  {
    var d := definition[1..];
    if definition[0].optional && OptionalFrom(d, 0) {
      forall k | 0 <= k < |definition| ensures definition[k].optional {
        if k > 0 {
          assert definition[k] == d[k - 1];
        }
      }
    }
  }

  // NewPacket succeeds exactly on the accepted value lists.
  lemma {:induction false} EncodeExact(definition: Definition, values: seq<Value>)
    ensures Encode(definition, values).Ok? <==> Accepted(definition, values)
    decreases |definition|
  {
    hide Accepted, OptionalFrom;
    if |values| > |definition| {
      TooManyRefused(definition, values);
    } else if definition == [] {
      NothingAccepted();
    } else if values == [] {
      OptionalTail(definition);
      EncodeExact(definition[1..], []);
      NoValuesAccepted(definition);
      NoValuesAccepted(definition[1..]);
    } else {
      EncodeExact(definition[1..], values[1..]);
      AcceptedTail(definition, values);
    }
  }

  // The first thing wrong decides the error: a string too large for its field, if only
  // writable values come before it; any other refusal is of a field.
  lemma {:induction false} EncodeTooLarge(definition: Definition, values: seq<Value>)
    ensures |values| > |definition| ==> Encode(definition, values) == Err(InvalidField)
    ensures |values| <= |definition| ==>
      (Encode(definition, values) == Err(StringTooLarge) <==> exists k :: TooLargeAt(definition, values, k))
    ensures Encode(definition, values).Err? ==> Encode(definition, values).error in {InvalidField, StringTooLarge}
    decreases |definition|
  {
    hide EncodeValue;
    if values == [] && definition != [] {
      EncodeTooLarge(definition[1..], []);
    } else if 0 < |values| <= |definition| {
      var kind := definition[0].kind;
      WireForm(kind, values[0]);
      EncodeTooLarge(definition[1..], values[1..]);
      TooLargeTail(definition, values);
    }
  }

  predicate TooLargeAt(definition: Definition, values: seq<Value>, k: int)
    requires |values| <= |definition|
  {
    && 0 <= k < |values| && definition[k].kind == StringKind && |values[k].text| > 65535
    && forall j :: 0 <= j < k ==> Writable(definition[j].kind, values[j])
  }

  lemma TooLargeTail(definition: Definition, values: seq<Value>)
    requires 0 < |values| <= |definition|
    ensures (exists k :: TooLargeAt(definition, values, k)) <==>
      TooLargeAt(definition, values, 0)
      || (Writable(definition[0].kind, values[0]) && exists k :: TooLargeAt(definition[1..], values[1..], k))
  {
    var d, v := definition[1..], values[1..];
    if k :| TooLargeAt(definition, values, k) && k > 0 {
      forall j | 0 <= j < k - 1 ensures Writable(d[j].kind, v[j]) {
        assert d[j] == definition[j + 1] && v[j] == values[j + 1];
      }
      assert TooLargeAt(d, v, k - 1);
    }
    if k :| TooLargeAt(d, v, k) && Writable(definition[0].kind, values[0]) {
      forall j | 0 <= j < k + 1 ensures Writable(definition[j].kind, values[j]) {
        if j > 0 {
          assert d[j - 1] == definition[j] && v[j - 1] == values[j];
        }
      }
      assert TooLargeAt(definition, values, k + 1);
    }
  }

  lemma NothingAccepted()
    ensures Accepted([], [])
  {
  }

  lemma TooManyRefused(definition: Definition, values: seq<Value>)
    requires |values| > |definition|
    ensures !Accepted(definition, values)
  {
  }

  lemma NoValuesAccepted(definition: Definition)
    ensures Accepted(definition, []) <==> OptionalFrom(definition, 0)
  {
  }

  // ---------------------------------------------------------------- round trips

  // What decoding says once the octets are used up at field i.
  function Ending(definition: Definition, i: nat): Option<Error> {
    if i < |definition| && definition[i].kind.UnknownKind? then Some(InvalidField) else None
  }

  lemma DecodeNothing(definition: Definition)
    requires OptionalFrom(definition, 0)
    ensures Decode(definition, []) == Decoded([], [], Ending(definition, 0))
  {
  }

  lemma CanonicalTail(definition: Definition, values: seq<Value>)
    requires 0 < |values| <= |definition|
    ensures CanonicalAll(definition, values)
            == [Canonical(definition[0].kind, values[0])] + CanonicalAll(definition[1..], values[1..])
  {
    hide Canonical;
  }

  // Decoding what was encoded gives the values, in canonical form, and leaves what follows
  // a complete payload.
  lemma {:induction false} DecodeOfFields(definition: Definition, values: seq<Value>, more: seq<Byte>)
    requires Encode(definition, values).Ok?
    requires |values| < |definition| ==> more == []
    ensures Decode(definition, Encode(definition, values).value + more)
            == Decoded(CanonicalAll(definition, values), more, Ending(definition, |values|))
    decreases |definition|
  {
    hide EncodeValue, DecodeValue, Accepted, OptionalFrom, Canonical;
    var b := Encode(definition, values).value;
    if definition == [] {
      assert b + more == more;
    } else if values == [] {
      EncodeExact(definition, []);
      NoValuesAccepted(definition);
      DecodeNothing(definition);
      OmittedWriteNothing(definition);
      assert b + more == [];
    } else {
      var kind := definition[0].kind;
      var head := EncodeValue(kind, values[0]).value;
      var rest := Fields(definition[1..], values[1..]).value;
      assert b + more == head + (rest + more);
      DecodeOfEncode(kind, values[0], rest + more);
      DecodeOfFields(definition[1..], values[1..], more);
      CanonicalTail(definition, values);
    }
  }

  lemma {:induction false} OmittedWriteNothing(definition: Definition)
    requires Fields(definition, []).Ok?
    ensures Fields(definition, []).value == []
    decreases |definition|
  {
    if definition != [] {
      OmittedWriteNothing(definition[1..]);
    }
  }

  // A packet made from accepted values decodes to them exactly when no value is omitted or
  // the first omitted field has a known kind; otherwise it does not decode.
  lemma PacketRoundTrip(header: Uint16, definition: Definition, values: seq<Value>)
    requires Accepted(definition, values)
    ensures NewPacket(header, definition, values).Ok?
    ensures var packet := NewPacket(header, definition, values).value;
            packet.header == header
            && DecodePacketExact(packet, definition) ==
                 (if |values| < |definition| && definition[|values|].kind.UnknownKind? then Err(InvalidField)
                  else Ok(CanonicalAll(definition, values)))
  {
    hide Accepted, CanonicalAll;
    EncodeExact(definition, values);
    DecodeOfFields(definition, values, []);
    assert Encode(definition, values).value + [] == Encode(definition, values).value;
  }

  // So two accepted lists that make the same packet agree on everything their fields carry.
  lemma PacketsDetermineValues(header: Uint16, definition: Definition, a: seq<Value>, b: seq<Value>)
    requires Accepted(definition, a) && Accepted(definition, b)
    requires forall k :: 0 <= k < |definition| ==> !definition[k].kind.UnknownKind?
    requires NewPacket(header, definition, a) == NewPacket(header, definition, b)
    ensures |a| == |b| && CanonicalAll(definition, a) == CanonicalAll(definition, b)
  {
    hide CanonicalAll, Accepted, DecodePacketExact, NewPacket;
    PacketRoundTrip(header, definition, a);
    PacketRoundTrip(header, definition, b);
  }

  // Decoded values are canonical, and written back they give the octets they came from, but
  // for true octets other than 1.
  lemma {:induction false} FieldsOfDecode(definition: Definition, src: seq<Byte>)
    requires Decode(definition, src).error.None?
    ensures var d := Decode(definition, src);
            && |d.values| <= |definition|
            && |d.rest| <= |src| && d.rest == src[|src| - |d.rest|..]
            && CanonicalAll(definition, d.values) == d.values
            && (Encode(definition, d.values).Ok? <==> OptionalFrom(definition, |d.values|))
            && (Encode(definition, d.values).Ok? ==>
                  SameOctets(Encode(definition, d.values).value, src[..|src| - |d.rest|]))
    decreases |definition|
  {
    hide EncodeValue, DecodeValue, Canonical, SameOctets, CanonicalAll;
    var d := Decode(definition, src);
    if definition == [] || DecodeValue(definition[0].kind, src).Err? {
      NothingDecoded(definition, src);
    } else {
      var kind := definition[0].kind;
      var t := DecodeValue(kind, src).value;
      var more := Decode(definition[1..], t.rest);
      EncodeOfDecode(kind, src);
      FieldsOfDecode(definition[1..], t.rest);
      CanonicalTail(definition, d.values);
      assert d.values[1..] == more.values;
      OptionalShift(definition, |more.values|);
      if Encode(definition, d.values).Ok? {
        SameJoined(EncodeValue(kind, t.value).value, Encode(definition[1..], more.values).value,
                   src, |src| - |t.rest|, |src| - |d.rest|);
      }
    }
  }

  lemma OptionalShift(definition: Definition, i: nat)
    requires definition != []
    ensures OptionalFrom(definition[1..], i) <==> OptionalFrom(definition, i + 1)
  {
    var d := definition[1..];
    if OptionalFrom(d, i) {
      forall k | i + 1 <= k < |definition| ensures definition[k].optional {
        assert definition[k] == d[k - 1];
      }
    }
  }

  lemma NothingDecoded(definition: Definition, src: seq<Byte>)
    ensures CanonicalAll(definition, []) == []
    ensures Encode(definition, []).Ok? <==> OptionalFrom(definition, 0)
    ensures Encode(definition, []).Ok? ==> SameOctets(Encode(definition, []).value, src[..0])
  {
    EncodeExact(definition, []);
    NoValuesAccepted(definition);
    if Encode(definition, []).Ok? {
      OmittedWriteNothing(definition);
    }
  }

  lemma SameJoined(a: seq<Byte>, b: seq<Byte>, src: seq<Byte>, i: nat, j: nat)
    requires i <= j <= |src|
    requires SameOctets(a, src[..i]) && SameOctets(b, src[i..][..j - i])
    ensures SameOctets(a + b, src[..j])
  {
    assert src[..j] == src[..i] + src[i..][..j - i];
  }

  // Decoded values can be written back exactly when the fields after them are optional;
  // then they decode again to themselves, from octets that differ only in true booleans.
  lemma ReencodeDecoded(packet: Frames.Packet, definition: Definition)
    requires DecodePacketExact(packet, definition).Ok?
    ensures var values := DecodePacketExact(packet, definition).value;
            && |values| <= |definition|
            && (NewPacket(packet.header, definition, values).Ok? <==> OptionalFrom(definition, |values|))
            && (NewPacket(packet.header, definition, values).Ok? ==>
                  var again := NewPacket(packet.header, definition, values).value;
                  DecodePacketExact(again, definition) == Ok(values) && again.header == packet.header
                  && SameOctets(again.payload, packet.payload))
  {
    hide EncodeValue, DecodeValue, SameOctets, CanonicalAll, Fields;
    var values := DecodePacketExact(packet, definition).value;
    FieldsOfDecode(definition, packet.payload);
    assert packet.payload[..|packet.payload|] == packet.payload;
    if NewPacket(packet.header, definition, values).Ok? {
      DecodeEnds(definition, packet.payload);
      KnownAt(definition, |values|);
      EncodeExact(definition, values);
      PacketRoundTrip(packet.header, definition, values);
    }
  }

  predicate KnownTo(definition: Definition, n: nat) {
    n <= |definition| && forall k :: 0 <= k < n ==> !definition[k].kind.UnknownKind?
  }

  lemma KnownTail(definition: Definition, n: nat)
    requires definition != []
    ensures KnownTo(definition, n + 1) <==> !definition[0].kind.UnknownKind? && KnownTo(definition[1..], n)
  {
    var d := definition[1..];
    if !definition[0].kind.UnknownKind? && KnownTo(d, n) {
      forall k | 0 <= k < n + 1 ensures !definition[k].kind.UnknownKind? {
        if k > 0 {
          assert definition[k] == d[k - 1];
        }
      }
    }
  }

  // Decoding read fields of known kinds only, and where it stops early without an error it
  // stops at an optional field of a known kind.
  lemma {:induction false} DecodeEnds(definition: Definition, src: seq<Byte>)
    requires Decode(definition, src).error.None?
    ensures var n := |Decode(definition, src).values|;
            && KnownTo(definition, n)
            && (n < |definition| ==> definition[n].optional && KnownTo(definition, n + 1))
    decreases |definition|
  {
    hide KnownTo;
    NoneKnown(definition);
    if definition != [] {
      var kind := definition[0].kind;
      KnownKind(kind, src);
      match DecodeValue(kind, src)
      case Err(_) =>
        KnownTail(definition, 0);
        NoneKnown(definition[1..]);
      case Ok(t) =>
        hide DecodeValue;
        DecodeEnds(definition[1..], t.rest);
        var n := |Decode(definition[1..], t.rest).values|;
        KnownTail(definition, n);
        KnownTail(definition, n + 1);
    }
  }

  lemma KnownAt(definition: Definition, n: nat)
    requires n < |definition| ==> KnownTo(definition, n + 1)
    ensures n < |definition| ==> !definition[n].kind.UnknownKind?
  {
  }

  lemma NoneKnown(definition: Definition)
    ensures KnownTo(definition, 0)
  {
  }

  lemma KnownKind(kind: Kind, src: seq<Byte>)
    ensures kind.UnknownKind? <==> DecodeValue(kind, src) == Err(InvalidField)
    ensures src == [] && !kind.UnknownKind? ==> DecodeValue(kind, src) == Err(TruncatedPayload)
  {
  }

  // The first n fields written with zero values.
  function Zeros(definition: Definition, n: nat): seq<Byte>
    requires KnownTo(definition, n)
  {
    if n == 0 then [] else EncodeValue(definition[0].kind, ZERO).value + Zeros(definition[1..], n - 1)
  }

  lemma {:induction false} ZerosDecode(definition: Definition, n: nat)
    requires n < |definition| && definition[n].optional && KnownTo(definition, n + 1)
    ensures KnownTo(definition, n)
    ensures var d := Decode(definition, Zeros(definition, n));
            |d.values| == n && d.rest == [] && d.error.None?
    decreases n
  {
    hide EncodeValue, DecodeValue;
    if n == 0 {
      KnownKind(definition[0].kind, []);
    } else {
      var kind := definition[0].kind;
      ZerosDecode(definition[1..], n - 1);
      ZeroEncodes(kind);
      DecodeOfEncode(kind, ZERO, Zeros(definition[1..], n - 1));
    }
  }

  lemma ZeroEncodes(kind: Kind)
    requires !kind.UnknownKind?
    ensures EncodeValue(kind, ZERO).Ok?
  {
  }

  // A payload that does not decode, or whose values can be written back.
  predicate WrittenBack(definition: Definition, payload: seq<Byte>) {
    var values := DecodePacketExact(Frames.Packet(0, payload), definition);
    values.Ok? ==> NewPacket(0, definition, values.value).Ok?
  }

  // A definition guarantees this of all its packets exactly when behind every optional
  // field, up to the first field of an unknown kind, there are only optional ones.
  lemma WrittenBackExactly(definition: Definition)
    ensures (forall payload :: WrittenBack(definition, payload))
            <==> forall n: nat :: n < |definition| && definition[n].optional && KnownTo(definition, n + 1) ==>
                   OptionalFrom(definition, n + 1)
  {
    hide KnownTo, OptionalFrom, WrittenBack;
    if forall payload :: WrittenBack(definition, payload) {
      forall n: nat | n < |definition| && definition[n].optional && KnownTo(definition, n + 1)
        ensures OptionalFrom(definition, n + 1)
      {
        ZerosDecode(definition, n);
        assert WrittenBack(definition, Zeros(definition, n));
        WrittenBackMeans(definition, Zeros(definition, n));
        OptionalNext(definition, n);
      }
    }
    if forall n: nat :: n < |definition| && definition[n].optional && KnownTo(definition, n + 1) ==>
         OptionalFrom(definition, n + 1)
    {
      forall payload ensures WrittenBack(definition, payload) {
        WrittenBackMeans(definition, payload);
        var d := Decode(definition, payload);
        if d.error.None? {
          DecodeEnds(definition, payload);
          NothingAfter(definition);
          if |d.values| < |definition| {
            OptionalNext(definition, |d.values|);
          }
        }
      }
    }
  }

  lemma WrittenBackMeans(definition: Definition, payload: seq<Byte>)
    ensures var d := Decode(definition, payload);
            && (d.error.None? ==> |d.values| <= |definition|)
            && (WrittenBack(definition, payload)
                <==> (d.error.None? && d.rest == [] ==> OptionalFrom(definition, |d.values|)))
  {
    hide Encode, OptionalFrom;
    if Decode(definition, payload).error.None? {
      FieldsOfDecode(definition, payload);
    }
  }

  lemma OptionalNext(definition: Definition, n: nat)
    requires n < |definition| && definition[n].optional
    ensures OptionalFrom(definition, n) <==> OptionalFrom(definition, n + 1)
  {
  }

  lemma NothingAfter(definition: Definition)
    ensures OptionalFrom(definition, |definition|)
  {
  }

  // A required field after an omitted optional one: the empty payload decodes, but what it
  // decodes to cannot be written back.
  lemma RequiredAfterOptional()
    ensures var definition := [Field("", Int32Kind, true), Field("", Int32Kind, false)];
            DecodePacketExact(Frames.Packet(0, []), definition) == Ok([])
            && NewPacket(0, definition, []) == Err(InvalidField)
  {
    var definition := [Field("", Int32Kind, true), Field("", Int32Kind, false)];
    assert definition[1..] == [Field("", Int32Kind, false)];
  }
}
