/**
 * Encode, EncodeTo and Decode of binpack's reflective codec (pkg/binpack/reflect_codec.go),
 * with the field encoders and decoders of pkg/binpack/codec.go. A struct value is the
 * sequence of its field values, in field order; `kinds` are the kinds of its fields.
 */
module BinStruct {
  import opened Wrappers
  import opened BinEncoding
  import opened BinCodec
  import opened BinBits
  import opened BinReflect

  /** Why Encode, EncodeTo or Decode stopped. */
  datatype Failure =
    | DataTooShort(field: string)       // a decodeError; the field is "" for the whole struct
    | BufferTooSmall(index: nat)        // "buffer too small for array field" or "for variable field"
    | UnsupportedElement(element: nat)  // encodeElement or decodeElement on an unsupported kind
    | ElementNotStruct(element: nat)    // CompileCodec of a non-struct array element
    | NestedStruct                      // an array of structs, which the model does not follow
    | Panic                             // a Go runtime panic

  /** The values Go's type system lets a struct with fields of these kinds hold. */
  predicate Typed(kinds: seq<Kind>, vals: seq<Value>)
  {
    |vals| == |kinds| && forall j :: 0 <= j < |kinds| ==> Fits(kinds[j], vals[j])
  }

  /** v.Uint() on a field of kind k: its number when k is unsigned; Go panics otherwise. */
  function UintOf(k: Kind, v: Value): Option<nat>
  {
    if IsUnsigned(k) && v.UintVal? then Some(v.u) else None
  }

  /** The bytes of a byte array, byte slice or string value. */
  function Payload(v: Value): seq<byte>
  {
    match v
    case BytesVal(b) => b
    case StrVal(s) => s
    case _ => []
  }

  /** The elements of a slice value; those of a byte slice are its bytes. */
  function Elements(v: Value): (items: seq<Value>)
    ensures v.BytesVal? ==> |items| == |v.bytes|
  {
    match v
    case ListVal(items) => items
    case BytesVal(b) => seq(|b|, i requires 0 <= i < |b| => UintVal(b[i] as nat))
    case _ => []
  }

  /** fieldVal.Len() of a slice and len(fieldVal.String()) of a string; 0 for the rest. */
  function VarLen(k: Kind, v: Value): nat
  {
    if k.Slice? then |Elements(v)| else if k.Str? then |Payload(v)| else 0
  }

  function NatOf(v: Value): nat
  {
    match v
    case UintVal(u) => u
    case FloatVal(bits) => bits
    case _ => 0
  }

  function IntOf(v: Value): int
  {
    if v.IntVal? then v.i else 0
  }

  function Max(a: int, b: int): int
  {
    if a < b then b else a
  }

  /** copy(dst, src) and reflect.Copy: as many bytes of src as dst holds, the rest of dst
      kept. */
  function Copy(dst: seq<byte>, src: seq<byte>): (r: seq<byte>)
    ensures |r| == |dst|
  {
    var m := if |src| < |dst| then |src| else |dst|;
    src[..m] + dst[m..]
  }

  /** encodeStringWithEncoding("hex") on the window w, with the guard of BinCodec.EncodeHex:
      the digits of as many bytes of s as fit, the rest of w kept. */
  function HexWindow(w: seq<byte>, s: seq<byte>): (r: seq<byte>)
    ensures |r| == |w|
  {
    var k := HexPairs(|w|, |s|);
    HexEncode(s[..k]) + w[2 * k..]
  }

  /** buf with the bytes from at replaced by w. */
  function Splice(buf: seq<byte>, at: nat, w: seq<byte>): (r: seq<byte>)
    requires at + |w| <= |buf|
    ensures |r| == |buf|
  {
    buf[..at] + w + buf[at + |w|..]
  }

  // ---------------------------------------------------------------------------
  // The field encoders and decoders

  predicate IsScalar(k: Kind)
  {
    IsSizedUnsigned(k) || IsSigned(k) || IsFloat(k) || k == Bool
  }

  /** The bytes a scalar encoder writes: PutUintN of the number (of its two's complement
      for a signed kind, of its bit pattern for a float), and 1 or 0 for a bool. */
  function ScalarBytes(k: Kind, order: ByteOrder, v: Value): (bs: seq<byte>)
    ensures |bs| == Width(k)
  {
    if IsSigned(k) then PutSigned(order, Width(k), IntOf(v))
    else if k == Bool then [if v.BoolVal? && v.b then 1 else 0]
    else PutUnsigned(order, Width(k), NatOf(v))
  }

  /** The value a scalar decoder reads from exactly Width(k) bytes: UintN for unsigned
      kinds and float bit patterns, UintN sign-extended for signed kinds, and data[0] != 0
      for a bool. */
  function ScalarValue(k: Kind, order: ByteOrder, bs: seq<byte>): Value
    requires IsScalar(k) && |bs| == Width(k)
  {
    if IsSizedUnsigned(k) then UintVal(Unsigned(order, bs))
    else if IsSigned(k) then IntVal(Signed(order, bs))
    else if IsFloat(k) then FloatVal(Unsigned(order, bs))
    else BoolVal(bs[0] != 0)
  }

  /** The encoder buildFieldCodec picks for a fixed-size codec, on its window w: a bit field
      sets its bits in w[0], a byte array or string is copied in (a hex string as digits),
      and a scalar is written at the front. */
  function FixedWrite(fc: FieldCodec, v: Value, w: seq<byte>): (r: Result<seq<byte>, Failure>)
    requires fc.isBitField ==> 0 <= fc.bitStart <= fc.bitEnd <= 7
    ensures r.Ok? ==> |r.value| == |w|
  {
    if fc.isBitField then
      match UintOf(fc.kind, v)
      case None => Err(Panic)
      case Some(u) =>
        if |w| == 0 then Err(Panic)
        else Ok([EncodeBitField(w[0], u, fc.bitStart, fc.bitEnd)] + w[1..])
    else if fc.kind.Array? then Ok(Copy(w, Payload(v)))
    else if fc.kind.Str? then
      if fc.encoding == "hex" then Ok(HexWindow(w, Payload(v))) else Ok(Copy(w, Payload(v)))
    else if IsScalar(fc.kind) then
      if |w| < Width(fc.kind) then Err(Panic)
      else Ok(ScalarBytes(fc.kind, fc.order, v) + w[Width(fc.kind)..])
    else Err(Panic)
  }

  /** The decoder for a fixed-size codec, on its window w, into a field holding prev: a bit
      field reads its bits of w[0], a byte array takes as many bytes as it has room for
      (keeping the rest of prev), a string takes the whole window (a hex string its digit
      pairs), and a scalar is read from the front. */
  function FixedRead(fc: FieldCodec, w: seq<byte>, prev: Value): Result<Value, Failure>
    requires fc.isBitField ==> 0 <= fc.bitStart <= fc.bitEnd <= 7
  {
    if fc.isBitField then
      if !IsUnsigned(fc.kind) || |w| == 0 then Err(Panic)
      else Ok(UintVal(DecodeBitField(w[0], fc.bitStart, fc.bitEnd)))
    else if fc.kind.Array? then Ok(BytesVal(Copy(Payload(prev), w)))
    else if fc.kind.Str? then
      if fc.encoding == "hex" then Ok(StrVal(NibblePairs(w[..2 * (|w| / 2)]))) else Ok(StrVal(w))
    else if IsScalar(fc.kind) then
      if |w| < Width(fc.kind) then Err(Panic)
      else Ok(ScalarValue(fc.kind, fc.order, w[..Width(fc.kind)]))
    else Err(Panic)
  }

  /** A bit field of any kind v.Uint() accepts (uint and uintptr as well as uint8 to
      uint64) is written into the first byte of its window and reads back unchanged when the
      value fits its bits; on any other kind both sides panic. */
  lemma BitFieldWindowRoundTrip(fc: FieldCodec, v: Value, w: seq<byte>, prev: Value)
    requires fc.isBitField && 0 <= fc.bitStart <= fc.bitEnd <= 7
    requires v.UintVal? && v.u < Pow2(fc.bitEnd - fc.bitStart + 1) && |w| > 0
    ensures FixedWrite(fc, v, w).Ok? <==> IsUnsigned(fc.kind)
    ensures FixedRead(fc, w, prev).Ok? <==> IsUnsigned(fc.kind)
    ensures IsUnsigned(fc.kind) ==>
              FixedWrite(fc, v, w).value[1..] == w[1..] && FixedRead(fc, FixedWrite(fc, v, w).value, prev) == Ok(v)
  {
    if IsUnsigned(fc.kind) {
      BitFieldRoundTrip(w[0], v.u, fc.bitStart, fc.bitEnd);
    }
  }

  /** encodeElement on an element window w: a numeric element at the front; an unsupported
      kind is an error, a struct element is not followed. */
  function ElementWrite(e: Kind, order: ByteOrder, v: Value, w: seq<byte>, i: nat): (r: Result<seq<byte>, Failure>)
    ensures r.Ok? ==> |r.value| == |w|
  {
    if IsSizedUnsigned(e) || IsSigned(e) || IsFloat(e) then
      if |w| < Width(e) then Err(Panic) else Ok(ScalarBytes(e, order, v) + w[Width(e)..])
    else if e.Struct? then Err(NestedStruct)
    else Err(UnsupportedElement(i))
  }

  /** decodeElement on an element window w. */
  function ElementRead(e: Kind, order: ByteOrder, w: seq<byte>, i: nat): Result<Value, Failure>
  {
    if IsSizedUnsigned(e) || IsSigned(e) || IsFloat(e) then
      if |w| < Width(e) then Err(Panic) else Ok(ScalarValue(e, order, w[..Width(e)]))
    else if e.Struct? then Err(NestedStruct)
    else Err(UnsupportedElement(i))
  }

  /** The byte an element decoded for a []byte holds. */
  function ByteOf(v: Value): byte
  {
    if v.UintVal? && v.u < 256 then v.u as byte else 0
  }

  /** reflect.MakeSlice filled with the decoded elements. */
  function SliceOf(e: Kind, items: seq<Value>): Value
  {
    if e == Uint8 then BytesVal(seq(|items|, i requires 0 <= i < |items| => ByteOf(items[i])))
    else ListVal(items)
  }

  lemma MulLe(n: nat, m: nat, d: nat)
    requires 1 <= n <= m
    ensures (n - 1) * d + d == n * d <= m * d
  {
    assert (m - n) * d >= 0;
  }

  // ---------------------------------------------------------------------------
  // encodeToBuffer

  /** Where encodeToBuffer's loop stands: the buffer, the largest end written, and the
      failure that stopped it, if any. */
  datatype Written = Written(buf: seq<byte>, maxSize: int, err: Option<Failure>)

  /** The fixed-size branch: the encoder on buf[offset:offset+size]. */
  function WriteFixed(buf: seq<byte>, fc: FieldCodec, v: Value): (r: Result<seq<byte>, Failure>)
    requires fc.isBitField ==> 0 <= fc.bitStart <= fc.bitEnd <= 7
    ensures r.Ok? ==> |r.value| == |buf|
  {
    if fc.offset < 0 || fc.size < 0 || fc.offset + fc.size > |buf| then Err(Panic)
    else
      match FixedWrite(fc, v, buf[fc.offset..fc.offset + fc.size])
      case Err(e) => Err(e)
      case Ok(w) => Ok(Splice(buf, fc.offset, w))
  }

  /** The variable-length branch: the value's length is checked against the buffer, then
      a byte slice or string is copied in (a hex string as digits). */
  function WriteVariable(buf: seq<byte>, fc: FieldCodec, v: Value): (r: Result<seq<byte>, Failure>)
    ensures r.Ok? ==> |r.value| == |buf|
  {
    var n := VarLen(fc.kind, v);
    if fc.offset + n > |buf| then Err(BufferTooSmall(fc.index))
    else if fc.offset < 0 then Err(Panic)
    else
      match VariableWrite(fc, v, buf[fc.offset..fc.offset + n])
      case Err(e) => Err(e)
      case Ok(w) => Ok(Splice(buf, fc.offset, w))
  }

  /** The encoder of a variable-length field on its window w: a byte slice or string is
      copied in, a hex string written as digits. */
  function VariableWrite(fc: FieldCodec, v: Value, w: seq<byte>): (r: Result<seq<byte>, Failure>)
    ensures r.Ok? ==> |r.value| == |w|
  {
    if fc.kind.Slice? then Ok(Copy(w, Payload(v)))
    else if fc.kind.Str? && fc.encoding == "hex" then Ok(HexWindow(w, Payload(v)))
    else if fc.kind.Str? then Ok(Copy(w, Payload(v)))
    else Err(Panic)
  }

  /** The elements of a repeated field, one window of elementSize bytes each from its
      offset: the first n written, or the buffer as far as it got and the failure. */
  function WriteElements(buf: seq<byte>, fc: FieldCodec, items: seq<Value>, n: nat): (r: (seq<byte>, Option<Failure>))
    requires fc.kind.Slice? && fc.elementSize > 0 && n <= |items| && fc.offset + |items| * fc.elementSize <= |buf|
    ensures |r.0| == |buf|
    decreases n
  {
    if n == 0 then (buf, None)
    else
      var (b, err) := WriteElements(buf, fc, items, n - 1);
      if err.Some? then (b, err)
      else
        var at := fc.offset + (n - 1) * fc.elementSize;
        if at < 0 then (b, Some(Panic))
        else
          MulLe(n, |items|, fc.elementSize);
          match ElementWrite(fc.kind.elem, fc.order, items[n - 1], b[at..at + fc.elementSize], n - 1)
          case Err(e) => (b, Some(e))
          case Ok(w) => (Splice(b, at, w), None)
  }

  /** The repeated branch: with an element size, the whole array is checked against the
      buffer and then written element by element; without one, every element must be a
      struct. */
  function WriteRepeat(buf: seq<byte>, fc: FieldCodec, items: seq<Value>): (r: (seq<byte>, Option<Failure>))
    requires fc.kind.Slice?
    ensures |r.0| == |buf|
  {
    if fc.elementSize > 0 then
      if fc.offset + |items| * fc.elementSize > |buf| then (buf, Some(BufferTooSmall(fc.index)))
      else WriteElements(buf, fc, items, |items|)
    else if items == [] then (buf, None)
    else if fc.kind.elem.Struct? then (buf, Some(NestedStruct))
    else (buf, Some(ElementNotStruct(0)))
  }

  /** The end of a repeated field of count elements. */
  function RepeatEnd(fc: FieldCodec, count: nat): int
  {
    if fc.elementSize > 0 then fc.offset + count * fc.elementSize else fc.offset
  }

  /** One pass of encodeToBuffer's loop, on codec fc: a conditional field whose cond field
      differs from its value is skipped, and Go panics when the cond field is not
      unsigned; otherwise the field is written. */
  function EncodeStep(buf: seq<byte>, maxSize: int, fc: FieldCodec, kinds: seq<Kind>, vals: seq<Value>): (r: Written)
    requires |vals| == |kinds| && FieldOk(fc, kinds)
    ensures |r.buf| == |buf|
  {
    var cond := UintOf(kinds[fc.condIndex], vals[fc.condIndex]);
    if fc.conditional && cond.None? then Written(buf, maxSize, Some(Panic))
    else if fc.conditional && cond.value != fc.condValue then Written(buf, maxSize, None)
    else EncodeBody(buf, maxSize, fc, vals[fc.index])
  }

  /** The field written by the repeated, variable-length or fixed-size branch. */
  function EncodeBody(buf: seq<byte>, maxSize: int, fc: FieldCodec, v: Value): (r: Written)
    requires fc.isBitField ==> 0 <= fc.bitStart <= fc.bitEnd <= 7
    ensures |r.buf| == |buf|
  {
    if fc.isRepeat && fc.kind.Slice? then
      var items := Elements(v);
      var (b, err) := WriteRepeat(buf, fc, items);
      Written(b, if err.None? then Max(maxSize, RepeatEnd(fc, |items|)) else maxSize, err)
    else if fc.isVariable then
      match WriteVariable(buf, fc, v)
      case Err(e) => Written(buf, maxSize, Some(e))
      case Ok(b) => Written(b, Max(maxSize, fc.offset + VarLen(fc.kind, v)), None)
    else
      match WriteFixed(buf, fc, v)
      case Err(e) => Written(buf, maxSize, Some(e))
      case Ok(b) => Written(b, maxSize, None)
  }

  predicate AllOk(fcs: seq<FieldCodec>, kinds: seq<Kind>)
  {
    forall p :: 0 <= p < |fcs| ==> FieldOk(fcs[p], kinds)
  }

  /** encodeToBuffer's loop over the first n codecs, up to the first failure. */
  function EncodeFields(buf: seq<byte>, maxSize: int, fcs: seq<FieldCodec>, kinds: seq<Kind>, vals: seq<Value>, n: nat): (r: Written)
    requires n <= |fcs| && |vals| == |kinds| && AllOk(fcs, kinds)
    ensures |r.buf| == |buf|
  {
    if n == 0 then Written(buf, maxSize, None)
    else
      var w := EncodeFields(buf, maxSize, fcs, kinds, vals, n - 1);
      if w.err.Some? then w else EncodeStep(w.buf, w.maxSize, fcs[n - 1], kinds, vals)
  }

  /** encodeToBuffer on buf: the running maximum starts at the fixed size. */
  function EncodeAll(c: Codec, kinds: seq<Kind>, vals: seq<Value>, buf: seq<byte>): (r: Written)
    requires |vals| == |kinds| && WellFormed(c, kinds)
    ensures |r.buf| == |buf|
  {
    EncodeFields(buf, c.size, c.fields, kinds, vals, |c.fields|)
  }

  // ---------------------------------------------------------------------------
  // Encode

  /** The end Encode's first loop reserves for a codec, if any: the end of a repeated or of
      a variable-length field. An array of structs is not followed. */
  function Reserve(fc: FieldCodec, v: Value): Result<Option<int>, Failure>
  {
    if fc.isRepeat && fc.kind.Slice? then
      var count := |Elements(v)|;
      if fc.elementSize <= 0 && count > 0 && fc.kind.elem.Struct? then Err(NestedStruct)
      else Ok(Some(RepeatEnd(fc, count)))
    else if fc.isVariable then Ok(Some(fc.offset + VarLen(fc.kind, v)))
    else Ok(None)
  }

  predicate Indexed(fcs: seq<FieldCodec>, vals: seq<Value>)
  {
    forall p :: 0 <= p < |fcs| ==> fcs[p].index < |vals|
  }

  /** Encode's first loop over the first n codecs, from total. */
  function Reserved(fcs: seq<FieldCodec>, vals: seq<Value>, n: nat, total: nat): Result<nat, Failure>
    requires n <= |fcs| && Indexed(fcs, vals)
  {
    if n == 0 then Ok(total)
    else
      match Reserved(fcs, vals, n - 1, total)
      case Err(e) => Err(e)
      case Ok(t) =>
        match Reserve(fcs[n - 1], vals[fcs[n - 1].index])
        case Err(e) => Err(e)
        case Ok(None) => Ok(t)
        case Ok(Some(end)) => Ok(if end > t then end as nat else t)
  }

  /** The size of the buffer Encode allocates: the fixed size, widened by the first loop
      when hasVarLen is on. */
  function TotalSize(c: Codec, vals: seq<Value>): Result<nat, Failure>
    requires Indexed(c.fields, vals)
  {
    if c.hasVarLen then Reserved(c.fields, vals, |c.fields|, c.size) else Ok(c.size)
  }

  /** Encode: a zeroed buffer of TotalSize bytes, filled by encodeToBuffer. */
  function EncodeValue(c: Codec, kinds: seq<Kind>, vals: seq<Value>): Result<seq<byte>, Failure>
    requires |vals| == |kinds| && WellFormed(c, kinds)
  {
    assert Indexed(c.fields, vals) by {
      assert forall p :: 0 <= p < |c.fields| ==> FieldOk(c.fields[p], kinds);
    }
    match TotalSize(c, vals)
    case Err(e) => Err(e)
    case Ok(t) =>
      var w := EncodeAll(c, kinds, vals, Zeros(t));
      if w.err.Some? then Err(w.err.value) else Ok(w.buf)
  }

  // ---------------------------------------------------------------------------
  // Decode

  /** int(u) of a uint64 u on a 64-bit platform: the two's complement reading. */
  function GoInt(u: nat): int
  {
    var w := u % 0x1_0000_0000_0000_0000;
    if w >= 0x8000_0000_0000_0000 then w - 0x1_0000_0000_0000_0000 else w
  }

  /** Go's n / 2, which rounds toward zero. */
  function GoHalf(n: int): int
  {
    if n >= 0 then n / 2 else -((-n) / 2)
  }

  /** The fixed-size branch: the decoder on data[offset:offset+size]. */
  function ReadFixed(data: seq<byte>, fc: FieldCodec, prev: Value): Result<Value, Failure>
    requires fc.isBitField ==> 0 <= fc.bitStart <= fc.bitEnd <= 7
  {
    if fc.offset < 0 || fc.size < 0 || fc.offset + fc.size > |data| then Err(Panic)
    else FixedRead(fc, data[fc.offset..fc.offset + fc.size], prev)
  }

  /** The variable-length branch, with n the len field's value as an int: the extent is
      checked against the data, then a byte slice or string takes n bytes (a hex string n/2
      digit pairs). */
  function ReadVariable(data: seq<byte>, fc: FieldCodec, n: int, prev: Value): Result<Value, Failure>
  {
    if fc.offset + n > |data| then Err(DataTooShort(fc.name))
    else if fc.kind.Slice? then
      if n < 0 || fc.offset < 0 then Err(Panic) else Ok(BytesVal(data[fc.offset..fc.offset + n]))
    else if fc.kind.Str? && fc.encoding == "hex" then
      var half := GoHalf(n);
      if half < 0 then Err(Panic)
      else if half == 0 then Ok(StrVal([]))
      else if fc.offset < 0 then Err(Panic)
      else Ok(StrVal(NibblePairs(data[fc.offset..fc.offset + 2 * half])))
    else if fc.kind.Str? then
      if n < 0 || fc.offset < 0 then Err(Panic) else Ok(StrVal(data[fc.offset..fc.offset + n]))
    else Ok(prev)
  }

  /** The first n elements of a repeated field of count elements. */
  function ReadElements(data: seq<byte>, fc: FieldCodec, count: nat, n: nat): (r: Result<seq<Value>, Failure>)
    requires fc.kind.Slice? && fc.elementSize > 0 && n <= count && fc.offset + count * fc.elementSize <= |data|
    ensures r.Ok? ==> |r.value| == n
    decreases n
  {
    if n == 0 then Ok([])
    else
      match ReadElements(data, fc, count, n - 1)
      case Err(e) => Err(e)
      case Ok(items) =>
        var at := fc.offset + (n - 1) * fc.elementSize;
        if at < 0 then Err(Panic)
        else
          MulLe(n, count, fc.elementSize);
          match ElementRead(fc.kind.elem, fc.order, data[at..at + fc.elementSize], n - 1)
          case Err(e) => Err(e)
          case Ok(x) => Ok(items + [x])
  }

  /** The repeated branch, with count elements: with an element size, the extent is
      checked and every element decoded; without one, every element must be a struct. */
  function ReadRepeat(data: seq<byte>, fc: FieldCodec, count: nat): Result<Value, Failure>
    requires fc.kind.Slice?
  {
    if fc.elementSize > 0 then
      if fc.offset + count * fc.elementSize > |data| then Err(DataTooShort(fc.name))
      else
        match ReadElements(data, fc, count, count)
        case Err(e) => Err(e)
        case Ok(items) => Ok(SliceOf(fc.kind.elem, items))
    else if count == 0 then Ok(SliceOf(fc.kind.elem, []))
    else if fc.kind.elem.Struct? then Err(NestedStruct)
    else Err(ElementNotStruct(0))
  }

  /** One pass of Decode's loop, on codec fc, over the struct as decoded so far: a
      conditional field is skipped as in encodeToBuffer; otherwise the field is read. */
  function ReadStep(data: seq<byte>, fc: FieldCodec, kinds: seq<Kind>, vals: seq<Value>): (r: Result<seq<Value>, Failure>)
    requires |vals| == |kinds| && FieldOk(fc, kinds)
    ensures r.Ok? ==> |r.value| == |vals|
  {
    var cond := UintOf(kinds[fc.condIndex], vals[fc.condIndex]);
    if fc.conditional && cond.None? then Err(Panic)
    else if fc.conditional && cond.value != fc.condValue then Ok(vals)
    else ReadBody(data, fc, kinds, vals)
  }

  /** The field read by the repeated, variable-length or fixed-size branch, with the len
      field read from the struct, and set in one go. */
  function ReadBody(data: seq<byte>, fc: FieldCodec, kinds: seq<Kind>, vals: seq<Value>): (r: Result<seq<Value>, Failure>)
    requires |vals| == |kinds| && FieldOk(fc, kinds)
    ensures r.Ok? ==> |r.value| == |vals|
  {
    var len := UintOf(kinds[fc.lenIndex], vals[fc.lenIndex]);
    if fc.isRepeat && fc.kind.Slice? then
      if len.None? || GoInt(len.value) < 0 then Err(Panic)
      else
        match ReadRepeat(data, fc, GoInt(len.value) as nat)
        case Err(e) => Err(e)
        case Ok(x) => Ok(vals[fc.index := x])
    else if fc.isVariable then
      if len.None? then Err(Panic)
      else
        match ReadVariable(data, fc, GoInt(len.value), vals[fc.index])
        case Err(e) => Err(e)
        case Ok(x) => Ok(vals[fc.index := x])
    else
      match ReadFixed(data, fc, vals[fc.index])
      case Err(e) => Err(e)
      case Ok(x) => Ok(vals[fc.index := x])
  }

  /** Decode's loop over the first n codecs: the struct as far as it got, and the failure
      that stopped it. */
  function ReadFields(data: seq<byte>, fcs: seq<FieldCodec>, kinds: seq<Kind>, vals: seq<Value>, n: nat): (r: (seq<Value>, Option<Failure>))
    requires n <= |fcs| && |vals| == |kinds| && AllOk(fcs, kinds)
    ensures |r.0| == |vals|
  {
    if n == 0 then (vals, None)
    else
      var (st, err) := ReadFields(data, fcs, kinds, vals, n - 1);
      if err.Some? then (st, err)
      else
        match ReadStep(data, fcs[n - 1], kinds, st)
        case Err(e) => (st, Some(e))
        case Ok(st') => (st', None)
  }

  /** Decode into a struct holding vals: data shorter than the fixed size is refused
      before any field is touched. */
  function DecodeValue(c: Codec, kinds: seq<Kind>, data: seq<byte>, vals: seq<Value>): (r: (seq<Value>, Option<Failure>))
    requires |vals| == |kinds| && WellFormed(c, kinds)
    ensures |r.0| == |vals|
  {
    if |data| < c.size then (vals, Some(DataTooShort("")))
    else ReadFields(data, c.fields, kinds, vals, |c.fields|)
  }

  // ---------------------------------------------------------------------------
  // The methods

  /** The state a step leaves: its result, or the state before it and the failure. */
  function Applied<T>(r: Result<T, Failure>, prev: T): (T, Option<Failure>)
  {
    match r
    case Ok(x) => (x, None)
    case Err(e) => (prev, Some(e))
  }

  /** copy(buf[at:], bs) when bs fits. */
  method WriteBytes(buf: array<byte>, at: nat, bs: seq<byte>)
    requires at + |bs| <= buf.Length
    modifies buf
    ensures buf[..] == Splice(old(buf[..]), at, bs)
  {
    forall k | at <= k < at + |bs| {
      buf[k] := bs[k - at];
    }
  }

  /** What BinCodec.EncodeHex leaves in buf is the hex window spliced in. */
  lemma HexSplice(b: seq<byte>, after: seq<byte>, lo: nat, hi: nat, src: seq<byte>)
    requires lo <= hi <= |b|
    requires var k := HexPairs(hi - lo, |src|); after == b[..lo] + HexEncode(src[..k]) + b[lo + 2 * k..]
    ensures after == Splice(b, lo, HexWindow(b[lo..hi], src))
  {
    var k := HexPairs(hi - lo, |src|);
    assert b[lo..hi][2 * k..] + b[hi..] == b[lo + 2 * k..];
  }

  /** WriteFixed once the window is in range and the field is not a hex string: the
      encoder's image spliced in, or its failure. */
  lemma FixedWindow(b: seq<byte>, fc: FieldCodec, v: Value, r: Result<seq<byte>, Failure>)
    requires fc.isBitField ==> 0 <= fc.bitStart <= fc.bitEnd <= 7
    requires 0 <= fc.offset && 0 <= fc.size && fc.offset + fc.size <= |b|
    requires r == FixedWrite(fc, v, b[fc.offset..fc.offset + fc.size])
    ensures r.Ok? ==> fc.offset + |r.value| <= |b| && WriteFixed(b, fc, v) == Ok(Splice(b, fc.offset, r.value))
    ensures r.Err? ==> WriteFixed(b, fc, v) == Err(r.error)
  {
  }

  /** WriteFixed on a hex string field is what BinCodec.EncodeHex leaves in the buffer. */
  lemma FixedHex(b: seq<byte>, fc: FieldCodec, v: Value, after: seq<byte>)
    requires !fc.isBitField && fc.kind.Str? && fc.encoding == "hex"
    requires 0 <= fc.offset && 0 <= fc.size && fc.offset + fc.size <= |b|
    requires var k := HexPairs(fc.size, |Payload(v)|);
             after == b[..fc.offset] + HexEncode(Payload(v)[..k]) + b[fc.offset + 2 * k..]
    ensures WriteFixed(b, fc, v) == Ok(after)
  {
    HexSplice(b, after, fc.offset, fc.offset + fc.size, Payload(v));
    FixedHexWindow(b, fc, v);
  }

  lemma FixedHexWindow(b: seq<byte>, fc: FieldCodec, v: Value)
    requires !fc.isBitField && fc.kind.Str? && fc.encoding == "hex"
    requires 0 <= fc.offset && 0 <= fc.size && fc.offset + fc.size <= |b|
    ensures var w := b[fc.offset..fc.offset + fc.size];
            WriteFixed(b, fc, v) == Ok(Splice(b, fc.offset, HexWindow(w, Payload(v))))
  {
    var w := b[fc.offset..fc.offset + fc.size];
    assert FixedWrite(fc, v, w) == Ok(HexWindow(w, Payload(v)));
  }

  /** The fixed-size branch of encodeToBuffer on a hex string field. */
  method EncodeFixedHex(buf: array<byte>, fc: FieldCodec, v: Value) returns (err: Option<Failure>)
    requires !fc.isBitField && fc.kind.Str? && fc.encoding == "hex"
    requires 0 <= fc.offset && 0 <= fc.size && fc.offset + fc.size <= buf.Length
    modifies buf
    ensures (buf[..], err) == Applied(WriteFixed(old(buf[..]), fc, v), old(buf[..]))
  {
    ghost var b := buf[..];
    EncodeHex(buf, fc.offset, fc.offset + fc.size, Payload(v));
    FixedHex(b, fc, v, buf[..]);
    return None;
  }

  /** The fixed-size branch of encodeToBuffer. */
  method EncodeFixed(buf: array<byte>, fc: FieldCodec, v: Value) returns (err: Option<Failure>)
    requires fc.isBitField ==> 0 <= fc.bitStart <= fc.bitEnd <= 7
    modifies buf
    ensures (buf[..], err) == Applied(WriteFixed(old(buf[..]), fc, v), old(buf[..]))
  {
    if fc.offset < 0 || fc.size < 0 || fc.offset + fc.size > buf.Length {
      return Some(Panic);
    }
    if !fc.isBitField && fc.kind.Str? && fc.encoding == "hex" {
      err := EncodeFixedHex(buf, fc, v);
      return;
    }
    var w := buf[fc.offset..fc.offset + fc.size];
    var r := FixedWrite(fc, v, w);
    FixedWindow(buf[..], fc, v, r);
    if r.Err? {
      return Some(r.error);
    }
    WriteBytes(buf, fc.offset, r.value);
    return None;
  }

  /** WriteVariable once the window is in range and the field is not a hex string: the
      encoder's image spliced in, or its failure. */
  lemma VariableWindow(b: seq<byte>, fc: FieldCodec, v: Value, r: Result<seq<byte>, Failure>)
    requires 0 <= fc.offset && fc.offset + VarLen(fc.kind, v) <= |b|
    requires r == VariableWrite(fc, v, b[fc.offset..fc.offset + VarLen(fc.kind, v)])
    ensures r.Ok? ==> fc.offset + |r.value| <= |b| && WriteVariable(b, fc, v) == Ok(Splice(b, fc.offset, r.value))
    ensures r.Err? ==> WriteVariable(b, fc, v) == Err(r.error)
  {
  }

  /** WriteVariable on a hex string field is what BinCodec.EncodeHex leaves in the buffer. */
  lemma VariableHex(b: seq<byte>, fc: FieldCodec, v: Value, after: seq<byte>)
    requires fc.kind.Str? && fc.encoding == "hex"
    requires 0 <= fc.offset && fc.offset + VarLen(fc.kind, v) <= |b|
    requires var k := HexPairs(VarLen(fc.kind, v), |Payload(v)|);
             after == b[..fc.offset] + HexEncode(Payload(v)[..k]) + b[fc.offset + 2 * k..]
    ensures WriteVariable(b, fc, v) == Ok(after)
  {
    HexSplice(b, after, fc.offset, fc.offset + VarLen(fc.kind, v), Payload(v));
    VariableHexWindow(b, fc, v);
  }

  lemma VariableHexWindow(b: seq<byte>, fc: FieldCodec, v: Value)
    requires fc.kind.Str? && fc.encoding == "hex"
    requires 0 <= fc.offset && fc.offset + VarLen(fc.kind, v) <= |b|
    ensures var w := b[fc.offset..fc.offset + VarLen(fc.kind, v)];
            WriteVariable(b, fc, v) == Ok(Splice(b, fc.offset, HexWindow(w, Payload(v))))
  {
    var w := b[fc.offset..fc.offset + VarLen(fc.kind, v)];
    assert VariableWrite(fc, v, w) == Ok(HexWindow(w, Payload(v)));
  }

  /** The variable-length branch of encodeToBuffer on a hex string field. */
  method EncodeVariableHex(buf: array<byte>, fc: FieldCodec, v: Value) returns (err: Option<Failure>)
    requires fc.kind.Str? && fc.encoding == "hex"
    requires 0 <= fc.offset && fc.offset + VarLen(fc.kind, v) <= buf.Length
    modifies buf
    ensures (buf[..], err) == Applied(WriteVariable(old(buf[..]), fc, v), old(buf[..]))
  {
    ghost var b := buf[..];
    EncodeHex(buf, fc.offset, fc.offset + VarLen(fc.kind, v), Payload(v));
    VariableHex(b, fc, v, buf[..]);
    return None;
  }

  /** The variable-length branch of encodeToBuffer. */
  method EncodeVariable(buf: array<byte>, fc: FieldCodec, v: Value) returns (err: Option<Failure>)
    modifies buf
    ensures (buf[..], err) == Applied(WriteVariable(old(buf[..]), fc, v), old(buf[..]))
  {
    var n := VarLen(fc.kind, v);
    if fc.offset + n > buf.Length {
      return Some(BufferTooSmall(fc.index));
    }
    if fc.offset < 0 {
      return Some(Panic);
    }
    if fc.kind.Str? && fc.encoding == "hex" {
      err := EncodeVariableHex(buf, fc, v);
      return;
    }
    var w := buf[fc.offset..fc.offset + n];
    var r := VariableWrite(fc, v, w);
    VariableWindow(buf[..], fc, v, r);
    if r.Err? {
      return Some(r.error);
    }
    WriteBytes(buf, fc.offset, r.value);
    return None;
  }

  /** Once an element fails, the later ones are not written. */
  lemma {:induction false} ElementsStick(buf: seq<byte>, fc: FieldCodec, items: seq<Value>, i: nat, n: nat)
    requires fc.kind.Slice? && fc.elementSize > 0 && i <= n <= |items| && fc.offset + |items| * fc.elementSize <= |buf|
    requires WriteElements(buf, fc, items, i).1.Some?
    ensures WriteElements(buf, fc, items, n) == WriteElements(buf, fc, items, i)
    decreases n
  {
    if n > i {
      ElementsStick(buf, fc, items, i, n - 1);
    }
  }

  /** encodeElement on element i of a repeated field, after the first i were written into
      buf: the buffer and failure WriteElements gives for the first i + 1. */
  method EncodeElementAt(buf: array<byte>, fc: FieldCodec, items: seq<Value>, i: nat, ghost start: seq<byte>)
    returns (err: Option<Failure>)
    requires fc.kind.Slice? && fc.elementSize > 0 && i < |items| && fc.offset + |items| * fc.elementSize <= |start|
    requires (buf[..], None) == WriteElements(start, fc, items, i)
    modifies buf
    ensures (buf[..], err) == WriteElements(start, fc, items, i + 1)
  {
    var at := fc.offset + i * fc.elementSize;
    if at < 0 {
      return Some(Panic);
    }
    MulLe(i + 1, |items|, fc.elementSize);
    var r := ElementWrite(fc.kind.elem, fc.order, items[i], buf[at..at + fc.elementSize], i);
    if r.Err? {
      return Some(r.error);
    }
    WriteBytes(buf, at, r.value);
    return None;
  }

  /** The repeated branch of encodeToBuffer. */
  method EncodeRepeated(buf: array<byte>, fc: FieldCodec, items: seq<Value>) returns (err: Option<Failure>)
    requires fc.kind.Slice?
    modifies buf
    ensures (buf[..], err) == WriteRepeat(old(buf[..]), fc, items)
  {
    if fc.elementSize <= 0 {
      if items == [] {
        return None;
      }
      return if fc.kind.elem.Struct? then Some(NestedStruct) else Some(ElementNotStruct(0));
    }
    if fc.offset + |items| * fc.elementSize > buf.Length {
      return Some(BufferTooSmall(fc.index));
    }
    ghost var start := buf[..];
    var i := 0;
    while i < |items|
      invariant 0 <= i <= |items|
      invariant (buf[..], None) == WriteElements(start, fc, items, i)
    {
      err := EncodeElementAt(buf, fc, items, i, start);
      if err.Some? {
        ElementsStick(start, fc, items, i + 1, |items|);
        return;
      }
      i := i + 1;
    }
    return None;
  }

  /** One pass of encodeToBuffer's loop. */
  method EncodeField(buf: array<byte>, maxSize: int, fc: FieldCodec, kinds: seq<Kind>, vals: seq<Value>)
    returns (m: int, err: Option<Failure>)
    requires |vals| == |kinds| && FieldOk(fc, kinds)
    modifies buf
    ensures Written(buf[..], m, err) == EncodeStep(old(buf[..]), maxSize, fc, kinds, vals)
  {
    var cond := UintOf(kinds[fc.condIndex], vals[fc.condIndex]);
    if fc.conditional && cond.None? {
      return maxSize, Some(Panic);
    }
    if fc.conditional && cond.value != fc.condValue {
      return maxSize, None;
    }
    var v := vals[fc.index];
    if fc.isRepeat && fc.kind.Slice? {
      var items := Elements(v);
      err := EncodeRepeated(buf, fc, items);
      m := if err.None? then Max(maxSize, RepeatEnd(fc, |items|)) else maxSize;
    } else if fc.isVariable {
      err := EncodeVariable(buf, fc, v);
      m := if err.None? then Max(maxSize, fc.offset + VarLen(fc.kind, v)) else maxSize;
    } else {
      err := EncodeFixed(buf, fc, v);
      m := maxSize;
    }
  }

  lemma EncodeNext(buf: seq<byte>, m: int, fcs: seq<FieldCodec>, kinds: seq<Kind>, vals: seq<Value>, i: nat)
    requires i < |fcs| && |vals| == |kinds| && AllOk(fcs, kinds)
    requires EncodeFields(buf, m, fcs, kinds, vals, i).err.None?
    ensures var w := EncodeFields(buf, m, fcs, kinds, vals, i);
            EncodeFields(buf, m, fcs, kinds, vals, i + 1) == EncodeStep(w.buf, w.maxSize, fcs[i], kinds, vals)
  {
  }

  /** Once a field fails, encodeToBuffer returns. */
  lemma {:induction false} EncodeSticks(buf: seq<byte>, m: int, fcs: seq<FieldCodec>, kinds: seq<Kind>, vals: seq<Value>, i: nat, n: nat)
    requires i <= n <= |fcs| && |vals| == |kinds| && AllOk(fcs, kinds)
    requires EncodeFields(buf, m, fcs, kinds, vals, i).err.Some?
    ensures EncodeFields(buf, m, fcs, kinds, vals, n) == EncodeFields(buf, m, fcs, kinds, vals, i)
    decreases n
  {
    if n > i {
      var j := n - 1;
      EncodeSticks(buf, m, fcs, kinds, vals, i, j);
      assert EncodeFields(buf, m, fcs, kinds, vals, j).err.Some?;
      assert j + 1 == n;
    }
  }

  /** Pass i of encodeToBuffer's loop, after the first i passes succeeded on start. */
  method EncodeFieldAt(buf: array<byte>, maxSize: int, c: Codec, kinds: seq<Kind>, vals: seq<Value>, i: nat, ghost start: seq<byte>)
    returns (m: int, err: Option<Failure>)
    requires |vals| == |kinds| && WellFormed(c, kinds) && i < |c.fields|
    requires Written(buf[..], maxSize, None) == EncodeFields(start, c.size, c.fields, kinds, vals, i)
    modifies buf
    ensures Written(buf[..], m, err) == EncodeFields(start, c.size, c.fields, kinds, vals, i + 1)
  {
    EncodeNext(start, c.size, c.fields, kinds, vals, i);
    m, err := EncodeField(buf, maxSize, c.fields[i], kinds, vals);
  }

  /** EncodeTo (encodeToBuffer): the fields written into buf in codec order; the largest
      end written, or the first failure, with buf as far as it got. */
  method EncodeTo(c: Codec, kinds: seq<Kind>, vals: seq<Value>, buf: array<byte>) returns (r: Result<int, Failure>)
    requires |vals| == |kinds| && WellFormed(c, kinds)
    modifies buf
    ensures var w := EncodeAll(c, kinds, vals, old(buf[..]));
            buf[..] == w.buf && r == (if w.err.Some? then Err(w.err.value) else Ok(w.maxSize))
  {
    ghost var start := buf[..];
    var maxSize := c.size;
    var i := 0;
    while i < |c.fields|
      invariant 0 <= i <= |c.fields|
      invariant Written(buf[..], maxSize, None) == EncodeFields(start, c.size, c.fields, kinds, vals, i)
    {
      var err;
      maxSize, err := EncodeFieldAt(buf, maxSize, c, kinds, vals, i, start);
      if err.Some? {
        EncodeSticks(start, c.size, c.fields, kinds, vals, i + 1, |c.fields|);
        return Err(err.value);
      }
      i := i + 1;
    }
    return Ok(maxSize);
  }

  /** Once a reserve fails, the loop gives that failure. */
  lemma {:induction false} ReservedSticks(fcs: seq<FieldCodec>, vals: seq<Value>, i: nat, n: nat, total: nat)
    requires i <= n <= |fcs| && Indexed(fcs, vals) && Reserved(fcs, vals, i, total).Err?
    ensures Reserved(fcs, vals, n, total) == Reserved(fcs, vals, i, total)
    decreases n
  {
    if n > i {
      ReservedSticks(fcs, vals, i, n - 1, total);
    }
  }

  /** Encode's first loop: the size of the buffer to allocate. */
  method EncodedSize(c: Codec, vals: seq<Value>) returns (r: Result<nat, Failure>)
    requires Indexed(c.fields, vals)
    ensures r == TotalSize(c, vals)
  {
    var total: nat := c.size;
    if !c.hasVarLen {
      return Ok(total);
    }
    var i := 0;
    while i < |c.fields|
      invariant 0 <= i <= |c.fields|
      invariant Reserved(c.fields, vals, i, c.size) == Ok(total)
    {
      var fc := c.fields[i];
      var end := Reserve(fc, vals[fc.index]);
      if end.Err? {
        ReservedSticks(c.fields, vals, i + 1, |c.fields|, c.size);
        return Err(end.error);
      }
      if end.value.Some? && end.value.value > total {
        total := end.value.value;
      }
      i := i + 1;
    }
    return Ok(total);
  }

  /** Encode: the buffer of EncodedSize zero bytes, filled by EncodeTo. */
  method EncodeStruct(c: Codec, kinds: seq<Kind>, vals: seq<Value>) returns (r: Result<seq<byte>, Failure>)
    requires |vals| == |kinds| && WellFormed(c, kinds)
    ensures r == EncodeValue(c, kinds, vals)
  {
    assert forall p :: 0 <= p < |c.fields| ==> FieldOk(c.fields[p], kinds);
    var total := EncodedSize(c, vals);
    if total.Err? {
      return Err(total.error);
    }
    var buf := new byte[total.value](_ => 0);
    assert buf[..] == Zeros(total.value);
    var n := EncodeTo(c, kinds, vals, buf);
    if n.Err? {
      return Err(n.error);
    }
    return Ok(buf[..]);
  }

  /** The fixed-size branch of Decode. */
  method DecodeFixed(data: seq<byte>, fc: FieldCodec, prev: Value) returns (r: Result<Value, Failure>)
    requires fc.isBitField ==> 0 <= fc.bitStart <= fc.bitEnd <= 7
    ensures r == ReadFixed(data, fc, prev)
  {
    if fc.offset < 0 || fc.size < 0 || fc.offset + fc.size > |data| {
      return Err(Panic);
    }
    var w := data[fc.offset..fc.offset + fc.size];
    if !fc.isBitField && fc.kind.Str? && fc.encoding == "hex" {
      var s := DecodeHex(w, |w|);
      return Ok(StrVal(s));
    }
    return FixedRead(fc, w, prev);
  }

  /** The variable-length branch of Decode. */
  method DecodeVariable(data: seq<byte>, fc: FieldCodec, n: int, prev: Value) returns (r: Result<Value, Failure>)
    ensures r == ReadVariable(data, fc, n, prev)
  {
    if fc.offset + n > |data| {
      return Err(DataTooShort(fc.name));
    }
    if fc.kind.Str? && fc.encoding == "hex" {
      var half := GoHalf(n);
      if half < 0 {
        return Err(Panic);
      } else if half == 0 {
        return Ok(StrVal([]));
      } else if fc.offset < 0 {
        return Err(Panic);
      }
      var s := DecodeHex(data[fc.offset..fc.offset + n], n);
      assert data[fc.offset..fc.offset + n][..2 * (n / 2)] == data[fc.offset..fc.offset + 2 * half];
      return Ok(StrVal(s));
    }
    return ReadVariable(data, fc, n, prev);
  }

  /** Once an element fails, the later ones are not read. */
  lemma {:induction false} ReadElementsSticks(data: seq<byte>, fc: FieldCodec, count: nat, i: nat, n: nat)
    requires fc.kind.Slice? && fc.elementSize > 0 && i <= n <= count && fc.offset + count * fc.elementSize <= |data|
    requires ReadElements(data, fc, count, i).Err?
    ensures ReadElements(data, fc, count, n) == ReadElements(data, fc, count, i)
    decreases n
  {
    if n > i {
      ReadElementsSticks(data, fc, count, i, n - 1);
    }
  }

  /** decodeElement on element i of a repeated field, after the first i were read: the
      elements read so far extended by one, or the failure that stops the field. */
  method DecodeElementAt(data: seq<byte>, fc: FieldCodec, count: nat, i: nat, items: seq<Value>)
    returns (next: Result<seq<Value>, Failure>)
    requires fc.kind.Slice? && fc.elementSize > 0 && i < count && fc.offset + count * fc.elementSize <= |data|
    requires ReadElements(data, fc, count, i) == Ok(items)
    ensures next == ReadElements(data, fc, count, i + 1)
  {
    var at := fc.offset + i * fc.elementSize;
    if at < 0 {
      return Err(Panic);
    }
    MulLe(i + 1, count, fc.elementSize);
    var x := ElementRead(fc.kind.elem, fc.order, data[at..at + fc.elementSize], i);
    if x.Err? {
      return Err(x.error);
    }
    return Ok(items + [x.value]);
  }

  /** The repeated branch of Decode, with count elements. */
  method DecodeRepeated(data: seq<byte>, fc: FieldCodec, count: nat) returns (r: Result<Value, Failure>)
    requires fc.kind.Slice?
    ensures r == ReadRepeat(data, fc, count)
  {
    if fc.elementSize <= 0 {
      return ReadRepeat(data, fc, count);
    }
    if fc.offset + count * fc.elementSize > |data| {
      return Err(DataTooShort(fc.name));
    }
    var items: seq<Value> := [];
    var i := 0;
    while i < count
      invariant 0 <= i <= count
      invariant ReadElements(data, fc, count, i) == Ok(items)
    {
      var next := DecodeElementAt(data, fc, count, i, items);
      if next.Err? {
        ReadElementsSticks(data, fc, count, i + 1, count);
        return Err(next.error);
      }
      items := next.value;
      i := i + 1;
    }
    return Ok(SliceOf(fc.kind.elem, items));
  }

  /** One pass of Decode's loop: the field is set only when its branch succeeds. */
  method DecodeField(data: seq<byte>, fc: FieldCodec, kinds: seq<Kind>, vals: array<Value>) returns (err: Option<Failure>)
    requires vals.Length == |kinds| && FieldOk(fc, kinds)
    modifies vals
    ensures (vals[..], err) == Applied(ReadStep(data, fc, kinds, old(vals[..])), old(vals[..]))
  {
    var cond := UintOf(kinds[fc.condIndex], vals[fc.condIndex]);
    var len := UintOf(kinds[fc.lenIndex], vals[fc.lenIndex]);
    if fc.conditional && cond.None? {
      return Some(Panic);
    }
    if fc.conditional && cond.value != fc.condValue {
      return None;
    }
    var x: Result<Value, Failure>;
    if fc.isRepeat && fc.kind.Slice? {
      if len.None? || GoInt(len.value) < 0 {
        return Some(Panic);
      }
      x := DecodeRepeated(data, fc, GoInt(len.value) as nat);
    } else if fc.isVariable {
      if len.None? {
        return Some(Panic);
      }
      x := DecodeVariable(data, fc, GoInt(len.value), vals[fc.index]);
    } else {
      x := DecodeFixed(data, fc, vals[fc.index]);
    }
    if x.Err? {
      return Some(x.error);
    }
    vals[fc.index] := x.value;
    return None;
  }

  lemma ReadNext(data: seq<byte>, fcs: seq<FieldCodec>, kinds: seq<Kind>, vals: seq<Value>, i: nat)
    requires i < |fcs| && |vals| == |kinds| && AllOk(fcs, kinds)
    requires ReadFields(data, fcs, kinds, vals, i).1.None?
    ensures var st := ReadFields(data, fcs, kinds, vals, i).0;
            ReadFields(data, fcs, kinds, vals, i + 1) == Applied(ReadStep(data, fcs[i], kinds, st), st)
  {
  }

  /** Once a field fails, Decode returns. */
  lemma {:induction false} ReadSticks(data: seq<byte>, fcs: seq<FieldCodec>, kinds: seq<Kind>, vals: seq<Value>, i: nat, n: nat)
    requires i <= n <= |fcs| && |vals| == |kinds| && AllOk(fcs, kinds)
    requires ReadFields(data, fcs, kinds, vals, i).1.Some?
    ensures ReadFields(data, fcs, kinds, vals, n) == ReadFields(data, fcs, kinds, vals, i)
    decreases n
  {
    if n > i {
      ReadSticks(data, fcs, kinds, vals, i, n - 1);
    }
  }

  /** Decode into the struct vals: the fields decoded in codec order, up to the first
      failure. */
  method DecodeStruct(c: Codec, kinds: seq<Kind>, data: seq<byte>, vals: array<Value>) returns (err: Option<Failure>)
    requires vals.Length == |kinds| && WellFormed(c, kinds)
    modifies vals
    ensures (vals[..], err) == DecodeValue(c, kinds, data, old(vals[..]))
  {
    if |data| < c.size {
      return Some(DataTooShort(""));
    }
    var i := 0;
    while i < |c.fields|
      invariant 0 <= i <= |c.fields|
      invariant (vals[..], None) == ReadFields(data, c.fields, kinds, old(vals[..]), i)
    {
      ReadNext(data, c.fields, kinds, old(vals[..]), i);
      err := DecodeField(data, c.fields[i], kinds, vals);
      if err.Some? {
        ReadSticks(data, c.fields, kinds, old(vals[..]), i + 1, |c.fields|);
        return err;
      }
      i := i + 1;
    }
    return None;
  }
}
