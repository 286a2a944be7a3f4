/**
 * The field codecs of binpack (pkg/binpack/codec.go): bytes of integers in either byte
 * order, bit fields inside one byte, strings copied or hex-encoded, and buildFieldCodec,
 * which picks a codec for a struct field from its Go kind and its parsed bin tag.
 *
 * Go's reflect.Value is the datatype Value; the encoder and decoder closures are chosen by
 * the field's kind and flags, so FieldCodec records those instead of the closures.
 */
module BinCodec {
  import opened Wrappers
  import opened GoStrings
  import opened BinEncoding
  import opened BinTag

  // ---------------------------------------------------------------------------
  // hexCharToNibble and the hex string loops

  /** hexCharToNibble: the value of a hexadecimal digit of either case, and 0 for any other
      byte, where encoding/hex would stop instead. */
  function HexCharToNibble(c: byte): (n: byte)
    ensures n < 16
    ensures FromHexChar(c).Some? ==> n == FromHexChar(c).value
    ensures FromHexChar(c).None? ==> n == 0
  {
    if '0' as int <= c as int <= '9' as int then c - '0' as int as byte
    else if 'a' as int <= c as int <= 'f' as int then c - 'a' as int as byte + 10
    else if 'A' as int <= c as int <= 'F' as int then c - 'A' as int as byte + 10
    else 0
  }

  /** The bytes the string decoder rebuilds from b: one per pair, the first nibble high. */
  function NibblePairs(b: seq<byte>): (r: seq<byte>)
    ensures |r| == |b| / 2
  {
    if |b| < 2 then []
    else [HexCharToNibble(b[0]) * 16 + HexCharToNibble(b[1])] + NibblePairs(b[2..])
  }

  /** NibblePairs reads back what hex.Encode wrote. */
  lemma {:induction false} NibblePairsOfHex(s: seq<byte>)
    ensures NibblePairs(HexEncode(s)) == s
  {
    if s != [] {
      var e := HexEncode(s);
      FromHexDigit(s[0] / 16);
      FromHexDigit(s[0] % 16);
      assert e[2..] == HexEncode(s[1..]);
      NibblePairsOfHex(s[1..]);
    }
  }

  lemma NibblePairsAppend(a: seq<byte>, b: seq<byte>)
    requires |a| % 2 == 0
    ensures NibblePairs(a + b) == NibblePairs(a) + NibblePairs(b)
    decreases |a|
  {
    if a != [] {
      assert (a + b)[0] == a[0] && (a + b)[1] == a[1];
      assert (a + b)[2..] == a[2..] + b;
      NibblePairsAppend(a[2..], b);
      var x := HexCharToNibble(a[0]) * 16 + HexCharToNibble(a[1]);
      assert NibblePairs(a + b) == [x] + NibblePairs(a[2..] + b);
      assert NibblePairs(a) == [x] + NibblePairs(a[2..]);
    } else {
      assert a + b == b;
    }
  }

  function Zeros(n: nat): (z: seq<byte>)
    ensures |z| == n && forall k :: 0 <= k < n ==> z[k] == 0
  {
    seq(n, _ => 0)
  }

  lemma {:induction false} NibblePairsOfZeros(n: nat)
    ensures NibblePairs(Zeros(n)) == Zeros(n / 2)
  {
    if n >= 2 {
      assert Zeros(n)[2..] == Zeros(n - 2);
      NibblePairsOfZeros(n - 2);
      assert Zeros(n / 2) == [0] + Zeros((n - 2) / 2);
    }
  }

  /** How many source bytes fit as digit pairs in a window of length len. */
  function HexPairs(len: nat, count: nat): (k: nat)
    ensures k <= count && 2 * k <= len
  {
    if count < len / 2 then count else len / 2
  }

  /** The loop `for i := 0; i < len(src) && i*2 < len(buf); i++` writes buf[i*2+1] in its
      last pass when buf has odd length and src has at least (len+1)/2 bytes, one past the
      end of buf: Go panics with an index out of range. */
  predicate HexWritePanics(len: nat, count: nat)
  {
    len % 2 == 1 && (len - 1) / 2 < count
  }

  /** encodeStringWithEncoding("hex") as written, on the window buf[lo..hi]: it panics
      exactly when HexWritePanics says, and otherwise writes the digits of the first
      HexPairs bytes of src and leaves the rest of buf alone. */
  method EncodeHexAsWritten(buf: array<byte>, lo: nat, hi: nat, src: seq<byte>) returns (panicked: bool)
    requires lo <= hi <= buf.Length
    modifies buf
    ensures panicked <==> HexWritePanics(hi - lo, |src|)
    ensures !panicked ==>
              var k := HexPairs(hi - lo, |src|);
              buf[..] == old(buf[..lo]) + HexEncode(src[..k]) + old(buf[lo + 2 * k..])
  {
    var i := 0;
    while i < |src| && i * 2 < hi - lo
      invariant 0 <= i <= |src| && 2 * i <= hi - lo
      invariant buf[..] == old(buf[..lo]) + HexEncode(src[..i]) + old(buf[lo + 2 * i..])
    {
      if lo + i * 2 + 1 >= hi {
        buf[lo + i * 2] := HexDigit(src[i] / 16);
        return true;
      }
      WritePair(buf, lo, i, src, old(buf[..]));
      i := i + 1;
    }
    assert i == HexPairs(hi - lo, |src|);
    return false;
  }

  /** One pass of the hex string loops: the two digits of src[i] at lo+2i and lo+2i+1. */
  method WritePair(buf: array<byte>, lo: nat, i: nat, src: seq<byte>, ghost pre: seq<byte>)
    requires i < |src| && lo + 2 * i + 1 < buf.Length == |pre|
    requires buf[..] == pre[..lo] + HexEncode(src[..i]) + pre[lo + 2 * i..]
    modifies buf
    ensures buf[..] == pre[..lo] + HexEncode(src[..i + 1]) + pre[lo + 2 * i + 2..]
  {
    var d1, d2 := HexDigit(src[i] / 16), HexDigit(src[i] % 16);
    buf[lo + i * 2] := d1;
    buf[lo + i * 2 + 1] := d2;
    assert buf[..] == old(buf[..])[lo + 2 * i := d1][lo + 2 * i + 1 := d2];
    PairUpdate(pre, lo, HexEncode(src[..i]), d1, d2);
    HexEncodeSnoc(src, i);
  }

  lemma PairUpdate(pre: seq<byte>, lo: nat, e: seq<byte>, d1: byte, d2: byte)
    requires lo + |e| + 2 <= |pre|
    ensures (pre[..lo] + e + pre[lo + |e|..])[lo + |e| := d1][lo + |e| + 1 := d2]
            == pre[..lo] + (e + [d1, d2]) + pre[lo + |e| + 2..]
  {
  }

  lemma HexEncodeSnoc(src: seq<byte>, i: nat)
    requires i < |src|
    ensures HexEncode(src[..i + 1]) == HexEncode(src[..i]) + [HexDigit(src[i] / 16), HexDigit(src[i] % 16)]
  {
    HexEncodeAppend(src[..i], [src[i]]);
    assert src[..i] + [src[i]] == src[..i + 1];
  }

  lemma {:induction false} HexEncodeAppend(a: seq<byte>, b: seq<byte>)
    ensures HexEncode(a + b) == HexEncode(a) + HexEncode(b)
  {
    if a != [] {
      assert (a + b)[0] == a[0];
      assert (a + b)[1..] == a[1..] + b;
      HexEncodeAppend(a[1..], b);
      var d := [HexDigit(a[0] / 16), HexDigit(a[0] % 16)];
      assert HexEncode(a + b) == d + HexEncode(a[1..] + b);
      assert HexEncode(a) == d + HexEncode(a[1..]);
    } else {
      assert a + b == b;
    }
  }

  /** An odd window with a source long enough to fill it panics: a 9-byte field holding
      "Test!" is one. */
  lemma HexOddWindowPanics()
    ensures HexWritePanics(9, 5)
    ensures forall len: nat, count: nat :: len % 2 == 1 && count > len / 2 ==> HexWritePanics(len, count)
  {
  }

  /** The hex string encoder with the guard i*2+1 < len(buf) that the decoder uses: the
      digits of as many bytes as fit, and nothing written past the window. */
  method EncodeHex(buf: array<byte>, lo: nat, hi: nat, src: seq<byte>)
    requires lo <= hi <= buf.Length
    modifies buf
    ensures var k := HexPairs(hi - lo, |src|);
            buf[..] == old(buf[..lo]) + HexEncode(src[..k]) + old(buf[lo + 2 * k..])
  {
    ghost var pre := buf[..];
    var i := 0;
    while i < |src| && i * 2 + 1 < hi - lo
      invariant 0 <= i <= |src| && 2 * i <= hi - lo
      invariant buf[..] == pre[..lo] + HexEncode(src[..i]) + pre[lo + 2 * i..]
    {
      WritePair(buf, lo, i, src, pre);
      i := i + 1;
    }
    HexPairsAtExit(hi - lo, |src|, i);
  }

  /** Where the corrected loop stops: HexPairs bytes written. */
  lemma HexPairsAtExit(len: nat, count: nat, i: nat)
    requires i <= count && 2 * i <= len && (i == count || 2 * i + 1 >= len)
    ensures HexPairs(len, count) == i
  {
  }

  /** On every window the as-written encoder survives, the corrected one writes the same. */
  lemma HexEncodersAgree(len: nat, count: nat)
    requires !HexWritePanics(len, count)
    ensures HexPairs(len, count) == if count < (len + 1) / 2 then count else len / 2
  {
  }

  /** decodeStringWithEncoding(size, "hex") on the window data[..size], and the same loop
      for variable-length hex strings: size/2 bytes, each from a pair of digits. */
  method DecodeHex(data: seq<byte>, size: nat) returns (s: seq<byte>)
    requires size <= |data|
    ensures s == NibblePairs(data[..2 * (size / 2)])
  {
    var dst := new byte[size / 2](_ => 0);
    var i := 0;
    while i < dst.Length && i * 2 + 1 < size
      invariant 0 <= i <= dst.Length
      invariant dst[..i] == NibblePairs(data[..2 * i])
    {
      dst[i] := HexCharToNibble(data[i * 2]) * 16 + HexCharToNibble(data[i * 2 + 1]);
      NibblePairsSnoc(data, i);
      i := i + 1;
    }
    assert i == size / 2;
    s := dst[..];
  }

  lemma NibblePairsSnoc(data: seq<byte>, i: nat)
    requires 2 * i + 2 <= |data|
    ensures NibblePairs(data[..2 * i + 2])
            == NibblePairs(data[..2 * i]) + [HexCharToNibble(data[2 * i]) * 16 + HexCharToNibble(data[2 * i + 1])]
  {
    NibblePairsAppend(data[..2 * i], data[2 * i..2 * i + 2]);
    assert data[..2 * i] + data[2 * i..2 * i + 2] == data[..2 * i + 2];
  }

  /** A hex string written into a zeroed field of length len reads back as its first
      HexPairs bytes followed by zero bytes up to len/2, as the fixed-length test expects
      of "Test!" in ten bytes. */
  lemma HexFieldRoundTrip(src: seq<byte>, len: nat)
    ensures var k := HexPairs(len, |src|);
            NibblePairs((HexEncode(src[..k]) + Zeros(len - 2 * k))[..2 * (len / 2)])
            == src[..k] + Zeros(len / 2 - k)
  {
    var k := HexPairs(len, |src|);
    var w := HexEncode(src[..k]) + Zeros(len - 2 * k);
    assert w[..2 * (len / 2)] == HexEncode(src[..k]) + Zeros(2 * (len / 2) - 2 * k);
    NibblePairsAppend(HexEncode(src[..k]), Zeros(2 * (len / 2) - 2 * k));
    NibblePairsOfHex(src[..k]);
    NibblePairsOfZeros(2 * (len / 2) - 2 * k);
  }

  // ---------------------------------------------------------------------------
  // Integers

  datatype ByteOrder = BigEndian | LittleEndian

  /** getByteOrder: little-endian for "le", big-endian for anything else. */
  function GetByteOrder(endian: string): (o: ByteOrder)
    ensures o == LittleEndian <==> endian == "le"
  {
    if endian == "le" then LittleEndian else BigEndian
  }

  function Pow256(n: nat): (p: nat)
    ensures p >= 1
  {
    if n == 0 then 1 else 256 * Pow256(n - 1)
  }

  /** The n low bytes of v, least significant first. */
  function LittleBytes(v: nat, n: nat): (bs: seq<byte>)
    ensures |bs| == n
  {
    if n == 0 then [] else [(v % 256) as byte] + LittleBytes(v / 256, n - 1)
  }

  /** The number bs spells, least significant byte first. */
  function LittleValue(bs: seq<byte>): (v: nat)
    ensures v < Pow256(|bs|)
  {
    if bs == [] then 0 else bs[0] as nat + 256 * LittleValue(bs[1..])
  }

  function Reversed(bs: seq<byte>): (r: seq<byte>)
    ensures |r| == |bs| && forall k :: 0 <= k < |bs| ==> r[k] == bs[|bs| - 1 - k]
  {
    if bs == [] then [] else Reversed(bs[1..]) + [bs[0]]
  }

  lemma ReversedTwice(bs: seq<byte>)
    ensures Reversed(Reversed(bs)) == bs
  {
  }

  /** order.PutUintN(buf, uintN(v)) for N = 8n: v reduced to n bytes, in byte order. */
  function PutUnsigned(order: ByteOrder, n: nat, v: nat): (bs: seq<byte>)
    ensures |bs| == n
  {
    if order == LittleEndian then LittleBytes(v, n) else Reversed(LittleBytes(v, n))
  }

  /** order.UintN(data) on exactly the bytes bs. */
  function Unsigned(order: ByteOrder, bs: seq<byte>): (v: nat)
    ensures v < Pow256(|bs|)
  {
    LittleValue(if order == LittleEndian then bs else Reversed(bs))
  }

  /** uintN(v) of a signed v: its two's complement in n bytes. */
  function PutSigned(order: ByteOrder, n: nat, v: int): seq<byte>
  {
    PutUnsigned(order, n, v % Pow256(n))
  }

  /** intN(order.UintN(data)): the bytes read as an unsigned number and sign-extended. */
  function Signed(order: ByteOrder, bs: seq<byte>): int
  {
    var u := Unsigned(order, bs);
    if 2 * u >= Pow256(|bs|) then u - Pow256(|bs|) else u
  }

  lemma {:induction false} LittleRoundTrip(v: nat, n: nat)
    requires v < Pow256(n)
    ensures LittleValue(LittleBytes(v, n)) == v
  {
    if n > 0 {
      var bs := LittleBytes(v, n);
      assert bs[1..] == LittleBytes(v / 256, n - 1);
      LittleRoundTrip(v / 256, n - 1);
    }
  }

  /** Euclidean remainder is determined by any quotient and remainder in range. */
  lemma ModUnique(v: int, d: int, q: int, r: int)
    requires d > 0 && v == d * q + r && 0 <= r < d
    ensures v % d == r
  {
    var q0 := v / d;
    var r0 := v % d;
    assert d * q0 + r0 == d * q + r;
    assert d * (q - q0) == r0 - r;
    if q > q0 {
      MulAtLeast(d, q - q0);
    } else if q < q0 {
      MulAtLeast(d, q0 - q);
    }
  }

  lemma MulAtLeast(d: int, k: int)
    requires d > 0 && k >= 1
    ensures d * k >= d
  {
  }

  lemma {:induction false} LittleBytesOfValue(bs: seq<byte>)
    ensures LittleBytes(LittleValue(bs), |bs|) == bs
  {
    if bs != [] {
      var v := LittleValue(bs);
      assert v % 256 == bs[0] as nat && v / 256 == LittleValue(bs[1..]);
      LittleBytesOfValue(bs[1..]);
    }
  }

  /** Reading n bytes back in the same order gives every n-byte number back ... */
  lemma UnsignedRoundTrip(order: ByteOrder, n: nat, v: nat)
    requires v < Pow256(n)
    ensures Unsigned(order, PutUnsigned(order, n, v)) == v
  {
    LittleRoundTrip(v, n);
    ReversedTwice(LittleBytes(v, n));
  }

  /** ... and writing back what was read gives the same bytes. */
  lemma UnsignedBytesRoundTrip(order: ByteOrder, bs: seq<byte>)
    ensures PutUnsigned(order, |bs|, Unsigned(order, bs)) == bs
  {
    if order == LittleEndian {
      LittleBytesOfValue(bs);
    } else {
      LittleBytesOfValue(Reversed(bs));
      ReversedTwice(bs);
    }
  }

  /** Signed values in range come back sign-extended to themselves. */
  lemma SignedRoundTrip(order: ByteOrder, n: nat, v: int)
    requires n >= 1 && -(Pow256(n) as int) <= 2 * v < Pow256(n)
    ensures Signed(order, PutSigned(order, n, v)) == v
  {
    var p := Pow256(n);
    if v < 0 {
      ModUnique(v, p, -1, v + p);
    } else {
      ModUnique(v, p, 0, v);
    }
    UnsignedRoundTrip(order, n, v % p);
  }

  /** Big-endian bytes are the little-endian bytes reversed. */
  lemma ByteOrdersMirror(n: nat, v: nat)
    ensures PutUnsigned(BigEndian, n, v) == Reversed(PutUnsigned(LittleEndian, n, v))
  {
  }

  // ---------------------------------------------------------------------------
  // Kinds, values and buildFieldCodec

  /** The reflect kinds buildFieldCodec tells apart. Uint and Uintptr are Go's uint and
      uintptr, 64 bits wide on the platforms modelled; no case of the kind switch takes
      them, but v.Uint() and v.SetUint() do. */
  datatype Kind =
    | Uint8 | Uint16 | Uint32 | Uint64 | Uint | Uintptr
    | Int8 | Int16 | Int32 | Int64
    | Float32 | Float64
    | Bool
    | Array(elem: Kind, length: nat)
    | Slice(elem: Kind)
    | Str
    | Struct
    | Other

  /** The bytes a scalar kind takes, 0 for the others. */
  function Width(k: Kind): nat
  {
    match k
    case Uint8 => 1 case Int8 => 1 case Bool => 1
    case Uint16 => 2 case Int16 => 2
    case Uint32 => 4 case Int32 => 4 case Float32 => 4
    case Uint64 => 8 case Int64 => 8 case Float64 => 8
    case _ => 0
  }

  /** The kinds v.Uint() and v.SetUint() accept. */
  predicate IsUnsigned(k: Kind) { IsSizedUnsigned(k) || k.Uint? || k.Uintptr? }
  /** The unsigned kinds with a case of their own in the kind switch. */
  predicate IsSizedUnsigned(k: Kind) { k.Uint8? || k.Uint16? || k.Uint32? || k.Uint64? }
  predicate IsSigned(k: Kind) { k.Int8? || k.Int16? || k.Int32? || k.Int64? }
  predicate IsFloat(k: Kind) { k.Float32? || k.Float64? }

  /** A reflect.Value. A float is known by its IEEE-754 bit pattern (math.Float32bits or
      math.Float64bits); a nested struct is not looked into. */
  datatype Value =
    | UintVal(u: nat)
    | IntVal(i: int)
    | FloatVal(bits: nat)
    | BoolVal(b: bool)
    | BytesVal(bytes: seq<byte>)
    | StrVal(str: seq<byte>)
    | ListVal(items: seq<Value>)
    | StructVal

  /** The values Go's type system lets a field of kind k hold. */
  predicate Fits(k: Kind, v: Value)
  {
    match k
    case Uint8 => v.UintVal? && v.u < Pow256(1)
    case Uint16 => v.UintVal? && v.u < Pow256(2)
    case Uint32 => v.UintVal? && v.u < Pow256(4)
    case Uint64 => v.UintVal? && v.u < Pow256(8)
    case Uint => v.UintVal? && v.u < Pow256(8)
    case Uintptr => v.UintVal? && v.u < Pow256(8)
    case Int8 => v.IntVal? && -(Pow256(1) as int) <= 2 * v.i < Pow256(1)
    case Int16 => v.IntVal? && -(Pow256(2) as int) <= 2 * v.i < Pow256(2)
    case Int32 => v.IntVal? && -(Pow256(4) as int) <= 2 * v.i < Pow256(4)
    case Int64 => v.IntVal? && -(Pow256(8) as int) <= 2 * v.i < Pow256(8)
    case Float32 => v.FloatVal? && v.bits < Pow256(4)
    case Float64 => v.FloatVal? && v.bits < Pow256(8)
    case Bool => v.BoolVal?
    case Array(e, n) =>
      if e == Uint8 then v.BytesVal? && |v.bytes| == n
      else v.ListVal? && |v.items| == n && forall i :: 0 <= i < n ==> Fits(e, v.items[i])
    case Slice(e) =>
      if e == Uint8 then v.BytesVal?
      else v.ListVal? && forall i :: 0 <= i < |v.items| ==> Fits(e, v.items[i])
    case Str => v.StrVal?
    case Struct => v.StructVal?
    case Other => true
  }

  /** fieldCodec without its closures. */
  datatype FieldCodec = FieldCodec(
    name: string,
    kind: Kind,
    index: nat,
    offset: int,
    size: int,
    order: ByteOrder,
    lenField: string,
    lenIndex: nat,
    isVariable: bool,
    encoding: string,
    bitStart: int,
    bitEnd: int,
    isBitField: bool,
    condField: string,
    condIndex: nat,
    condValue: nat,
    conditional: bool,
    isRepeat: bool,
    elementSize: int)

  datatype CodecError =
    | InvalidConditionFormat
    | InvalidConditionValue(valueError: NumError)
    | BitFieldSize
    | UnsupportedArray
    | FixedByteSlice
    | VariableWithoutLen
    | ArrayWithoutLen
    | UnsupportedSlice
    | UnsupportedType

  /** A condition buildFieldCodec accepts: exactly one "==", and an unsigned number after
      it in Go syntax. */
  predicate ConditionOk(condition: string)
  {
    condition == "" ||
    (|Split(condition, "==")| == 2 && ParseUint(TrimSpace(Split(condition, "==")[1])).Ok?)
  }

  /** The kinds and tags buildFieldCodec finds a codec for, bit fields aside. */
  predicate KindOk(k: Kind, tag: TagInfo)
  {
    match k
    case Array(e, _) => e == Uint8
    case Slice(e) =>
      if e == Uint8 then tag.size == -1 && tag.lenField != ""
      else tag.isRepeat && (tag.size == -1 ==> tag.lenField != "")
    case Str => tag.size == -1 ==> tag.lenField != ""
    case Uint => false
    case Uintptr => false
    case Struct => false
    case Other => false
    case _ => true
  }

  /** The condition step of buildFieldCodec: "field==value" split on "==", both sides
      trimmed, the value an unsigned number in Go syntax. Only the three condition fields of
      fc change. */
  function WithCondition(fc: FieldCodec, condition: string): (r: Result<FieldCodec, CodecError>)
    ensures r.Ok? <==> ConditionOk(condition)
    ensures r.Ok? ==> r.value.(conditional := fc.conditional, condField := fc.condField, condValue := fc.condValue) == fc
    ensures r.Ok? && condition == "" ==> r.value == fc
    ensures r.Ok? && condition != "" ==>
              r.value.conditional
              && r.value.condField == TrimSpace(Split(condition, "==")[0])
              && Ok(r.value.condValue) == ParseUint(TrimSpace(Split(condition, "==")[1]))
  {
    if condition == "" then Ok(fc)
    else
      var parts := Split(condition, "==");
      if |parts| != 2 then Err(InvalidConditionFormat)
      else
        match ParseUint(TrimSpace(parts[1]))
        case Err(e) => Err(InvalidConditionValue(e))
        case Ok(v) => Ok(fc.(conditional := true, condField := TrimSpace(parts[0]), condValue := v))
  }

  /** The range of a bits option, "n" or "start-end", each side read with its error
      ignored. */
  function BitRange(bits: string): (int, int)
  {
    if Contains(bits, "-") then
      var r := Split(bits, "-");
      (AtoiIgnoringError(r[0]), AtoiIgnoringError(r[1]))
    else (AtoiIgnoringError(bits), AtoiIgnoringError(bits))
  }

  /** The kind step of buildFieldCodec, for fields without a bits option: byte arrays,
      byte slices (variable-length only), repeated slices of other elements, strings with
      their encoding, and the scalar kinds. Only isVariable, lenField and encoding change;
      a variable-length codec always names its len field. */
  function WithKind(fc: FieldCodec, k: Kind, tag: TagInfo): (r: Result<FieldCodec, CodecError>)
    ensures r.Ok? <==> KindOk(k, tag)
    ensures r.Ok? ==> r.value.(isVariable := fc.isVariable, lenField := fc.lenField, encoding := fc.encoding) == fc
    ensures r.Ok? && !fc.isVariable ==>
              (r.value.isVariable <==> tag.size == -1 && (k.Slice? || k.Str?))
    ensures r.Ok? && r.value.isVariable && !fc.isVariable ==> r.value.lenField == tag.lenField != ""
    ensures r.Ok? && k.Str? ==> r.value.encoding == tag.encoding
  {
    match k
    case Array(e, _) => if e == Uint8 then Ok(fc) else Err(UnsupportedArray)
    case Slice(e) =>
      if e == Uint8 then
        if tag.size != -1 then Err(FixedByteSlice)
        else if tag.lenField == "" then Err(VariableWithoutLen)
        else Ok(fc.(isVariable := true, lenField := tag.lenField))
      else if tag.isRepeat then
        if tag.size == -1 && tag.lenField == "" then Err(ArrayWithoutLen)
        else if tag.size == -1 then Ok(fc.(isVariable := true, lenField := tag.lenField))
        else Ok(fc)
      else Err(UnsupportedSlice)
    case Str =>
      if tag.size == -1 && tag.lenField == "" then Err(VariableWithoutLen)
      else if tag.size == -1 then Ok(fc.(isVariable := true, lenField := tag.lenField, encoding := tag.encoding))
      else Ok(fc.(encoding := tag.encoding))
    case Uint => Err(UnsupportedType)
    case Uintptr => Err(UnsupportedType)
    case Struct => Err(UnsupportedType)
    case Other => Err(UnsupportedType)
    case _ => Ok(fc)
  }

  /** The codec buildFieldCodec starts from: the tag's place, byte order and repeat
      options, nothing else set; the field's index and the len and cond indices are filled
      in by CompileCodec. */
  function BaseCodec(name: string, k: Kind, tag: TagInfo): FieldCodec
  {
    FieldCodec(name, k, 0, tag.offset, tag.size, GetByteOrder(tag.byteOrder), "", 0, false, "",
               0, 0, false, "", 0, 0, false, tag.isRepeat, tag.elementSize)
  }

  /** The step of buildFieldCodec after the condition: a bit field is checked for size 1
      and given its bit range, any other field goes through the kind step. */
  function WithBitsOrKind(fc: FieldCodec, k: Kind, tag: TagInfo): Result<Option<FieldCodec>, CodecError>
  {
    if tag.bits != "" then
      if tag.size != 1 then Err(BitFieldSize)
      else
        var range := BitRange(tag.bits);
        Ok(Some(fc.(isBitField := true, bitStart := range.0, bitEnd := range.1)))
    else
      match WithKind(fc, k, tag)
      case Err(e) => Err(e)
      case Ok(fc) => Ok(Some(fc))
  }

  /** buildFieldCodec: nothing for a skipped field; otherwise the condition is parsed first,
      then a bit field is checked for size 1 and built, and otherwise the field's kind picks
      the codec. */
  function BuildFieldCodec(name: string, k: Kind, tag: TagInfo): Result<Option<FieldCodec>, CodecError>
  {
    if tag.skip then Ok(None)
    else
      match WithCondition(BaseCodec(name, k, tag), tag.condition)
      case Err(e) => Err(e)
      case Ok(fc) => WithBitsOrKind(fc, k, tag)
  }

  /** buildFieldCodec succeeds exactly when the condition is well formed, a bit field has
      size 1, and otherwise the kind and the tag fit together. */
  lemma BuildFieldCodecAccepts(name: string, k: Kind, tag: TagInfo)
    ensures BuildFieldCodec(name, k, tag).Ok? <==>
              tag.skip || (ConditionOk(tag.condition) && (if tag.bits != "" then tag.size == 1 else KindOk(k, tag)))
  {
  }

  /** A uint or uintptr field has no case in the kind switch: it gets a codec only as a bit
      field. */
  lemma WordKindsOnlyBitFields(name: string, k: Kind, tag: TagInfo)
    requires k == Uint || k == Uintptr
    ensures BuildFieldCodec(name, k, tag).Ok? <==>
              tag.skip || (ConditionOk(tag.condition) && tag.bits != "" && tag.size == 1)
    ensures !tag.skip && tag.bits == "" && ConditionOk(tag.condition) ==>
              BuildFieldCodec(name, k, tag) == Err(UnsupportedType)
  {
    BuildFieldCodecAccepts(name, k, tag);
  }

  /** What a codec that was built records: the tag's place, order and repeat flag, the
      condition, whether it is a bit field, and a len field for every variable-length
      field. */
  lemma BuildFieldCodecRecords(name: string, k: Kind, tag: TagInfo, fc: FieldCodec)
    requires BuildFieldCodec(name, k, tag) == Ok(Some(fc))
    ensures fc.name == name && fc.kind == k
    ensures fc.offset == tag.offset && fc.size == tag.size
    ensures fc.order == GetByteOrder(tag.byteOrder) && fc.isRepeat == tag.isRepeat
    ensures fc.isBitField <==> tag.bits != ""
    ensures fc.conditional <==> tag.condition != ""
    ensures fc.conditional ==> fc.condField == TrimSpace(Split(tag.condition, "==")[0])
    ensures fc.isVariable ==> fc.lenField == tag.lenField != "" && tag.size == -1
  {
    var c := WithCondition(BaseCodec(name, k, tag), tag.condition).value;
    ConditionRecords(name, k, tag, c);
    BitsOrKindRecords(c, k, tag, fc);
  }

  /** The step after the condition keeps what the condition left, marks bit fields, and
      gives every variable-length field a len field. */
  lemma BitsOrKindRecords(c: FieldCodec, k: Kind, tag: TagInfo, fc: FieldCodec)
    requires WithBitsOrKind(c, k, tag) == Ok(Some(fc)) && !c.isVariable && !c.isBitField
    ensures fc.name == c.name && fc.kind == c.kind && fc.offset == c.offset && fc.size == c.size
    ensures fc.order == c.order && fc.isRepeat == c.isRepeat
    ensures fc.conditional == c.conditional && fc.condField == c.condField
    ensures fc.isBitField <==> tag.bits != ""
    ensures fc.isVariable ==> fc.lenField == tag.lenField != "" && tag.size == -1
  {
    if tag.bits == "" {
      KindRecords(c, k, tag, fc);
    }
  }

  /** The codec after its condition is parsed keeps the tag's place, order and repeat flag. */
  lemma ConditionRecords(name: string, k: Kind, tag: TagInfo, c: FieldCodec)
    requires WithCondition(BaseCodec(name, k, tag), tag.condition) == Ok(c)
    ensures c.name == name && c.kind == k && c.offset == tag.offset && c.size == tag.size
    ensures c.order == GetByteOrder(tag.byteOrder) && c.isRepeat == tag.isRepeat
    ensures !c.isBitField && !c.isVariable
    ensures c.conditional <==> tag.condition != ""
    ensures c.conditional ==> c.condField == TrimSpace(Split(tag.condition, "==")[0])
  {
    var b := BaseCodec(name, k, tag);
    assert c.(conditional := b.conditional, condField := b.condField, condValue := b.condValue) == b;
  }

  /** The codec after its kind is checked keeps what the condition left, and a variable
      field has a len field. */
  lemma KindRecords(c: FieldCodec, k: Kind, tag: TagInfo, fc: FieldCodec)
    requires WithKind(c, k, tag) == Ok(fc) && !c.isVariable
    ensures fc.name == c.name && fc.kind == c.kind && fc.offset == c.offset && fc.size == c.size
    ensures fc.order == c.order && fc.isRepeat == c.isRepeat && fc.isBitField == c.isBitField
    ensures fc.conditional == c.conditional && fc.condField == c.condField
    ensures fc.isVariable ==> fc.lenField == tag.lenField != "" && tag.size == -1
  {
    assert fc.(isVariable := c.isVariable, lenField := c.lenField, encoding := c.encoding) == c;
  }

  /** A bit field parsed by parseTag gets the range its bits option names. */
  lemma BitFieldRange(name: string, k: Kind, tag: TagInfo, fc: FieldCodec)
    requires BuildFieldCodec(name, k, tag) == Ok(Some(fc)) && tag.bits != "" && ValidBits(tag.bits)
    ensures 0 <= fc.bitStart <= fc.bitEnd <= 7
  {
  }
}
