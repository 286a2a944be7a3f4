/**
 * The string encodings of binpack (pkg/binpack/encoding/encoding.go). A Go string is a
 * sequence of bytes, so utf8 and ascii convert without changing a byte; hex is the base16
 * encoding of section 8 of RFC 4648 with lower-case digits, as Go's encoding/hex writes it.
 */
module BinEncoding {
  import opened Wrappers

  /** A Go byte. */
  newtype byte = x: int | 0 <= x < 256

  datatype Encoding = UTF8 | ASCII | Hex

  /** GetEncoding: "ascii" and "hex" by name, UTF8 for "utf8", "" and every other name. */
  function GetEncoding(name: string): (e: Encoding)
    ensures e == ASCII <==> name == "ascii"
    ensures e == Hex <==> name == "hex"
    ensures e == UTF8 <==> name != "ascii" && name != "hex"
  {
    match name
    case "utf8" => UTF8
    case "" => UTF8
    case "ascii" => ASCII
    case "hex" => Hex
    case _ => UTF8
  }

  /** The lower-case hexadecimal digit of a nibble: the n-th character of
      "0123456789abcdef". */
  function HexDigit(n: byte): (c: byte)
    requires n < 16
  {
    if n < 10 then '0' as int as byte + n else 'a' as int as byte + (n - 10)
  }

  /** The nibble a hexadecimal digit of either case stands for, as encoding/hex's reverse
      table gives it. */
  function FromHexChar(c: byte): (r: Option<byte>)
    ensures r.Some? ==> r.value < 16
  {
    if '0' as int <= c as int <= '9' as int then Some(c - '0' as int as byte)
    else if 'a' as int <= c as int <= 'f' as int then Some(c - 'a' as int as byte + 10)
    else if 'A' as int <= c as int <= 'F' as int then Some(c - 'A' as int as byte + 10)
    else None
  }

  lemma FromHexDigit(n: byte)
    requires n < 16
    ensures FromHexChar(HexDigit(n)) == Some(n)
  {
  }

  /** hex.Encode: two digits per byte, the high nibble (the byte shifted right by 4) first,
      then the low one (the byte masked with 0x0f). */
  function HexEncode(s: seq<byte>): (r: seq<byte>)
    ensures |r| == 2 * |s|
  {
    if s == [] then []
    else [HexDigit(s[0] / 16), HexDigit(s[0] % 16)] + HexEncode(s[1..])
  }

  /** What hex.Decode writes before it stops: one byte per pair of valid digits (the high
      nibble shifted left by 4, or-ed with the low one), up to the first invalid digit; a
      lone last digit is dropped. The error it returns is ignored. */
  function HexDecode(b: seq<byte>): (r: seq<byte>)
    ensures |r| <= |b| / 2
  {
    if |b| < 2 then []
    else match (FromHexChar(b[0]), FromHexChar(b[1]))
      case (Some(hi), Some(lo)) => [hi * 16 + lo] + HexDecode(b[2..])
      case _ => []
  }

  lemma {:induction false} HexDecodeEncode(s: seq<byte>)
    ensures HexDecode(HexEncode(s)) == s
  {
    if s != [] {
      var e := HexEncode(s);
      FromHexDigit(s[0] / 16);
      FromHexDigit(s[0] % 16);
      assert e[2..] == HexEncode(s[1..]);
      HexDecodeEncode(s[1..]);
    }
  }

  /** Encode of each encoding. */
  function Encode(e: Encoding, s: seq<byte>): seq<byte>
  {
    match e
    case UTF8 => s
    case ASCII => s
    case Hex => HexEncode(s)
  }

  /** Decode of each encoding. */
  function Decode(e: Encoding, b: seq<byte>): seq<byte>
  {
    match e
    case UTF8 => b
    case ASCII => b
    case Hex => HexDecode(b)
  }

  /** Every encoding reads back what it wrote; hex writes twice as many bytes. */
  lemma DecodeEncode(e: Encoding, s: seq<byte>)
    ensures Decode(e, Encode(e, s)) == s
    ensures |Encode(e, s)| == if e == Hex then 2 * |s| else |s|
  {
    if e == Hex {
      HexDecodeEncode(s);
    }
  }

  /** utf8 and ascii are also inverse the other way round. */
  lemma EncodeDecode(e: Encoding, b: seq<byte>)
    requires e != Hex
    ensures Encode(e, Decode(e, b)) == b
  {
  }

  /** hex decoding stops at the first pair with a byte that is no hexadecimal digit. */
  lemma HexDecodeStops(b: seq<byte>, k: nat)
    requires 2 * k + 1 < |b|
    requires FromHexChar(b[2 * k]).None? || FromHexChar(b[2 * k + 1]).None?
    ensures |HexDecode(b)| <= k
  {
    if k > 0 {
      if |b| >= 2 && FromHexChar(b[0]).Some? && FromHexChar(b[1]).Some? {
        HexDecodeStops(b[2..], k - 1);
      }
    }
  }
}
