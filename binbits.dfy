/**
 * The bit fields of binpack (encodeBitField and decodeBitField in pkg/binpack/codec.go): a
 * field whose tag has a bits option occupies bits start..end of a single byte, and several
 * such fields may share that byte.
 *
 * A byte is seen through its bits, least significant first: Go's
 * `(b & ^(mask << start)) | ((v & mask) << start)` keeps bits below start and above end
 * of b and puts the low end-start+1 bits of v in between, and `(b >> start) & mask` reads
 * those bits back.
 */
module BinBits {
  import opened BinEncoding

  /** The k low bits of n, least significant first. */
  function LowBits(n: nat, k: nat): (bits: seq<bool>)
    ensures |bits| == k
  {
    if k == 0 then [] else [n % 2 == 1] + LowBits(n / 2, k - 1)
  }

  /** The number bits spell, least significant first. */
  function BitsValue(bits: seq<bool>): (n: nat)
  {
    if bits == [] then 0 else (if bits[0] then 1 else 0) + 2 * BitsValue(bits[1..])
  }

  function Pow2(k: nat): (p: nat)
    ensures p >= 1
  {
    if k == 0 then 1 else 2 * Pow2(k - 1)
  }

  lemma {:induction false} BitsValueBound(bits: seq<bool>)
    ensures BitsValue(bits) < Pow2(|bits|)
  {
    if bits != [] {
      BitsValueBound(bits[1..]);
    }
  }

  lemma {:induction false} LowBitsOfValue(bits: seq<bool>)
    ensures LowBits(BitsValue(bits), |bits|) == bits
  {
    if bits != [] {
      var n := BitsValue(bits);
      assert n % 2 == 1 <==> bits[0];
      assert n / 2 == BitsValue(bits[1..]);
      LowBitsOfValue(bits[1..]);
    }
  }

  lemma {:induction false} ValueOfLowBits(n: nat, k: nat)
    requires n < Pow2(k)
    ensures BitsValue(LowBits(n, k)) == n
  {
    if k > 0 {
      var bits := LowBits(n, k);
      assert bits[1..] == LowBits(n / 2, k - 1);
      ValueOfLowBits(n / 2, k - 1);
    }
  }

  /** The eight bits of a byte. */
  function Bits(b: byte): (bits: seq<bool>)
    ensures |bits| == 8
  {
    LowBits(b as nat, 8)
  }

  /** The byte eight bits spell. */
  function FromBits(bits: seq<bool>): byte
    requires |bits| == 8
  {
    BitsValueBound(bits);
    BitsValue(bits) as byte
  }

  lemma BitsOfFromBits(bits: seq<bool>)
    requires |bits| == 8
    ensures Bits(FromBits(bits)) == bits
  {
    LowBitsOfValue(bits);
  }

  lemma FromBitsOfBits(b: byte)
    ensures FromBits(Bits(b)) == b
  {
    ValueOfLowBits(b as nat, 8);
  }

  /** encodeBitField: bits start..end of b replaced by the low end-start+1 bits of
      uint8(v.Uint()), that is of v modulo 256. */
  function EncodeBitField(b: byte, v: nat, start: int, end: int): (r: byte)
    requires 0 <= start <= end <= 7
  {
    FromBits(Bits(b)[..start] + LowBits(v % 256, end - start + 1) + Bits(b)[end + 1..])
  }

  /** decodeBitField: bits start..end of b as a number. */
  function DecodeBitField(b: byte, start: int, end: int): (r: nat)
    requires 0 <= start <= end <= 7
    ensures r < Pow2(end - start + 1)
  {
    BitsValueBound(Bits(b)[start..end + 1]);
    BitsValue(Bits(b)[start..end + 1])
  }

  /** Only bits start..end change, and they hold the low bits of v. */
  lemma EncodeBitFieldBits(b: byte, v: nat, start: int, end: int)
    requires 0 <= start <= end <= 7
    ensures Bits(EncodeBitField(b, v, start, end))
            == Bits(b)[..start] + LowBits(v % 256, end - start + 1) + Bits(b)[end + 1..]
  {
    BitsOfFromBits(Bits(b)[..start] + LowBits(v % 256, end - start + 1) + Bits(b)[end + 1..]);
  }

  /** decodeBitField after encodeBitField gives the field's bits of v back, so v itself when
      it fits. */
  lemma BitFieldRoundTrip(b: byte, v: nat, start: int, end: int)
    requires 0 <= start <= end <= 7
    ensures DecodeBitField(EncodeBitField(b, v, start, end), start, end)
            == BitsValue(LowBits(v % 256, end - start + 1))
    ensures v < Pow2(end - start + 1) ==> DecodeBitField(EncodeBitField(b, v, start, end), start, end) == v
  {
    var low := LowBits(v % 256, end - start + 1);
    EncodeBitFieldBits(b, v, start, end);
    assert (Bits(b)[..start] + low + Bits(b)[end + 1..])[start..end + 1] == low;
    if v < Pow2(end - start + 1) {
      assert v < 256 by { Pow2Mono(end - start + 1, 8); }
      assert v % 256 == v;
      ValueOfLowBits(v % 256, end - start + 1);
    }
  }

  lemma {:induction false} Pow2Mono(j: nat, k: nat)
    requires j <= k
    ensures Pow2(j) <= Pow2(k)
  {
    if j < k {
      Pow2Mono(j, k - 1);
    }
  }

  lemma {:induction false} LowBitsOfZero(k: nat)
    ensures forall i :: 0 <= i < k ==> !LowBits(0, k)[i]
  {
    if k > 0 {
      LowBitsOfZero(k - 1);
      assert LowBits(0, k) == [false] + LowBits(0, k - 1);
    }
  }

  lemma {:induction false} ValueOfClearBits(bits: seq<bool>)
    requires forall i :: 0 <= i < |bits| ==> !bits[i]
    ensures BitsValue(bits) == 0
  {
    if bits != [] {
      ValueOfClearBits(bits[1..]);
    }
  }

  /** Every bit field of a zero byte reads 0. */
  lemma DecodeZero(start: int, end: int)
    requires 0 <= start <= end <= 7
    ensures DecodeBitField(0, start, end) == 0
  {
    LowBitsOfZero(8);
    ValueOfClearBits(Bits(0)[start..end + 1]);
  }

  /** A field on bits disjoint from start..end reads the same before and after the write:
      bit fields sharing a byte do not disturb each other. */
  lemma BitFieldsDisjoint(b: byte, v: nat, start: int, end: int, s2: int, e2: int)
    requires 0 <= start <= end <= 7 && 0 <= s2 <= e2 <= 7 && (e2 < start || end < s2)
    ensures DecodeBitField(EncodeBitField(b, v, start, end), s2, e2) == DecodeBitField(b, s2, e2)
  {
    var low := LowBits(v % 256, end - start + 1);
    var w := Bits(b)[..start] + low + Bits(b)[end + 1..];
    EncodeBitFieldBits(b, v, start, end);
    assert w[s2..e2 + 1] == Bits(b)[s2..e2 + 1];
  }
}
