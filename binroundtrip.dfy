/**
 * What binpack's Encode and Decode promise together (pkg/binpack/reflect_codec.go):
 * the buffer Encode allocates, the fields a condition switches off, the errors Decode
 * reports, and the round trip Decode(Encode(v)) == v over a class of layouts.
 */
module BinRoundTrip {
  import opened Wrappers
  import opened BinEncoding
  import opened BinCodec
  import opened BinBits
  import opened BinReflect
  import opened BinStruct

  // ---------------------------------------------------------------------------
  // The buffer Encode allocates

  /** Encode's first loop over n codecs gives up exactly when one of them is an array of
      structs; otherwise it ends at the largest of total and every reserved end. */
  lemma {:induction false} ReservedSpec(fcs: seq<FieldCodec>, vals: seq<Value>, n: nat, total: nat)
    requires n <= |fcs| && Indexed(fcs, vals)
    ensures Reserved(fcs, vals, n, total).Ok? <==>
              forall p :: 0 <= p < n ==> Reserve(fcs[p], vals[fcs[p].index]).Ok?
    ensures Reserved(fcs, vals, n, total).Ok? ==>
              var t := Reserved(fcs, vals, n, total).value;
              && t >= total
              && (forall p :: 0 <= p < n && Reserve(fcs[p], vals[fcs[p].index]).Ok? && Reserve(fcs[p], vals[fcs[p].index]).value.Some? ==>
                    t >= Reserve(fcs[p], vals[fcs[p].index]).value.value)
              && (t == total || exists p :: 0 <= p < n && Reserve(fcs[p], vals[fcs[p].index]) == Ok(Some(t as int)))
    decreases n
  {
    if n > 0 {
      ReservedSpec(fcs, vals, n - 1, total);
    }
  }

  /** The buffer Encode allocates: the fixed size when no field has a variable length;
      otherwise the largest of the fixed size and the end of every variable-length and
      repeated field, which is the end of one of them or the fixed size itself. */
  lemma TotalSizeSpec(c: Codec, vals: seq<Value>)
    requires Indexed(c.fields, vals)
    ensures !c.hasVarLen ==> TotalSize(c, vals) == Ok(c.size)
    ensures c.hasVarLen && TotalSize(c, vals).Ok? ==>
              var t := TotalSize(c, vals).value;
              && t >= c.size
              && (forall p :: 0 <= p < |c.fields| && c.fields[p].isVariable && !(c.fields[p].isRepeat && c.fields[p].kind.Slice?) ==>
                    t >= c.fields[p].offset + VarLen(c.fields[p].kind, vals[c.fields[p].index]))
              && (forall p :: 0 <= p < |c.fields| && c.fields[p].isRepeat && c.fields[p].kind.Slice? && c.fields[p].elementSize > 0 ==>
                    t >= c.fields[p].offset + |Elements(vals[c.fields[p].index])| * c.fields[p].elementSize)
              && (t == c.size || exists p :: 0 <= p < |c.fields| && Reserve(c.fields[p], vals[c.fields[p].index]) == Ok(Some(t as int)))
    ensures c.hasVarLen ==>
              (TotalSize(c, vals).Err? <==>
                 exists p :: 0 <= p < |c.fields| && Reserve(c.fields[p], vals[c.fields[p].index]).Err?)
  {
    if c.hasVarLen {
      ReservedSpec(c.fields, vals, |c.fields|, c.size);
    }
  }

  /** Encode's buffer has exactly the size it allocated. */
  lemma EncodeLength(c: Codec, kinds: seq<Kind>, vals: seq<Value>)
    requires |vals| == |kinds| && WellFormed(c, kinds)
    ensures Indexed(c.fields, vals)
    ensures EncodeValue(c, kinds, vals).Ok? ==> TotalSize(c, vals).Ok? && |EncodeValue(c, kinds, vals).value| == TotalSize(c, vals).value
  {
    assert forall p :: 0 <= p < |c.fields| ==> FieldOk(c.fields[p], kinds);
  }

  // ---------------------------------------------------------------------------
  // Conditions and errors

  /** A conditional field follows its cond field: when that holds another number neither
      encodeToBuffer nor Decode touches the field, when it holds condValue the field is
      handled as an unconditional one, and when it is not an unsigned field Go panics. */
  lemma ConditionGates(fc: FieldCodec, kinds: seq<Kind>, vals: seq<Value>, buf: seq<byte>, m: int, data: seq<byte>)
    requires |vals| == |kinds| && FieldOk(fc, kinds) && fc.conditional
    ensures var cond := UintOf(kinds[fc.condIndex], vals[fc.condIndex]);
            && (cond.Some? && cond.value != fc.condValue ==>
                  EncodeStep(buf, m, fc, kinds, vals) == Written(buf, m, None) && ReadStep(data, fc, kinds, vals) == Ok(vals))
            && (cond == Some(fc.condValue) ==>
                  EncodeStep(buf, m, fc, kinds, vals) == EncodeBody(buf, m, fc, vals[fc.index])
                  && ReadStep(data, fc, kinds, vals) == ReadBody(data, fc, kinds, vals))
            && (cond.None? ==> EncodeStep(buf, m, fc, kinds, vals).err == Some(Panic) && ReadStep(data, fc, kinds, vals) == Err(Panic))
  {
  }

  /** Decode reports data too short for the whole struct before touching any field, and
      for a repeated or variable-length field whose extent runs past the data. */
  lemma DecodeTooShort(c: Codec, kinds: seq<Kind>, data: seq<byte>, vals: seq<Value>, fc: FieldCodec)
    requires |vals| == |kinds| && WellFormed(c, kinds) && FieldOk(fc, kinds) && !fc.conditional
    ensures |data| < c.size ==> DecodeValue(c, kinds, data, vals) == (vals, Some(DataTooShort("")))
    ensures var len := UintOf(kinds[fc.lenIndex], vals[fc.lenIndex]);
            len.Some? && GoInt(len.value) >= 0 ==>
              var n := GoInt(len.value);
              && (fc.isRepeat && fc.kind.Slice? && fc.elementSize > 0 && fc.offset + n * fc.elementSize > |data| ==>
                    ReadStep(data, fc, kinds, vals) == Err(DataTooShort(fc.name)))
              && (!(fc.isRepeat && fc.kind.Slice?) && fc.isVariable && fc.offset + n > |data| ==>
                    ReadStep(data, fc, kinds, vals) == Err(DataTooShort(fc.name)))
  {
  }

  /** A variable-length hex string writes the digits of only the first half of the
      string, since its window is as long as the string, and Decode, reading the len
      field's count of bytes as digit pairs, gives back that first half. */
  lemma VarHexHalf(buf: seq<byte>, fc: FieldCodec, s: seq<byte>, prev: Value)
    requires fc.isVariable && fc.kind == Str && fc.encoding == "hex"
    requires 0 <= fc.offset && fc.offset + |s| <= |buf| && |s| < 0x8000_0000_0000_0000
    ensures WriteVariable(buf, fc, StrVal(s)).Ok?
    ensures var b := WriteVariable(buf, fc, StrVal(s)).value;
            && b[fc.offset..fc.offset + 2 * (|s| / 2)] == HexEncode(s[..|s| / 2])
            && ReadVariable(b, fc, GoInt(|s|), prev) == Ok(StrVal(s[..|s| / 2]))
  {
    var b := VarHexWrite(buf, fc, s);
    VarHexBack(buf, fc, s, prev, b);
  }

  lemma VarHexBack(buf: seq<byte>, fc: FieldCodec, s: seq<byte>, prev: Value, b: seq<byte>)
    requires fc.isVariable && fc.kind == Str && fc.encoding == "hex"
    requires 0 <= fc.offset && fc.offset + |s| <= |buf| && |s| < 0x8000_0000_0000_0000
    requires b == Splice(buf, fc.offset, HexWindow(buf[fc.offset..fc.offset + |s|], s))
    ensures fc.offset + 2 * (|s| / 2) <= |b| && b[fc.offset..fc.offset + 2 * (|s| / 2)] == HexEncode(s[..|s| / 2])
    ensures ReadVariable(b, fc, GoInt(|s|), prev) == Ok(StrVal(s[..|s| / 2]))
  {
    HexHead(buf, fc.offset, s, b);
    VarHexRead(b, fc, s, prev);
  }

  lemma VarHexWrite(buf: seq<byte>, fc: FieldCodec, s: seq<byte>) returns (b: seq<byte>)
    requires fc.isVariable && fc.kind == Str && fc.encoding == "hex"
    requires 0 <= fc.offset && fc.offset + |s| <= |buf|
    ensures b == Splice(buf, fc.offset, HexWindow(buf[fc.offset..fc.offset + |s|], s))
    ensures WriteVariable(buf, fc, StrVal(s)) == Ok(b)
  {
    b := Splice(buf, fc.offset, HexWindow(buf[fc.offset..fc.offset + |s|], s));
  }

  lemma HexHead(buf: seq<byte>, at: nat, s: seq<byte>, b: seq<byte>)
    requires at + |s| <= |buf| && b == Splice(buf, at, HexWindow(buf[at..at + |s|], s))
    ensures at + 2 * (|s| / 2) <= |b| && b[at..at + 2 * (|s| / 2)] == HexEncode(s[..|s| / 2])
  {
    assert HexPairs(|s|, |s|) == |s| / 2;
  }

  lemma VarHexRead(b: seq<byte>, fc: FieldCodec, s: seq<byte>, prev: Value)
    requires fc.isVariable && fc.kind == Str && fc.encoding == "hex"
    requires 0 <= fc.offset && fc.offset + |s| <= |b| && |s| < 0x8000_0000_0000_0000
    requires b[fc.offset..fc.offset + 2 * (|s| / 2)] == HexEncode(s[..|s| / 2])
    ensures ReadVariable(b, fc, GoInt(|s|), prev) == Ok(StrVal(s[..|s| / 2]))
  {
    var k := |s| / 2;
    assert GoInt(|s|) == |s| && GoHalf(|s|) == k;
    NibblePairsOfHex(s[..k]);
    if k == 0 {
      assert s[..k] == [];
    }
  }

  // ---------------------------------------------------------------------------
  // The round trip

  /** Zero bytes, n of them when n is positive. */
  function Pad(n: int): (z: seq<byte>)
    ensures |z| == if n > 0 then n else 0
  {
    Zeros(if n > 0 then n else 0)
  }

  /** The bytes of B from lo to hi, or nothing when that is not a range of B. */
  function Part(b: seq<byte>, lo: int, hi: int): seq<byte>
  {
    if 0 <= lo <= hi <= |b| then b[lo..hi] else []
  }

  /** Whether encodeToBuffer and Decode handle codec fc on the struct vals: it is
      unconditional, or its cond field holds condValue. */
  predicate Active(fc: FieldCodec, kinds: seq<Kind>, vals: seq<Value>)
    requires |vals| == |kinds| && FieldOk(fc, kinds)
  {
    !fc.conditional || UintOf(kinds[fc.condIndex], vals[fc.condIndex]) == Some(fc.condValue)
  }

  /** The element kinds encodeElement and decodeElement handle. */
  predicate Numeric(e: Kind)
  {
    IsSizedUnsigned(e) || IsSigned(e) || IsFloat(e)
  }

  /** The codecs the round trip covers, for the value v of their field, all at a known
      offset:
      - a bit field of an unsigned kind whose value fits its bits, in a one-byte window;
      - a repeated slice of numbers, each element in a window of elementSize bytes;
      - a variable-length byte slice or plain string;
      - a fixed-size scalar, a byte array, or a string it holds exactly (a hex string as
        its digits). */
  predicate Plain(fc: FieldCodec, v: Value)
  {
    && fc.offset >= 0
    && if fc.isBitField then
         && !fc.isVariable && fc.size == 1 && IsUnsigned(fc.kind) && v.UintVal?
         && 0 <= fc.bitStart <= fc.bitEnd <= 7 && v.u < Pow2(fc.bitEnd - fc.bitStart + 1)
       else if fc.isRepeat && fc.kind.Slice? then
         Numeric(fc.kind.elem) && Width(fc.kind.elem) <= fc.elementSize
       else if fc.isVariable then
         (fc.kind == Slice(Uint8) && v.BytesVal?) || (fc.kind.Str? && fc.encoding != "hex")
       else
         && fc.size > 0
         && (|| (IsScalar(fc.kind) && Width(fc.kind) <= fc.size)
             || (fc.kind.Array? && fc.kind.elem == Uint8 && |Payload(v)| <= fc.size)
             || (fc.kind.Str? && fc.encoding != "hex" && |Payload(v)| == fc.size)
             || (fc.kind.Str? && fc.encoding == "hex" && 2 * |Payload(v)| == fc.size))
  }

  /** The number of bytes a field's region holds: a window of elementSize bytes per
      element for a repeated field, the value's length for a variable-length one, and the
      size otherwise. */
  function Extent(fc: FieldCodec, v: Value): (x: int)
    ensures Plain(fc, v) ==> x >= 0
  {
    if fc.isRepeat && fc.kind.Slice? then |Elements(v)| * fc.elementSize
    else if fc.isVariable then VarLen(fc.kind, v)
    else fc.size
  }

  function End(fc: FieldCodec, v: Value): int
  {
    fc.offset + Extent(fc, v)
  }

  /** An element's window in a repeated field: its bytes, then zeros up to the element
      size. */
  function ElemImage(e: Kind, order: ByteOrder, size: int, x: Value): (img: seq<byte>)
    ensures Width(e) <= size ==> |img| == size
  {
    ScalarBytes(e, order, x) + Pad(size - Width(e))
  }

  /** The windows of the elements, one per item. */
  function Images(e: Kind, order: ByteOrder, size: int, items: seq<Value>): (imgs: seq<seq<byte>>)
    ensures |imgs| == |items|
  {
    seq(|items|, i requires 0 <= i < |items| => ElemImage(e, order, size, items[i]))
  }

  /** Windows laid one after another. */
  function Tile(chunks: seq<seq<byte>>): seq<byte>
  {
    if chunks == [] then [] else Tile(chunks[..|chunks| - 1]) + chunks[|chunks| - 1]
  }

  /** The bytes a field's region holds once encoded on zeros; a bit field has its bits
      instead. */
  function Image(fc: FieldCodec, v: Value): (img: seq<byte>)
    ensures Plain(fc, v) && !fc.isBitField ==> |img| == Extent(fc, v)
  {
    if fc.isRepeat && fc.kind.Slice? then
      if Width(fc.kind.elem) <= fc.elementSize then
        ImagesSized(fc.kind.elem, fc.order, fc.elementSize, Elements(v));
        TileLength(Images(fc.kind.elem, fc.order, fc.elementSize, Elements(v)), fc.elementSize);
        Tile(Images(fc.kind.elem, fc.order, fc.elementSize, Elements(v)))
      else []
    else if fc.isVariable then Payload(v)
    else if IsScalar(fc.kind) then ScalarBytes(fc.kind, fc.order, v) + Pad(fc.size - Width(fc.kind))
    else if fc.kind.Array? then Payload(v) + Pad(fc.size - |Payload(v)|)
    else if fc.encoding == "hex" then HexEncode(Payload(v))
    else Payload(v)
  }

  /** The buffer once codec fc has written v: a bit field's bits set in its byte, any
      other field's image in its region. */
  function Put(b: seq<byte>, fc: FieldCodec, v: Value): (r: seq<byte>)
    requires Plain(fc, v) && End(fc, v) <= |b|
    ensures |r| == |b|
  {
    if fc.isBitField then Splice(b, fc.offset, [EncodeBitField(b[fc.offset], NatOf(v), fc.bitStart, fc.bitEnd)])
    else Splice(b, fc.offset, Image(fc, v))
  }

  /** b holds v for codec fc (done) or still zero there: in its bits for a bit field, in
      its region otherwise. */
  ghost predicate Holds(b: seq<byte>, fc: FieldCodec, v: Value, done: bool)
  {
    if fc.isBitField then
      && 0 <= fc.offset < |b| && 0 <= fc.bitStart <= fc.bitEnd <= 7
      && DecodeBitField(b[fc.offset], fc.bitStart, fc.bitEnd) == if done then NatOf(v) else 0
    else Part(b, fc.offset, End(fc, v)) == if done then Image(fc, v) else Pad(Extent(fc, v))
  }

  /** Two regions do not overlap, except bit fields sharing a byte on disjoint bits. */
  predicate Apart(f: FieldCodec, v: Value, g: FieldCodec, w: Value)
  {
    || End(f, v) <= g.offset || End(g, w) <= f.offset
    || (f.isBitField && g.isBitField && f.offset == g.offset && (f.bitEnd < g.bitStart || g.bitEnd < f.bitStart))
  }

  /** A scalar survives its encoder and decoder. */
  lemma ScalarRoundTrip(k: Kind, order: ByteOrder, v: Value)
    requires IsScalar(k) && Fits(k, v)
    ensures ScalarValue(k, order, ScalarBytes(k, order, v)) == v
  {
    if IsSigned(k) {
      SignedRoundTrip(order, Width(k), v.i);
    } else if k != Bool {
      UnsignedRoundTrip(order, Width(k), NatOf(v));
    }
  }

  /** The fixed-size encoder writes a plain field's image on a zeroed window. */
  lemma FixedImage(fc: FieldCodec, v: Value)
    requires Plain(fc, v) && !fc.isBitField && !(fc.isRepeat && fc.kind.Slice?) && !fc.isVariable
    ensures FixedWrite(fc, v, Pad(fc.size)) == Ok(Image(fc, v))
  {
    var w := Pad(fc.size);
    if IsScalar(fc.kind) {
      assert w[Width(fc.kind)..] == Pad(fc.size - Width(fc.kind));
    } else if fc.kind.Array? {
      assert w[|Payload(v)|..] == Pad(fc.size - |Payload(v)|);
      assert Payload(v)[..|Payload(v)|] == Payload(v);
    } else if fc.encoding == "hex" {
      var src := Payload(v);
      assert HexPairs(|w|, |src|) == |src|;
      assert src[..|src|] == src && w[2 * |src|..] == [];
      assert HexWindow(w, src) == HexEncode(src);
    } else {
      var src := Payload(v);
      assert fc.kind.Str? && |src| == |w|;
      assert src[..|src|] == src && w[|src|..] == [];
      assert Copy(w, src) == src;
    }
  }

  /** The fixed-size decoder reads a plain field's image back. */
  lemma FixedReadsImage(fc: FieldCodec, v: Value, prev: Value)
    requires Plain(fc, v) && !fc.isBitField && !(fc.isRepeat && fc.kind.Slice?) && !fc.isVariable
    requires Fits(fc.kind, v) && Fits(fc.kind, prev)
    ensures FixedRead(fc, Image(fc, v), prev) == Ok(v)
  {
    var w := Image(fc, v);
    if IsScalar(fc.kind) {
      assert w[..Width(fc.kind)] == ScalarBytes(fc.kind, fc.order, v);
      ScalarRoundTrip(fc.kind, fc.order, v);
    } else if fc.kind.Array? {
      assert Copy(Payload(prev), w) == Payload(v);
    } else if fc.encoding == "hex" {
      NibblePairsOfHex(Payload(v));
      assert w[..2 * (|w| / 2)] == w;
    }
  }

  lemma SpliceInside(b: seq<byte>, at: nat, w: seq<byte>)
    requires at + |w| <= |b|
    ensures Part(Splice(b, at, w), at, at + |w|) == w
  {
  }

  lemma SpliceOutside(b: seq<byte>, at: nat, w: seq<byte>, lo: int, hi: int)
    requires at + |w| <= |b| && 0 <= lo <= hi <= |b| && (hi <= at || at + |w| <= lo)
    ensures Part(Splice(b, at, w), lo, hi) == Part(b, lo, hi)
  {
    var r := Splice(b, at, w);
    assert forall i :: lo <= i < hi ==> r[i] == b[i];
  }

  /** Splicing y right after x is splicing x + y. */
  lemma SpliceTwice(b: seq<byte>, at: nat, x: seq<byte>, y: seq<byte>)
    requires at + |x| + |y| <= |b|
    ensures Splice(Splice(b, at, x), at + |x|, y) == Splice(b, at, x + y)
  {
  }

  // Repeated fields

  /** Element n - 1 of m, d bytes each, starts at a non-negative place and ends by the
      end of the last. */
  lemma Windows(n: nat, m: nat, d: int)
    requires 1 <= n <= m && d > 0
    ensures 0 <= (n - 1) * d && (n - 1) * d + d == n * d <= m * d
  {
    assert (m - n) * d >= 0;
  }

  /** Element k of a repeated field, written on its window of b, gives its image. */
  predicate WritesAt(b: seq<byte>, fc: FieldCodec, items: seq<Value>, imgs: seq<seq<byte>>, k: nat)
    requires fc.kind.Slice? && fc.elementSize > 0 && k < |items| == |imgs|
  {
    var at := fc.offset + k * fc.elementSize;
    && 0 <= at && at + fc.elementSize <= |b|
    && ElementWrite(fc.kind.elem, fc.order, items[k], b[at..at + fc.elementSize], k) == Ok(imgs[k])
  }

  /** The first n of equal-sized chunks spliced one after another from lo, as
      WriteElements lays its elements. */
  function Spliced(b: seq<byte>, lo: nat, size: int, chunks: seq<seq<byte>>, n: nat): (r: seq<byte>)
    requires size > 0 && n <= |chunks| && lo + |chunks| * size <= |b|
    requires forall i :: 0 <= i < |chunks| ==> |chunks[i]| == size
    ensures |r| == |b|
  {
    if n == 0 then b
    else
      Windows(n, |chunks|, size);
      Splice(Spliced(b, lo, size, chunks, n - 1), lo + (n - 1) * size, chunks[n - 1])
  }

  /** Laying the first n chunks one by one is splicing them tiled. */
  lemma {:induction false} SplicedTile(b: seq<byte>, lo: nat, size: int, chunks: seq<seq<byte>>, n: nat)
    requires size > 0 && n <= |chunks| && lo + |chunks| * size <= |b|
    requires forall i :: 0 <= i < |chunks| ==> |chunks[i]| == size
    ensures lo + |Tile(chunks[..n])| <= |b|
    ensures Spliced(b, lo, size, chunks, n) == Splice(b, lo, Tile(chunks[..n]))
  {
    if n > 0 {
      SplicedTile(b, lo, size, chunks, n - 1);
      Windows(n, |chunks|, size);
      SpliceNext(b, lo, chunks, size, n, |chunks|);
    } else {
      assert chunks[..n] == [];
      assert Splice(b, lo, []) == b;
    }
  }

  /** Laying the first n - 1 chunks leaves the window of chunk n - 1 as it was. */
  lemma SplicedOutside(b: seq<byte>, lo: nat, size: int, chunks: seq<seq<byte>>, n: nat)
    requires size > 0 && 0 < n <= |chunks| && lo + |chunks| * size <= |b|
    requires forall i :: 0 <= i < |chunks| ==> |chunks[i]| == size
    ensures 0 <= lo + (n - 1) * size && lo + (n - 1) * size + size <= |b|
    ensures Spliced(b, lo, size, chunks, n - 1)[lo + (n - 1) * size..lo + (n - 1) * size + size]
            == b[lo + (n - 1) * size..lo + (n - 1) * size + size]
  {
    Windows(n, |chunks|, size);
    SplicedTile(b, lo, size, chunks, n - 1);
    SpliceNext(b, lo, chunks, size, n, |chunks|);
  }

  /** The elements of a repeated field land one window after another. */
  lemma {:induction false} WriteElementsLays(b: seq<byte>, fc: FieldCodec, items: seq<Value>, imgs: seq<seq<byte>>, n: nat)
    requires fc.kind.Slice? && fc.elementSize > 0 && fc.offset >= 0
    requires n <= |items| == |imgs| && fc.offset + |items| * fc.elementSize <= |b|
    requires forall k :: 0 <= k < |imgs| ==> |imgs[k]| == fc.elementSize
    requires forall k :: 0 <= k < |items| ==> WritesAt(b, fc, items, imgs, k)
    ensures WriteElements(b, fc, items, n) == (Spliced(b, fc.offset, fc.elementSize, imgs, n), None)
  {
    if n > 0 {
      WriteElementsLays(b, fc, items, imgs, n - 1);
      WriteElementsNext(b, fc, items, imgs, n);
    }
  }

  /** Chunk n - 1 spliced after the first n - 1 chunks, on a window they left alone. */
  lemma SpliceNext(b: seq<byte>, lo: nat, chunks: seq<seq<byte>>, size: int, n: nat, m: nat)
    requires forall i :: 0 <= i < |chunks| ==> |chunks[i]| == size
    requires 0 < n <= m == |chunks| && size > 0 && lo + m * size <= |b|
    requires 0 <= (n - 1) * size && (n - 1) * size + size == n * size <= m * size
    ensures |Tile(chunks[..n - 1])| == (n - 1) * size && lo + |Tile(chunks[..n])| <= |b|
    ensures var at := lo + (n - 1) * size;
            Part(Splice(b, lo, Tile(chunks[..n - 1])), at, at + size) == Part(b, at, at + size)
    ensures Splice(Splice(b, lo, Tile(chunks[..n - 1])), lo + (n - 1) * size, chunks[n - 1])
            == Splice(b, lo, Tile(chunks[..n]))
  {
    TilePrefix(chunks, size, n);
    var x := Tile(chunks[..n - 1]);
    var at := lo + (n - 1) * size;
    SpliceOutside(b, lo, x, at, at + size);
    SpliceTwice(b, lo, x, chunks[n - 1]);
  }

  /** The pass of WriteElements on element n - 1, once the earlier ones are laid. */
  lemma WriteElementsNext(b: seq<byte>, fc: FieldCodec, items: seq<Value>, imgs: seq<seq<byte>>, n: nat)
    requires fc.kind.Slice? && fc.elementSize > 0 && fc.offset >= 0
    requires 0 < n <= |items| == |imgs| && fc.offset + |items| * fc.elementSize <= |b|
    requires forall k :: 0 <= k < |imgs| ==> |imgs[k]| == fc.elementSize
    requires WriteElements(b, fc, items, n - 1) == (Spliced(b, fc.offset, fc.elementSize, imgs, n - 1), None)
    requires forall k :: 0 <= k < |items| ==> WritesAt(b, fc, items, imgs, k)
    ensures WriteElements(b, fc, items, n) == (Spliced(b, fc.offset, fc.elementSize, imgs, n), None)
  {
    SplicedOutside(b, fc.offset, fc.elementSize, imgs, n);
    assert WritesAt(b, fc, items, imgs, n - 1);
  }

  /** One element written on a zeroed window. */
  lemma ElementWrites(b: seq<byte>, at: int, e: Kind, order: ByteOrder, es: int, x: Value, i: nat)
    requires Numeric(e) && Width(e) <= es && 0 <= at && at + es <= |b|
    requires forall j :: at <= j < at + es ==> b[j] == 0
    ensures ElementWrite(e, order, x, b[at..at + es], i) == Ok(ElemImage(e, order, es, x))
  {
    assert b[at..at + es][Width(e)..] == Pad(es - Width(e));
  }

  /** Element k of a repeated field's window decodes to item k. */
  predicate ReadsAt(data: seq<byte>, fc: FieldCodec, items: seq<Value>, k: nat)
    requires fc.kind.Slice? && fc.elementSize > 0 && k < |items|
  {
    var at := fc.offset + k * fc.elementSize;
    && 0 <= at && at + fc.elementSize <= |data|
    && ElementRead(fc.kind.elem, fc.order, data[at..at + fc.elementSize], k) == Ok(items[k])
  }

  /** The elements of a repeated field read back from their windows. */
  lemma {:induction false} ReadElementsBack(data: seq<byte>, fc: FieldCodec, items: seq<Value>, n: nat)
    requires fc.kind.Slice? && fc.elementSize > 0
    requires fc.offset >= 0 && n <= |items| && fc.offset + |items| * fc.elementSize <= |data|
    requires forall k :: 0 <= k < n ==> ReadsAt(data, fc, items, k)
    ensures ReadElements(data, fc, |items|, n) == Ok(items[..n])
  {
    if n > 0 {
      ReadElementsBack(data, fc, items, n - 1);
      ReadElementsStep(data, fc, items, n);
    } else {
      assert items[..n] == [];
    }
  }

  /** Element n - 1 read after the first n - 1. */
  lemma ReadElementsStep(data: seq<byte>, fc: FieldCodec, items: seq<Value>, n: nat)
    requires fc.kind.Slice? && fc.elementSize > 0
    requires fc.offset >= 0 && 0 < n <= |items| && fc.offset + |items| * fc.elementSize <= |data|
    requires ReadElements(data, fc, |items|, n - 1) == Ok(items[..n - 1])
    requires ReadsAt(data, fc, items, n - 1)
    ensures ReadElements(data, fc, |items|, n) == Ok(items[..n])
  {
    Windows(n, |items|, fc.elementSize);
    Snoc(items, n);
    ReadElementsNext(data, fc, |items|, n, items[..n - 1], items[n - 1]);
  }

  /** Element k of a repeated field read from chunk k of the laid chunks. */
  lemma ChunkReads(data: seq<byte>, fc: FieldCodec, chunks: seq<seq<byte>>, items: seq<Value>, k: nat)
    requires fc.kind.Slice? && fc.elementSize > 0 && fc.offset >= 0
    requires k < |items| == |chunks| && fc.offset + |chunks| * fc.elementSize <= |data|
    requires forall i :: 0 <= i < |chunks| ==> |chunks[i]| == fc.elementSize
    requires data[fc.offset..fc.offset + |chunks| * fc.elementSize] == Tile(chunks)
    requires ElementRead(fc.kind.elem, fc.order, chunks[k], k) == Ok(items[k])
    ensures ReadsAt(data, fc, items, k)
  {
    ImageAt(data, fc.offset, chunks, fc.elementSize, k);
  }

  /** Chunk k of the chunks laid from lo sits k sizes after lo. */
  lemma ImageAt(data: seq<byte>, lo: int, chunks: seq<seq<byte>>, size: int, k: nat)
    requires forall i :: 0 <= i < |chunks| ==> |chunks[i]| == size
    requires size > 0 && k < |chunks| && 0 <= lo && lo + |chunks| * size <= |data|
    requires data[lo..lo + |chunks| * size] == Tile(chunks)
    ensures 0 <= k * size && k * size + size <= |chunks| * size
    ensures data[lo + k * size..lo + k * size + size] == chunks[k]
  {
    TileWindow(chunks, size, k);
    Subslice(data, lo, lo + |chunks| * size, k * size, k * size + size);
  }

  /** A window of a window is a window. */
  lemma Subslice(data: seq<byte>, lo: int, hi: int, a: int, b: int)
    requires 0 <= lo && 0 <= a <= b <= hi - lo && hi <= |data|
    ensures data[lo..hi][a..b] == data[lo + a..lo + b]
  {
    assert forall i :: 0 <= i < b - a ==> data[lo..hi][a..b][i] == data[lo + a + i];
  }

  /** The first n equal-sized chunks are the first n - 1 and chunk n - 1, n sizes long. */
  lemma TilePrefix(chunks: seq<seq<byte>>, size: int, n: nat)
    requires forall i :: 0 <= i < |chunks| ==> |chunks[i]| == size
    requires 0 < n <= |chunks|
    ensures |Tile(chunks[..n - 1])| == (n - 1) * size
    ensures Tile(chunks[..n]) == Tile(chunks[..n - 1]) + chunks[n - 1]
    ensures |Tile(chunks[..n])| == (n - 1) * size + size
  {
    TileLength(chunks[..n - 1], size);
    TileSnoc(chunks, n);
  }

  /** The first n chunks are the first n - 1 and chunk n - 1. */
  lemma TileSnoc(chunks: seq<seq<byte>>, n: nat)
    requires 0 < n <= |chunks|
    ensures Tile(chunks[..n]) == Tile(chunks[..n - 1]) + chunks[n - 1]
  {
    assert chunks[..n][..n - 1] == chunks[..n - 1];
  }

  lemma ImagesSized(e: Kind, order: ByteOrder, size: int, items: seq<Value>)
    requires Width(e) <= size
    ensures forall i :: 0 <= i < |items| ==> |Images(e, order, size, items)[i]| == size
  {
  }

  lemma {:induction false} TileLength(chunks: seq<seq<byte>>, size: int)
    requires forall i :: 0 <= i < |chunks| ==> |chunks[i]| == size
    ensures |Tile(chunks)| == |chunks| * size
  {
    if chunks != [] {
      var m := |chunks|;
      TileLength(chunks[..m - 1], size);
      assert |chunks[..m - 1]| == m - 1;
      assert (m - 1) * size + size == m * size;
    }
  }

  /** Chunk k of equal-sized chunks sits k sizes in. */
  lemma {:induction false} TileWindow(chunks: seq<seq<byte>>, size: int, k: nat)
    requires forall i :: 0 <= i < |chunks| ==> |chunks[i]| == size
    requires size > 0 && k < |chunks|
    ensures 0 <= k * size && k * size + size <= |chunks| * size == |Tile(chunks)|
    ensures Tile(chunks)[k * size..k * size + size] == chunks[k]
  {
    var m := |chunks|;
    var pre := chunks[..m - 1];
    TileLength(chunks, size);
    TileLength(pre, size);
    Windows(k + 1, m, size);
    Windows(m, m, size);
    if k < m - 1 {
      Windows(k + 1, m - 1, size);
      TileWindow(pre, size, k);
      SliceLeft(Tile(pre), chunks[m - 1], k * size, k * size + size);
    } else {
      SliceRight(Tile(pre), chunks[m - 1], k * size);
    }
  }

  lemma SliceLeft(x: seq<byte>, y: seq<byte>, a: int, b: int)
    requires 0 <= a <= b <= |x|
    ensures (x + y)[a..b] == x[a..b]
  {
  }

  lemma SliceRight(x: seq<byte>, y: seq<byte>, a: int)
    requires a == |x|
    ensures (x + y)[a..a + |y|] == y
  {
  }

  /** The first n items are the first n - 1 and item n - 1. */
  lemma Snoc(items: seq<Value>, n: nat)
    requires 0 < n <= |items|
    ensures items[..n - 1] + [items[n - 1]] == items[..n]
  {
  }

  /** The pass of ReadElements on element n - 1, once the earlier ones are read. */
  lemma ReadElementsNext(data: seq<byte>, fc: FieldCodec, count: nat, n: nat, prev: seq<Value>, x: Value)
    requires fc.kind.Slice? && fc.elementSize > 0 && 0 < n <= count && fc.offset >= 0
    requires fc.offset + count * fc.elementSize <= |data|
    requires 0 <= (n - 1) * fc.elementSize
    requires (n - 1) * fc.elementSize + fc.elementSize == n * fc.elementSize <= count * fc.elementSize
    requires ReadElements(data, fc, count, n - 1) == Ok(prev)
    requires var at := fc.offset + (n - 1) * fc.elementSize;
             ElementRead(fc.kind.elem, fc.order, data[at..at + fc.elementSize], n - 1) == Ok(x)
    ensures ReadElements(data, fc, count, n) == Ok(prev + [x])
  {
  }

  /** An element read from a window that holds its image. */
  lemma ElementReadsAt(data: seq<byte>, at: int, e: Kind, order: ByteOrder, es: int, x: Value, i: nat)
    requires Numeric(e) && Width(e) <= es && Fits(e, x) && 0 <= at && at + es <= |data|
    requires data[at..at + es] == ElemImage(e, order, es, x)
    ensures ElementRead(e, order, data[at..at + es], i) == Ok(x)
  {
    ElementReads(e, order, es, x, i);
  }

  lemma ElementReads(e: Kind, order: ByteOrder, es: int, x: Value, i: nat)
    requires Numeric(e) && Width(e) <= es && Fits(e, x)
    ensures ElementRead(e, order, ElemImage(e, order, es, x), i) == Ok(x)
  {
    assert ElemImage(e, order, es, x)[..Width(e)] == ScalarBytes(e, order, x);
    ScalarRoundTrip(e, order, x);
  }

  /** The elements of a slice value fit the element kind, and make the slice again. */
  lemma ElementsOfSlice(e: Kind, v: Value)
    requires Fits(Slice(e), v)
    ensures forall i :: 0 <= i < |Elements(v)| ==> Fits(e, Elements(v)[i])
    ensures SliceOf(e, Elements(v)) == v
  {
    if e == Uint8 {
      assert SliceOf(e, Elements(v)).bytes == v.bytes;
    }
  }

  // Writing one field

  /** An active codec writes v where its bits or its region are still zero. */
  lemma BodyWrites(b: seq<byte>, m: int, fc: FieldCodec, v: Value)
    requires Plain(fc, v) && End(fc, v) <= |b| && Holds(b, fc, v, false)
    ensures EncodeBody(b, m, fc, v).err.None?
    ensures EncodeBody(b, m, fc, v).buf == Put(b, fc, v)
  {
    if fc.isBitField {
      BitWrites(b, fc, v);
    } else {
      assert b[fc.offset..End(fc, v)] == Pad(Extent(fc, v));
      if fc.isRepeat && fc.kind.Slice? {
        RepeatWrites(b, fc, v);
      } else if fc.isVariable {
        VariableWrites(b, fc, v);
      } else {
        FixedWrites(b, fc, v);
      }
    }
  }

  lemma BitWrites(b: seq<byte>, fc: FieldCodec, v: Value)
    requires Plain(fc, v) && fc.isBitField && End(fc, v) <= |b|
    ensures WriteFixed(b, fc, v) == Ok(Put(b, fc, v))
  {
    var w := b[fc.offset..fc.offset + 1];
    var x := EncodeBitField(b[fc.offset], NatOf(v), fc.bitStart, fc.bitEnd);
    assert w[0] == b[fc.offset] && NatOf(v) == v.u;
    assert [x] + w[1..] == [x];
    assert UintOf(fc.kind, v) == Some(v.u);
    assert FixedWrite(fc, v, w) == Ok([x]);
  }

  lemma RepeatWrites(b: seq<byte>, fc: FieldCodec, v: Value)
    requires Plain(fc, v) && !fc.isBitField && fc.isRepeat && fc.kind.Slice? && End(fc, v) <= |b|
    requires b[fc.offset..End(fc, v)] == Pad(Extent(fc, v))
    ensures WriteRepeat(b, fc, Elements(v)) == (Put(b, fc, v), None)
  {
    var e, es, items := fc.kind.elem, fc.elementSize, Elements(v);
    var imgs := Images(e, fc.order, es, items);
    assert forall i :: fc.offset <= i < End(fc, v) ==> b[i] == b[fc.offset..End(fc, v)][i - fc.offset];
    forall k | 0 <= k < |items|
      ensures WritesAt(b, fc, items, imgs, k)
    {
      Windows(k + 1, |items|, es);
      ElementWrites(b, fc.offset + k * es, e, fc.order, es, items[k], k);
    }
    WriteElementsLays(b, fc, items, imgs, |items|);
    SplicedTile(b, fc.offset, es, imgs, |items|);
    assert imgs[..|items|] == imgs;
  }

  lemma VariableWrites(b: seq<byte>, fc: FieldCodec, v: Value)
    requires Plain(fc, v) && !fc.isBitField && !(fc.isRepeat && fc.kind.Slice?) && fc.isVariable && End(fc, v) <= |b|
    ensures WriteVariable(b, fc, v) == Ok(Splice(b, fc.offset, Copy(b[fc.offset..End(fc, v)], Payload(v))))
    ensures Copy(b[fc.offset..End(fc, v)], Payload(v)) == Image(fc, v)
  {
    assert Payload(v)[..|Payload(v)|] == Payload(v);
  }

  lemma FixedWrites(b: seq<byte>, fc: FieldCodec, v: Value)
    requires Plain(fc, v) && !fc.isBitField && !(fc.isRepeat && fc.kind.Slice?) && !fc.isVariable
    requires End(fc, v) <= |b| && b[fc.offset..End(fc, v)] == Pad(Extent(fc, v))
    ensures WriteFixed(b, fc, v) == Ok(Put(b, fc, v))
  {
    FixedImage(fc, v);
  }

  /** Writing v for codec fc sets its own bits or region. */
  lemma PutSelf(b: seq<byte>, fc: FieldCodec, v: Value)
    requires Plain(fc, v) && End(fc, v) <= |b|
    ensures Holds(Put(b, fc, v), fc, v, true)
  {
    if fc.isBitField {
      assert Put(b, fc, v)[fc.offset] == EncodeBitField(b[fc.offset], v.u, fc.bitStart, fc.bitEnd);
      BitFieldRoundTrip(b[fc.offset], v.u, fc.bitStart, fc.bitEnd);
    } else {
      SpliceInside(b, fc.offset, Image(fc, v));
    }
  }

  /** Writing v for codec fc keeps what every codec apart from it holds. */
  lemma PutOther(b: seq<byte>, fc: FieldCodec, v: Value, g: FieldCodec, w: Value, done: bool)
    requires Plain(fc, v) && End(fc, v) <= |b| && Plain(g, w) && End(g, w) <= |b|
    requires Apart(fc, v, g, w) || Apart(g, w, fc, v)
    requires Holds(b, g, w, done)
    ensures Holds(Put(b, fc, v), g, w, done)
  {
    var r := Put(b, fc, v);
    if g.isBitField {
      if fc.isBitField && fc.offset == g.offset {
        assert r[fc.offset] == EncodeBitField(b[fc.offset], NatOf(v), fc.bitStart, fc.bitEnd);
        BitFieldsDisjoint(b[fc.offset], NatOf(v), fc.bitStart, fc.bitEnd, g.bitStart, g.bitEnd);
      } else {
        assert r[g.offset] == b[g.offset];
      }
    } else if fc.isBitField {
      SpliceOutside(b, fc.offset, [EncodeBitField(b[fc.offset], NatOf(v), fc.bitStart, fc.bitEnd)], g.offset, End(g, w));
    } else {
      SpliceOutside(b, fc.offset, Image(fc, v), g.offset, End(g, w));
    }
  }

  // Reading one field

  /** An active codec reads v back from bytes that hold it, once its len field holds the
      count. */
  lemma BodyReads(data: seq<byte>, fc: FieldCodec, kinds: seq<Kind>, st: seq<Value>, v: Value)
    requires |st| == |kinds| && FieldOk(fc, kinds) && Plain(fc, v)
    requires Fits(fc.kind, v) && Fits(fc.kind, st[fc.index])
    requires End(fc, v) <= |data| && Holds(data, fc, v, true)
    requires fc.isVariable || (fc.isRepeat && fc.kind.Slice?) ==>
               && UintOf(kinds[fc.lenIndex], st[fc.lenIndex]) == Some(VarLen(fc.kind, v))
               && VarLen(fc.kind, v) < 0x8000_0000_0000_0000
    ensures ReadBody(data, fc, kinds, st) == Ok(st[fc.index := v])
  {
    if fc.isBitField {
      BitReads(data, fc, kinds, st, v);
    } else {
      assert data[fc.offset..End(fc, v)] == Image(fc, v);
      if fc.isRepeat && fc.kind.Slice? {
        assert GoInt(VarLen(fc.kind, v)) == VarLen(fc.kind, v);
        RepeatReads(data, fc, v);
      } else if fc.isVariable {
        VariableReads(data, fc, kinds, st, v);
      } else {
        FixedReadsImage(fc, v, st[fc.index]);
        FixedReads(data, fc, kinds, st, v);
      }
    }
  }

  lemma BitReads(data: seq<byte>, fc: FieldCodec, kinds: seq<Kind>, st: seq<Value>, v: Value)
    requires |st| == |kinds| && FieldOk(fc, kinds) && Plain(fc, v) && fc.isBitField
    requires End(fc, v) <= |data| && Holds(data, fc, v, true)
    ensures ReadBody(data, fc, kinds, st) == Ok(st[fc.index := v])
  {
    var w := data[fc.offset..fc.offset + 1];
    assert w[0] == data[fc.offset];
    assert FixedRead(fc, w, st[fc.index]) == Ok(v);
  }

  lemma VariableReads(data: seq<byte>, fc: FieldCodec, kinds: seq<Kind>, st: seq<Value>, v: Value)
    requires |st| == |kinds| && FieldOk(fc, kinds) && Plain(fc, v)
    requires !fc.isBitField && !(fc.isRepeat && fc.kind.Slice?) && fc.isVariable && Fits(fc.kind, v)
    requires End(fc, v) <= |data| && data[fc.offset..End(fc, v)] == Image(fc, v)
    requires UintOf(kinds[fc.lenIndex], st[fc.lenIndex]) == Some(VarLen(fc.kind, v))
    requires VarLen(fc.kind, v) < 0x8000_0000_0000_0000
    ensures ReadBody(data, fc, kinds, st) == Ok(st[fc.index := v])
  {
    assert GoInt(VarLen(fc.kind, v)) == VarLen(fc.kind, v);
    assert ReadVariable(data, fc, VarLen(fc.kind, v), st[fc.index]) == Ok(v);
  }

  lemma FixedReads(data: seq<byte>, fc: FieldCodec, kinds: seq<Kind>, st: seq<Value>, v: Value)
    requires |st| == |kinds| && FieldOk(fc, kinds) && Plain(fc, v)
    requires !fc.isBitField && !(fc.isRepeat && fc.kind.Slice?) && !fc.isVariable
    requires End(fc, v) <= |data| && FixedRead(fc, data[fc.offset..End(fc, v)], st[fc.index]) == Ok(v)
    ensures ReadBody(data, fc, kinds, st) == Ok(st[fc.index := v])
  {
  }

  lemma RepeatReads(data: seq<byte>, fc: FieldCodec, v: Value)
    requires Plain(fc, v) && !fc.isBitField && fc.isRepeat && fc.kind.Slice? && Fits(fc.kind, v)
    requires End(fc, v) <= |data| && data[fc.offset..End(fc, v)] == Image(fc, v)
    ensures ReadRepeat(data, fc, |Elements(v)|) == Ok(v)
  {
    var items := Elements(v);
    assert items[..|items|] == items;
    ElementsOfSlice(fc.kind.elem, v);
    ImagesRead(data, fc, items);
    ReadElementsBack(data, fc, items, |items|);
  }

  /** Every element of a repeated field reads back from the images laid at its offset. */
  lemma ImagesRead(data: seq<byte>, fc: FieldCodec, items: seq<Value>)
    requires fc.kind.Slice? && Numeric(fc.kind.elem) && Width(fc.kind.elem) <= fc.elementSize && fc.elementSize > 0
    requires fc.offset >= 0 && fc.offset + |items| * fc.elementSize <= |data|
    requires forall i :: 0 <= i < |items| ==> Fits(fc.kind.elem, items[i])
    requires data[fc.offset..fc.offset + |items| * fc.elementSize] == Tile(Images(fc.kind.elem, fc.order, fc.elementSize, items))
    ensures forall k :: 0 <= k < |items| ==> ReadsAt(data, fc, items, k)
  {
    var imgs := Images(fc.kind.elem, fc.order, fc.elementSize, items);
    ImagesSized(fc.kind.elem, fc.order, fc.elementSize, items);
    forall k | 0 <= k < |items|
      ensures ReadsAt(data, fc, items, k)
    {
      ElementReads(fc.kind.elem, fc.order, fc.elementSize, items[k], k);
      ChunkReads(data, fc, imgs, items, k);
    }
  }

  // Layouts

  /** Field j is read by an active codec before position p. */
  ghost predicate DecodedBefore(fcs: seq<FieldCodec>, kinds: seq<Kind>, vals: seq<Value>, p: nat, j: nat)
    requires |vals| == |kinds| && AllOk(fcs, kinds) && p <= |fcs|
  {
    exists q :: 0 <= q < p && fcs[q].index == j && Active(fcs[q], kinds, vals)
  }

  /** The len field of a variable-length or repeated field at position p holds the
      value's length, is unsigned, and is read before it. */
  ghost predicate LenField(fcs: seq<FieldCodec>, kinds: seq<Kind>, vals: seq<Value>, p: nat)
    requires |vals| == |kinds| && AllOk(fcs, kinds) && p < |fcs|
  {
    var fc := fcs[p];
    && UintOf(kinds[fc.lenIndex], vals[fc.lenIndex]) == Some(VarLen(fc.kind, vals[fc.index]))
    && VarLen(fc.kind, vals[fc.index]) < 0x8000_0000_0000_0000
    && DecodedBefore(fcs, kinds, vals, p, fc.lenIndex)
  }

  /** The cond field of a conditional field at position p is unsigned and read before
      it. */
  ghost predicate CondField(fcs: seq<FieldCodec>, kinds: seq<Kind>, vals: seq<Value>, p: nat)
    requires |vals| == |kinds| && AllOk(fcs, kinds) && p < |fcs|
  {
    var fc := fcs[p];
    UintOf(kinds[fc.condIndex], vals[fc.condIndex]).Some? && DecodedBefore(fcs, kinds, vals, p, fc.condIndex)
  }

  /** The layouts the round trip covers: no array of structs to size, every active codec
      plain for its value, the regions of distinct active codecs apart, every length in
      its len field, and every cond field unsigned and read before the fields it
      switches. */
  ghost predicate Layout(fcs: seq<FieldCodec>, kinds: seq<Kind>, vals: seq<Value>)
    requires |vals| == |kinds| && AllOk(fcs, kinds)
  {
    && (forall p :: 0 <= p < |fcs| ==> Reserve(fcs[p], vals[fcs[p].index]).Ok?)
    && (forall p :: 0 <= p < |fcs| && Active(fcs[p], kinds, vals) ==> Plain(fcs[p], vals[fcs[p].index]))
    && (forall p, q :: 0 <= p < q < |fcs| && Active(fcs[p], kinds, vals) && Active(fcs[q], kinds, vals) ==>
          Apart(fcs[p], vals[fcs[p].index], fcs[q], vals[fcs[q].index]))
    && (forall p :: 0 <= p < |fcs| && Active(fcs[p], kinds, vals) && (fcs[p].isVariable || (fcs[p].isRepeat && fcs[p].kind.Slice?)) ==>
          LenField(fcs, kinds, vals, p))
    && (forall p :: 0 <= p < |fcs| && fcs[p].conditional ==> CondField(fcs, kinds, vals, p))
  }

  /** Every active region ends within t bytes. */
  ghost predicate Inside(fcs: seq<FieldCodec>, kinds: seq<Kind>, vals: seq<Value>, t: int)
    requires |vals| == |kinds| && AllOk(fcs, kinds)
  {
    forall p :: 0 <= p < |fcs| && Active(fcs[p], kinds, vals) ==> End(fcs[p], vals[fcs[p].index]) <= t
  }

  /** The active codecs before k hold their values in b, the others are still zero. */
  ghost predicate Laid(b: seq<byte>, fcs: seq<FieldCodec>, kinds: seq<Kind>, vals: seq<Value>, k: nat)
    requires |vals| == |kinds| && AllOk(fcs, kinds)
  {
    forall p :: 0 <= p < |fcs| && Active(fcs[p], kinds, vals) ==> Holds(b, fcs[p], vals[fcs[p].index], p < k)
  }

  lemma ZerosLaid(fcs: seq<FieldCodec>, kinds: seq<Kind>, vals: seq<Value>, t: nat)
    requires |vals| == |kinds| && AllOk(fcs, kinds) && Inside(fcs, kinds, vals, t)
    requires forall p :: 0 <= p < |fcs| && Active(fcs[p], kinds, vals) ==> Plain(fcs[p], vals[fcs[p].index])
    ensures Laid(Zeros(t), fcs, kinds, vals, 0)
  {
    forall p | 0 <= p < |fcs| && Active(fcs[p], kinds, vals)
      ensures Holds(Zeros(t), fcs[p], vals[fcs[p].index], false)
    {
      var fc := fcs[p];
      assert Plain(fc, vals[fc.index]);
      if fc.isBitField {
        DecodeZero(fc.bitStart, fc.bitEnd);
      }
    }
  }

  /** Writing active codec k keeps every other region and sets its own. */
  lemma LaidStep(b: seq<byte>, fcs: seq<FieldCodec>, kinds: seq<Kind>, vals: seq<Value>, k: nat)
    requires |vals| == |kinds| && AllOk(fcs, kinds) && Layout(fcs, kinds, vals) && k < |fcs|
    requires Active(fcs[k], kinds, vals) && Inside(fcs, kinds, vals, |b|) && Laid(b, fcs, kinds, vals, k)
    ensures Plain(fcs[k], vals[fcs[k].index]) && End(fcs[k], vals[fcs[k].index]) <= |b|
    ensures Laid(Put(b, fcs[k], vals[fcs[k].index]), fcs, kinds, vals, k + 1)
  {
    var fc := fcs[k];
    var v := vals[fc.index];
    assert Plain(fc, v) && End(fc, v) <= |b|;
    forall p | 0 <= p < |fcs| && Active(fcs[p], kinds, vals)
      ensures Holds(Put(b, fc, v), fcs[p], vals[fcs[p].index], p < k + 1)
    {
      if p == k {
        PutSelf(b, fc, v);
      } else {
        var g := fcs[p];
        var w := vals[g.index];
        assert Plain(g, w) && End(g, w) <= |b| && Holds(b, g, w, p < k);
        if p < k {
          assert Apart(g, w, fc, v);
        } else {
          assert Apart(fc, v, g, w);
        }
        PutOther(b, fc, v, g, w, p < k);
      }
    }
  }

  /** One pass of encodeToBuffer over a buffer laid out up to codec k. */
  lemma EncodeLaidStep(b: seq<byte>, m: int, fcs: seq<FieldCodec>, kinds: seq<Kind>, vals: seq<Value>, k: nat)
    requires k < |fcs| && |vals| == |kinds| && AllOk(fcs, kinds) && Layout(fcs, kinds, vals)
    requires Inside(fcs, kinds, vals, |b|) && Laid(b, fcs, kinds, vals, k)
    ensures EncodeStep(b, m, fcs[k], kinds, vals).err.None?
    ensures Laid(EncodeStep(b, m, fcs[k], kinds, vals).buf, fcs, kinds, vals, k + 1)
  {
    if Active(fcs[k], kinds, vals) {
      EncodeActive(b, m, fcs, kinds, vals, k);
    } else {
      assert CondField(fcs, kinds, vals, k);
      EncodeSkipped(b, m, fcs[k], kinds, vals);
      LaidSkip(b, fcs, kinds, vals, k);
    }
  }

  lemma EncodeActive(b: seq<byte>, m: int, fcs: seq<FieldCodec>, kinds: seq<Kind>, vals: seq<Value>, k: nat)
    requires k < |fcs| && |vals| == |kinds| && AllOk(fcs, kinds) && Layout(fcs, kinds, vals)
    requires Inside(fcs, kinds, vals, |b|) && Laid(b, fcs, kinds, vals, k) && Active(fcs[k], kinds, vals)
    ensures EncodeStep(b, m, fcs[k], kinds, vals).err.None?
    ensures Laid(EncodeStep(b, m, fcs[k], kinds, vals).buf, fcs, kinds, vals, k + 1)
  {
    var fc := fcs[k];
    var v := vals[fc.index];
    LaidStep(b, fcs, kinds, vals, k);
    assert Holds(b, fc, v, false);
    assert EncodeStep(b, m, fc, kinds, vals) == EncodeBody(b, m, fc, v);
    BodyWrites(b, m, fc, v);
  }

  /** A switched-off codec with an unsigned cond field leaves the buffer as it was. */
  lemma EncodeSkipped(b: seq<byte>, m: int, fc: FieldCodec, kinds: seq<Kind>, vals: seq<Value>)
    requires |vals| == |kinds| && FieldOk(fc, kinds) && !Active(fc, kinds, vals)
    requires UintOf(kinds[fc.condIndex], vals[fc.condIndex]).Some?
    ensures EncodeStep(b, m, fc, kinds, vals) == Written(b, m, None)
  {
  }

  lemma LaidSkip(b: seq<byte>, fcs: seq<FieldCodec>, kinds: seq<Kind>, vals: seq<Value>, k: nat)
    requires k < |fcs| && |vals| == |kinds| && AllOk(fcs, kinds)
    requires Laid(b, fcs, kinds, vals, k) && !Active(fcs[k], kinds, vals)
    ensures Laid(b, fcs, kinds, vals, k + 1)
  {
    forall p | 0 <= p < |fcs| && Active(fcs[p], kinds, vals)
      ensures Holds(b, fcs[p], vals[fcs[p].index], p < k + 1)
    {
      assert p != k && (p < k + 1) == (p < k);
    }
  }

  /** encodeToBuffer over a buffer whose regions are zero leaves the active codecs before
      k holding their values and the rest zero. */
  lemma {:induction false} EncodeLaid(b: seq<byte>, fcs: seq<FieldCodec>, kinds: seq<Kind>, vals: seq<Value>, m: int, k: nat)
    requires k <= |fcs| && |vals| == |kinds| && AllOk(fcs, kinds) && Layout(fcs, kinds, vals)
    requires Inside(fcs, kinds, vals, |b|) && Laid(b, fcs, kinds, vals, 0)
    ensures EncodeFields(b, m, fcs, kinds, vals, k).err.None?
    ensures Laid(EncodeFields(b, m, fcs, kinds, vals, k).buf, fcs, kinds, vals, k)
  {
    if k > 0 {
      var j := k - 1;
      EncodeLaid(b, fcs, kinds, vals, m, j);
      EncodeLaidNext(b, fcs, kinds, vals, m, j);
      assert j + 1 == k;
    }
  }

  lemma EncodeLaidNext(b: seq<byte>, fcs: seq<FieldCodec>, kinds: seq<Kind>, vals: seq<Value>, m: int, k: nat)
    requires k < |fcs| && |vals| == |kinds| && AllOk(fcs, kinds) && Layout(fcs, kinds, vals) && Inside(fcs, kinds, vals, |b|)
    requires EncodeFields(b, m, fcs, kinds, vals, k).err.None? && Laid(EncodeFields(b, m, fcs, kinds, vals, k).buf, fcs, kinds, vals, k)
    ensures EncodeFields(b, m, fcs, kinds, vals, k + 1).err.None?
    ensures Laid(EncodeFields(b, m, fcs, kinds, vals, k + 1).buf, fcs, kinds, vals, k + 1)
  {
    var w := EncodeFields(b, m, fcs, kinds, vals, k);
    EncodeLaidStep(w.buf, w.maxSize, fcs, kinds, vals, k);
  }

  // Decoding

  /** The struct Decode leaves after the first k codecs of a round trip: the fields of
      the active ones from vals, the rest as they were in d. */
  function Merge(fcs: seq<FieldCodec>, kinds: seq<Kind>, vals: seq<Value>, d: seq<Value>, k: nat): (m: seq<Value>)
    requires k <= |fcs| && |d| == |vals| == |kinds| && AllOk(fcs, kinds)
    ensures |m| == |d|
  {
    if k == 0 then d
    else
      var m := Merge(fcs, kinds, vals, d, k - 1);
      if Active(fcs[k - 1], kinds, vals) then m[fcs[k - 1].index := vals[fcs[k - 1].index]] else m
  }

  /** The fields read by an active codec before k hold their vals, every other field its
      d. */
  lemma {:induction false} MergeAt(fcs: seq<FieldCodec>, kinds: seq<Kind>, vals: seq<Value>, d: seq<Value>, k: nat, j: nat)
    requires k <= |fcs| && |d| == |vals| == |kinds| && AllOk(fcs, kinds) && j < |d|
    ensures DecodedBefore(fcs, kinds, vals, k, j) ==> Merge(fcs, kinds, vals, d, k)[j] == vals[j]
    ensures !DecodedBefore(fcs, kinds, vals, k, j) ==> Merge(fcs, kinds, vals, d, k)[j] == d[j]
  {
    if k > 0 {
      MergeAt(fcs, kinds, vals, d, k - 1, j);
      if DecodedBefore(fcs, kinds, vals, k, j) && !DecodedBefore(fcs, kinds, vals, k - 1, j) {
        var q :| 0 <= q < k && fcs[q].index == j && Active(fcs[q], kinds, vals);
        assert q == k - 1;
      }
    }
  }

  lemma {:induction false} MergeTyped(fcs: seq<FieldCodec>, kinds: seq<Kind>, vals: seq<Value>, d: seq<Value>, k: nat)
    requires k <= |fcs| && Typed(kinds, vals) && Typed(kinds, d) && AllOk(fcs, kinds)
    ensures Typed(kinds, Merge(fcs, kinds, vals, d, k))
  {
    if k > 0 {
      MergeTyped(fcs, kinds, vals, d, k - 1);
    }
  }

  /** One pass of Decode over the encoded bytes, on the struct decoded so far. */
  lemma DecodeMergedStep(data: seq<byte>, fcs: seq<FieldCodec>, kinds: seq<Kind>, vals: seq<Value>, d: seq<Value>, k: nat)
    requires k < |fcs| && Typed(kinds, vals) && Typed(kinds, d) && AllOk(fcs, kinds)
    requires Layout(fcs, kinds, vals) && Inside(fcs, kinds, vals, |data|) && Laid(data, fcs, kinds, vals, |fcs|)
    ensures ReadStep(data, fcs[k], kinds, Merge(fcs, kinds, vals, d, k)) == Ok(Merge(fcs, kinds, vals, d, k + 1))
  {
    var st := Merge(fcs, kinds, vals, d, k);
    var fc := fcs[k];
    var v := vals[fc.index];
    if fc.conditional {
      assert CondField(fcs, kinds, vals, k);
      MergeAt(fcs, kinds, vals, d, k, fc.condIndex);
    }
    if Active(fc, kinds, vals) {
      assert Plain(fc, v) && End(fc, v) <= |data| && Holds(data, fc, v, true);
      MergeTyped(fcs, kinds, vals, d, k);
      if fc.isVariable || (fc.isRepeat && fc.kind.Slice?) {
        assert LenField(fcs, kinds, vals, k);
        MergeAt(fcs, kinds, vals, d, k, fc.lenIndex);
      }
      assert ReadStep(data, fc, kinds, st) == ReadBody(data, fc, kinds, st);
      BodyReads(data, fc, kinds, st, v);
    } else {
      assert ReadStep(data, fc, kinds, st) == Ok(st);
    }
  }

  /** Decode over the encoded bytes sets the fields of the active codecs before k to their
      vals. */
  lemma {:induction false} DecodeMerged(data: seq<byte>, fcs: seq<FieldCodec>, kinds: seq<Kind>, vals: seq<Value>, d: seq<Value>, k: nat)
    requires k <= |fcs| && Typed(kinds, vals) && Typed(kinds, d) && AllOk(fcs, kinds)
    requires Layout(fcs, kinds, vals) && Inside(fcs, kinds, vals, |data|) && Laid(data, fcs, kinds, vals, |fcs|)
    ensures ReadFields(data, fcs, kinds, d, k) == (Merge(fcs, kinds, vals, d, k), None)
  {
    if k > 0 {
      var j := k - 1;
      DecodeMerged(data, fcs, kinds, vals, d, j);
      DecodeMergedNext(data, fcs, kinds, vals, d, j);
    }
  }

  lemma DecodeMergedNext(data: seq<byte>, fcs: seq<FieldCodec>, kinds: seq<Kind>, vals: seq<Value>, d: seq<Value>, k: nat)
    requires k < |fcs| && Typed(kinds, vals) && Typed(kinds, d) && AllOk(fcs, kinds)
    requires Layout(fcs, kinds, vals) && Inside(fcs, kinds, vals, |data|) && Laid(data, fcs, kinds, vals, |fcs|)
    requires ReadFields(data, fcs, kinds, d, k) == (Merge(fcs, kinds, vals, d, k), None)
    ensures ReadFields(data, fcs, kinds, d, k + 1) == (Merge(fcs, kinds, vals, d, k + 1), None)
  {
    DecodeMergedStep(data, fcs, kinds, vals, d, k);
  }

  // Encode and Decode

  /** The field j is read by some active codec. */
  ghost predicate Decoded(fcs: seq<FieldCodec>, kinds: seq<Kind>, vals: seq<Value>, j: nat)
    requires |vals| == |kinds| && AllOk(fcs, kinds)
  {
    DecodedBefore(fcs, kinds, vals, |fcs|, j)
  }

  /** Encode of a covered layout succeeds on a buffer at least the fixed size, every
      active field held in it: a bit field in its bits, any other field's image in its
      region. */
  lemma EncodeLaysOut(c: Codec, kinds: seq<Kind>, vals: seq<Value>) returns (data: seq<byte>)
    requires WellFormed(c, kinds) && Typed(kinds, vals)
    requires AllOk(c.fields, kinds) && Layout(c.fields, kinds, vals)
    ensures EncodeValue(c, kinds, vals) == Ok(data) && |data| >= c.size
    ensures Inside(c.fields, kinds, vals, |data|) && Laid(data, c.fields, kinds, vals, |c.fields|)
  {
    var fcs := c.fields;
    assert Indexed(fcs, vals);
    TotalSizeSpec(c, vals);
    assert TotalSize(c, vals).Ok?;
    var t := TotalSize(c, vals).value;
    TotalInside(c, kinds, vals);
    ZerosLaid(fcs, kinds, vals, t);
    EncodeLaid(Zeros(t), fcs, kinds, vals, c.size, |fcs|);
    data := EncodeFields(Zeros(t), c.size, fcs, kinds, vals, |fcs|).buf;
  }

  /** The buffer Encode allocates holds every active field's region. */
  lemma TotalInside(c: Codec, kinds: seq<Kind>, vals: seq<Value>)
    requires |vals| == |kinds| && AllOk(c.fields, kinds) && Indexed(c.fields, vals)
    requires forall p :: 0 <= p < |c.fields| && c.fields[p].offset >= 0 && c.fields[p].size > 0 ==>
               c.fields[p].offset + c.fields[p].size <= c.size
    requires forall p :: 0 <= p < |c.fields| && (c.fields[p].isVariable || c.fields[p].isRepeat) ==> c.hasVarLen
    requires forall p :: 0 <= p < |c.fields| && Active(c.fields[p], kinds, vals) ==> Plain(c.fields[p], vals[c.fields[p].index])
    requires TotalSize(c, vals).Ok?
    ensures Inside(c.fields, kinds, vals, TotalSize(c, vals).value)
  {
    var fcs, t := c.fields, TotalSize(c, vals).value;
    TotalSizeSpec(c, vals);
    forall p | 0 <= p < |fcs| && Active(fcs[p], kinds, vals)
      ensures End(fcs[p], vals[fcs[p].index]) <= t
    {
      assert Plain(fcs[p], vals[fcs[p].index]);
    }
  }

  /** Decode(Encode(v)) gives v back. For a layout whose active fields are bit fields of
      one byte on disjoint bits, repeated numeric slices, byte slices, strings and
      scalars, in regions apart from one another, whose lengths sit in earlier unsigned
      len fields and whose conditions read earlier unsigned fields: Encode succeeds, and
      Decode of its bytes into any struct d succeeds, sets every field an active codec
      reads to its value in vals, and leaves the others, those of switched-off
      conditional fields included, as they were in d. */
  lemma RoundTrip(c: Codec, kinds: seq<Kind>, vals: seq<Value>, d: seq<Value>)
    requires WellFormed(c, kinds) && Typed(kinds, vals) && Typed(kinds, d)
    requires AllOk(c.fields, kinds) && Layout(c.fields, kinds, vals)
    ensures EncodeValue(c, kinds, vals).Ok?
    ensures var r := DecodeValue(c, kinds, EncodeValue(c, kinds, vals).value, d);
            && r.1.None?
            && forall j :: 0 <= j < |kinds| ==> r.0[j] == if Decoded(c.fields, kinds, vals, j) then vals[j] else d[j]
  {
    var fcs := c.fields;
    var data := EncodeLaysOut(c, kinds, vals);
    DecodeMerged(data, fcs, kinds, vals, d, |fcs|);
    assert DecodeValue(c, kinds, data, d) == (Merge(fcs, kinds, vals, d, |fcs|), None);
    forall j | 0 <= j < |kinds|
      ensures Merge(fcs, kinds, vals, d, |fcs|)[j] == if Decoded(fcs, kinds, vals, j) then vals[j] else d[j]
    {
      MergeAt(fcs, kinds, vals, d, |fcs|, j);
    }
  }
}
