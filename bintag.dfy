/**
 * The bin struct-tag parser of binpack (pkg/binpack/tag.go): "offset:size[:endian]"
 * followed by comma-separated options (repeat, len:, enc:, size:, bits:, if:, crc16:,
 * crc32:, checksum:), or "-" to skip the field.
 */
module BinTag {
  import opened Wrappers
  import opened GoStrings

  /** TagInfo, with Go's zero values for what a tag does not set. */
  datatype TagInfo = TagInfo(
    offset: int,        // -1: at the end
    size: int,          // -1: variable length
    byteOrder: string,  // "be" or "le"
    lenField: string,
    encoding: string,
    bits: string,
    condition: string,
    checksum: string,
    isRepeat: bool,
    elementSize: int,
    skip: bool)

  datatype TagError =
    | EmptyTag
    | InvalidBase
    | InvalidOffset(offsetError: NumError)
    | InvalidSize(sizeError: NumError)
    | InvalidEndian
    | InvalidOptionFormat(part: string)
    | InvalidElementSize(elementError: NumError)
    | InvalidSizeEndian
    | InvalidBitIndex(bitValue: string)
    | InvalidBitRange(rangeValue: string)
    | UnknownOption(key: string)

  /** What "-" gives: every field at its zero value but skip. */
  const SkipInfo := TagInfo(0, 0, "", "", "", "", "", "", false, 0, true)

  /** A bits option parseTag accepts: one index in 0..7, or a range start-end with
      0 <= start <= end <= 7. */
  predicate ValidBits(value: string)
  {
    if !Contains(value, "-") then
      Atoi(value).Ok? && 0 <= Atoi(value).value <= 7
    else
      var r := Split(value, "-");
      |r| == 2 && Atoi(r[0]).Ok? && Atoi(r[1]).Ok?
      && 0 <= Atoi(r[0]).value && Atoi(r[1]).value <= 7 && Atoi(r[0]).value <= Atoi(r[1]).value
  }

  /** The option keys parseTag knows. */
  predicate KnownKey(key: string)
  {
    key in {"len", "enc", "size", "bits", "if", "crc16", "crc32", "checksum"}
  }

  /** The base part offset:size[:endian], with "-1" and "var" spelled out; parts after the
      third are ignored. */
  function ParseBase(base: seq<string>): (r: Result<TagInfo, TagError>)
  {
    if |base| < 2 then Err(InvalidBase)
    else if base[0] != "-1" && Atoi(base[0]).Err? then Err(InvalidOffset(Atoi(base[0]).error))
    else if base[1] != "var" && Atoi(base[1]).Err? then Err(InvalidSize(Atoi(base[1]).error))
    else if |base| >= 3 && base[2] != "be" && base[2] != "le" then Err(InvalidEndian)
    else
      var offset := if base[0] == "-1" then -1 else Atoi(base[0]).value;
      var size := if base[1] == "var" then -1 else Atoi(base[1]).value;
      Ok(TagInfo(offset, size, if |base| >= 3 then base[2] else "be", "", "", "", "", "", false, 0, false))
  }

  /** What the option key:value does to the tag parsed so far. */
  function KeyedOption(info: TagInfo, key: string, value: string): Result<TagInfo, TagError>
  {
    match key
    case "len" => Ok(info.(lenField := value))
    case "enc" => Ok(info.(encoding := value))
    case "size" =>
      var sizeparts := Split(value, ":");
      (match Atoi(sizeparts[0])
       case Err(e) => Err(InvalidElementSize(e))
       case Ok(n) =>
         if |sizeparts| >= 2 && sizeparts[1] != "be" && sizeparts[1] != "le" then Err(InvalidSizeEndian)
         else Ok(info.(elementSize := n, byteOrder := if |sizeparts| >= 2 then sizeparts[1] else info.byteOrder)))
    case "bits" =>
      if ValidBits(value) then Ok(info.(bits := value))
      else if !Contains(value, "-") then Err(InvalidBitIndex(value))
      else Err(InvalidBitRange(value))
    case "if" => Ok(info.(condition := value))
    case "crc16" => Ok(info.(checksum := key + ":" + value))
    case "crc32" => Ok(info.(checksum := key + ":" + value))
    case "checksum" => Ok(info.(checksum := key + ":" + value))
    case _ => Err(UnknownOption(key))
  }

  /** What one option does to the tag parsed so far: "repeat" alone, otherwise key:value
      with white space trimmed around the option, the key and the value. */
  function ApplyOption(info: TagInfo, raw: string): Result<TagInfo, TagError>
  {
    var part := TrimSpace(raw);
    if part == "repeat" then Ok(info.(isRepeat := true))
    else
      var opt := SplitTwo(part, ":");
      if |opt| != 2 then Err(InvalidOptionFormat(part))
      else KeyedOption(info, TrimSpace(opt[0]), TrimSpace(opt[1]))
  }

  /** The options parts[i..] applied in order; the first failing one decides the error. */
  function ApplyOptions(info: TagInfo, parts: seq<string>, i: nat): Result<TagInfo, TagError>
    requires i <= |parts|
    decreases |parts| - i
  {
    if i == |parts| then Ok(info)
    else
      match ApplyOption(info, parts[i])
      case Err(e) => Err(e)
      case Ok(next) => ApplyOptions(next, parts, i + 1)
  }

  /** What parseTag answers for a tag. */
  function TagSpec(tag: string): Result<TagInfo, TagError>
  {
    if tag == "" then Err(EmptyTag)
    else if tag == "-" then Ok(SkipInfo)
    else
      var parts := Split(tag, ",");
      match ParseBase(Split(parts[0], ":"))
      case Err(e) => Err(e)
      case Ok(info) => ApplyOptions(info, parts, 1)
  }

  /** parseTag: the base part, then the options from left to right. */
  method ParseTag(tag: string) returns (r: Result<TagInfo, TagError>)
    ensures r == TagSpec(tag)
  {
    if tag == "" {
      return Err(EmptyTag);
    }
    if tag == "-" {
      return Ok(SkipInfo);
    }
    // Split always yields at least one part, so the "invalid tag format" branch of the
    // source cannot be taken.
    var parts := Split(tag, ",");
    var base := Split(parts[0], ":");
    if |base| < 2 {
      return Err(InvalidBase);
    }
    var offset, size, byteOrder := 0, 0, "be";
    if base[0] == "-1" {
      offset := -1;
    } else {
      var n := Atoi(base[0]);
      if n.Err? {
        return Err(InvalidOffset(n.error));
      }
      offset := n.value;
    }
    if base[1] == "var" {
      size := -1;
    } else {
      var n := Atoi(base[1]);
      if n.Err? {
        return Err(InvalidSize(n.error));
      }
      size := n.value;
    }
    if |base| >= 3 {
      if base[2] != "be" && base[2] != "le" {
        return Err(InvalidEndian);
      }
      byteOrder := base[2];
    }
    var info := TagInfo(offset, size, byteOrder, "", "", "", "", "", false, 0, false);
    ghost var start := info;
    assert ParseBase(base) == Ok(start);
    var i := 1;
    while i < |parts|
      invariant 1 <= i <= |parts|
      invariant ApplyOptions(info, parts, i) == ApplyOptions(start, parts, 1)
    {
      var next := ParseOption(info, parts[i]);
      if next.Err? {
        return Err(next.error);
      }
      info := next.value;
      i := i + 1;
    }
    return Ok(info);
  }

  /** One pass of parseTag's option loop. */
  method ParseOption(info: TagInfo, raw: string) returns (r: Result<TagInfo, TagError>)
    ensures r == ApplyOption(info, raw)
  {
    var part := TrimSpace(raw);
    if part == "repeat" {
      return Ok(info.(isRepeat := true));
    }
    var opt := SplitTwo(part, ":");
    if |opt| != 2 {
      return Err(InvalidOptionFormat(part));
    }
    var key := TrimSpace(opt[0]);
    var value := TrimSpace(opt[1]);
    r := ParseKeyedOption(info, key, value);
  }

  /** The switch on the option key. */
  method ParseKeyedOption(info: TagInfo, key: string, value: string) returns (r: Result<TagInfo, TagError>)
    ensures r == KeyedOption(info, key, value)
  {
    var next := info;
    match key {
      case "len" => next := next.(lenField := value);
      case "enc" => next := next.(encoding := value);
      case "size" =>
        var sizeparts := Split(value, ":");
        var n := Atoi(sizeparts[0]);
        if n.Err? {
          return Err(InvalidElementSize(n.error));
        }
        next := next.(elementSize := n.value);
        if |sizeparts| >= 2 {
          if sizeparts[1] != "be" && sizeparts[1] != "le" {
            return Err(InvalidSizeEndian);
          }
          next := next.(byteOrder := sizeparts[1]);
        }
      case "bits" =>
        if !Contains(value, "-") {
          var bit := Atoi(value);
          if bit.Err? || bit.value < 0 || bit.value > 7 {
            return Err(InvalidBitIndex(value));
          }
        } else {
          var bitRange := Split(value, "-");
          if |bitRange| != 2 {
            return Err(InvalidBitRange(value));
          }
          var start, end := Atoi(bitRange[0]), Atoi(bitRange[1]);
          if start.Err? || end.Err? || start.value < 0 || end.value > 7 || start.value > end.value {
            return Err(InvalidBitRange(value));
          }
        }
        next := next.(bits := value);
      case "if" => next := next.(condition := value);
      case "crc16" => next := next.(checksum := key + ":" + value);
      case "crc32" => next := next.(checksum := key + ":" + value);
      case "checksum" => next := next.(checksum := key + ":" + value);
      case _ => return Err(UnknownOption(key));
    }
    return Ok(next);
  }

  // ---------------------------------------------------------------------------
  // What parseTag promises

  /** "" is an error and "-" skips the field. */
  lemma EmptyAndSkip()
    ensures TagSpec("") == Err(EmptyTag)
    ensures TagSpec("-").Ok? && TagSpec("-").value.skip
  {
  }

  /** What the options cannot undo: a byte order of "be" or "le", and bits that are valid or
      absent. */
  ghost predicate Sound(info: TagInfo)
  {
    && (info.byteOrder == "be" || info.byteOrder == "le")
    && (info.bits == "" || ValidBits(info.bits))
    && !info.skip
  }

  /** Every key but size and bits leaves the byte order and the bits alone. */
  lemma KeyedOptionKeeps(info: TagInfo, key: string, value: string)
    requires key != "size" && key != "bits" && KeyedOption(info, key, value).Ok?
    ensures KeyedOption(info, key, value).value.byteOrder == info.byteOrder
    ensures KeyedOption(info, key, value).value.bits == info.bits
    ensures KeyedOption(info, key, value).value.skip == info.skip
  {
  }

  lemma KeyedOptionSound(info: TagInfo, key: string, value: string)
    requires Sound(info)
    ensures KeyedOption(info, key, value).Ok? ==> Sound(KeyedOption(info, key, value).value)
  {
    var r := KeyedOption(info, key, value);
    if r.Ok? {
      if key == "size" {
        var sizeparts := Split(value, ":");
        assert r.value == info.(elementSize := Atoi(sizeparts[0]).value,
                                byteOrder := if |sizeparts| >= 2 then sizeparts[1] else info.byteOrder);
      } else if key == "bits" {
        assert r.value == info.(bits := value) && ValidBits(value);
      } else {
        KeyedOptionKeeps(info, key, value);
      }
    }
  }

  lemma OptionSound(info: TagInfo, raw: string)
    requires Sound(info)
    ensures ApplyOption(info, raw).Ok? ==> Sound(ApplyOption(info, raw).value)
  {
    var part := TrimSpace(raw);
    if part != "repeat" && Contains(part, ":") {
      var opt := SplitTwo(part, ":");
      KeyedOptionSound(info, TrimSpace(opt[0]), TrimSpace(opt[1]));
    }
  }

  lemma {:induction false} OptionsSound(info: TagInfo, parts: seq<string>, i: nat)
    requires i <= |parts| && Sound(info)
    ensures ApplyOptions(info, parts, i).Ok? ==> Sound(ApplyOptions(info, parts, i).value)
    decreases |parts| - i
  {
    if i < |parts| {
      var o := ApplyOption(info, parts[i]);
      OptionSound(info, parts[i]);
      if o.Ok? {
        OptionsSound(o.value, parts, i + 1);
      }
    }
  }

  /** A parsed tag other than "-" has a byte order of "be" or "le" and valid bits. */
  lemma TagSound(tag: string)
    requires tag != "-" && TagSpec(tag).Ok?
    ensures Sound(TagSpec(tag).value)
  {
    var parts := Split(tag, ",");
    OptionsSound(ParseBase(Split(parts[0], ":")).value, parts, 1);
  }

  /** An option is accepted only if it is "repeat" or a known key with a value. */
  predicate AcceptedOption(raw: string)
  {
    var part := TrimSpace(raw);
    part == "repeat" || (Contains(part, ":") && KnownKey(TrimSpace(SplitTwo(part, ":")[0])))
  }

  lemma {:induction false} OptionsAccepted(info: TagInfo, parts: seq<string>, i: nat, j: nat)
    requires i <= j < |parts| && ApplyOptions(info, parts, i).Ok?
    ensures AcceptedOption(parts[j])
    decreases |parts| - i
  {
    var o := ApplyOption(info, parts[i]);
    if i < j {
      OptionsAccepted(o.value, parts, i + 1, j);
    }
  }

  /** An unknown option key or an option without ':' makes the whole tag an error. */
  lemma UnknownOptionRejected(tag: string, j: nat)
    requires tag != "" && tag != "-"
    requires 1 <= j < |Split(tag, ",")| && !AcceptedOption(Split(tag, ",")[j])
    ensures TagSpec(tag).Err?
  {
    var parts := Split(tag, ",");
    var b := ParseBase(Split(parts[0], ":"));
    if b.Ok? && ApplyOptions(b.value, parts, 1).Ok? {
      OptionsAccepted(b.value, parts, 1, j);
    }
  }

  /** The base part decides the offset and size: "-1" is offset -1, "var" is size -1,
      anything else must read as a number. Options never change them. */
  lemma KeyedOptionKeepsPlace(info: TagInfo, key: string, value: string)
    ensures KeyedOption(info, key, value).Ok? ==>
              KeyedOption(info, key, value).value.offset == info.offset
              && KeyedOption(info, key, value).value.size == info.size
  {
  }

  lemma OptionKeepsPlace(info: TagInfo, raw: string)
    ensures ApplyOption(info, raw).Ok? ==>
              ApplyOption(info, raw).value.offset == info.offset && ApplyOption(info, raw).value.size == info.size
  {
    var part := TrimSpace(raw);
    if part != "repeat" && Contains(part, ":") {
      var opt := SplitTwo(part, ":");
      KeyedOptionKeepsPlace(info, TrimSpace(opt[0]), TrimSpace(opt[1]));
    }
  }

  lemma {:induction false} OptionsKeepPlace(info: TagInfo, parts: seq<string>, i: nat)
    requires i <= |parts|
    ensures ApplyOptions(info, parts, i).Ok? ==>
              ApplyOptions(info, parts, i).value.offset == info.offset
              && ApplyOptions(info, parts, i).value.size == info.size
    decreases |parts| - i
  {
    if i < |parts| {
      var o := ApplyOption(info, parts[i]);
      OptionKeepsPlace(info, parts[i]);
      if o.Ok? {
        OptionsKeepPlace(o.value, parts, i + 1);
      }
    }
  }

  lemma TagPlace(tag: string)
    requires tag != "-" && TagSpec(tag).Ok?
    ensures var base := Split(Split(tag, ",")[0], ":");
            var info := TagSpec(tag).value;
            && |base| >= 2
            && info.offset == (if base[0] == "-1" then -1 else Atoi(base[0]).value)
            && info.size == (if base[1] == "var" then -1 else Atoi(base[1]).value)
  {
    var parts := Split(tag, ",");
    OptionsKeepPlace(ParseBase(Split(parts[0], ":")).value, parts, 1);
  }

  /** An endian in the base part other than "be" and "le" is an error. */
  lemma BadEndianRejected(tag: string)
    requires tag != "" && tag != "-"
    requires var base := Split(Split(tag, ",")[0], ":");
             |base| >= 3 && base[2] != "be" && base[2] != "le"
    ensures TagSpec(tag).Err?
  {
  }

  // ---------------------------------------------------------------------------
  // Printing a base tag and parsing it back

  /** "offset:size:endian" for non-negative numbers. */
  function FormatBase(offset: nat, size: nat, endian: string): string
  {
    DecimalOf(offset) + ":" + DecimalOf(size) + ":" + endian
  }

  /** No character of s is c. */
  predicate NoChar(s: string, c: char)
  {
    forall k :: 0 <= k < |s| ==> s[k] != c
  }

  lemma NoCharIndex(s: string, c: char)
    requires NoChar(s, c)
    ensures IndexOf(s, [c]) == -1
  {
    forall j | 0 <= j
      ensures !MatchesAt(s, [c], j)
    {
      if j < |s| {
        assert s[j..j + 1] != [c] by { assert s[j..j + 1][0] == s[j]; }
      }
    }
  }

  lemma DecimalNoChar(n: nat, c: char)
    requires DigitValue(c) >= 10
    ensures NoChar(DecimalOf(n), c)
  {
    var s := DecimalOf(n);
    forall k | 0 <= k < |s|
      ensures s[k] != c
    {
      assert DigitValue(s[k]) < 10;
    }
  }

  /** Splitting a + sep + b where a holds no sep (sep one character long). */
  lemma SplitAfter(a: string, c: char, b: string)
    requires NoChar(a, c)
    ensures Split(a + [c] + b, [c]) == [a] + Split(b, [c])
  {
    var s := a + [c] + b;
    assert MatchesAt(s, [c], |a|) by {
      assert s[|a|..|a| + 1] == [c];
    }
    forall j | 0 <= j < |a|
      ensures !MatchesAt(s, [c], j)
    {
      assert s[j] == a[j];
    }
    assert IndexOf(s, [c]) == |a|;
    assert s[..|a|] == a;
    assert s[|a| + 1..] == b;
  }

  /** The base part parsed from its three pieces. */
  lemma ParseBaseOf(offset: nat, size: nat, endian: string)
    requires offset <= MaxInt64 && size <= MaxInt64
    requires endian == "be" || endian == "le"
    ensures ParseBase([DecimalOf(offset), DecimalOf(size), endian])
            == Ok(TagInfo(offset, size, endian, "", "", "", "", "", false, 0, false))
  {
    var o, s := DecimalOf(offset), DecimalOf(size);
    AtoiDecimal(offset);
    AtoiDecimal(size);
    assert o != "-1" by { assert DigitValue(o[0]) < 10; }
    assert s != "var" by { assert DigitValue(s[0]) < 10; }
  }

  lemma NoCharConcat(a: string, b: string, c: char)
    requires NoChar(a, c) && NoChar(b, c)
    ensures NoChar(a + b, c)
  {
    assert forall k :: |a| <= k < |a| + |b| ==> (a + b)[k] == b[k - |a|];
  }

  /** A printed base tag holds no comma ... */
  lemma FormatBaseNoComma(offset: nat, size: nat, endian: string)
    requires endian == "be" || endian == "le"
    ensures NoChar(FormatBase(offset, size, endian), ',')
  {
    DecimalNoChar(offset, ',');
    DecimalNoChar(size, ',');
    NoCharConcat(DecimalOf(offset), ":", ',');
    NoCharConcat(DecimalOf(offset) + ":", DecimalOf(size), ',');
    NoCharConcat(DecimalOf(offset) + ":" + DecimalOf(size), ":", ',');
    NoCharConcat(DecimalOf(offset) + ":" + DecimalOf(size) + ":", endian, ',');
  }

  /** ... and splits at its colons into its three pieces. */
  lemma FormatBasePieces(offset: nat, size: nat, endian: string)
    requires endian == "be" || endian == "le"
    ensures Split(FormatBase(offset, size, endian), ":") == [DecimalOf(offset), DecimalOf(size), endian]
  {
    var o, s := DecimalOf(offset), DecimalOf(size);
    DecimalNoChar(offset, ':');
    DecimalNoChar(size, ':');
    assert NoChar(endian, ':');
    NoCharIndex(endian, ':');
    SplitNone(endian, ":");
    SplitAfter(s, ':', endian);
    assert FormatBase(offset, size, endian) == o + ":" + (s + ":" + endian);
    SplitAfter(o, ':', s + ":" + endian);
  }

  /** A base tag printed with non-negative numbers and a valid endian parses back to the
      same offset, size and endian, with nothing else set. */
  lemma FormatBaseRoundTrip(offset: nat, size: nat, endian: string)
    requires offset <= MaxInt64 && size <= MaxInt64
    requires endian == "be" || endian == "le"
    ensures TagSpec(FormatBase(offset, size, endian))
            == Ok(TagInfo(offset, size, endian, "", "", "", "", "", false, 0, false))
  {
    var tag := FormatBase(offset, size, endian);
    FormatBasePieces(offset, size, endian);
    FormatBaseNoComma(offset, size, endian);
    NoCharIndex(tag, ',');
    SplitNone(tag, ",");
    ParseBaseOf(offset, size, endian);
  }
}
