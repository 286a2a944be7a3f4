/**
 * The reflective codec of binpack (pkg/binpack/reflect_codec.go, with the field encoders and
 * decoders of pkg/binpack/codec.go). CompileCodec turns the tagged fields of a struct type
 * into a list of field codecs. Encode sizes a buffer and writes every field into it, and
 * Decode reads the fields back into a struct in place.
 *
 * A struct type is the sequence of its fields (name, kind and bin tag), and a struct value
 * the sequence of its field values. Where Go would panic (a slice expression out of range,
 * an index past the end of a window, Uint() of a value that is not unsigned, a field
 * without an encoder) the model answers Panic.
 */
module BinReflect {
  import opened Wrappers
  import opened BinEncoding
  import opened BinTag
  import opened BinCodec
  import opened BinBits

  /** A field of a struct type: its name, its kind and its bin tag ("" when it has none). */
  datatype Field = Field(name: string, kind: Kind, tag: string)

  /** reflectCodec: the field codecs in field order, the size the fixed fields span, the
      index of every field by name, and whether a variable-length or repeated field is
      present. */
  datatype Codec = Codec(fields: seq<FieldCodec>, size: nat, fieldMap: map<string, nat>, hasVarLen: bool)

  datatype CompileError =
    | NotAStruct
    | BadTag(field: string, tagError: TagError)
    | BadField(field: string, codecError: CodecError)
    | LenFieldNotFound(lenField: string)
    | CondFieldNotFound(condField: string)

  function KindsOf(fields: seq<Field>): (kinds: seq<Kind>)
    ensures |kinds| == |fields| && forall i :: 0 <= i < |fields| ==> kinds[i] == fields[i].kind
  {
    seq(|fields|, i requires 0 <= i < |fields| => fields[i].kind)
  }

  // ---------------------------------------------------------------------------
  // CompileCodec, the first loop: one field codec per tagged field

  /** What the first loop makes of one field: nothing for an untagged or skipped field, the
      error of parseTag or buildFieldCodec, or the field's codec (its index not yet set). */
  function Build(f: Field): Result<Option<FieldCodec>, CompileError>
  {
    if f.tag == "" then Ok(None)
    else match TagSpec(f.tag)
      case Err(e) => Err(BadTag(f.name, e))
      case Ok(info) =>
        if info.skip then Ok(None)
        else match BuildFieldCodec(f.name, f.kind, info)
          case Err(e) => Err(BadField(f.name, e))
          case Ok(r) => Ok(r)
  }

  /** A field as the first loop sees it: its name and what Build made of it. */
  datatype Entry = Entry(name: string, built: Result<Option<FieldCodec>, CompileError>)

  function Entries(fields: seq<Field>): (es: seq<Entry>)
    ensures |es| == |fields|
  {
    seq(|fields|, i requires 0 <= i < |fields| => Entry(fields[i].name, Build(fields[i])))
  }

  /** A built codec joins the list; it may turn on hasVarLen and widen the fixed size. */
  function Append(c: Codec, fc: FieldCodec): Codec
  {
    c.(fields := c.fields + [fc],
       hasVarLen := c.hasVarLen || fc.isVariable || fc.isRepeat,
       size := if fc.offset >= 0 && fc.size > 0 && fc.offset + fc.size > c.size then fc.offset + fc.size else c.size)
  }

  /** One pass of the first loop, on field i: its name goes into the field map, and a
      built codec is appended with its index. */
  function GatherStep(c0: Codec, i: nat, e: Entry): Result<Codec, CompileError>
  {
    var c := c0.(fieldMap := c0.fieldMap[e.name := i]);
    match e.built
    case Err(err) => Err(err)
    case Ok(None) => Ok(c)
    case Ok(Some(fc)) => Ok(Append(c, fc.(index := i)))
  }

  /** The first loop over the first n fields, up to the first error. */
  function Gather(es: seq<Entry>, n: nat): Result<Codec, CompileError>
    requires n <= |es|
  {
    if n == 0 then Ok(Codec([], 0, map[], false))
    else match Gather(es, n - 1)
      case Err(e) => Err(e)
      case Ok(c0) => GatherStep(c0, n - 1, es[n - 1])
  }

  // ---------------------------------------------------------------------------
  // CompileCodec, the second loop: len and cond fields by name

  /** The names the second loop looks up for fc are in the field map. */
  predicate Resolvable(m: map<string, nat>, fc: FieldCodec)
  {
    && (fc.isVariable && fc.lenField != "" ==> fc.lenField in m)
    && (fc.conditional && fc.condField != "" ==> fc.condField in m)
  }

  /** The second loop on one codec: a variable-length codec that names a len field gets its
      index, then a conditional codec that names a cond field gets its index. */
  function Resolve(m: map<string, nat>, fc: FieldCodec): Result<FieldCodec, CompileError>
  {
    if fc.isVariable && fc.lenField != "" && fc.lenField !in m then Err(LenFieldNotFound(fc.lenField))
    else
      var fc1 := if fc.isVariable && fc.lenField != "" then fc.(lenIndex := m[fc.lenField]) else fc;
      if fc1.conditional && fc1.condField != "" && fc1.condField !in m then Err(CondFieldNotFound(fc1.condField))
      else if fc1.conditional && fc1.condField != "" then Ok(fc1.(condIndex := m[fc1.condField]))
      else Ok(fc1)
  }

  /** The second loop over a list of codecs, front to back, up to the first error. */
  function ResolveAll(m: map<string, nat>, fcs: seq<FieldCodec>): Result<seq<FieldCodec>, CompileError>
  {
    if fcs == [] then Ok([])
    else match ResolveAll(m, fcs[..|fcs| - 1])
      case Err(e) => Err(e)
      case Ok(done) =>
        match Resolve(m, fcs[|fcs| - 1])
        case Err(e) => Err(e)
        case Ok(fc) => Ok(done + [fc])
  }

  /** CompileCodec on a type: a non-struct is refused, then the two loops. */
  function Compile(isStruct: bool, fields: seq<Field>): Result<Codec, CompileError>
  {
    CompileEntries(isStruct, Entries(fields))
  }

  /** The same on the fields as the first loop sees them. */
  function CompileEntries(isStruct: bool, es: seq<Entry>): Result<Codec, CompileError>
  {
    if !isStruct then Err(NotAStruct)
    else match Gather(es, |es|)
      case Err(e) => Err(e)
      case Ok(c) =>
        match ResolveAll(c.fieldMap, c.fields)
        case Err(e) => Err(e)
        case Ok(fcs) => Ok(c.(fields := fcs))
  }

  /** CompileCodec: the two loops of reflect_codec.go. */
  method CompileCodec(isStruct: bool, fields: seq<Field>) returns (r: Result<Codec, CompileError>)
    ensures r == Compile(isStruct, fields)
  {
    if !isStruct {
      return Err(NotAStruct);
    }
    var gathered := GatherFields(fields);
    if gathered.Err? {
      return Err(gathered.error);
    }
    var c := gathered.value;
    var resolved := ResolveFields(c.fieldMap, c.fields);
    if resolved.Err? {
      return Err(resolved.error);
    }
    return Ok(c.(fields := resolved.value));
  }

  /** The first loop of CompileCodec. */
  method GatherFields(fields: seq<Field>) returns (r: Result<Codec, CompileError>)
    ensures r == Gather(Entries(fields), |fields|)
  {
    ghost var es := Entries(fields);
    var c := Codec([], 0, map[], false);
    var i := 0;
    while i < |fields|
      invariant 0 <= i <= |fields|
      invariant Gather(es, i) == Ok(c)
    {
      var built := BuildField(fields[i]);
      assert es[i] == Entry(fields[i].name, built);
      var next := AddField(c, i, fields[i].name, built);
      GatherNext(es, i, c);
      if next.Err? {
        GatherSticks(es, i + 1, |es|);
        return next;
      }
      c := next.value;
      i := i + 1;
    }
    return Ok(c);
  }

  /** The body of the first loop, on field i. */
  method AddField(c0: Codec, i: nat, name: string, built: Result<Option<FieldCodec>, CompileError>)
    returns (r: Result<Codec, CompileError>)
    ensures r == GatherStep(c0, i, Entry(name, built))
  {
    var c := c0.(fieldMap := c0.fieldMap[name := i]);
    if built.Err? {
      return Err(built.error);
    }
    if built.value.None? {
      return Ok(c);
    }
    var fc := built.value.value.(index := i);
    c := c.(fields := c.fields + [fc]);
    if fc.isVariable || fc.isRepeat {
      c := c.(hasVarLen := true);
    }
    // fc.offset and fc.size are the tag's (BuildFieldCodecRecords)
    if fc.offset >= 0 && fc.size > 0 {
      var end := fc.offset + fc.size;
      if end > c.size {
        c := c.(size := end);
      }
    }
    return Ok(c);
  }

  /** parseTag and buildFieldCodec on one field, as the first loop calls them. */
  method BuildField(field: Field) returns (r: Result<Option<FieldCodec>, CompileError>)
    ensures r == Build(field)
  {
    if field.tag == "" {
      return Ok(None);
    }
    var tagInfo := ParseTag(field.tag);
    if tagInfo.Err? {
      return Err(BadTag(field.name, tagInfo.error));
    }
    if tagInfo.value.skip {
      return Ok(None);
    }
    var built := BuildFieldCodec(field.name, field.kind, tagInfo.value);
    if built.Err? {
      return Err(BadField(field.name, built.error));
    }
    return Ok(built.value);
  }

  /** The second loop of CompileCodec, which sets the indices in place. */
  method ResolveFields(m: map<string, nat>, fcs0: seq<FieldCodec>) returns (r: Result<seq<FieldCodec>, CompileError>)
    ensures r == ResolveAll(m, fcs0)
  {
    var fcs := fcs0;
    var k := 0;
    while k < |fcs|
      invariant 0 <= k <= |fcs| == |fcs0|
      invariant ResolveAll(m, fcs0[..k]) == Ok(fcs[..k])
      invariant fcs[k..] == fcs0[k..]
    {
      var fc := fcs[k];
      assert fc == fcs0[k];
      assert fcs0[..k + 1][..k] == fcs0[..k];
      if fc.isVariable && fc.lenField != "" {
        if fc.lenField !in m {
          ResolveSticks(m, fcs0, k + 1);
          return Err(LenFieldNotFound(fc.lenField));
        }
        fc := fc.(lenIndex := m[fc.lenField]);
      }
      if fc.conditional && fc.condField != "" {
        if fc.condField !in m {
          ResolveSticks(m, fcs0, k + 1);
          return Err(CondFieldNotFound(fc.condField));
        }
        fc := fc.(condIndex := m[fc.condField]);
      }
      assert fcs[..k] + [fc] == fcs[k := fc][..k + 1];
      fcs := fcs[k := fc];
      k := k + 1;
    }
    assert fcs0[..k] == fcs0 && fcs[..k] == fcs;
    return Ok(fcs);
  }

  lemma GatherNext(es: seq<Entry>, i: nat, c: Codec)
    requires i < |es| && Gather(es, i) == Ok(c)
    ensures Gather(es, i + 1) == GatherStep(c, i, es[i])
  {
  }

  lemma {:induction false} GatherSticks(es: seq<Entry>, n: nat, m: nat)
    requires n <= m <= |es| && Gather(es, n).Err?
    ensures Gather(es, m) == Gather(es, n)
    decreases m
  {
    if m > n {
      GatherSticks(es, n, m - 1);
    }
  }

  lemma {:induction false} ResolveSticks(m: map<string, nat>, fcs: seq<FieldCodec>, k: nat)
    requires k <= |fcs| && ResolveAll(m, fcs[..k]).Err?
    ensures ResolveAll(m, fcs) == ResolveAll(m, fcs[..k])
    decreases |fcs|
  {
    if k < |fcs| {
      var init := fcs[..|fcs| - 1];
      assert init[..k] == fcs[..k];
      ResolveSticks(m, init, k);
    } else {
      assert fcs[..k] == fcs;
    }
  }

  // ---------------------------------------------------------------------------
  // What CompileCodec promises

  /** A field built to a codec gets one of its own kind and name, with a valid bit range
      when it is a bit field (parseTag checks the bits option) and no len or cond index
      yet. */
  lemma BuildSound(f: Field, fc: FieldCodec)
    requires Build(f) == Ok(Some(fc))
    ensures fc.name == f.name && fc.kind == f.kind && fc.index == 0
    ensures fc.lenIndex == 0 && fc.condIndex == 0
    ensures fc.isBitField ==> 0 <= fc.bitStart <= fc.bitEnd <= 7
  {
    var info := TagSpec(f.tag).value;
    assert !info.skip;
    assert f.tag != "-" by { EmptyAndSkip(); }
    TagSound(f.tag);
    BuildFieldCodecRecords(f.name, f.kind, info, fc);
    var c := WithCondition(BaseCodec(f.name, f.kind, info), info.condition).value;
    if info.bits != "" {
      BitFieldRange(f.name, f.kind, info, fc);
    } else {
      assert WithKind(c, f.kind, info) == Ok(fc);
    }
  }

  /** The codecs the first loop keeps: each is the codec its field was built to, with the
      field's index, and no field before n failed. */
  lemma {:induction false} GatherBuilt(es: seq<Entry>, n: nat, c: Codec)
    requires n <= |es| && Gather(es, n) == Ok(c)
    ensures forall i :: 0 <= i < n ==> es[i].built.Ok?
    ensures forall p :: 0 <= p < |c.fields| ==> Kept(es, c.fields[p], n)
    decreases n
  {
    if n > 0 {
      assert Gather(es, n - 1).Ok?;
      var c0 := Gather(es, n - 1).value;
      GatherBuilt(es, n - 1, c0);
      match es[n - 1].built {
        case Ok(None) =>
          assert c.fields == c0.fields;
        case Ok(Some(fc)) =>
          assert c.fields == c0.fields + [fc.(index := n - 1)];
      }
    }
  }

  /** fc is the codec field fc.index (below n) was built to. */
  predicate Kept(es: seq<Entry>, fc: FieldCodec, n: nat)
  {
    var i := fc.index;
    i < n && i < |es| && es[i].built.Ok? && es[i].built.value.Some? && fc == es[i].built.value.value.(index := i)
  }

  /** The kept codecs are in field order, and every field built to a codec has one. */
  lemma {:induction false} GatherOrdered(es: seq<Entry>, n: nat, c: Codec)
    requires n <= |es| && Gather(es, n) == Ok(c)
    ensures forall p :: 0 <= p < |c.fields| ==> c.fields[p].index < n
    ensures forall p, q :: 0 <= p < q < |c.fields| ==> c.fields[p].index < c.fields[q].index
    ensures forall i :: 0 <= i < n && es[i].built.Ok? && es[i].built.value.Some? ==>
              exists p :: 0 <= p < |c.fields| && c.fields[p].index == i
    decreases n
  {
    if n > 0 {
      assert Gather(es, n - 1).Ok?;
      var c0 := Gather(es, n - 1).value;
      GatherOrdered(es, n - 1, c0);
      match es[n - 1].built {
        case Ok(None) =>
          assert c.fields == c0.fields;
        case Ok(Some(fc)) =>
          assert c.fields == c0.fields + [fc.(index := n - 1)];
          assert c.fields[|c0.fields|].index == n - 1;
          assert forall p :: 0 <= p < |c0.fields| ==> c.fields[p].index == c0.fields[p].index;
      }
    }
  }

  /** The field map of the first loop: every field's name, mapped to the last field of that
      name. */
  lemma {:induction false} GatherMap(es: seq<Entry>, n: nat, c: Codec)
    requires n <= |es| && Gather(es, n) == Ok(c)
    ensures forall i :: 0 <= i < n ==> es[i].name in c.fieldMap && i <= c.fieldMap[es[i].name]
    ensures forall name :: name in c.fieldMap ==> c.fieldMap[name] < n && es[c.fieldMap[name]].name == name
    decreases n
  {
    if n > 0 {
      assert Gather(es, n - 1).Ok?;
      var c0 := Gather(es, n - 1).value;
      GatherMap(es, n - 1, c0);
      assert c.fieldMap == c0.fieldMap[es[n - 1].name := n - 1];
    }
  }

  /** The fixed size is the furthest end of a field with a place and a positive size, or 0
      when there is none; hasVarLen says whether a variable-length or repeated codec was
      kept. */
  lemma {:induction false} GatherSize(es: seq<Entry>, n: nat, c: Codec)
    requires n <= |es| && Gather(es, n) == Ok(c)
    ensures forall p :: 0 <= p < |c.fields| && c.fields[p].offset >= 0 && c.fields[p].size > 0 ==>
              c.fields[p].offset + c.fields[p].size <= c.size
    ensures c.size == 0 ||
            (exists p :: 0 <= p < |c.fields| && c.fields[p].offset >= 0 && c.fields[p].size > 0 &&
                         c.fields[p].offset + c.fields[p].size == c.size)
    ensures c.hasVarLen <==> exists p :: 0 <= p < |c.fields| && (c.fields[p].isVariable || c.fields[p].isRepeat)
    decreases n
  {
    if n > 0 {
      assert Gather(es, n - 1).Ok?;
      var c0 := Gather(es, n - 1).value;
      GatherSize(es, n - 1, c0);
      match es[n - 1].built {
        case Ok(None) =>
          assert c.fields == c0.fields && c.size == c0.size && c.hasVarLen == c0.hasVarLen;
        case Ok(Some(fc)) =>
          assert c.fields == c0.fields + [fc.(index := n - 1)];
          assert c.fields[|c0.fields|] == fc.(index := n - 1);
          assert forall p :: 0 <= p < |c0.fields| ==> c.fields[p] == c0.fields[p];
      }
    }
  }

  /** Resolve fails exactly on a name that is not in the map, and sets only the len and
      cond indices, from the map. */
  lemma ResolveSpec(m: map<string, nat>, fc: FieldCodec)
    ensures Resolve(m, fc).Ok? <==> Resolvable(m, fc)
    ensures Resolve(m, fc).Ok? ==>
              Resolve(m, fc).value
              == fc.(lenIndex := if fc.isVariable && fc.lenField != "" then m[fc.lenField] else fc.lenIndex,
                     condIndex := if fc.conditional && fc.condField != "" then m[fc.condField] else fc.condIndex)
  {
  }

  /** The second loop succeeds exactly when every codec is resolvable, and then resolves
      each codec on its own. */
  lemma {:induction false} ResolveAllSpec(m: map<string, nat>, fcs: seq<FieldCodec>)
    ensures ResolveAll(m, fcs).Ok? <==> forall p :: 0 <= p < |fcs| ==> Resolvable(m, fcs[p])
    ensures ResolveAll(m, fcs).Ok? ==>
              |ResolveAll(m, fcs).value| == |fcs| &&
              forall p :: 0 <= p < |fcs| ==> ResolveAll(m, fcs).value[p] == Resolve(m, fcs[p]).value
    decreases |fcs|
  {
    if fcs != [] {
      var init := fcs[..|fcs| - 1];
      ResolveAllSpec(m, init);
      ResolveSpec(m, fcs[|fcs| - 1]);
      assert forall p :: 0 <= p < |init| ==> init[p] == fcs[p];
      if ResolveAll(m, init).Ok? && Resolve(m, fcs[|fcs| - 1]).Ok? {
        var done := ResolveAll(m, init).value;
        assert ResolveAll(m, fcs).value == done + [Resolve(m, fcs[|fcs| - 1]).value];
      } else if ResolveAll(m, init).Err? {
        var p :| 0 <= p < |init| && !Resolvable(m, init[p]);
        assert !Resolvable(m, fcs[p]);
      }
    }
  }

  /** What Encode and Decode rely on of a codec fc for a struct with the given field kinds:
      its field, len field and cond field exist, its kind is its field's, and a bit field
      has a range within one byte. */
  predicate FieldOk(fc: FieldCodec, kinds: seq<Kind>)
  {
    && fc.index < |kinds| && fc.kind == kinds[fc.index]
    && fc.lenIndex < |kinds| && fc.condIndex < |kinds|
    && (fc.isBitField ==> 0 <= fc.bitStart <= fc.bitEnd <= 7)
  }

  /** A codec fit for a struct type: every field codec is, they are in field order, the
      fixed size covers every fixed field, and hasVarLen is on when a field needs it. */
  predicate WellFormed(c: Codec, kinds: seq<Kind>)
  {
    && (forall p :: 0 <= p < |c.fields| ==> FieldOk(c.fields[p], kinds))
    && (forall p, q :: 0 <= p < q < |c.fields| ==> c.fields[p].index < c.fields[q].index)
    && (forall p :: 0 <= p < |c.fields| && c.fields[p].offset >= 0 && c.fields[p].size > 0 ==>
          c.fields[p].offset + c.fields[p].size <= c.size)
    && (forall p :: 0 <= p < |c.fields| && (c.fields[p].isVariable || c.fields[p].isRepeat) ==> c.hasVarLen)
  }

  /** What Build promises of every field (BuildSound), for fields of the given kinds. */
  predicate EntriesSound(es: seq<Entry>, kinds: seq<Kind>)
  {
    |es| == |kinds| &&
    forall i :: 0 <= i < |es| && es[i].built.Ok? && es[i].built.value.Some? ==>
      var fc := es[i].built.value.value;
      fc.kind == kinds[i] && fc.lenIndex == 0 && fc.condIndex == 0 &&
      (fc.isBitField ==> 0 <= fc.bitStart <= fc.bitEnd <= 7)
  }

  lemma FieldsSound(fields: seq<Field>)
    ensures EntriesSound(Entries(fields), KindsOf(fields))
  {
    var es := Entries(fields);
    forall i | 0 <= i < |es| && es[i].built.Ok? && es[i].built.value.Some?
      ensures es[i].built.value.value.kind == fields[i].kind
      ensures es[i].built.value.value.lenIndex == 0 && es[i].built.value.value.condIndex == 0
      ensures es[i].built.value.value.isBitField ==>
                0 <= es[i].built.value.value.bitStart <= es[i].built.value.value.bitEnd <= 7
    {
      BuildSound(fields[i], es[i].built.value.value);
    }
  }

  /** The compiled codec before its second loop, with the facts the lemmas below share. */
  lemma Gathered(isStruct: bool, es: seq<Entry>, c: Codec) returns (c0: Codec)
    requires CompileEntries(isStruct, es) == Ok(c)
    ensures isStruct && Gather(es, |es|) == Ok(c0)
    ensures c == c0.(fields := c.fields) && |c.fields| == |c0.fields|
    ensures forall p :: 0 <= p < |c.fields| ==>
              Resolve(c0.fieldMap, c0.fields[p]).Ok? && c.fields[p] == Resolve(c0.fieldMap, c0.fields[p]).value
  {
    c0 := Gather(es, |es|).value;
    ResolveAllSpec(c0.fieldMap, c0.fields);
  }

  /** A compiled codec is well formed for its struct type. */
  lemma CompileWellFormed(isStruct: bool, fields: seq<Field>, c: Codec)
    requires Compile(isStruct, fields) == Ok(c)
    ensures WellFormed(c, KindsOf(fields))
  {
    FieldsSound(fields);
    EntriesWellFormed(isStruct, Entries(fields), KindsOf(fields), c);
  }

  lemma EntriesWellFormed(isStruct: bool, es: seq<Entry>, kinds: seq<Kind>, c: Codec)
    requires EntriesSound(es, kinds) && CompileEntries(isStruct, es) == Ok(c)
    ensures WellFormed(c, kinds)
  {
    var c0 := Gathered(isStruct, es, c);
    GatherBuilt(es, |es|, c0);
    GatherOrdered(es, |es|, c0);
    GatherSize(es, |es|, c0);
    GatherMap(es, |es|, c0);
    forall p | 0 <= p < |c.fields|
      ensures FieldOk(c.fields[p], kinds)
      ensures c.fields[p].offset == c0.fields[p].offset && c.fields[p].size == c0.fields[p].size
      ensures c.fields[p].index == c0.fields[p].index
      ensures c.fields[p].isVariable == c0.fields[p].isVariable && c.fields[p].isRepeat == c0.fields[p].isRepeat
    {
      var fc0 := c0.fields[p];
      assert Kept(es, fc0, |es|);
      ResolveSpec(c0.fieldMap, fc0);
    }
  }

  /** fc is the codec the field at fc.index was built to, with that index and len and cond
      indices of its own. */
  predicate Compiled(es: seq<Entry>, fc: FieldCodec)
  {
    var i := fc.index;
    i < |es| && es[i].built.Ok? && es[i].built.value.Some? &&
    fc == es[i].built.value.value.(index := i, lenIndex := fc.lenIndex, condIndex := fc.condIndex)
  }

  /** The compiled codecs: one per field built to a codec, in field order, each that codec
      with its indices filled in. */
  lemma CompileFields(isStruct: bool, es: seq<Entry>, c: Codec)
    requires CompileEntries(isStruct, es) == Ok(c)
    ensures isStruct && forall i :: 0 <= i < |es| ==> es[i].built.Ok?
    ensures forall p :: 0 <= p < |c.fields| ==> Compiled(es, c.fields[p])
    ensures forall p, q :: 0 <= p < q < |c.fields| ==> c.fields[p].index < c.fields[q].index
    ensures forall i :: 0 <= i < |es| && es[i].built.value.Some? ==>
              exists p :: 0 <= p < |c.fields| && c.fields[p].index == i
  {
    var c0 := Gathered(isStruct, es, c);
    GatherBuilt(es, |es|, c0);
    GatherOrdered(es, |es|, c0);
    forall p | 0 <= p < |c.fields|
      ensures Compiled(es, c.fields[p]) && c.fields[p].index == c0.fields[p].index
    {
      assert Kept(es, c0.fields[p], |es|);
      ResolveSpec(c0.fieldMap, c0.fields[p]);
    }
  }

  /** Each compiled codec's len index is that of the last field with its len field's name
      when it is variable-length and names one, and 0 otherwise (a fixed-size repeated
      field therefore counts its elements from the first field); the same for the cond
      index of a conditional codec. */
  lemma CompileLookups(isStruct: bool, es: seq<Entry>, kinds: seq<Kind>, c: Codec)
    requires EntriesSound(es, kinds) && CompileEntries(isStruct, es) == Ok(c)
    ensures forall p :: 0 <= p < |c.fields| ==> LenLookedUp(es, c.fields[p]) && CondLookedUp(es, c.fields[p])
  {
    var c0 := Gathered(isStruct, es, c);
    GatherBuilt(es, |es|, c0);
    GatherMap(es, |es|, c0);
    forall p | 0 <= p < |c.fields|
      ensures LenLookedUp(es, c.fields[p]) && CondLookedUp(es, c.fields[p])
    {
      assert Kept(es, c0.fields[p], |es|);
      ResolveSpec(c0.fieldMap, c0.fields[p]);
    }
  }

  predicate LastNamed(es: seq<Entry>, name: string, k: nat)
  {
    k < |es| && es[k].name == name && forall j :: 0 <= j < |es| && es[j].name == name ==> j <= k
  }

  predicate LenLookedUp(es: seq<Entry>, fc: FieldCodec)
  {
    if fc.isVariable && fc.lenField != "" then LastNamed(es, fc.lenField, fc.lenIndex) else fc.lenIndex == 0
  }

  predicate CondLookedUp(es: seq<Entry>, fc: FieldCodec)
  {
    if fc.conditional && fc.condField != "" then LastNamed(es, fc.condField, fc.condIndex) else fc.condIndex == 0
  }

  /** The fixed size is the furthest end of a compiled field with a place and a positive
      size, or 0 when there is none; hasVarLen says whether a variable-length or repeated
      codec is present. */
  lemma CompileSize(isStruct: bool, es: seq<Entry>, c: Codec)
    requires CompileEntries(isStruct, es) == Ok(c)
    ensures forall p :: 0 <= p < |c.fields| && c.fields[p].offset >= 0 && c.fields[p].size > 0 ==>
              c.fields[p].offset + c.fields[p].size <= c.size
    ensures c.size == 0 ||
            (exists p :: 0 <= p < |c.fields| && c.fields[p].offset >= 0 && c.fields[p].size > 0 &&
                         c.fields[p].offset + c.fields[p].size == c.size)
    ensures c.hasVarLen <==> exists p :: 0 <= p < |c.fields| && (c.fields[p].isVariable || c.fields[p].isRepeat)
  {
    var c0 := Gathered(isStruct, es, c);
    GatherSize(es, |es|, c0);
    forall p | 0 <= p < |c.fields|
      ensures c.fields[p].offset == c0.fields[p].offset && c.fields[p].size == c0.fields[p].size
      ensures c.fields[p].isVariable == c0.fields[p].isVariable && c.fields[p].isRepeat == c0.fields[p].isRepeat
    {
      ResolveSpec(c0.fieldMap, c0.fields[p]);
    }
    if c.size != 0 {
      var p :| 0 <= p < |c0.fields| && c0.fields[p].offset >= 0 && c0.fields[p].size > 0 &&
               c0.fields[p].offset + c0.fields[p].size == c0.size;
      assert c.fields[p].offset + c.fields[p].size == c.size;
    }
    if c0.hasVarLen {
      var p :| 0 <= p < |c0.fields| && (c0.fields[p].isVariable || c0.fields[p].isRepeat);
      assert c.fields[p].isVariable || c.fields[p].isRepeat;
    }
  }

  /** Some field is called name. */
  predicate Named(es: seq<Entry>, name: string)
  {
    exists j :: 0 <= j < |es| && es[j].name == name
  }

  /** The len and cond field fc names exist. */
  predicate NamesFound(es: seq<Entry>, fc: FieldCodec)
  {
    && (fc.isVariable && fc.lenField != "" ==> Named(es, fc.lenField))
    && (fc.conditional && fc.condField != "" ==> Named(es, fc.condField))
  }

  /** CompileCodec succeeds exactly on a struct whose every field parses and builds and
      whose every built codec names len and cond fields that exist. */
  lemma CompileIff(isStruct: bool, es: seq<Entry>)
    ensures CompileEntries(isStruct, es).Ok? <==>
              isStruct && (forall i :: 0 <= i < |es| ==> es[i].built.Ok?) &&
              forall i :: 0 <= i < |es| && es[i].built.Ok? && es[i].built.value.Some? ==>
                NamesFound(es, es[i].built.value.value)
  {
    if isStruct && forall i :: 0 <= i < |es| ==> es[i].built.Ok? {
      GatherOk(es, |es|);
      var c0 := Gather(es, |es|).value;
      GatherBuilt(es, |es|, c0);
      GatherOrdered(es, |es|, c0);
      ResolveAllSpec(c0.fieldMap, c0.fields);
      forall p | 0 <= p < |c0.fields|
        ensures Resolvable(c0.fieldMap, c0.fields[p]) <==> NamesFound(es, es[c0.fields[p].index].built.value.value)
      {
        assert Kept(es, c0.fields[p], |es|);
        MapNames(es, c0, c0.fields[p]);
      }
    } else if isStruct && CompileEntries(isStruct, es).Ok? {
      var c0 := Gather(es, |es|).value;
      GatherBuilt(es, |es|, c0);
    }
  }

  /** The field map's names are the fields' names, so a codec is resolvable exactly when
      the fields it names exist. */
  lemma MapNames(es: seq<Entry>, c0: Codec, fc: FieldCodec)
    requires Gather(es, |es|) == Ok(c0)
    ensures Resolvable(c0.fieldMap, fc) <==> NamesFound(es, fc)
  {
    GatherMap(es, |es|, c0);
    if fc.isVariable && fc.lenField != "" && fc.lenField in c0.fieldMap {
      assert es[c0.fieldMap[fc.lenField]].name == fc.lenField;
    }
    if fc.conditional && fc.condField != "" && fc.condField in c0.fieldMap {
      assert es[c0.fieldMap[fc.condField]].name == fc.condField;
    }
  }

  lemma {:induction false} GatherOk(es: seq<Entry>, n: nat)
    requires n <= |es| && forall i :: 0 <= i < n ==> es[i].built.Ok?
    ensures Gather(es, n).Ok?
    decreases n
  {
    if n > 0 {
      GatherOk(es, n - 1);
    }
  }
}
