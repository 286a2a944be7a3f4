/**
 * The struct-layout validator of binpack (pkg/binpack/validate.go). A struct type is the
 * sequence of its fields, each with its name and the value of its bin tag (empty when the
 * field has none).
 *
 * validateStructType makes three passes. The first parses every tag, records where each
 * field sits and rejects a field that shares an offset with a field that may not share it;
 * the second checks that len and cond fields exist and come earlier, and that variable and
 * repeated fields name their len field; the third sorts the offsets and rejects a field
 * that runs into the next offset. Layout and the functions over it give the state the
 * first pass builds; ValidateStructType is the loop itself.
 */
module BinValidate {
  import opened Wrappers
  import opened GoStrings
  import opened BinTag

  datatype StructField = StructField(name: string, tag: string)

  datatype Problem =
    | NotAStruct
    | InvalidTag(tagError: TagError)
    | OffsetConflict(offset: int, other: string)
    | LenMissing(lenField: string)
    | LenNotBefore(lenField: string)
    | CondMissing(condField: string)
    | CondNotBefore(condField: string)
    | VariableWithoutLen
    | RepeatWithoutLen
    | Overlap(other: string, offset: int, size: int, next: int)

  /** ValidateError: the field at fault and what is wrong. */
  datatype ValidateError = ValidateError(field: string, problem: Problem)

  /** A field the validator looks at: its bin tag is neither empty nor "-". */
  predicate Tagged(f: StructField)
  {
    f.tag != "" && f.tag != "-"
  }

  /** Bit fields and conditional fields may share an offset. */
  predicate Shareable(info: TagInfo)
  {
    info.bits != "" || info.condition != ""
  }

  /** The first error in a sequence of per-field outcomes: each pass returns at the first
      field that has one. */
  function FirstSome<T>(s: seq<Option<T>>): Option<T>
  {
    if s == [] then None
    else if FirstSome(s[..|s| - 1]).Some? then FirstSome(s[..|s| - 1])
    else s[|s| - 1]
  }

  lemma FirstSomeSnoc<T>(s: seq<Option<T>>, i: nat)
    requires i < |s| && FirstSome(s[..i]).None?
    ensures FirstSome(s[..i + 1]) == s[i]
  {
    assert s[..i + 1][..i] == s[..i];
  }

  /** Once an error is met, the outcomes after it do not change it. */
  lemma {:induction false} FirstSomeSticks<T>(s: seq<Option<T>>, n: nat)
    requires n <= |s| && FirstSome(s[..n]).Some?
    ensures FirstSome(s) == FirstSome(s[..n])
  {
    if n < |s| {
      assert s[..|s| - 1][..n] == s[..n];
      FirstSomeSticks(s[..|s| - 1], n);
    } else {
      assert s[..n] == s;
    }
  }

  /** There is no error exactly when no field has one. */
  lemma {:induction false} FirstSomeNone<T>(s: seq<Option<T>>)
    ensures FirstSome(s).None? <==> forall k :: 0 <= k < |s| ==> s[k].None?
  {
    if s != [] {
      var t := s[..|s| - 1];
      FirstSomeNone(t);
      assert forall k :: 0 <= k < |t| ==> t[k] == s[k];
    }
  }

  // ---------------------------------------------------------------------------
  // findString and findConditionField

  /** findString: the first position at which substr occurs in s, or -1. */
  method FindString(s: string, substr: string) returns (r: int)
    ensures r == IndexOf(s, substr)
  {
    var i := 0;
    while i <= |s| - |substr|
      invariant 0 <= i
      invariant IndexOf(s, substr) == IndexFrom(s, substr, i)
    {
      if s[i..i + |substr|] == substr {
        return i;
      }
      i := i + 1;
    }
    return -1;
  }

  /** What findConditionField returns, and extractConditionField of binpack-cli, which is
      the same search written with strings.Index: the text before the first "==", or when
      there is none the text before the first "!=", or "". */
  function ConditionFieldOf(condition: string): (r: string)
  {
    if IndexOf(condition, "==") >= 0 then condition[..IndexOf(condition, "==")]
    else if IndexOf(condition, "!=") >= 0 then condition[..IndexOf(condition, "!=")]
    else ""
  }

  /** findConditionField: "==" and then "!=" looked up with findString. */
  method FindConditionField(condition: string) returns (r: string)
    ensures r == ConditionFieldOf(condition)
  {
    var idx := FindString(condition, "==");
    if idx >= 0 {
      return condition[..idx];
    }
    idx := FindString(condition, "!=");
    if idx >= 0 {
      return condition[..idx];
    }
    return "";
  }

  /** The name found is followed by the first operator in the condition, and holds neither
      operator itself when it stands before "!=". */
  lemma ConditionFieldOfSpec(condition: string)
    ensures var r := ConditionFieldOf(condition);
            && (Contains(condition, "==") ==>
                  MatchesAt(condition, "==", |r|) && !Contains(r, "=="))
            && (!Contains(condition, "==") && Contains(condition, "!=") ==>
                  MatchesAt(condition, "!=", |r|) && !Contains(r, "!=") && !Contains(r, "=="))
            && (!Contains(condition, "==") && !Contains(condition, "!=") ==> r == "")
  {
    var r := ConditionFieldOf(condition);
    if Contains(condition, "==") {
      NoEarlierMatch(condition, "==", IndexOf(condition, "=="));
    } else if Contains(condition, "!=") {
      NoEarlierMatch(condition, "!=", IndexOf(condition, "!="));
      PrefixLacks(condition, "==", IndexOf(condition, "!="));
    }
  }

  /** No occurrence of sub in the text before its first occurrence. */
  lemma NoEarlierMatch(s: string, sub: string, i: int)
    requires |sub| > 0 && i == IndexOf(s, sub) >= 0
    ensures !Contains(s[..i], sub)
  {
    PrefixLacks(s, sub, i);
  }

  /** A prefix of a string without sub before n has no sub either. */
  lemma PrefixLacks(s: string, sub: string, n: nat)
    requires n <= |s| && |sub| > 0
    requires forall j :: 0 <= j < n ==> !MatchesAt(s, sub, j)
    ensures !Contains(s[..n], sub)
  {
    if Contains(s[..n], sub) {
      var j := IndexOf(s[..n], sub);
      MatchesInPrefix(s, sub, n, j);
    }
  }

  // ---------------------------------------------------------------------------
  // The fields as the passes see them

  /** A field's name and what parseTag makes of its bin tag; None for a field whose tag is
      empty or "-", which every pass skips. */
  datatype Entry = Entry(name: string, parsed: Option<Result<TagInfo, TagError>>)

  function EntryOf(f: StructField): Entry
  {
    Entry(f.name, if Tagged(f) then Some(TagSpec(f.tag)) else None)
  }

  function Entries(fields: seq<StructField>): (es: seq<Entry>)
    ensures |es| == |fields|
  {
    seq(|fields|, k requires 0 <= k < |fields| => EntryOf(fields[k]))
  }

  /** The parsed tag of an entry, when it parses. */
  function InfoOf(e: Entry): Option<TagInfo>
  {
    if e.parsed.Some? && e.parsed.value.Ok? then Some(e.parsed.value.value) else None
  }

  // ---------------------------------------------------------------------------
  // The first pass

  /** The maps the first pass fills: field name to index, offset to the names of the
      fields placed there in order, the distinct offsets in order of first use, and field
      name to parsed tag. */
  datatype Layout = Layout(
    fieldMap: map<string, nat>,
    offsetMap: map<int, seq<string>>,
    offsets: seq<int>,
    infoMap: map<string, TagInfo>)

  const EmptyLayout := Layout(map[], map[], [], map[])

  /** offsetMap[o], nil when o has no entry. */
  function NamesAt(m: map<int, seq<string>>, o: int): seq<string>
  {
    if o in m then m[o] else []
  }

  /** What the first pass records for field i, when its tag has no error. */
  function Register(st: Layout, i: nat, e: Entry): Layout
  {
    var st := st.(fieldMap := st.fieldMap[e.name := i]);
    match InfoOf(e)
    case None => st
    case Some(info) =>
      var st := st.(infoMap := st.infoMap[e.name := info]);
      if info.offset < 0 then st
      else
        var existing := NamesAt(st.offsetMap, info.offset);
        st.(offsetMap := st.offsetMap[info.offset := existing + [e.name]],
            offsets := if existing == [] then st.offsets + [info.offset] else st.offsets)
  }

  /** The first-pass state after the first n fields. */
  function State(es: seq<Entry>, n: nat): Layout
    requires n <= |es|
  {
    if n == 0 then EmptyLayout else Register(State(es, n - 1), n - 1, es[n - 1])
  }

  /** Every named field in names is recorded and may share its offset. */
  predicate AllShareable(names: seq<string>, infoMap: map<string, TagInfo>)
  {
    forall k :: 0 <= k < |names| ==> names[k] in infoMap && Shareable(infoMap[names[k]])
  }

  /** The error the first pass reports at field f, given the state before it: a tag that
      does not parse, or an offset already taken by a field that may not share it, when f
      may not share it either. */
  function Conflict(st: Layout, e: Entry): Option<ValidateError>
  {
    match e.parsed
    case None => None
    case Some(Err(err)) => Some(ValidateError(e.name, InvalidTag(err)))
    case Some(Ok(info)) =>
      var existing := NamesAt(st.offsetMap, info.offset);
      if info.offset >= 0 && |existing| > 0 && !Shareable(info)
         && !AllShareable(existing, st.infoMap[e.name := info])
      then Some(ValidateError(e.name, OffsetConflict(info.offset, existing[0])))
      else None
  }

  /** The error the first pass would report at each field. */
  function Conflicts(es: seq<Entry>): (s: seq<Option<ValidateError>>)
    ensures |s| == |es|
  {
    seq(|es|, k requires 0 <= k < |es| => Conflict(State(es, k), es[k]))
  }

  // ---------------------------------------------------------------------------
  // The second pass

  /** The error the second pass reports at field i, given the complete field map. */
  function Dependency(fieldMap: map<string, nat>, i: nat, e: Entry): Option<ValidateError>
  {
    match InfoOf(e)
    case None => None
    case Some(info) =>
      var c := ConditionFieldOf(info.condition);
      if info.lenField != "" && info.lenField !in fieldMap then Some(ValidateError(e.name, LenMissing(info.lenField)))
      else if info.lenField != "" && fieldMap[info.lenField] >= i then Some(ValidateError(e.name, LenNotBefore(info.lenField)))
      else if info.condition != "" && c != "" && c !in fieldMap then Some(ValidateError(e.name, CondMissing(c)))
      else if info.condition != "" && c != "" && fieldMap[c] >= i then Some(ValidateError(e.name, CondNotBefore(c)))
      else if info.size == -1 && info.lenField == "" && !info.isRepeat then Some(ValidateError(e.name, VariableWithoutLen))
      else if info.isRepeat && info.lenField == "" then Some(ValidateError(e.name, RepeatWithoutLen))
      else None
  }

  /** The error the second pass would report at each field. */
  function Dependencies(es: seq<Entry>, fieldMap: map<string, nat>): (s: seq<Option<ValidateError>>)
    ensures |s| == |es|
  {
    seq(|es|, k requires 0 <= k < |es| => Dependency(fieldMap, k, es[k]))
  }

  // ---------------------------------------------------------------------------
  // The third pass

  predicate SortedInts(s: seq<int>)
  {
    forall j, k :: 0 <= j < k < |s| ==> s[j] <= s[k]
  }

  predicate StrictlySorted(s: seq<int>)
  {
    forall j, k :: 0 <= j < k < |s| ==> s[j] < s[k]
  }

  predicate DistinctInts(s: seq<int>)
  {
    forall j, k :: 0 <= j < k < |s| ==> s[j] != s[k]
  }

  function InsertInt(x: int, s: seq<int>): (r: seq<int>)
    ensures |r| == |s| + 1 && multiset(r) == multiset(s) + multiset{x}
    ensures forall k :: 0 <= k < |r| ==> r[k] == x || r[k] in s
  {
    if s == [] || x <= s[0] then [x] + s
    else
      assert s == [s[0]] + s[1..];
      [s[0]] + InsertInt(x, s[1..])
  }

  /** A number below every element of a sorted list keeps it sorted in front. */
  lemma ConsSorted(a: int, t: seq<int>, strict: bool)
    requires if strict then StrictlySorted(t) else SortedInts(t)
    requires forall k :: 0 <= k < |t| ==> if strict then a < t[k] else a <= t[k]
    ensures if strict then StrictlySorted([a] + t) else SortedInts([a] + t)
  {
  }

  /** Inserting into a sorted list keeps it sorted, and strictly so for a new number. */
  lemma {:induction false} InsertIntSorted(x: int, s: seq<int>, strict: bool)
    requires if strict then StrictlySorted(s) && x !in s else SortedInts(s)
    ensures if strict then StrictlySorted(InsertInt(x, s)) else SortedInts(InsertInt(x, s))
  {
    if s == [] || x <= s[0] {
      ConsSorted(x, s, strict);
    } else {
      var t := InsertInt(x, s[1..]);
      assert x !in s ==> x !in s[1..];
      InsertIntSorted(x, s[1..], strict);
      forall k | 0 <= k < |t|
        ensures if strict then s[0] < t[k] else s[0] <= t[k]
      {
        if t[k] != x {
          var j :| 0 <= j < |s[1..]| && s[1..][j] == t[k];
          assert s[j + 1] == t[k];
        }
      }
      ConsSorted(s[0], t, strict);
    }
  }

  /** sort.Ints: the same numbers in ascending order. */
  function SortInts(s: seq<int>): (r: seq<int>)
    ensures SortedInts(r) && multiset(r) == multiset(s)
    ensures DistinctInts(s) ==> StrictlySorted(r)
  {
    if s == [] then []
    else
      assert s == s[..|s| - 1] + [s[|s| - 1]];
      var r := SortInts(s[..|s| - 1]);
      assert DistinctInts(s) ==> s[|s| - 1] !in s[..|s| - 1];
      assert s[|s| - 1] in r <==> s[|s| - 1] in multiset(s[..|s| - 1]);
      InsertIntSorted(s[|s| - 1], r, false);
      InsertIntSorted(s[|s| - 1], r, DistinctInts(s));
      InsertInt(s[|s| - 1], r)
  }

  /** The field name, placed at cur, runs past next: it is recorded, is not a bit or
      conditional field, and has a positive size with cur+size > next. */
  predicate RunsPast(name: string, infoMap: map<string, TagInfo>, cur: int, next: int)
  {
    name in infoMap && !Shareable(infoMap[name]) && infoMap[name].size > 0 && cur + infoMap[name].size > next
  }

  /** The first of the fields placed at cur that runs past next: not a bit or conditional
      field, a positive size, and cur+size > next. */
  function FirstOverlap(names: seq<string>, infoMap: map<string, TagInfo>, cur: int, next: int): (r: Option<string>)
    ensures r.Some? ==> RunsPast(r.value, infoMap, cur, next) && r.value in names
    ensures r.None? <==> forall k :: 0 <= k < |names| ==> !RunsPast(names[k], infoMap, cur, next)
  {
    if names == [] then None
    else if RunsPast(names[0], infoMap, cur, next) then Some(names[0])
    else
      var r := FirstOverlap(names[1..], infoMap, cur, next);
      assert forall k :: 1 <= k < |names| ==> names[k] == names[1..][k - 1];
      r
  }

  /** The error the third pass reports at the k-th of the sorted offsets. */
  function OverlapAt(st: Layout, sorted: seq<int>, k: nat): Option<ValidateError>
    requires k + 1 < |sorted|
  {
    var cur, next := sorted[k], sorted[k + 1];
    match FirstOverlap(NamesAt(st.offsetMap, cur), st.infoMap, cur, next)
    case None => None
    case Some(name) =>
      var others := NamesAt(st.offsetMap, next);
      Some(ValidateError(name, Overlap(if others == [] then "" else others[0], cur, st.infoMap[name].size, next)))
  }

  /** The error the third pass would report at each offset but the last. */
  function Overlaps(st: Layout, sorted: seq<int>): (s: seq<Option<ValidateError>>)
    requires |sorted| > 0
    ensures |s| == |sorted| - 1
  {
    seq(|sorted| - 1, k requires 0 <= k < |sorted| - 1 => OverlapAt(st, sorted, k))
  }

  /** What validateStructType returns: the first error of the first pass, else of the
      second, else of the third. */
  function Validate(fields: seq<StructField>): Option<ValidateError>
  {
    var es := Entries(fields);
    var st := State(es, |es|);
    var sorted := SortInts(st.offsets);
    if FirstSome(Conflicts(es)).Some? then FirstSome(Conflicts(es))
    else if FirstSome(Dependencies(es, st.fieldMap)).Some? then FirstSome(Dependencies(es, st.fieldMap))
    else if |sorted| == 0 then None
    else FirstSome(Overlaps(st, sorted))
  }

  /** ValidateStruct: a type that is not a struct (after one pointer is followed) is
      rejected, any other is validated. */
  function ValidateStruct(isStruct: bool, fields: seq<StructField>): (r: Option<ValidateError>)
    ensures !isStruct ==> r == Some(ValidateError("", NotAStruct))
    ensures isStruct ==> r == Validate(fields)
  {
    if !isStruct then Some(ValidateError("", NotAStruct)) else Validate(fields)
  }

  // ---------------------------------------------------------------------------
  // validateStructType

  /** Every name the first pass placed at an offset has its tag recorded. */
  predicate Recorded(st: Layout)
  {
    forall o, k :: o in st.offsetMap && 0 <= k < |st.offsetMap[o]| ==> st.offsetMap[o][k] in st.infoMap
  }

  lemma {:induction false} StateRecorded(es: seq<Entry>, n: nat)
    requires n <= |es|
    ensures Recorded(State(es, n))
  {
    if n > 0 {
      StateRecorded(es, n - 1);
    }
  }

  /** The loop over the fields already at an offset: are they all bit or conditional
      fields? */
  method AllShare(existing: seq<string>, infoMap: map<string, TagInfo>) returns (all: bool)
    requires forall k :: 0 <= k < |existing| ==> existing[k] in infoMap
    ensures all == AllShareable(existing, infoMap)
  {
    for k := 0 to |existing|
      invariant forall l :: 0 <= l < k ==> Shareable(infoMap[existing[l]])
    {
      var existingInfo := infoMap[existing[k]];
      if existingInfo.bits == "" && existingInfo.condition == "" {
        return false;
      }
    }
    return true;
  }

  /** The loop over the fields at one offset in the third pass. */
  method FindOverlap(names: seq<string>, infoMap: map<string, TagInfo>, cur: int, next: int) returns (r: Option<string>)
    requires forall k :: 0 <= k < |names| ==> names[k] in infoMap
    ensures r == FirstOverlap(names, infoMap, cur, next)
  {
    for k := 0 to |names|
      invariant FirstOverlap(names, infoMap, cur, next) == FirstOverlap(names[k..], infoMap, cur, next)
    {
      assert names[k..][1..] == names[k + 1..];
      var info := infoMap[names[k]];
      if info.bits != "" || info.condition != "" {
        continue;
      }
      if info.size > 0 && cur + info.size > next {
        return Some(names[k]);
      }
    }
    return None;
  }

  /** The first pass at field i. */
  method RegisterField(fieldMap: map<string, nat>, offsetMap: map<int, seq<string>>, offsets: seq<int>,
                       infoMap: map<string, TagInfo>, i: nat, f: StructField)
    returns (fieldMap': map<string, nat>, offsetMap': map<int, seq<string>>, offsets': seq<int>,
             infoMap': map<string, TagInfo>, err: Option<ValidateError>)
    requires Recorded(Layout(fieldMap, offsetMap, offsets, infoMap))
    ensures err == Conflict(Layout(fieldMap, offsetMap, offsets, infoMap), EntryOf(f))
    ensures Layout(fieldMap', offsetMap', offsets', infoMap') == Register(Layout(fieldMap, offsetMap, offsets, infoMap), i, EntryOf(f))
  {
    fieldMap', offsetMap', offsets', infoMap' := fieldMap[f.name := i], offsetMap, offsets, infoMap;
    err := None;
    if f.tag == "" || f.tag == "-" {
      return;
    }
    var r := ParseTag(f.tag);
    if r.Err? {
      err := Some(ValidateError(f.name, InvalidTag(r.error)));
      return;
    }
    var info := r.value;
    infoMap' := infoMap[f.name := info];
    if info.offset >= 0 {
      var existing := NamesAt(offsetMap, info.offset);
      var canShare := info.bits != "" || info.condition != "";
      if |existing| > 0 && !canShare {
        var allCanShare := AllShare(existing, infoMap');
        if !allCanShare {
          err := Some(ValidateError(f.name, OffsetConflict(info.offset, existing[0])));
        }
      }
      offsetMap' := offsetMap[info.offset := existing + [f.name]];
      if |existing| == 0 {
        offsets' := offsets + [info.offset];
      }
    }
  }

  /** The second pass at field i. */
  method CheckDependencies(fieldMap: map<string, nat>, i: nat, f: StructField) returns (err: Option<ValidateError>)
    ensures err == Dependency(fieldMap, i, EntryOf(f))
  {
    if f.tag == "" || f.tag == "-" {
      return None;
    }
    var r := ParseTag(f.tag);
    if r.Err? {
      return None;
    }
    var info := r.value;
    if info.lenField != "" {
      if info.lenField !in fieldMap {
        return Some(ValidateError(f.name, LenMissing(info.lenField)));
      }
      if fieldMap[info.lenField] >= i {
        return Some(ValidateError(f.name, LenNotBefore(info.lenField)));
      }
    }
    if info.condition != "" {
      var condFieldName := FindConditionField(info.condition);
      if condFieldName != "" {
        if condFieldName !in fieldMap {
          return Some(ValidateError(f.name, CondMissing(condFieldName)));
        }
        if fieldMap[condFieldName] >= i {
          return Some(ValidateError(f.name, CondNotBefore(condFieldName)));
        }
      }
    }
    if info.size == -1 && info.lenField == "" && !info.isRepeat {
      return Some(ValidateError(f.name, VariableWithoutLen));
    }
    if info.isRepeat && info.lenField == "" {
      return Some(ValidateError(f.name, RepeatWithoutLen));
    }
    return None;
  }

  /** The first pass of validateStructType. */
  method FirstPass(fields: seq<StructField>)
    returns (fieldMap: map<string, nat>, offsetMap: map<int, seq<string>>, offsets: seq<int>,
             infoMap: map<string, TagInfo>, err: Option<ValidateError>)
    ensures err == FirstSome(Conflicts(Entries(fields)))
    ensures err.None? ==> Layout(fieldMap, offsetMap, offsets, infoMap) == State(Entries(fields), |fields|)
  {
    ghost var es := Entries(fields);
    ghost var s := Conflicts(es);
    fieldMap, offsetMap, offsets, infoMap := map[], map[], [], map[];
    for i := 0 to |fields|
      invariant Layout(fieldMap, offsetMap, offsets, infoMap) == State(es, i)
      invariant FirstSome(s[..i]).None?
    {
      StateRecorded(es, i);
      fieldMap, offsetMap, offsets, infoMap, err := RegisterField(fieldMap, offsetMap, offsets, infoMap, i, fields[i]);
      FirstSomeSnoc(s, i);
      if err.Some? {
        FirstSomeSticks(s, i + 1);
        return;
      }
    }
    assert s[..|fields|] == s;
    err := None;
  }

  /** The second pass of validateStructType. */
  method SecondPass(fields: seq<StructField>, fieldMap: map<string, nat>) returns (err: Option<ValidateError>)
    ensures err == FirstSome(Dependencies(Entries(fields), fieldMap))
  {
    ghost var s := Dependencies(Entries(fields), fieldMap);
    for i := 0 to |fields|
      invariant FirstSome(s[..i]).None?
    {
      err := CheckDependencies(fieldMap, i, fields[i]);
      FirstSomeSnoc(s, i);
      if err.Some? {
        FirstSomeSticks(s, i + 1);
        return;
      }
    }
    assert s[..|fields|] == s;
    err := None;
  }

  /** The third pass of validateStructType, over the sorted offsets. */
  method ThirdPass(st: Layout, sorted: seq<int>) returns (err: Option<ValidateError>)
    requires Recorded(st) && |sorted| > 0
    ensures err == FirstSome(Overlaps(st, sorted))
  {
    ghost var s := Overlaps(st, sorted);
    for k := 0 to |sorted| - 1
      invariant FirstSome(s[..k]).None?
    {
      var currentOffset, nextOffset := sorted[k], sorted[k + 1];
      var currentFields := NamesAt(st.offsetMap, currentOffset);
      var name := FindOverlap(currentFields, st.infoMap, currentOffset, nextOffset);
      if name.Some? {
        var others := NamesAt(st.offsetMap, nextOffset);
        err := Some(ValidateError(name.value, Overlap(if others == [] then "" else others[0], currentOffset,
                                                      st.infoMap[name.value].size, nextOffset)));
        FirstSomeSnoc(s, k);
        FirstSomeSticks(s, k + 1);
        return;
      }
      FirstSomeSnoc(s, k);
    }
    assert s[..|sorted| - 1] == s;
    err := None;
  }

  /** validateStructType: the three passes, each returning at its first error. */
  method ValidateStructType(fields: seq<StructField>) returns (err: Option<ValidateError>)
    ensures err == Validate(fields)
  {
    var fieldMap, offsetMap, offsets, infoMap;
    fieldMap, offsetMap, offsets, infoMap, err := FirstPass(fields);
    if err.Some? {
      return;
    }
    err := SecondPass(fields, fieldMap);
    if err.Some? {
      return;
    }
    var sorted := SortInts(offsets);
    if |sorted| == 0 {
      return None;
    }
    StateRecorded(Entries(fields), |fields|);
    err := ThirdPass(Layout(fieldMap, offsetMap, offsets, infoMap), sorted);
  }

  // ---------------------------------------------------------------------------
  // validateStructType, declaratively
  //
  // For a struct whose field names are distinct (a Go struct without blank fields), the
  // three passes accept it exactly when the layout rules below hold; the order in which
  // the passes look at the fields only decides which error is reported.

  /** Distinct field names. */
  predicate DistinctNames(es: seq<Entry>)
  {
    forall j, k :: 0 <= j < k < |es| ==> es[j].name != es[k].name
  }

  /** The field's tag parses and places it at the offset o, which is not negative. */
  predicate PlacedAtOffset(e: Entry, o: int)
  {
    o >= 0 && InfoOf(e).Some? && InfoOf(e).value.offset == o
  }

  /** The names of the fields among the first n placed at o, in order. */
  function PlacedAt(es: seq<Entry>, n: nat, o: int): seq<string>
    requires n <= |es|
  {
    if n == 0 then []
    else PlacedAt(es, n - 1, o) + (if PlacedAtOffset(es[n - 1], o) then [es[n - 1].name] else [])
  }

  lemma {:induction false} StateOffsetMap(es: seq<Entry>, n: nat, o: int)
    requires n <= |es|
    ensures NamesAt(State(es, n).offsetMap, o) == PlacedAt(es, n, o)
  {
    if n > 0 {
      StateOffsetMap(es, n - 1, o);
    }
  }

  /** The first pass lists an offset exactly when some field name is recorded at it. */
  lemma RegisterOffsets(st: Layout, i: nat, e: Entry, o: int)
    requires o in st.offsets <==> NamesAt(st.offsetMap, o) != []
    ensures var r := Register(st, i, e);
            o in r.offsets <==> NamesAt(r.offsetMap, o) != []
  {
  }

  lemma {:induction false} StateOffsetNames(es: seq<Entry>, n: nat, o: int)
    requires n <= |es|
    ensures o in State(es, n).offsets <==> NamesAt(State(es, n).offsetMap, o) != []
  {
    if n > 0 {
      var j := n - 1;
      StateOffsetNames(es, j, o);
      RegisterOffsets(State(es, j), j, es[j], o);
      assert j + 1 == n;
    }
  }

  lemma StateOffsets(es: seq<Entry>, n: nat, o: int)
    requires n <= |es|
    ensures o in State(es, n).offsets <==> PlacedAt(es, n, o) != []
  {
    StateOffsetNames(es, n, o);
    StateOffsetMap(es, n, o);
  }

  /** The first pass appends an offset only when no name is recorded at it yet. */
  lemma RegisterDistinct(st: Layout, i: nat, e: Entry)
    requires DistinctInts(st.offsets)
    requires InfoOf(e).Some? ==> var d := InfoOf(e).value.offset;
                                 d in st.offsets <==> NamesAt(st.offsetMap, d) != []
    ensures DistinctInts(Register(st, i, e).offsets)
  {
    if InfoOf(e).Some? && InfoOf(e).value.offset >= 0 {
      var d := InfoOf(e).value.offset;
      var r := Register(st, i, e);
      if NamesAt(st.offsetMap, d) == [] {
        assert r.offsets == st.offsets + [d];
        forall j | 0 <= j < |st.offsets|
          ensures r.offsets[j] != d
        {
          assert st.offsets[j] in st.offsets;
        }
      }
    }
  }

  lemma {:induction false} StateOffsetsDistinct(es: seq<Entry>, n: nat)
    requires n <= |es|
    ensures DistinctInts(State(es, n).offsets)
  {
    if n > 0 {
      var j := n - 1;
      StateOffsetsDistinct(es, j);
      if InfoOf(es[j]).Some? {
        StateOffsetNames(es, j, InfoOf(es[j]).value.offset);
      }
      RegisterDistinct(State(es, j), j, es[j]);
      assert j + 1 == n;
    }
  }

  lemma {:induction false} StateInfo(es: seq<Entry>, n: nat, k: nat)
    requires DistinctNames(es) && k < n <= |es| && InfoOf(es[k]).Some?
    ensures es[k].name in State(es, n).infoMap
    ensures State(es, n).infoMap[es[k].name] == InfoOf(es[k]).value
  {
    if k < n - 1 {
      StateInfo(es, n - 1, k);
    }
  }

  lemma {:induction false} StateFieldMap(es: seq<Entry>, n: nat, k: nat)
    requires DistinctNames(es) && k < n <= |es|
    ensures es[k].name in State(es, n).fieldMap && State(es, n).fieldMap[es[k].name] == k
  {
    if k < n - 1 {
      StateFieldMap(es, n - 1, k);
    }
  }

  lemma {:induction false} StateFieldMapDomain(es: seq<Entry>, n: nat, name: string) returns (k: nat)
    requires n <= |es| && name in State(es, n).fieldMap
    ensures k < n && es[k].name == name
  {
    if es[n - 1].name == name {
      k := n - 1;
    } else {
      k := StateFieldMapDomain(es, n - 1, name);
    }
  }

  lemma {:induction false} PlacedAtMember(es: seq<Entry>, n: nat, o: int, p: nat) returns (k: nat)
    requires n <= |es| && p < |PlacedAt(es, n, o)|
    ensures k < n && es[k].name == PlacedAt(es, n, o)[p] && PlacedAtOffset(es[k], o)
  {
    if p < |PlacedAt(es, n - 1, o)| {
      k := PlacedAtMember(es, n - 1, o, p);
    } else {
      k := n - 1;
    }
  }

  lemma {:induction false} PlacedAtOf(es: seq<Entry>, n: nat, o: int, k: nat)
    requires k < n <= |es| && PlacedAtOffset(es[k], o)
    ensures es[k].name in PlacedAt(es, n, o)
  {
    if k < n - 1 {
      PlacedAtOf(es, n - 1, o, k);
    }
  }

  // The first pass

  /** Every field the validator looks at has a tag that parses. */
  predicate WellTagged(es: seq<Entry>)
  {
    forall j :: 0 <= j < |es| && es[j].parsed.Some? ==> es[j].parsed.value.Ok?
  }

  /** Field i, before field j, sits at j's offset, and neither is a bit or conditional
      field. */
  predicate Clash(es: seq<Entry>, i: int, j: int)
  {
    && 0 <= i < j < |es|
    && InfoOf(es[i]).Some? && InfoOf(es[j]).Some?
    && PlacedAtOffset(es[i], InfoOf(es[j]).value.offset)
    && !Shareable(InfoOf(es[i]).value) && !Shareable(InfoOf(es[j]).value)
  }

  predicate NoClash(es: seq<Entry>)
  {
    forall i, j :: 0 <= i < j < |es| ==> !Clash(es, i, j)
  }

  lemma ClashConflict(es: seq<Entry>, i: nat, j: nat)
    requires DistinctNames(es) && Clash(es, i, j)
    ensures Conflict(State(es, j), es[j]).Some?
  {
    var f := es[j];
    var info := InfoOf(f).value;
    var st := State(es, j);
    var existing := NamesAt(st.offsetMap, info.offset);
    StateOffsetMap(es, j, info.offset);
    PlacedAtOf(es, j, info.offset, i);
    StateInfo(es, j, i);
    assert !AllShareable(existing, st.infoMap[f.name := info]);
  }

  lemma NoClashNoConflict(es: seq<Entry>, j: nat)
    requires DistinctNames(es) && j < |es|
    requires es[j].parsed.Some? ==> es[j].parsed.value.Ok?
    requires forall i :: 0 <= i < j ==> !Clash(es, i, j)
    ensures Conflict(State(es, j), es[j]).None?
  {
    var f := es[j];
    if InfoOf(f).Some? {
      var info := InfoOf(f).value;
      var st := State(es, j);
      var existing := NamesAt(st.offsetMap, info.offset);
      var m := st.infoMap[f.name := info];
      if info.offset >= 0 && |existing| > 0 && !Shareable(info) {
        StateOffsetMap(es, j, info.offset);
        forall p | 0 <= p < |existing|
          ensures existing[p] in m && Shareable(m[existing[p]])
        {
          var i := PlacedAtMember(es, j, info.offset, p);
          StateInfo(es, j, i);
          assert !Clash(es, i, j);
        }
      }
    }
  }

  lemma ConflictIff(es: seq<Entry>, j: nat)
    requires DistinctNames(es) && j < |es|
    ensures Conflict(State(es, j), es[j]).None? <==>
            (es[j].parsed.Some? ==> es[j].parsed.value.Ok?) && forall i :: 0 <= i < j ==> !Clash(es, i, j)
  {
    if exists i :: 0 <= i < j && Clash(es, i, j) {
      var i :| 0 <= i < j && Clash(es, i, j);
      ClashConflict(es, i, j);
    } else if es[j].parsed.Some? ==> es[j].parsed.value.Ok? {
      NoClashNoConflict(es, j);
    }
  }

  /** The first pass finds no error exactly when every tag parses and no two fields that
      may not share an offset share one. */
  lemma FirstPassIff(es: seq<Entry>)
    requires DistinctNames(es)
    ensures FirstSome(Conflicts(es)).None? <==> WellTagged(es) && NoClash(es)
  {
    var s := Conflicts(es);
    FirstSomeNone(s);
    forall j | 0 <= j < |es|
      ensures s[j].None? <==>
              (es[j].parsed.Some? ==> es[j].parsed.value.Ok?) && forall i :: 0 <= i < j ==> !Clash(es, i, j)
    {
      ConflictIff(es, j);
    }
  }

  // The second pass

  /** A field named name comes before field j. */
  predicate NamedBefore(es: seq<Entry>, name: string, j: int)
  {
    exists k :: 0 <= k < j && k < |es| && es[k].name == name
  }

  /** What the second pass demands of field j with parsed tag info: its len field and the
      field its condition names exist and come earlier, and a variable-length or repeated
      field names its len field. */
  predicate DependsWell(es: seq<Entry>, j: int, info: TagInfo)
  {
    && (info.lenField != "" ==> NamedBefore(es, info.lenField, j))
    && (info.condition != "" && ConditionFieldOf(info.condition) != "" ==>
          NamedBefore(es, ConditionFieldOf(info.condition), j))
    && (info.size == -1 || info.isRepeat ==> info.lenField != "")
  }

  predicate AllDependWell(es: seq<Entry>)
  {
    forall j :: 0 <= j < |es| && InfoOf(es[j]).Some? ==> DependsWell(es, j, InfoOf(es[j]).value)
  }

  lemma NamedBeforeIff(es: seq<Entry>, name: string, j: nat)
    requires DistinctNames(es) && j <= |es|
    ensures var m := State(es, |es|).fieldMap;
            (name in m && m[name] < j) <==> NamedBefore(es, name, j)
  {
    var m := State(es, |es|).fieldMap;
    if name in m {
      var k := StateFieldMapDomain(es, |es|, name);
      StateFieldMap(es, |es|, k);
    } else {
      forall k | 0 <= k < j
        ensures es[k].name != name
      {
        StateFieldMap(es, |es|, k);
      }
    }
  }

  lemma DependencyIff(es: seq<Entry>, j: nat)
    requires DistinctNames(es) && j < |es|
    ensures Dependency(State(es, |es|).fieldMap, j, es[j]).None? <==>
            (InfoOf(es[j]).Some? ==> DependsWell(es, j, InfoOf(es[j]).value))
  {
    if InfoOf(es[j]).Some? {
      var info := InfoOf(es[j]).value;
      NamedBeforeIff(es, info.lenField, j);
      NamedBeforeIff(es, ConditionFieldOf(info.condition), j);
    }
  }

  /** The second pass finds no error exactly when every field's dependencies hold. */
  lemma SecondPassIff(es: seq<Entry>)
    requires DistinctNames(es)
    ensures FirstSome(Dependencies(es, State(es, |es|).fieldMap)).None? <==> AllDependWell(es)
  {
    var s := Dependencies(es, State(es, |es|).fieldMap);
    FirstSomeNone(s);
    forall j | 0 <= j < |es|
      ensures s[j].None? <==> (InfoOf(es[j]).Some? ==> DependsWell(es, j, InfoOf(es[j]).value))
    {
      DependencyIff(es, j);
    }
  }

  // The third pass

  /** Field k, neither a bit nor a conditional field, with a positive size, reaches past
      the offset of field m, which sits after it. */
  predicate Overruns(es: seq<Entry>, k: int, m: int)
  {
    && 0 <= k < |es| && 0 <= m < |es|
    && InfoOf(es[k]).Some? && InfoOf(es[m]).Some?
    && var a, b := InfoOf(es[k]).value, InfoOf(es[m]).value;
       && 0 <= a.offset < b.offset
       && !Shareable(a) && a.size > 0 && a.offset + a.size > b.offset
  }

  predicate NoOverlap(es: seq<Entry>)
  {
    forall k, m :: 0 <= k < |es| && 0 <= m < |es| ==> !Overruns(es, k, m)
  }

  /** A position of x in s. */
  function IndexIn(s: seq<int>, x: int): (r: nat)
    requires x in s
    ensures r < |s| && s[r] == x
  {
    if s[0] == x then 0 else 1 + IndexIn(s[1..], x)
  }

  /** What the third pass relies on about the first pass's state st for the fields es: the
      names at each offset, the recorded tags, and the distinct offsets in use. */
  ghost predicate Describes(st: Layout, es: seq<Entry>)
  {
    && (forall o :: NamesAt(st.offsetMap, o) == PlacedAt(es, |es|, o))
    && (forall k :: 0 <= k < |es| && InfoOf(es[k]).Some? ==>
          es[k].name in st.infoMap && st.infoMap[es[k].name] == InfoOf(es[k]).value)
    && (forall o :: o in st.offsets <==> PlacedAt(es, |es|, o) != [])
  }

  lemma StateDescribes(es: seq<Entry>)
    requires DistinctNames(es)
    ensures Describes(State(es, |es|), es)
    ensures DistinctInts(State(es, |es|).offsets)
  {
    var st := State(es, |es|);
    forall o
      ensures NamesAt(st.offsetMap, o) == PlacedAt(es, |es|, o)
    {
      StateOffsetMap(es, |es|, o);
    }
    forall k | 0 <= k < |es| && InfoOf(es[k]).Some?
      ensures es[k].name in st.infoMap && st.infoMap[es[k].name] == InfoOf(es[k]).value
    {
      StateInfo(es, |es|, k);
    }
    forall o
      ensures o in st.offsets <==> PlacedAt(es, |es|, o) != []
    {
      StateOffsets(es, |es|, o);
    }
    StateOffsetsDistinct(es, |es|);
  }

  /** The offsets in use, sorted: what sort.Ints makes of the first pass's offsets. */
  predicate SortedOffsets(st: Layout, sorted: seq<int>)
  {
    StrictlySorted(sorted) && multiset(sorted) == multiset(st.offsets)
  }

  /** A field placed at o makes o one of the sorted offsets. */
  lemma PlacedSorted(es: seq<Entry>, st: Layout, sorted: seq<int>, k: nat, o: int)
    requires Describes(st, es) && SortedOffsets(st, sorted)
    requires k < |es| && PlacedAtOffset(es[k], o)
    ensures o in sorted
  {
    PlacedAtOf(es, |es|, o, k);
    assert o in multiset(st.offsets);
  }

  lemma OverrunOverlap(es: seq<Entry>, st: Layout, sorted: seq<int>, k: nat, m: nat) returns (a: nat)
    requires Describes(st, es) && SortedOffsets(st, sorted)
    requires Overruns(es, k, m)
    ensures a + 1 < |sorted| && OverlapAt(st, sorted, a).Some?
  {
    var info := InfoOf(es[k]).value;
    var o, o' := info.offset, InfoOf(es[m]).value.offset;
    PlacedSorted(es, st, sorted, k, o);
    PlacedSorted(es, st, sorted, m, o');
    a := IndexIn(sorted, o);
    var b := IndexIn(sorted, o');
    assert a < b;
    assert sorted[a + 1] <= sorted[b];
    var names := NamesAt(st.offsetMap, o);
    PlacedAtOf(es, |es|, o, k);
    assert RunsPast(es[k].name, st.infoMap, o, sorted[a + 1]);
    assert FirstOverlap(names, st.infoMap, o, sorted[a + 1]).Some?;
  }

  lemma NoOverrunNoOverlapAt(es: seq<Entry>, st: Layout, sorted: seq<int>, a: nat)
    requires Describes(st, es) && SortedOffsets(st, sorted)
    requires NoOverlap(es) && a + 1 < |sorted|
    ensures OverlapAt(st, sorted, a).None?
  {
    var n := |es|;
    var cur, next := sorted[a], sorted[a + 1];
    assert next in multiset(st.offsets);
    var m := PlacedAtMember(es, n, next, 0);
    var names := NamesAt(st.offsetMap, cur);
    forall p | 0 <= p < |names|
      ensures !RunsPast(names[p], st.infoMap, cur, next)
    {
      var k := PlacedAtMember(es, n, cur, p);
      assert !Overruns(es, k, m);
    }
  }

  /** The third pass finds no error exactly when no field reaches past a later offset. */
  lemma ThirdPassIff(es: seq<Entry>, st: Layout, sorted: seq<int>)
    requires Describes(st, es) && SortedOffsets(st, sorted) && |sorted| > 0
    ensures FirstSome(Overlaps(st, sorted)).None? <==> NoOverlap(es)
  {
    var s := Overlaps(st, sorted);
    FirstSomeNone(s);
    if NoOverlap(es) {
      forall a | 0 <= a < |s|
        ensures s[a].None?
      {
        NoOverrunNoOverlapAt(es, st, sorted, a);
      }
    } else {
      var k, m :| 0 <= k < |es| && 0 <= m < |es| && Overruns(es, k, m);
      var a := OverrunOverlap(es, st, sorted, k, m);
      assert s[a].Some?;
    }
  }

  /** With no offset in use no field can reach past one. */
  lemma NoOffsetsNoOverlap(es: seq<Entry>, st: Layout, sorted: seq<int>)
    requires Describes(st, es) && SortedOffsets(st, sorted) && |sorted| == 0
    ensures NoOverlap(es)
  {
    forall k, m | 0 <= k < |es| && 0 <= m < |es| && Overruns(es, k, m)
      ensures false
    {
      PlacedSorted(es, st, sorted, k, InfoOf(es[k]).value.offset);
    }
  }

  /** validateStructType accepts a struct with distinct field names exactly when every tag
      parses, no two fields that may not share an offset share one, every len and condition
      field exists earlier, every variable-length or repeated field names its len field, and
      no field reaches past the next offset in use. */
  lemma ValidateIff(fields: seq<StructField>)
    requires forall j, k :: 0 <= j < k < |fields| ==> fields[j].name != fields[k].name
    ensures var es := Entries(fields);
            Validate(fields).None? <==> WellTagged(es) && NoClash(es) && AllDependWell(es) && NoOverlap(es)
  {
    var es := Entries(fields);
    assert DistinctNames(es);
    var st := State(es, |es|);
    var sorted := SortInts(st.offsets);
    FirstPassIff(es);
    SecondPassIff(es);
    StateDescribes(es);
    if |sorted| > 0 {
      ThirdPassIff(es, st, sorted);
    } else {
      NoOffsetsNoOverlap(es, st, sorted);
    }
  }
}
