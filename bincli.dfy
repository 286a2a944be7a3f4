/**
 * The tag scanner of the binpack code generator's command-line tool: extractBinTag picks the
 * bin tag out of a whole Go struct tag such as `json:"id" bin:"0:4:le"`. (Its
 * extractConditionField is the same search as findConditionField, modelled as
 * BinValidate.ConditionFieldOf.)
 */
module BinCli {

  /** The four characters that introduce a bin tag. */
  const Key: string := "bin:"

  /** "bin:" starts at position i, with at least one character after it. */
  predicate KeyAt(tag: string, i: nat)
  {
    i + 4 < |tag| && HasKeyAt(tag, i)
  }

  /** "bin:" occurs in s at position j. */
  predicate HasKeyAt(s: string, j: nat)
  {
    j + 4 <= |s| && s[j..j + 4] == Key
  }

  /** The position of the first '"' at or after j, or the end of the tag. */
  function QuoteFrom(tag: string, j: nat): (e: nat)
    requires j <= |tag|
    ensures j <= e <= |tag|
    ensures e == |tag| || tag[e] == '"'
    ensures forall k :: j <= k < e ==> tag[k] != '"'
    decreases |tag| - j
  {
    if j == |tag| || tag[j] == '"' then j else QuoteFrom(tag, j + 1)
  }

  /** The bin tag found by a scan starting at position i. */
  function BinTagFrom(tag: string, i: nat): string
    decreases |tag| - i
  {
    if i >= |tag| then ""
    else if KeyAt(tag, i) then tag[i + 5..QuoteFrom(tag, i + 5)]
    else BinTagFrom(tag, i + 1)
  }

  /** What extractBinTag returns. */
  function BinTag(tag: string): string
  {
    BinTagFrom(tag, 0)
  }

  /** extractBinTag: scan for "bin:", skip it and the character after it (the opening
      quote), and return the text up to the next '"' or the end of the tag; "" when there
      is no such "bin:". */
  method ExtractBinTag(tag: string) returns (r: string)
    ensures r == BinTag(tag)
  {
    if tag == "" {
      return "";
    }
    var i := 0;
    while i < |tag|
      invariant 0 <= i <= |tag|
      invariant BinTag(tag) == BinTagFrom(tag, i)
    {
      if i + 4 < |tag| && tag[i..i + 4] == "bin:" {
        var start := i + 5;
        var end := start;
        while end < |tag| && tag[end] != '"'
          invariant start <= end <= |tag|
          invariant QuoteFrom(tag, start) == QuoteFrom(tag, end)
        {
          end := end + 1;
        }
        return tag[start..end];
      }
      i := i + 1;
    }
    return "";
  }

  // ---------------------------------------------------------------------------
  // What the scan finds

  /** A scan from i finds the first "bin:" at or after i, or gives "" when there is none. */
  lemma {:induction false} BinTagFromFirst(tag: string, i: nat, p: nat)
    requires i <= p && KeyAt(tag, p)
    requires forall q :: i <= q < p ==> !KeyAt(tag, q)
    ensures BinTagFrom(tag, i) == tag[p + 5..QuoteFrom(tag, p + 5)]
    decreases p - i
  {
    if i < p {
      BinTagFromFirst(tag, i + 1, p);
    }
  }

  lemma {:induction false} BinTagFromNone(tag: string, i: nat)
    requires forall q :: i <= q ==> !KeyAt(tag, q)
    ensures BinTagFrom(tag, i) == ""
    decreases |tag| - i
  {
    if i < |tag| {
      BinTagFromNone(tag, i + 1);
    }
  }

  /** The bin tag is the text after the first "bin:" and the character following it, up to
      the next '"' or the end; it holds no '"'. Without a "bin:" followed by a character,
      which covers the empty tag, it is "". */
  lemma BinTagSpec(tag: string)
    ensures var r := BinTag(tag);
            && (forall k :: 0 <= k < |r| ==> r[k] != '"')
            && ((forall q :: 0 <= q ==> !KeyAt(tag, q)) ==> r == "")
            && (forall p: nat :: KeyAt(tag, p) && (forall q :: 0 <= q < p ==> !KeyAt(tag, q)) ==>
                  var e := QuoteFrom(tag, p + 5);
                  r == tag[p + 5..e] && (e == |tag| || tag[e] == '"'))
  {
    if forall q :: 0 <= q ==> !KeyAt(tag, q) {
      BinTagFromNone(tag, 0);
    } else {
      var p := FirstKey(tag, 0);
      BinTagFromFirst(tag, 0, p);
      forall p': nat | KeyAt(tag, p') && (forall q :: 0 <= q < p' ==> !KeyAt(tag, q))
        ensures p' == p
      {
      }
    }
  }

  /** The first "bin:" at or after i, when there is one. */
  lemma {:induction false} FirstKey(tag: string, i: nat) returns (p: nat)
    requires exists q :: i <= q && KeyAt(tag, q)
    ensures i <= p && KeyAt(tag, p)
    ensures forall q :: i <= q < p ==> !KeyAt(tag, q)
    decreases |tag| - i
  {
    if KeyAt(tag, i) {
      p := i;
    } else {
      var q :| i <= q && KeyAt(tag, q);
      assert i < q < |tag|;
      p := FirstKey(tag, i + 1);
    }
  }

  /** A tag written as prefix + `bin:"` + s + `"` + rest, where the prefix holds no "bin:"
      and s no '"', gives s back. */
  lemma BinTagRoundTrip(prefix: string, s: string, rest: string)
    requires forall j: nat :: !HasKeyAt(prefix, j)
    requires forall k :: 0 <= k < |s| ==> s[k] != '"'
    ensures BinTag(prefix + "bin:\"" + s + "\"" + rest) == s
  {
    var tag := prefix + "bin:\"" + s + "\"" + rest;
    var p := |prefix|;
    assert tag[p..p + 4] == Key;
    assert KeyAt(tag, p);
    forall q | 0 <= q < p
      ensures !KeyAt(tag, q)
    {
      if q + 4 <= p {
        assert tag[q..q + 4] == prefix[q..q + 4] && !HasKeyAt(prefix, q);
      } else {
        // "bin:" cannot overlap its own start in the middle
        assert tag[p] == 'b' && Key[p - q] != 'b';
        assert tag[q..q + 4][p - q] == tag[p];
      }
    }
    BinTagFromFirst(tag, 0, p);
    var e := QuoteFrom(tag, p + 5);
    assert tag[p + 5 + |s|] == '"';
    forall k | p + 5 <= k < p + 5 + |s|
      ensures tag[k] != '"'
    {
      assert tag[k] == s[k - p - 5];
    }
    assert e == p + 5 + |s|;
    assert tag[p + 5..e] == s;
  }

  /** "bin:" at the very end, with nothing after it, is not a bin tag. */
  lemma TrailingKeyIgnored(prefix: string)
    requires forall j: nat :: !HasKeyAt(prefix, j)
    ensures BinTag(prefix + Key) == ""
  {
    var tag := prefix + Key;
    forall q | 0 <= q
      ensures !KeyAt(tag, q)
    {
      if q + 4 < |tag| {
        assert q + 4 <= |prefix| + 3;
        if q + 4 <= |prefix| {
          assert tag[q..q + 4] == prefix[q..q + 4] && !HasKeyAt(prefix, q);
        } else {
          var p := |prefix|;
          assert tag[p] == 'b' && Key[p - q] != 'b';
          assert tag[q..q + 4][p - q] == tag[p];
        }
      }
    }
    BinTagFromNone(tag, 0);
  }
}
