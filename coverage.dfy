/**
 * The coverage reporter (scripts/analyze_coverage.py): it reads the lines of a
 * Go coverage profile, sums statement counts per package of the
 * github.com/junbin-yang/go-kitbox/pkg tree, and reports each package's ratio,
 * its status against 75 %, the overall ratio and the packages that fall short.
 *
 * Reading the file and printing the table are not modelled: the lines are the
 * input and the computed rows are the output. Ratios are exact reals here,
 * where the script uses binary floating point.
 */
module Coverage {
  import opened Wrappers

  // ---------------------------------------------------------------------------
  // Characters and fields

  /** The characters Python's str.split() (with no separator) treats as whitespace. */
  predicate IsSpace(c: char)
  {
    || ('\U{0009}' <= c <= '\U{000D}') || ('\U{001C}' <= c <= '\U{0020}')
    || c == '\U{0085}' || c == '\U{00A0}' || c == '\U{1680}'
    || ('\U{2000}' <= c <= '\U{200A}') || c == '\U{2028}' || c == '\U{2029}'
    || c == '\U{202F}' || c == '\U{205F}' || c == '\U{3000}'
  }

  predicate NoSpace(s: string)
  {
    forall k :: 0 <= k < |s| ==> !IsSpace(s[k])
  }

  /** The number of leading characters of s that are not whitespace. */
  function WordLen(s: string): (n: nat)
    ensures n <= |s|
    ensures NoSpace(s[..n])
    ensures n < |s| ==> IsSpace(s[n])
  {
    if s == [] || IsSpace(s[0]) then 0
    else
      var n := 1 + WordLen(s[1..]);
      assert s[..n] == [s[0]] + s[1..][..n - 1];
      n
  }

  /** line.strip().split(): the maximal runs of non-whitespace characters, in order. */
  function Fields(s: string): (fs: seq<string>)
    ensures forall k :: 0 <= k < |fs| ==> fs[k] != [] && NoSpace(fs[k])
    decreases |s|
  {
    if s == [] then []
    else if IsSpace(s[0]) then Fields(s[1..])
    else
      var w := WordLen(s);
      [s[..w]] + Fields(s[w..])
  }

  lemma {:induction false} WordLenOfWord(w: string, rest: string)
    requires NoSpace(w)
    requires rest == [] || IsSpace(rest[0])
    ensures WordLen(w + rest) == |w|
  {
    if w != [] {
      assert (w + rest)[1..] == w[1..] + rest;
      WordLenOfWord(w[1..], rest);
    }
  }

  /** A word followed by whitespace (or nothing) is the first field. */
  lemma FieldsOfWord(w: string, rest: string)
    requires w != [] && NoSpace(w)
    requires rest == [] || IsSpace(rest[0])
    ensures Fields(w + rest) == [w] + Fields(rest)
  {
    WordLenOfWord(w, rest);
    assert (w + rest)[..|w|] == w;
    assert (w + rest)[|w|..] == rest;
  }

  /** Words joined by single spaces. */
  function JoinWords(ws: seq<string>): string
  {
    if ws == [] then []
    else if |ws| == 1 then ws[0]
    else ws[0] + (" " + JoinWords(ws[1..]))
  }

  /** Splitting words joined by single spaces gives the words back. */
  lemma {:induction false} FieldsOfJoin(ws: seq<string>)
    requires forall k :: 0 <= k < |ws| ==> ws[k] != [] && NoSpace(ws[k])
    ensures Fields(JoinWords(ws)) == ws
  {
    if |ws| == 1 {
      FieldsOfWord(ws[0], []);
      assert ws[0] + [] == ws[0];
    } else if |ws| > 1 {
      var rest := JoinWords(ws[1..]);
      FieldsOfJoin(ws[1..]);
      FieldsSkipSpace(rest);
      FieldsOfWord(ws[0], " " + rest);
      assert ws == [ws[0]] + ws[1..];
    }
  }

  /** A profile line "file:range statements count" splits into exactly those three fields. */
  lemma FieldsOfProfileLine(a: string, b: string, c: string)
    requires a != [] && NoSpace(a) && b != [] && NoSpace(b) && c != [] && NoSpace(c)
    ensures Fields(a + " " + b + " " + c) == [a, b, c]
  {
    FieldsOfJoin([a, b, c]);
    assert JoinWords([c]) == c;
    assert JoinWords([b, c]) == b + (" " + c);
    assert JoinWords([a, b, c]) == a + (" " + (b + (" " + c)));
    Assoc(a + " " + b, " ", c);
    Assoc(a + " ", b, " " + c);
    Assoc(a, " ", b + (" " + c));
  }

  lemma Assoc(x: string, y: string, z: string)
    ensures x + y + z == x + (y + z)
  {
  }

  lemma FieldsSkipSpace(s: string)
    ensures Fields(" " + s) == Fields(s)
  {
    assert (" " + s)[1..] == s;
  }

  // ---------------------------------------------------------------------------
  // int(): Python's conversion of a decimal string

  predicate IsDigit(c: char)
  {
    '0' <= c <= '9'
  }

  /** The digit part Python's int() accepts: digits, single underscores only between digits. */
  predicate DigitBody(s: string)
  {
    && |s| >= 1 && IsDigit(s[0]) && IsDigit(s[|s| - 1])
    && (forall k :: 0 <= k < |s| ==> IsDigit(s[k]) || s[k] == '_')
    && (forall k :: 0 <= k < |s| - 1 ==> !(s[k] == '_' && s[k + 1] == '_'))
  }

  /** The value of the digits of s, underscores skipped. */
  function DigitsValue(s: string): nat
  {
    if s == [] then 0
    else if IsDigit(s[|s| - 1]) then DigitsValue(s[..|s| - 1]) * 10 + (s[|s| - 1] as int - '0' as int)
    else DigitsValue(s[..|s| - 1])
  }

  /** int(s) for a string without surrounding whitespace; None where Python raises ValueError.
      (Digits of other scripts, which Python also accepts, are not modelled.) */
  function PyInt(s: string): (r: Option<int>)
    ensures r.Some? <==> (s != [] && DigitBody(if s[0] == '+' || s[0] == '-' then s[1..] else s))
  {
    if s == [] then None
    else if s[0] == '-' then (if DigitBody(s[1..]) then Some(0 - DigitsValue(s[1..])) else None)
    else if s[0] == '+' then (if DigitBody(s[1..]) then Some(DigitsValue(s[1..])) else None)
    else if DigitBody(s) then Some(DigitsValue(s)) else None
  }

  /** The decimal digits of n, as Go writes counts into the profile. */
  function Decimal(n: nat): (s: string)
    ensures s != [] && forall k :: 0 <= k < |s| ==> IsDigit(s[k])
  {
    if n < 10 then [('0' as int + n) as char]
    else Decimal(n / 10) + [('0' as int + n % 10) as char]
  }

  lemma {:induction false} DecimalValue(n: nat)
    ensures DigitsValue(Decimal(n)) == n
  {
    if n >= 10 {
      var s := Decimal(n);
      assert s[..|s| - 1] == Decimal(n / 10);
      DecimalValue(n / 10);
    }
  }

  /** int() reads back every decimal numeral, signed or not. */
  lemma PyIntDecimal(n: nat)
    ensures PyInt(Decimal(n)) == Some(n)
    ensures PyInt("-" + Decimal(n)) == Some(0 - n)
  {
    DecimalValue(n);
    assert ("-" + Decimal(n))[1..] == Decimal(n);
  }

  // ---------------------------------------------------------------------------
  // One line

  const PackagePrefix: string := "github.com/junbin-yang/go-kitbox/pkg/"

  /** parts[0].split(':')[0]: the text before the first ':'. */
  function BeforeColon(s: string): (r: string)
    ensures r <= s && ':' !in r
    ensures |r| < |s| ==> s[|r|] == ':'
  {
    if s == [] || s[0] == ':' then [] else [s[0]] + BeforeColon(s[1..])
  }

  /** The number of leading characters of s that are not '/'. */
  function SegmentLen(s: string): (n: nat)
    ensures n <= |s| && '/' !in s[..n]
    ensures n < |s| ==> s[n] == '/'
  {
    if s == [] || s[0] == '/' then 0
    else
      var n := 1 + SegmentLen(s[1..]);
      assert s[..n] == [s[0]] + s[1..][..n - 1];
      n
  }

  /** The regular expression github\.com/junbin-yang/go-kitbox/pkg/[^/]+ matched at the
      start of the path: the prefix and the longest non-empty run of non-'/' characters. */
  function PackageOf(path: string): (r: Option<string>)
    ensures r.Some? <==> |path| > |PackagePrefix| && path[..|PackagePrefix|] == PackagePrefix && path[|PackagePrefix|] != '/'
    ensures r.Some? ==>
              && r.value <= path && |r.value| > |PackagePrefix| && r.value[..|PackagePrefix|] == PackagePrefix
              && '/' !in r.value[|PackagePrefix|..]
              && (|r.value| == |path| || path[|r.value|] == '/')
  {
    var n := |PackagePrefix|;
    if |path| > n && path[..n] == PackagePrefix && path[n] != '/' then
      var m := n + SegmentLen(path[n..]);
      assert path[..m][n..] == path[n..][..m - n];
      Some(path[..m])
    else None
  }

  /** One counted block of the profile: its package, its statement count, and whether it ran. */
  datatype Sample = Sample(pkg: string, statements: int, hit: bool)

  /** A field int() rejects; the script stops there with a ValueError. */
  datatype ParseError = BadInteger(text: string)

  /** The loop body for one line: skipped, a sample, or the ValueError the script dies with.
      The count field is converted before the package test, the statement field after it. */
  function ParseLine(line: string): Result<Option<Sample>, ParseError>
  {
    if |line| >= 5 && line[..5] == "mode:" then Ok(None)
    else
      var parts := Fields(line);
      if |parts| < 3 then Ok(None)
      else
        var filePath := BeforeColon(parts[0]);
        match PyInt(parts[2])
        case None => Err(BadInteger(parts[2]))
        case Some(covered) =>
          match PackageOf(filePath)
          case None => Ok(None)
          case Some(pkg) =>
            match PyInt(parts[1])
            case None => Err(BadInteger(parts[1]))
            case Some(statements) => Ok(Some(Sample(pkg, statements, covered > 0)))
  }

  /** What one line yields: "mode:" lines and lines of fewer than three fields are skipped; a
      line whose count field is not an integer is an error whatever its path; a line outside
      the package tree is skipped; a package line with a bad statement field is an error;
      every other line is the sample of its package, statements and count. */
  lemma ParseLineCases(line: string)
    ensures |line| >= 5 && line[..5] == "mode:" ==> ParseLine(line) == Ok(None)
    ensures |Fields(line)| < 3 ==> ParseLine(line) == Ok(None)
    ensures ParseLine(line).Ok? && ParseLine(line).value.Some? ==>
              var parts := Fields(line);
              && |parts| >= 3
              && PackageOf(BeforeColon(parts[0])) == Some(ParseLine(line).value.value.pkg)
              && PyInt(parts[1]) == Some(ParseLine(line).value.value.statements)
              && PyInt(parts[2]).Some? && (ParseLine(line).value.value.hit <==> PyInt(parts[2]).value > 0)
    ensures ParseLine(line).Ok? && ParseLine(line).value.None? && !(|line| >= 5 && line[..5] == "mode:") && |Fields(line)| >= 3 ==>
              PyInt(Fields(line)[2]).Some? && PackageOf(BeforeColon(Fields(line)[0])).None?
    ensures ParseLine(line).Err? <==>
              && !(|line| >= 5 && line[..5] == "mode:") && |Fields(line)| >= 3
              && (|| PyInt(Fields(line)[2]).None?
                  || (PackageOf(BeforeColon(Fields(line)[0])).Some? && PyInt(Fields(line)[1]).None?))
  {
  }

  /** A well-formed profile line of a package file is read as its sample. */
  lemma ParseProfileLine(pkg: string, file: string, range: string, statements: nat, count: nat)
    requires |pkg| > |PackagePrefix| && pkg[..|PackagePrefix|] == PackagePrefix
    requires NoSpace(pkg) && '/' !in pkg[|PackagePrefix|..] && ':' !in pkg
    requires NoSpace(file) && ':' !in file && NoSpace(range)
    ensures ParseLine(pkg + "/" + file + ":" + range + " " + Decimal(statements) + " " + Decimal(count))
            == Ok(Some(Sample(pkg, statements, count > 0)))
  {
    var path := pkg + "/" + file;
    var first := path + ":" + range;
    NoSpaceConcat(pkg, "/");
    NoSpaceConcat(pkg + "/", file);
    NoSpaceConcat(path, ":");
    NoSpaceConcat(path + ":", range);
    var st, ct := Decimal(statements), Decimal(count);
    DecimalNoSpace(statements);
    DecimalNoSpace(count);
    FieldsOfProfileLine(first, st, ct);
    var line := first + " " + st + " " + ct;
    assert pkg[0] == PackagePrefix[0] == 'g';
    assert line[0] == 'g';
    assert "mode:"[0] == 'm';
    assert !(|line| >= 5 && line[..5] == "mode:");
    PyIntDecimal(statements);
    PyIntDecimal(count);
    assert ':' !in path;
    BeforeColonOf(path, range);
    PackageOfFile(pkg, file);
    ParseLineOfFields(line, first, st, ct, pkg, statements, count);
  }

  lemma ParseLineOfFields(line: string, a: string, b: string, c: string, pkg: string, statements: int, count: int)
    requires !(|line| >= 5 && line[..5] == "mode:") && Fields(line) == [a, b, c]
    requires PyInt(c) == Some(count) && PackageOf(BeforeColon(a)) == Some(pkg) && PyInt(b) == Some(statements)
    ensures ParseLine(line) == Ok(Some(Sample(pkg, statements, count > 0)))
  {
  }

  lemma NoSpaceConcat(a: string, b: string)
    requires NoSpace(a) && NoSpace(b)
    ensures NoSpace(a + b)
  {
    assert forall k :: |a| <= k < |a + b| ==> (a + b)[k] == b[k - |a|];
  }

  lemma DecimalNoSpace(n: nat)
    ensures NoSpace(Decimal(n))
  {
  }

  /** A file of a package directory belongs to that package. */
  lemma PackageOfFile(pkg: string, file: string)
    requires |pkg| > |PackagePrefix| && pkg[..|PackagePrefix|] == PackagePrefix
    requires '/' !in pkg[|PackagePrefix|..]
    ensures PackageOf(pkg + "/" + file) == Some(pkg)
  {
    var n := |PackagePrefix|;
    var path := pkg + "/" + file;
    assert path[..n] == PackagePrefix;
    assert path[n] == pkg[n] by {
      assert pkg[n] in pkg[n..];
    }
    assert path[n..] == pkg[n..] + ("/" + file);
    SegmentLenOf(pkg[n..], "/" + file);
    assert path[..|pkg|] == pkg;
  }

  lemma {:induction false} BeforeColonOf(a: string, b: string)
    requires ':' !in a
    ensures BeforeColon(a + ":" + b) == a
  {
    if a != [] {
      assert (a + ":" + b)[1..] == a[1..] + ":" + b;
      BeforeColonOf(a[1..], b);
    }
  }

  lemma {:induction false} SegmentLenOf(a: string, b: string)
    requires '/' !in a && b != [] && b[0] == '/'
    ensures SegmentLen(a + b) == |a|
  {
    if a != [] {
      assert (a + b)[1..] == a[1..] + b;
      SegmentLenOf(a[1..], b);
    }
  }

  // ---------------------------------------------------------------------------
  // The fold over all lines

  /** The samples of all lines, or the first ValueError. */
  function ParseAll(lines: seq<string>): Result<seq<Sample>, ParseError>
  {
    if lines == [] then Ok([])
    else
      match ParseAll(lines[..|lines| - 1])
      case Err(e) => Err(e)
      case Ok(samples) =>
        match ParseLine(lines[|lines| - 1])
        case Err(e) => Err(e)
        case Ok(None) => Ok(samples)
        case Ok(Some(s)) => Ok(samples + [s])
  }

  datatype Counts = Counts(total: int, covered: int)

  /** What the script's pkg_stats holds for one package: statements of all its blocks, and of
      the blocks that ran. */
  function Tally(samples: seq<Sample>, pkg: string): Counts
  {
    if samples == [] then Counts(0, 0)
    else
      var c := Tally(samples[..|samples| - 1], pkg);
      var s := samples[|samples| - 1];
      if s.pkg != pkg then c
      else Counts(c.total + s.statements, if s.hit then c.covered + s.statements else c.covered)
  }

  /** The packages in the order they first appear (the order of pkg_stats' keys). */
  function Packages(samples: seq<Sample>): (ps: seq<string>)
    ensures forall i, j :: 0 <= i < j < |ps| ==> ps[i] != ps[j]
  {
    if samples == [] then []
    else
      var ps := Packages(samples[..|samples| - 1]);
      var s := samples[|samples| - 1];
      if s.pkg in ps then ps else ps + [s.pkg]
  }

  /** The packages listed are exactly those some sample names. */
  lemma {:induction false} PackagesMembers(samples: seq<Sample>, p: string)
    ensures p in Packages(samples) <==> exists k :: 0 <= k < |samples| && samples[k].pkg == p
  {
    if samples != [] {
      var init := samples[..|samples| - 1];
      PackagesMembers(init, p);
      assert forall k :: 0 <= k < |init| ==> init[k] == samples[k];
      if p in Packages(init) {
        var k :| 0 <= k < |init| && init[k].pkg == p;
        assert samples[k].pkg == p;
      }
    }
  }

  /** A package's covered count never exceeds its total, given non-negative statement counts
      (which Go always writes). */
  lemma {:induction false} TallyCoveredAtMostTotal(samples: seq<Sample>, pkg: string)
    requires forall k :: 0 <= k < |samples| ==> samples[k].statements >= 0
    ensures 0 <= Tally(samples, pkg).covered <= Tally(samples, pkg).total
  {
    if samples != [] {
      TallyCoveredAtMostTotal(samples[..|samples| - 1], pkg);
    }
  }

  /** A package no sample names has nothing counted. */
  lemma {:induction false} TallyAbsent(samples: seq<Sample>, pkg: string)
    requires forall k :: 0 <= k < |samples| ==> samples[k].pkg != pkg
    ensures Tally(samples, pkg) == Counts(0, 0)
  {
    if samples != [] {
      TallyAbsent(samples[..|samples| - 1], pkg);
    }
  }

  /** What the fold keeps after the samples so far: the packages in first-seen order, each
      with its tally. */
  ghost predicate Folded(samples: seq<Sample>, keys: seq<string>, stats: map<string, Counts>)
  {
    && keys == Packages(samples)
    && (forall p :: p in stats <==> p in keys)
    && (forall p :: p in stats ==> stats[p] == Tally(samples, p))
  }

  lemma TallySnoc(samples: seq<Sample>, s: Sample, pkg: string)
    ensures Tally(samples + [s], pkg) ==
              var c := Tally(samples, pkg);
              if s.pkg != pkg then c
              else Counts(c.total + s.statements, if s.hit then c.covered + s.statements else c.covered)
  {
    assert (samples + [s])[..|samples|] == samples;
  }

  lemma PackagesSnoc(samples: seq<Sample>, s: Sample)
    ensures Packages(samples + [s]) == if s.pkg in Packages(samples) then Packages(samples) else Packages(samples) + [s.pkg]
  {
    assert (samples + [s])[..|samples|] == samples;
  }

  /** The loop body's update for one sample keeps Folded. */
  lemma FoldedStep(samples: seq<Sample>, keys: seq<string>, stats: map<string, Counts>, s: Sample,
                   keys': seq<string>, stats': map<string, Counts>)
    requires Folded(samples, keys, stats)
    requires keys' == if s.pkg in keys then keys else keys + [s.pkg]
    requires var before := if s.pkg in stats then stats[s.pkg] else Counts(0, 0);
             stats' == stats[s.pkg := Counts(before.total + s.statements,
                                             if s.hit then before.covered + s.statements else before.covered)]
    ensures Folded(samples + [s], keys', stats')
  {
    PackagesSnoc(samples, s);
    if s.pkg !in stats {
      PackagesMembers(samples, s.pkg);
      TallyAbsent(samples, s.pkg);
    }
    forall p | p in stats'
      ensures stats'[p] == Tally(samples + [s], p)
    {
      TallySnoc(samples, s, p);
      if p != s.pkg {
        assert stats'[p] == stats[p];
      }
    }
  }

  /** One more line extends the parse of the lines before it. */
  lemma ParseAllStep(lines: seq<string>, i: int)
    requires 0 <= i < |lines|
    ensures ParseAll(lines[..i + 1]) ==
              match ParseAll(lines[..i])
              case Err(e) => Err(e)
              case Ok(samples) =>
                match ParseLine(lines[i])
                case Err(e) => Err(e)
                case Ok(None) => Ok(samples)
                case Ok(Some(s)) => Ok(samples + [s])
  {
    assert lines[..i + 1][..i] == lines[..i];
  }

  /** pkg_stats after the given samples, built the way the loop builds it. */
  function StatsOf(samples: seq<Sample>): map<string, Counts>
  {
    if samples == [] then map[]
    else
      var stats := StatsOf(samples[..|samples| - 1]);
      var s := samples[|samples| - 1];
      var before := if s.pkg in stats then stats[s.pkg] else Counts(0, 0);
      stats[s.pkg := Counts(before.total + s.statements,
                            if s.hit then before.covered + s.statements else before.covered)]
  }

  /** Folding one more sample updates only that sample's package. */
  lemma StatsOfSnoc(samples: seq<Sample>, s: Sample)
    ensures StatsOf(samples + [s]) ==
              var stats := StatsOf(samples);
              var before := if s.pkg in stats then stats[s.pkg] else Counts(0, 0);
              stats[s.pkg := Counts(before.total + s.statements,
                                    if s.hit then before.covered + s.statements else before.covered)]
  {
    assert (samples + [s])[..|samples|] == samples;
  }

  /** The fold is keyed by exactly the packages seen, and holds each one's tally. */
  lemma {:induction false} StatsOfFolded(samples: seq<Sample>)
    ensures Folded(samples, Packages(samples), StatsOf(samples))
  {
    if samples != [] {
      var init := samples[..|samples| - 1];
      var s := samples[|samples| - 1];
      assert init + [s] == samples;
      StatsOfFolded(init);
      PackagesSnoc(init, s);
      FoldedStep(init, Packages(init), StatsOf(init), s, Packages(samples), StatsOf(samples));
    }
  }

  /** The loop body for a counted line: the package's two counters grow, and a package seen
      for the first time becomes the last key. */
  method AddSample(keys: seq<string>, stats: map<string, Counts>, s: Sample, ghost samples: seq<Sample>)
    returns (keys': seq<string>, stats': map<string, Counts>)
    requires keys == Packages(samples) && stats == StatsOf(samples)
    ensures keys' == Packages(samples + [s]) && stats' == StatsOf(samples + [s])
  {
    var before := if s.pkg in stats then stats[s.pkg] else Counts(0, 0);
    stats' := stats[s.pkg := Counts(before.total + s.statements,
                                    if s.hit then before.covered + s.statements else before.covered)];
    keys' := if s.pkg in keys then keys else keys + [s.pkg];
    PackagesSnoc(samples, s);
    StatsOfSnoc(samples, s);
  }

  /** The first loop of the script: every line parsed in order, pkg_stats folded. The result
      is the ValueError of the first bad line, or the packages in first-seen order with the
      fold over every sample. */
  method CollectStats(lines: seq<string>) returns (r: Result<(seq<string>, map<string, Counts>), ParseError>)
    ensures ParseAll(lines).Err? ==> r == Err(ParseAll(lines).error)
    ensures ParseAll(lines).Ok? ==> r == Ok((Packages(ParseAll(lines).value), StatsOf(ParseAll(lines).value)))
  {
    var keys: seq<string> := [];
    var stats: map<string, Counts> := map[];
    ghost var samples: seq<Sample> := [];
    var i := 0;
    while i < |lines|
      invariant 0 <= i <= |lines|
      invariant ParseAll(lines[..i]) == Ok(samples)
      invariant keys == Packages(samples) && stats == StatsOf(samples)
    {
      ParseAllStep(lines, i);
      var parsed := ParseLine(lines[i]);
      match parsed {
        case Err(e) =>
          ErrPersists(lines, i + 1, e);
          return Err(e);
        case Ok(None) =>
        case Ok(Some(s)) =>
          keys, stats := AddSample(keys, stats, s, samples);
          samples := samples + [s];
      }
      i := i + 1;
    }
    assert lines[..i] == lines;
    r := Ok((keys, stats));
  }

  lemma {:induction false} ErrPersists(lines: seq<string>, i: int, e: ParseError)
    requires 0 <= i <= |lines| && ParseAll(lines[..i]) == Err(e)
    ensures ParseAll(lines) == Err(e)
    decreases |lines| - i
  {
    if i < |lines| {
      assert lines[..i + 1][..i] == lines[..i];
      ErrPersists(lines, i + 1, e);
    } else {
      assert lines[..i] == lines;
    }
  }

  // ---------------------------------------------------------------------------
  // The report

  datatype Status = Good | NeedsWork

  /** One line of the table: package, percentage, status, and the two counts. */
  datatype Row = Row(pkg: string, coverage: real, status: Status, total: int, covered: int)

  /** covered / total * 100. */
  function Percent(covered: int, total: int): real
    requires total > 0
  {
    (covered as real) / (total as real) * 100.0
  }

  /** The status threshold: Good exactly when at least three quarters of the statements ran. */
  lemma GoodIffThreeQuarters(covered: int, total: int)
    requires total > 0
    ensures Percent(covered, total) >= 75.0 <==> 4 * covered >= 3 * total
  {
    var t := total as real;
    var p := Percent(covered, total);
    assert p * t == (covered as real) * 100.0;
  }

  /** The row of one package with at least one statement. */
  function RowOf(pkg: string, c: Counts): (r: Row)
    requires c.total > 0
    ensures r.pkg == pkg && r.total == c.total && r.covered == c.covered
    ensures r.coverage == Percent(c.covered, c.total)
    ensures r.status == Good <==> r.coverage >= 75.0
  {
    var coverage := Percent(c.covered, c.total);
    Row(pkg, coverage, if coverage >= 75.0 then Good else NeedsWork, c.total, c.covered)
  }

  /** The rows before sorting: packages with a positive total, in key order. */
  function Rows(keys: seq<string>, stats: map<string, Counts>): (rows: seq<Row>)
    requires forall p :: p in keys ==> p in stats
    ensures forall r :: r in rows ==> r.pkg in keys && stats[r.pkg].total > 0 && r == RowOf(r.pkg, stats[r.pkg])
    ensures forall p :: p in keys && stats[p].total > 0 ==> RowOf(p, stats[p]) in rows
  {
    if keys == [] then []
    else
      var rest := Rows(keys[1..], stats);
      assert forall p :: p in keys[1..] ==> p in keys;
      if stats[keys[0]].total > 0 then [RowOf(keys[0], stats[keys[0]])] + rest else rest
  }

  /** Code-point order on strings, as Python compares them. */
  predicate StrLess(a: string, b: string)
  {
    if a == [] then b != []
    else if b == [] then false
    else a[0] < b[0] || (a[0] == b[0] && StrLess(a[1..], b[1..]))
  }

  lemma {:induction false} StrLessIrreflexive(a: string)
    ensures !StrLess(a, a)
  {
    if a != [] {
      StrLessIrreflexive(a[1..]);
    }
  }

  lemma {:induction false} StrLessTransitive(a: string, b: string, c: string)
    requires StrLess(a, b) && StrLess(b, c)
    ensures StrLess(a, c)
  {
    if a != [] && b != [] && c != [] && a[0] == b[0] && b[0] == c[0] {
      StrLessTransitive(a[1..], b[1..], c[1..]);
    }
  }

  lemma {:induction false} StrLessTotal(a: string, b: string)
    requires a != b
    ensures StrLess(a, b) || StrLess(b, a)
  {
    if a != [] && b != [] && a[0] == b[0] {
      assert a == [a[0]] + a[1..] && b == [b[0]] + b[1..];
      StrLessTotal(a[1..], b[1..]);
    }
  }

  /** The order of the table. The script sorts by name, then stably by coverage, which for
      distinct names is this order: coverage first, name second. */
  predicate RowLess(x: Row, y: Row)
  {
    x.coverage < y.coverage || (x.coverage == y.coverage && StrLess(x.pkg, y.pkg))
  }

  lemma RowLessTransitive(x: Row, y: Row, z: Row)
    requires RowLess(x, y) && RowLess(y, z)
    ensures RowLess(x, z)
  {
    if x.coverage == y.coverage == z.coverage {
      StrLessTransitive(x.pkg, y.pkg, z.pkg);
    }
  }

  predicate SortedRows(rows: seq<Row>)
  {
    forall i, j :: 0 <= i < j < |rows| ==> RowLess(rows[i], rows[j])
  }

  predicate DistinctNames(rows: seq<Row>)
  {
    forall i, j :: 0 <= i < j < |rows| ==> rows[i].pkg != rows[j].pkg
  }

  /** A row put into its place in a table: every row that was there, and the new one. */
  function Insert(x: Row, rows: seq<Row>): (out: seq<Row>)
    ensures multiset(out) == multiset(rows) + multiset{x}
    ensures forall k :: 0 <= k < |out| ==> out[k] == x || out[k] in rows
  {
    if rows == [] || RowLess(x, rows[0]) then [x] + rows
    else
      assert rows == [rows[0]] + rows[1..];
      [rows[0]] + Insert(x, rows[1..])
  }

  /** Inserting a row of a new name into a sorted table keeps it sorted. */
  lemma {:induction false} InsertSorted(x: Row, rows: seq<Row>)
    requires SortedRows(rows)
    requires forall k :: 0 <= k < |rows| ==> rows[k].pkg != x.pkg
    ensures SortedRows(Insert(x, rows))
  {
    if rows == [] {
    } else if RowLess(x, rows[0]) {
      forall k | 0 < k < |rows| ensures RowLess(x, rows[k]) {
        RowLessTransitive(x, rows[0], rows[k]);
      }
      RowsCons(x, rows);
    } else {
      var rest := Insert(x, rows[1..]);
      InsertSorted(x, rows[1..]);
      assert RowLess(rows[0], x) by {
        if rows[0].coverage == x.coverage {
          StrLessTotal(rows[0].pkg, x.pkg);
        }
      }
      forall k | 0 <= k < |rest| ensures RowLess(rows[0], rest[k]) {
        if rest[k] != x {
          var j :| 0 <= j < |rows[1..]| && rows[1..][j] == rest[k];
          assert rows[j + 1] == rest[k];
        }
      }
      RowsCons(rows[0], rest);
    }
  }

  /** A row before every row of a sorted table keeps it sorted in front. */
  lemma RowsCons(a: Row, t: seq<Row>)
    requires SortedRows(t) && forall k :: 0 <= k < |t| ==> RowLess(a, t[k])
    ensures SortedRows([a] + t)
  {
  }

  /** results.sort(key=coverage) on the name-sorted rows: the rows in table order. */
  method SortRows(rows: seq<Row>) returns (sorted: seq<Row>)
    requires DistinctNames(rows)
    ensures SortedRows(sorted)
    ensures multiset(sorted) == multiset(rows)
  {
    sorted := [];
    var i := 0;
    while i < |rows|
      invariant 0 <= i <= |rows|
      invariant SortedRows(sorted)
      invariant multiset(sorted) == multiset(rows[..i])
    {
      NewName(sorted, rows, i);
      InsertSorted(rows[i], sorted);
      sorted := Insert(rows[i], sorted);
      assert rows[..i + 1] == rows[..i] + [rows[i]];
      i := i + 1;
    }
    assert rows[..i] == rows;
  }

  /** The row about to be inserted names a package the sorted prefix does not. */
  lemma NewName(sorted: seq<Row>, rows: seq<Row>, i: int)
    requires DistinctNames(rows) && 0 <= i < |rows|
    requires multiset(sorted) == multiset(rows[..i])
    ensures forall k :: 0 <= k < |sorted| ==> sorted[k].pkg != rows[i].pkg
  {
    forall k | 0 <= k < |sorted|
      ensures sorted[k].pkg != rows[i].pkg
    {
      assert sorted[k] in multiset(rows[..i]);
      var j :| 0 <= j < i && rows[..i][j] == sorted[k];
    }
  }

  /** The statements of all packages together, and those that ran (the two sums over
      pkg_stats.values()). */
  function SumCounts(keys: seq<string>, stats: map<string, Counts>): Counts
    requires forall p :: p in keys ==> p in stats
  {
    if keys == [] then Counts(0, 0)
    else
      var rest := SumCounts(keys[..|keys| - 1], stats);
      var last := stats[keys[|keys| - 1]];
      Counts(rest.total + last.total, rest.covered + last.covered)
  }

  /** The statements of every counted line, and of those whose block ran. */
  function SampleSum(samples: seq<Sample>): Counts
  {
    if samples == [] then Counts(0, 0)
    else
      var rest := SampleSum(samples[..|samples| - 1]);
      var s := samples[|samples| - 1];
      Counts(rest.total + s.statements, if s.hit then rest.covered + s.statements else rest.covered)
  }

  /** The tallies of the given packages, summed. */
  function SumTally(keys: seq<string>, samples: seq<Sample>): Counts
  {
    if keys == [] then Counts(0, 0)
    else
      var rest := SumTally(keys[..|keys| - 1], samples);
      var last := Tally(samples, keys[|keys| - 1]);
      Counts(rest.total + last.total, rest.covered + last.covered)
  }

  /** Summing stored counters that are the tallies sums the tallies. */
  lemma {:induction false} SumCountsTallies(keys: seq<string>, stats: map<string, Counts>, samples: seq<Sample>)
    requires forall p :: p in keys ==> p in stats && stats[p] == Tally(samples, p)
    ensures SumCounts(keys, stats) == SumTally(keys, samples)
  {
    if keys != [] {
      SumCountsTallies(keys[..|keys| - 1], stats, samples);
    }
  }

  /** One more sample adds its statements to the sum of tallies of distinct keys exactly
      when its package is among them. */
  lemma {:induction false} SumTallySnoc(keys: seq<string>, samples: seq<Sample>, s: Sample)
    requires forall i, j :: 0 <= i < j < |keys| ==> keys[i] != keys[j]
    ensures var sum := SumTally(keys, samples);
            var dt := if s.pkg in keys then s.statements else 0;
            var dc := if s.pkg in keys && s.hit then s.statements else 0;
            SumTally(keys, samples + [s]) == Counts(sum.total + dt, sum.covered + dc)
  {
    if keys != [] {
      var init := keys[..|keys| - 1];
      SumTallySnoc(init, samples, s);
      TallySnoc(samples, s, keys[|keys| - 1]);
      assert keys == init + [keys[|keys| - 1]];
    }
  }

  /** The sum of the tallies of the packages seen is the sum over every counted line. */
  lemma {:induction false} SumTallyOfSamples(samples: seq<Sample>)
    ensures SumTally(Packages(samples), samples) == SampleSum(samples)
  {
    if samples != [] {
      var init := samples[..|samples| - 1];
      var s := samples[|samples| - 1];
      assert init + [s] == samples;
      SumTallyOfSamples(init);
      PackagesSnoc(init, s);
      if s.pkg !in Packages(init) {
        PackagesMembers(init, s.pkg);
        TallyAbsent(init, s.pkg);
      }
      SumTallyStep(Packages(init), init, s);
    }
  }

  /** Adding a sample to the samples and, when its package is new, that package to the keys,
      adds its statements to the sums. */
  lemma SumTallyStep(keys: seq<string>, init: seq<Sample>, s: Sample)
    requires forall i, j :: 0 <= i < j < |keys| ==> keys[i] != keys[j]
    requires s.pkg !in keys ==> Tally(init, s.pkg) == Counts(0, 0)
    ensures var keys' := if s.pkg in keys then keys else keys + [s.pkg];
            var sum := SumTally(keys, init);
            SumTally(keys', init + [s]) ==
              Counts(sum.total + s.statements, if s.hit then sum.covered + s.statements else sum.covered)
  {
    SumTallySnoc(keys, init, s);
    if s.pkg !in keys {
      TallySnoc(init, s, s.pkg);
      assert (keys + [s.pkg])[..|keys|] == keys;
    }
  }

  /** The overall sums are the sums over every counted line. */
  lemma SumCountsOfSamples(samples: seq<Sample>)
    ensures forall p :: p in Packages(samples) ==> p in StatsOf(samples)
    ensures SumCounts(Packages(samples), StatsOf(samples)) == SampleSum(samples)
  {
    StatsOfFolded(samples);
    SumCountsTallies(Packages(samples), StatsOf(samples), samples);
    SumTallyOfSamples(samples);
  }

  /** overall_covered / overall_total * 100, and 0 when no statement was counted. */
  function Overall(sum: Counts): (pct: real)
    ensures sum.total <= 0 ==> pct == 0.0
    ensures 0 <= sum.covered <= sum.total ==> 0.0 <= pct <= 100.0
  {
    if sum.total > 0 then (sum.covered as real) / (sum.total as real) * 100.0 else 0.0
  }

  /** Every line's block counted, a non-negative statement count gives covered <= total. */
  lemma {:induction false} SampleSumCoveredAtMostTotal(samples: seq<Sample>)
    requires forall k :: 0 <= k < |samples| ==> samples[k].statements >= 0
    ensures 0 <= SampleSum(samples).covered <= SampleSum(samples).total
  {
    if samples != [] {
      SampleSumCoveredAtMostTotal(samples[..|samples| - 1]);
    }
  }

  /** The package name printed for a row: the text after its last '/'. */
  function ShortName(pkg: string): string
  {
    if pkg == [] then []
    else if pkg[|pkg| - 1] == '/' then []
    else ShortName(pkg[..|pkg| - 1]) + [pkg[|pkg| - 1]]
  }

  /** ShortName is split('/')[-1]: a tail of the path without a slash, which is either the
      whole path or starts right after a slash. */
  lemma {:induction false} ShortNameIsLastSegment(pkg: string)
    ensures var name := ShortName(pkg);
            && |name| <= |pkg| && name == pkg[|pkg| - |name|..]
            && '/' !in name
            && (|name| < |pkg| ==> pkg[|pkg| - |name| - 1] == '/')
  {
    if pkg != [] && pkg[|pkg| - 1] != '/' {
      var init := pkg[..|pkg| - 1];
      ShortNameIsLastSegment(init);
      var name := ShortName(init);
      assert ShortName(pkg) == name + [pkg[|pkg| - 1]];
      assert init[|init| - |name|..] + [pkg[|pkg| - 1]] == pkg[|pkg| - |name| - 1..];
    }
  }

  /** The printed name of a package of this tree is its segment after "pkg/". */
  lemma ShortNameOfPackage(seg: string)
    requires '/' !in seg
    ensures ShortName(PackagePrefix + seg) == seg
  {
    ShortNameOfSegment(PackagePrefix[..|PackagePrefix| - 1], seg);
    assert PackagePrefix + seg == PackagePrefix[..|PackagePrefix| - 1] + "/" + seg;
  }

  lemma {:induction false} ShortNameOfSegment(dir: string, seg: string)
    requires '/' !in seg
    ensures ShortName(dir + "/" + seg) == seg
  {
    if seg != [] {
      var s := dir + "/" + seg;
      assert s[..|s| - 1] == dir + "/" + seg[..|seg| - 1];
      ShortNameOfSegment(dir, seg[..|seg| - 1]);
    } else {
      assert dir + "/" + seg == dir + "/";
    }
  }

  /** A "needs improvement" line: name, percentage, and the statements still to cover. */
  datatype Shortfall = Shortfall(name: string, coverage: real, missing: int)

  /** The line printed for a row below 75 %: its short name, its percentage and
      total - covered. */
  function ShortfallOf(r: Row): Shortfall
  {
    Shortfall(ShortName(r.pkg), r.coverage, r.total - r.covered)
  }

  /** The last loop: every row below 75 %, in table order. */
  function Shortfalls(rows: seq<Row>): (out: seq<Shortfall>)
    ensures |out| <= |rows|
    ensures forall k :: 0 <= k < |out| ==> out[k].coverage < 75.0
    ensures forall r :: r in rows && r.coverage < 75.0 ==> ShortfallOf(r) in out
  {
    if rows == [] then []
    else
      var rest := Shortfalls(rows[1..]);
      assert forall r :: r in rows[1..] ==> r in rows;
      if rows[0].coverage < 75.0 then [ShortfallOf(rows[0])] + rest else rest
  }

  /** Nothing else is printed: each line is the shortfall of a row below 75 %, and this is
      the index of that row. */
  function ShortfallSource(rows: seq<Row>, k: int): (j: int)
    requires 0 <= k < |Shortfalls(rows)|
    ensures 0 <= j < |rows| && rows[j].coverage < 75.0 && Shortfalls(rows)[k] == ShortfallOf(rows[j])
  {
    var rest := Shortfalls(rows[1..]);
    assert Shortfalls(rows) == if rows[0].coverage < 75.0 then [ShortfallOf(rows[0])] + rest else rest;
    if rows[0].coverage < 75.0 && k == 0 then 0
    else
      var k' := if rows[0].coverage < 75.0 then k - 1 else k;
      assert Shortfalls(rows)[k] == rest[k'];
      var j := ShortfallSource(rows[1..], k');
      assert rows[j + 1] == rows[1..][j];
      j + 1
  }

  datatype Report = Report(rows: seq<Row>, overall: real, shortfalls: seq<Shortfall>)

  /** The rows of parsed samples: one per package with a positive total, carrying that
      package's tally, and every such package has its row. */
  lemma RowsOfSamples(samples: seq<Sample>)
    ensures forall p :: p in Packages(samples) ==> p in StatsOf(samples)
    ensures var rows := Rows(Packages(samples), StatsOf(samples));
            && (forall r :: r in rows ==> Tally(samples, r.pkg).total > 0 && r == RowOf(r.pkg, Tally(samples, r.pkg)))
            && (forall p :: p in Packages(samples) && Tally(samples, p).total > 0 ==> RowOf(p, Tally(samples, p)) in rows)
  {
    StatsOfFolded(samples);
  }

  /** What the script prints for the given samples: the rows of every package with a positive
      total, sorted, the overall percentage, and the rows below 75 %. */
  ghost predicate IsReport(samples: seq<Sample>, rep: Report)
  {
    && (forall p :: p in Packages(samples) ==> p in StatsOf(samples))
    && SortedRows(rep.rows)
    && multiset(rep.rows) == multiset(Rows(Packages(samples), StatsOf(samples)))
    && rep.overall == Overall(SampleSum(samples))
    && rep.shortfalls == Shortfalls(rep.rows)
  }

  /** The whole script: the table rows in order (the rows of every package with a positive
      total), the overall percentage, and the packages needing improvement; or the
      ValueError of the first bad line. */
  method Analyze(lines: seq<string>) returns (r: Result<Report, ParseError>)
    ensures ParseAll(lines).Err? ==> r == Err(ParseAll(lines).error)
    ensures ParseAll(lines).Ok? ==> r.Ok? && IsReport(ParseAll(lines).value, r.value)
  {
    var collected := CollectStats(lines);
    if collected.Err? {
      return Err(collected.error);
    }
    var (keys, stats) := collected.value;
    ghost var samples := ParseAll(lines).value;
    SumCountsOfSamples(samples);
    StatsOfFolded(samples);
    var rows := Rows(keys, stats);
    RowsDistinct(keys, stats);
    var sorted := SortRows(rows);
    var sum := SumCounts(keys, stats);
    r := Ok(Report(sorted, Overall(sum), Shortfalls(sorted)));
  }

  lemma {:induction false} RowsDistinct(keys: seq<string>, stats: map<string, Counts>)
    requires forall p :: p in keys ==> p in stats
    requires forall i, j :: 0 <= i < j < |keys| ==> keys[i] != keys[j]
    ensures DistinctNames(Rows(keys, stats))
  {
    if keys != [] {
      assert forall p :: p in keys[1..] ==> p in keys;
      assert forall i, j :: 0 <= i < j < |keys[1..]| ==> keys[1..][i] != keys[1..][j];
      RowsDistinct(keys[1..], stats);
      assert forall r :: r in Rows(keys[1..], stats) ==> r.pkg in keys[1..];
    }
  }

  // ---------------------------------------------------------------------------
  // The order of the lines does not matter

  /** A package's sums with one sample taken out and added back last. */
  lemma {:induction false} TallyRemove(b: seq<Sample>, k: int, pkg: string)
    requires 0 <= k < |b|
    ensures var c := Tally(b[..k] + b[k + 1..], pkg);
            var s := b[k];
            Tally(b, pkg) ==
              if s.pkg != pkg then c
              else Counts(c.total + s.statements, if s.hit then c.covered + s.statements else c.covered)
    decreases |b|
  {
    var init := b[..|b| - 1];
    if k == |b| - 1 {
      assert b[..k] + b[k + 1..] == init;
    } else {
      TallyRemove(init, k, pkg);
      assert b == init + [b[|b| - 1]];
      DropBeforeLast(init, b[|b| - 1], k);
      TallySnoc(init[..k] + init[k + 1..], b[|b| - 1], pkg);
    }
  }

  /** The same element taken from two equal multisets leaves equal multisets. */
  lemma Cancel<T>(m: multiset<T>, n: multiset<T>, x: T)
    requires m + multiset{x} == n + multiset{x}
    ensures m == n
  {
    forall e ensures m[e] == n[e] {
      assert (m + multiset{x})[e] == (n + multiset{x})[e];
    }
  }

  /** Where the last element of a sequence sits in a reordering of it, and what remains of
      both once it is taken out. */
  lemma PickLast<T>(a: seq<T>, b: seq<T>) returns (k: int)
    requires multiset(a) == multiset(b) && a != []
    ensures 0 <= k < |b| && b[k] == a[|a| - 1]
    ensures multiset(a[..|a| - 1]) == multiset(b[..k] + b[k + 1..])
  {
    var init := a[..|a| - 1];
    var x := a[|a| - 1];
    assert a == init + [x];
    assert x in multiset(b);
    k :| 0 <= k < |b| && b[k] == x;
    var rest := b[..k] + b[k + 1..];
    assert b == b[..k] + [x] + b[k + 1..];
    assert multiset(a) == multiset(init) + multiset{x};
    assert multiset(b) == multiset(b[..k]) + multiset{x} + multiset(b[k + 1..]);
    assert multiset(rest) == multiset(b[..k]) + multiset(b[k + 1..]);
    Cancel(multiset(init), multiset(rest), x);
  }

  /** A package's sums do not depend on the order of the samples. */
  lemma {:induction false} TallyPermutation(a: seq<Sample>, b: seq<Sample>, pkg: string)
    requires multiset(a) == multiset(b)
    ensures Tally(a, pkg) == Tally(b, pkg)
    decreases |a|
  {
    if a != [] {
      var init := a[..|a| - 1];
      var k := PickLast(a, b);
      var rest := b[..k] + b[k + 1..];
      TallyPermutation(init, rest, pkg);
      TallyRemove(b, k, pkg);
    }
  }

  /** The same samples name the same packages, in whatever order. */
  lemma PackagesPermutation(a: seq<Sample>, b: seq<Sample>, p: string)
    requires multiset(a) == multiset(b)
    ensures p in Packages(a) <==> p in Packages(b)
  {
    PackagesMembers(a, p);
    PackagesMembers(b, p);
    if k :| 0 <= k < |a| && a[k].pkg == p {
      assert a[k] in multiset(b);
    }
    if k :| 0 <= k < |b| && b[k].pkg == p {
      assert b[k] in multiset(a);
    }
  }

  /** pkg_stats does not depend on the order of the samples. */
  lemma StatsOfPermutation(a: seq<Sample>, b: seq<Sample>)
    requires multiset(a) == multiset(b)
    ensures StatsOf(a) == StatsOf(b)
  {
    StatsOfFolded(a);
    StatsOfFolded(b);
    forall p
      ensures p in StatsOf(a) <==> p in StatsOf(b)
      ensures p in StatsOf(a) ==> StatsOf(a)[p] == StatsOf(b)[p]
    {
      PackagesPermutation(a, b, p);
      TallyPermutation(a, b, p);
    }
  }

  lemma SampleSumSnoc(samples: seq<Sample>, s: Sample)
    ensures SampleSum(samples + [s]) ==
              var c := SampleSum(samples);
              Counts(c.total + s.statements, if s.hit then c.covered + s.statements else c.covered)
  {
    assert (samples + [s])[..|samples|] == samples;
  }

  /** The overall sums with one sample taken out and added back last. */
  lemma {:induction false} SampleSumRemove(b: seq<Sample>, k: int)
    requires 0 <= k < |b|
    ensures var c := SampleSum(b[..k] + b[k + 1..]);
            var s := b[k];
            SampleSum(b) == Counts(c.total + s.statements, if s.hit then c.covered + s.statements else c.covered)
    decreases |b|
  {
    var init := b[..|b| - 1];
    if k == |b| - 1 {
      assert b[..k] + b[k + 1..] == init;
    } else {
      SampleSumRemove(init, k);
      assert b == init + [b[|b| - 1]];
      DropBeforeLast(init, b[|b| - 1], k);
      SampleSumSnoc(init[..k] + init[k + 1..], b[|b| - 1]);
    }
  }

  /** The overall sums do not depend on the order of the samples. */
  lemma {:induction false} SampleSumPermutation(a: seq<Sample>, b: seq<Sample>)
    requires multiset(a) == multiset(b)
    ensures SampleSum(a) == SampleSum(b)
    decreases |a|
  {
    if a != [] {
      var init := a[..|a| - 1];
      var k := PickLast(a, b);
      var rest := b[..k] + b[k + 1..];
      SampleSumPermutation(init, rest);
      SampleSumRemove(b, k);
    }
  }

  /** A table without two rows of one name holds each of its rows once. */
  lemma {:induction false} MultisetOfDistinct(rows: seq<Row>, x: Row)
    requires DistinctNames(rows)
    ensures multiset(rows)[x] == if x in rows then 1 else 0
  {
    if rows != [] {
      assert rows == [rows[0]] + rows[1..];
      assert DistinctNames(rows[1..]) by {
        forall i, j | 0 <= i < j < |rows[1..]| ensures rows[1..][i].pkg != rows[1..][j].pkg {
          assert rows[1..][i] == rows[i + 1] && rows[1..][j] == rows[j + 1];
        }
      }
      MultisetOfDistinct(rows[1..], x);
      if x == rows[0] {
        assert x !in rows[1..] by {
          forall k | 0 <= k < |rows[1..]| ensures rows[1..][k] != x {
            assert rows[1..][k] == rows[k + 1];
          }
        }
      }
    }
  }

  /** The rows before sorting hold the same rows, whatever the order of the samples. */
  lemma RowsPermutation(a: seq<Sample>, b: seq<Sample>)
    requires multiset(a) == multiset(b)
    ensures forall p :: p in Packages(a) ==> p in StatsOf(a)
    ensures forall p :: p in Packages(b) ==> p in StatsOf(b)
    ensures multiset(Rows(Packages(a), StatsOf(a))) == multiset(Rows(Packages(b), StatsOf(b)))
  {
    RowsOfSamples(a);
    RowsOfSamples(b);
    StatsOfPermutation(a, b);
    var ra := Rows(Packages(a), StatsOf(a));
    var rb := Rows(Packages(b), StatsOf(b));
    RowsDistinct(Packages(a), StatsOf(a));
    RowsDistinct(Packages(b), StatsOf(b));
    forall x: Row
      ensures multiset(ra)[x] == multiset(rb)[x]
    {
      PackagesPermutation(a, b, x.pkg);
      TallyPermutation(a, b, x.pkg);
      MultisetOfDistinct(ra, x);
      MultisetOfDistinct(rb, x);
    }
  }

  lemma RowLessIrreflexive(r: Row)
    ensures !RowLess(r, r)
  {
    StrLessIrreflexive(r.pkg);
  }

  /** A multiset of rows has only one sorted order. */
  lemma {:induction false} SortedUnique(x: seq<Row>, y: seq<Row>)
    requires SortedRows(x) && SortedRows(y) && multiset(x) == multiset(y)
    ensures x == y
    decreases |x|
  {
    if x == [] {
      assert |multiset(y)| == 0;
    } else {
      SortedHeads(x, y);
      assert x == [x[0]] + x[1..] && y == [y[0]] + y[1..];
      assert multiset(x) == multiset(x[1..]) + multiset{x[0]};
      assert multiset(y) == multiset(y[1..]) + multiset{x[0]};
      Cancel(multiset(x[1..]), multiset(y[1..]), x[0]);
      SortedUnique(x[1..], y[1..]);
    }
  }

  /** Two sorted orders of one multiset start with the same row: the least one. */
  lemma SortedHeads(x: seq<Row>, y: seq<Row>)
    requires SortedRows(x) && SortedRows(y) && multiset(x) == multiset(y) && x != []
    ensures y != [] && x[0] == y[0]
  {
    assert x[0] in multiset(y);
    assert y[0] in multiset(x);
    var j :| 0 <= j < |y| && y[j] == x[0];
    var i :| 0 <= i < |x| && x[i] == y[0];
    RowLessIrreflexive(x[0]);
    if j > 0 && i > 0 {
      RowLessTransitive(x[0], y[0], x[0]);
    }
  }

  /** The samples a line adds: one, or none. */
  function LineBag(line: string): multiset<Sample>
  {
    match ParseLine(line)
    case Ok(Some(s)) => multiset{s}
    case _ => multiset{}
  }

  /** One more line: the parse succeeds when the lines before it and the line itself do, and
      it adds that line's sample. */
  lemma ParseAllSnoc(init: seq<string>, x: string)
    ensures ParseAll(init + [x]).Ok? <==> ParseAll(init).Ok? && ParseLine(x).Ok?
    ensures ParseAll(init + [x]).Ok? ==>
              multiset(ParseAll(init + [x]).value) == multiset(ParseAll(init).value) + LineBag(x)
  {
    assert (init + [x])[..|init|] == init;
  }

  /** The parse succeeds exactly when every line parses. */
  lemma {:induction false} ParseAllOk(lines: seq<string>)
    ensures ParseAll(lines).Ok? <==> forall k :: 0 <= k < |lines| ==> ParseLine(lines[k]).Ok?
  {
    if lines != [] {
      var init := lines[..|lines| - 1];
      ParseAllOk(init);
      assert lines == init + [lines[|lines| - 1]];
      ParseAllSnoc(init, lines[|lines| - 1]);
      assert forall k :: 0 <= k < |init| ==> init[k] == lines[k];
    }
  }

  /** The samples of the lines with one line taken out, and that line's own sample. */
  lemma {:induction false} ParseAllRemove(lines: seq<string>, k: int)
    requires 0 <= k < |lines| && ParseAll(lines).Ok?
    ensures ParseAll(lines[..k] + lines[k + 1..]).Ok?
    ensures multiset(ParseAll(lines).value) ==
              multiset(ParseAll(lines[..k] + lines[k + 1..]).value) + LineBag(lines[k])
    decreases |lines|
  {
    var init := lines[..|lines| - 1];
    var last := lines[|lines| - 1];
    assert lines == init + [last];
    ParseAllSnoc(init, last);
    if k == |lines| - 1 {
      assert lines[..k] + lines[k + 1..] == init;
    } else {
      ParseAllRemove(init, k);
      RemoveBeforeLast(init, last, k);
    }
  }

  /** Taking out a line before the last one, given the same for the lines before the last. */
  lemma RemoveBeforeLast(init: seq<string>, last: string, k: int)
    requires 0 <= k < |init| && ParseAll(init).Ok? && ParseLine(last).Ok?
    requires ParseAll(init[..k] + init[k + 1..]).Ok?
    requires multiset(ParseAll(init).value) ==
               multiset(ParseAll(init[..k] + init[k + 1..]).value) + LineBag(init[k])
    ensures var lines := init + [last];
            && ParseAll(lines[..k] + lines[k + 1..]).Ok?
            && multiset(ParseAll(lines).value) ==
                 multiset(ParseAll(lines[..k] + lines[k + 1..]).value) + LineBag(lines[k])
  {
    var shorter := init[..k] + init[k + 1..];
    DropBeforeLast(init, last, k);
    ParseAllSnoc(init, last);
    ParseAllSnoc(shorter, last);
  }

  lemma DropBeforeLast<T>(init: seq<T>, last: T, k: int)
    requires 0 <= k < |init|
    ensures (init + [last])[k] == init[k]
    ensures (init + [last])[..k] + (init + [last])[k + 1..] == (init[..k] + init[k + 1..]) + [last]
  {
    var lines := init + [last];
    assert lines[..k] == init[..k];
    assert lines[k + 1..] == init[k + 1..] + [last];
  }

  /** Reordered lines parse when the original ones do. */
  lemma PermutationParses(a: seq<string>, b: seq<string>)
    requires multiset(a) == multiset(b) && ParseAll(a).Ok?
    ensures ParseAll(b).Ok?
  {
    ParseAllOk(a);
    ParseAllOk(b);
    forall k | 0 <= k < |b| ensures ParseLine(b[k]).Ok? {
      assert b[k] in multiset(a);
    }
  }

  /** Reordering the lines of a profile that parses reorders its samples. */
  lemma {:induction false} ParseAllPermutation(a: seq<string>, b: seq<string>)
    requires multiset(a) == multiset(b) && ParseAll(a).Ok? && ParseAll(b).Ok?
    ensures multiset(ParseAll(a).value) == multiset(ParseAll(b).value)
    decreases |a|
  {
    if a != [] {
      var init := a[..|a| - 1];
      var k := PickLast(a, b);
      var rest := b[..k] + b[k + 1..];
      ParseAllRemove(a, |a| - 1);
      assert a[..|a| - 1] + a[|a|..] == init;
      ParseAllRemove(b, k);
      ParseAllPermutation(init, rest);
    }
  }

  /** The script's output does not depend on the order of the profile's lines: reordered
      lines fail to parse exactly when the original ones do, and otherwise give the same
      table, overall percentage and shortfalls. */
  lemma ReportOrderIndependent(a: seq<string>, b: seq<string>, ra: Report, rb: Report)
    requires multiset(a) == multiset(b)
    requires ParseAll(a).Ok? ==> IsReport(ParseAll(a).value, ra)
    requires ParseAll(b).Ok? ==> IsReport(ParseAll(b).value, rb)
    ensures ParseAll(a).Ok? <==> ParseAll(b).Ok?
    ensures ParseAll(a).Ok? ==> ra == rb
  {
    if ParseAll(a).Ok? {
      PermutationParses(a, b);
      ParseAllPermutation(a, b);
      var sa, sb := ParseAll(a).value, ParseAll(b).value;
      RowsPermutation(sa, sb);
      SortedUnique(ra.rows, rb.rows);
      SampleSumPermutation(sa, sb);
    } else if ParseAll(b).Ok? {
      PermutationParses(b, a);
    }
  }
}
