/**
 * The parts of Go's strings and strconv packages that the binpack tag parser and codec
 * builder call: Index, Contains, Split, SplitN, TrimSpace, Atoi and ParseUint with base 0 (underscores included).
 * Strings are sequences of characters; the parser only ever looks at ASCII.
 */
module GoStrings {
  import opened Wrappers

  /** sub occurs in s at position i. */
  predicate MatchesAt(s: string, sub: string, i: nat)
  {
    i + |sub| <= |s| && s[i..i + |sub|] == sub
  }

  /** The first occurrence of sub in s at or after i, or -1. */
  function IndexFrom(s: string, sub: string, i: nat): (r: int)
    ensures r == -1 || (i <= r && MatchesAt(s, sub, r))
    ensures r == -1 ==> forall j :: i <= j ==> !MatchesAt(s, sub, j)
    ensures r >= 0 ==> forall j :: i <= j < r ==> !MatchesAt(s, sub, j)
    decreases |s| - i
  {
    if i + |sub| > |s| then -1
    else if MatchesAt(s, sub, i) then i
    else IndexFrom(s, sub, i + 1)
  }

  /** strings.Index: the first position at which sub occurs in s, or -1. */
  function IndexOf(s: string, sub: string): int
  {
    IndexFrom(s, sub, 0)
  }

  /** strings.Contains. */
  predicate Contains(s: string, sub: string)
  {
    IndexOf(s, sub) >= 0
  }

  /** An occurrence in a prefix is an occurrence in the whole string. */
  lemma MatchesInPrefix(s: string, sub: string, n: nat, j: nat)
    requires n <= |s| && MatchesAt(s[..n], sub, j)
    ensures MatchesAt(s, sub, j)
  {
    assert s[..n][j..j + |sub|] == s[j..j + |sub|];
  }

  /** The pieces joined back with sep between them. */
  function JoinWith(parts: seq<string>, sep: string): string
    requires |parts| >= 1
  {
    if |parts| == 1 then parts[0] else parts[0] + sep + JoinWith(parts[1..], sep)
  }

  /** strings.Split with a non-empty separator: the text between successive occurrences of
      sep, scanning left to right. Joining the pieces with sep gives s back, and no piece
      holds sep. */
  function Split(s: string, sep: string): (parts: seq<string>)
    requires |sep| > 0
    ensures |parts| >= 1
    ensures JoinWith(parts, sep) == s
    ensures forall k :: 0 <= k < |parts| ==> IndexOf(parts[k], sep) == -1
    decreases |s|
  {
    var i := IndexOf(s, sep);
    if i < 0 then [s]
    else
      var rest := Split(s[i + |sep|..], sep);
      assert IndexOf(s[..i], sep) == -1 by {
        forall j | 0 <= j && MatchesAt(s[..i], sep, j)
          ensures false
        {
          MatchesInPrefix(s, sep, i, j);
        }
      }
      assert s == s[..i] + sep + s[i + |sep|..];
      [s[..i]] + rest
  }

  /** A string without sep is its own single piece. */
  lemma SplitNone(s: string, sep: string)
    requires |sep| > 0 && IndexOf(s, sep) == -1
    ensures Split(s, sep) == [s]
  {
  }

  /** strings.SplitN(s, sep, 2): the text before the first sep and the text after it, or s
      alone when sep does not occur. */
  function SplitTwo(s: string, sep: string): (parts: seq<string>)
    requires |sep| > 0
    ensures 1 <= |parts| <= 2
    ensures |parts| == 2 <==> Contains(s, sep)
    ensures |parts| == 1 ==> parts[0] == s
    ensures |parts| == 2 ==> parts[0] + sep + parts[1] == s && IndexOf(parts[0], sep) == -1
  {
    var i := IndexOf(s, sep);
    if i < 0 then [s]
    else
      assert IndexOf(s[..i], sep) == -1 by {
        forall j | 0 <= j && MatchesAt(s[..i], sep, j)
          ensures false
        {
          MatchesInPrefix(s, sep, i, j);
        }
      }
      assert s == s[..i] + sep + s[i + |sep|..];
      [s[..i], s[i + |sep|..]]
  }

  /** unicode.IsSpace. */
  predicate IsSpace(c: char)
  {
    || c == '\t' || c == '\n' || c == '\U{B}' || c == '\U{C}' || c == '\r' || c == ' '
    || c == '\U{85}' || c == '\U{A0}' || c == '\U{1680}' || ('\U{2000}' <= c <= '\U{200A}')
    || c == '\U{2028}' || c == '\U{2029}' || c == '\U{202F}' || c == '\U{205F}' || c == '\U{3000}'
  }

  /** s without its leading white space. */
  function TrimLeft(s: string): (r: string)
    ensures |r| <= |s| && r == s[|s| - |r|..]
    ensures forall k :: 0 <= k < |s| - |r| ==> IsSpace(s[k])
    ensures r == [] || !IsSpace(r[0])
  {
    if s != [] && IsSpace(s[0]) then TrimLeft(s[1..]) else s
  }

  /** s without its trailing white space. */
  function TrimRight(s: string): (r: string)
    ensures |r| <= |s| && r == s[..|r|]
    ensures forall k :: |r| <= k < |s| ==> IsSpace(s[k])
    ensures r == [] || !IsSpace(r[|r| - 1])
  {
    if s != [] && IsSpace(s[|s| - 1]) then TrimRight(s[..|s| - 1]) else s
  }

  /** strings.TrimSpace. */
  function TrimSpace(s: string): string
  {
    TrimRight(TrimLeft(s))
  }

  /** Trimming a string that neither starts nor ends with white space changes nothing, so
      TrimSpace is idempotent. */
  lemma TrimSpaceIdempotent(s: string)
    ensures TrimSpace(TrimSpace(s)) == TrimSpace(s)
  {
    var t := TrimSpace(s);
    if t != [] {
      var l := TrimLeft(s);
      assert t == l[..|t|];
      assert t[0] == l[0];
    }
  }

  // ---------------------------------------------------------------------------
  // strconv

  /** The value of digit character c in base 16, or 16 when it is no hexadecimal digit. */
  function DigitValue(c: char): (d: nat)
    ensures d <= 16
  {
    if '0' <= c <= '9' then c as int - '0' as int
    else if 'a' <= c <= 'f' then c as int - 'a' as int + 10
    else if 'A' <= c <= 'F' then c as int - 'A' as int + 10
    else 16
  }

  /** Every character of s is a digit of the base. */
  predicate AllDigits(s: string, base: nat)
  {
    forall k :: 0 <= k < |s| ==> DigitValue(s[k]) < base
  }

  /** The number the digits of s spell in the base, most significant first. */
  function DigitsValue(s: string, base: nat): nat
  {
    if s == [] then 0
    else DigitsValue(s[..|s| - 1], base) * base + DigitValue(s[|s| - 1])
  }

  const MinInt64: int := -0x8000_0000_0000_0000
  const MaxInt64: int := 0x7FFF_FFFF_FFFF_FFFF
  const MaxUint64: int := 0xFFFF_FFFF_FFFF_FFFF

  datatype NumError = ErrSyntax | ErrRange

  /** strconv.Atoi on a 64-bit platform: an optional sign and at least one decimal digit,
      within the range of int64. */
  function Atoi(s: string): (r: Result<int, NumError>)
    ensures r.Ok? ==> MinInt64 <= r.value <= MaxInt64
  {
    var neg := |s| > 0 && s[0] == '-';
    var body := if |s| > 0 && (s[0] == '-' || s[0] == '+') then s[1..] else s;
    if body == [] || !AllDigits(body, 10) then Err(ErrSyntax)
    else
      var v := if neg then -(DigitsValue(body, 10) as int) else DigitsValue(body, 10) as int;
      if v < MinInt64 || v > MaxInt64 then Err(ErrRange) else Ok(v)
  }

  /** What `n, _ := strconv.Atoi(s)` leaves in n: 0 on a syntax error, the nearest bound of
      int64 on a range error. */
  function AtoiIgnoringError(s: string): int
  {
    match Atoi(s)
    case Ok(v) => v
    case Err(ErrSyntax) => 0
    case Err(ErrRange) => if |s| > 0 && s[0] == '-' then MinInt64 else MaxInt64
  }

  function Lower(c: char): char
  {
    if 'A' <= c <= 'Z' then (c as int + 32) as char else c
  }

  /** The base a base-0 literal selects, and the digits after its prefix: 0b, 0o or 0x select
      base 2, 8 or 16 when at least one character follows, a leading 0 alone base 8,
      anything else base 10. */
  function BaseOf(s: string): (r: (nat, string))
    requires s != []
    ensures 2 <= r.0 <= 16 && |r.1| <= |s| && r.1 == s[|s| - |r.1|..]
    ensures s[0] != '0' ==> r == (10, s)
  {
    if s[0] != '0' then (10, s)
    else if |s| >= 3 && Lower(s[1]) == 'b' then (2, s[2..])
    else if |s| >= 3 && Lower(s[1]) == 'o' then (8, s[2..])
    else if |s| >= 3 && Lower(s[1]) == 'x' then (16, s[2..])
    else (8, s[1..])
  }

  /** What the digit loop has read so far: the value, and whether it skipped an underscore. */
  datatype Scan = Scan(value: nat, underscores: bool)

  /** The digit loop of strconv.ParseUint with base 0, left to right: an underscore is skipped
      and noted, a character that is not a digit of the base is a syntax error, and a value
      past uint64 is a range error at the digit that overflows, whatever follows. (Go tests
      n >= maxUint64/base + 1 and then n*base + d for wrap-around; together they fail exactly
      when n*base + d exceeds maxUint64.) */
  function ScanDigits(s: string, base: nat): (r: Result<Scan, NumError>)
    ensures r.Ok? ==> r.value.value <= MaxUint64
  {
    if s == [] then Ok(Scan(0, false))
    else ScanStep(ScanDigits(s[..|s| - 1], base), s[|s| - 1], base)
  }

  /** One pass of the digit loop, on character c. */
  function ScanStep(r: Result<Scan, NumError>, c: char, base: nat): (r': Result<Scan, NumError>)
    requires r.Ok? ==> r.value.value <= MaxUint64
    ensures r'.Ok? ==> r'.value.value <= MaxUint64
    ensures r.Err? ==> r' == r
  {
    match r
    case Err(e) => Err(e)
    case Ok(sc) =>
      if c == '_' then Ok(Scan(sc.value, true))
      else if DigitValue(c) >= base then Err(ErrSyntax)
      else if sc.value * base + DigitValue(c) > MaxUint64 then Err(ErrRange)
      else Ok(Scan(sc.value * base + DigitValue(c), sc.underscores))
  }

  /** The class of the last character underscoreOK looked at. */
  datatype Seen = Start | Digit | Underscore | Other

  /** The loop of strconv's underscoreOK from the given state: an underscore must follow a
      digit (or the base prefix) and be followed by one. */
  function UnderscoresFrom(s: string, seen: Seen, hex: bool): bool
  {
    if s == [] then seen != Underscore
    else
      var c := s[0];
      if '0' <= c <= '9' || (hex && 'a' <= Lower(c) <= 'f') then UnderscoresFrom(s[1..], Digit, hex)
      else if c == '_' then seen == Digit && UnderscoresFrom(s[1..], Underscore, hex)
      else if seen == Underscore then false
      else UnderscoresFrom(s[1..], Other, hex)
  }

  /** strconv's underscoreOK: after an optional sign and an optional 0b, 0o or 0x prefix
      (which counts as a digit), every underscore sits between two digits. */
  function UnderscoreOK(s: string): bool
  {
    var t := if |s| >= 1 && (s[0] == '-' || s[0] == '+') then s[1..] else s;
    if |t| >= 2 && t[0] == '0' && (Lower(t[1]) == 'b' || Lower(t[1]) == 'o' || Lower(t[1]) == 'x')
    then UnderscoresFrom(t[2..], Digit, Lower(t[1]) == 'x')
    else UnderscoresFrom(t, Start, false)
  }

  /** strconv.ParseUint(s, 0, 64): the base from the prefix, then the digits left to right,
      underscores allowed only where underscoreOK accepts them; no sign; within the range of
      uint64. */
  function ParseUint(s: string): (r: Result<nat, NumError>)
    ensures r.Ok? ==> r.value <= MaxUint64
  {
    if s == [] then Err(ErrSyntax)
    else
      var (base, digits) := BaseOf(s);
      match ScanDigits(digits, base)
      case Err(e) => Err(e)
      case Ok(sc) => if sc.underscores && !UnderscoreOK(s) then Err(ErrSyntax) else Ok(sc.value)
  }

  /** s with its underscores dropped. */
  function Strip(s: string): (r: string)
    ensures '_' !in r
  {
    if s == [] then []
    else Strip(s[..|s| - 1]) + (if s[|s| - 1] == '_' then [] else [s[|s| - 1]])
  }

  /** The value a result carries, without the underscore flag. */
  function ValueOf(r: Result<Scan, NumError>): Result<nat, NumError>
  {
    match r
    case Ok(sc) => Ok(sc.value)
    case Err(e) => Err(e)
  }

  /** The loop notes an underscore exactly when it skipped one. */
  lemma {:induction false} ScanFlag(s: string, base: nat)
    ensures ScanDigits(s, base).Ok? ==> (ScanDigits(s, base).value.underscores <==> '_' in s)
  {
    if s != [] {
      var init, c := s[..|s| - 1], s[|s| - 1];
      assert s == init + [c];
      assert '_' in s <==> '_' in init || c == '_';
      ScanFlag(init, base);
    }
  }

  /** A pass depends on the value read so far, not on the underscore flag. */
  lemma StepValue(r1: Result<Scan, NumError>, r2: Result<Scan, NumError>, c: char, base: nat)
    requires r1.Ok? ==> r1.value.value <= MaxUint64
    requires r2.Ok? ==> r2.value.value <= MaxUint64
    requires ValueOf(r1) == ValueOf(r2)
    ensures ValueOf(ScanStep(r1, c, base)) == ValueOf(ScanStep(r2, c, base))
  {
  }

  /** Skipping underscores: the loop ends as it would on the digits alone. */
  lemma {:induction false} ScanStrip(s: string, base: nat)
    ensures ValueOf(ScanDigits(s, base)) == ValueOf(ScanDigits(Strip(s), base))
  {
    if s != [] {
      var init, c := s[..|s| - 1], s[|s| - 1];
      ScanStrip(init, base);
      var r := ScanDigits(init, base);
      assert ScanDigits(s, base) == ScanStep(r, c, base);
      if c == '_' {
        assert Strip(s) == Strip(init);
        assert ValueOf(ScanStep(r, c, base)) == ValueOf(r);
      } else {
        assert Strip(s) == Strip(init) + [c];
        assert (Strip(init) + [c])[..|Strip(init)|] == Strip(init);
        assert ScanDigits(Strip(s), base) == ScanStep(ScanDigits(Strip(init), base), c, base);
        StepValue(r, ScanDigits(Strip(init), base), c, base);
      }
    }
  }

  /** On digits without underscores the loop is the positional value: it succeeds exactly when
      every character is a digit of the base and the value fits in uint64. */
  lemma {:induction false} ScanPlain(s: string, base: nat)
    requires '_' !in s && base >= 1
    ensures ValueOf(ScanDigits(s, base)).Ok? <==> AllDigits(s, base) && DigitsValue(s, base) <= MaxUint64
    ensures ValueOf(ScanDigits(s, base)).Ok? ==> ValueOf(ScanDigits(s, base)).value == DigitsValue(s, base)
  {
    if s != [] {
      var init, c := s[..|s| - 1], s[|s| - 1];
      assert s == init + [c];
      ScanPlain(init, base);
      assert AllDigits(s, base) <==> AllDigits(init, base) && DigitValue(c) < base;
      if DigitValue(c) < base {
        DigitsValueSnoc(init, c, base);
      }
    }
  }

  lemma DigitsValueSnoc(init: string, c: char, base: nat)
    requires DigitValue(c) < base
    ensures DigitsValue(init + [c], base) == DigitsValue(init, base) * base + DigitValue(c)
    ensures DigitsValue(init, base) <= DigitsValue(init + [c], base)
  {
    assert (init + [c])[..|init|] == init;
    var v := DigitsValue(init, base);
    assert v * base == v * (base - 1) + v;
    assert v * (base - 1) >= 0;
  }

  /** ParseUint with base 0 reads the digits after the prefix with the underscores dropped:
      it succeeds exactly when those are digits of the base, their value fits in uint64, and
      any underscore sits where underscoreOK allows it. */
  lemma ParseUintValue(s: string)
    requires s != []
    ensures var (base, digits) := BaseOf(s);
            ParseUint(s).Ok? <==>
              && AllDigits(Strip(digits), base) && DigitsValue(Strip(digits), base) <= MaxUint64
              && ('_' in digits ==> UnderscoreOK(s))
    ensures var (base, digits) := BaseOf(s);
            ParseUint(s).Ok? ==> ParseUint(s).value == DigitsValue(Strip(digits), base)
  {
    var (base, digits) := BaseOf(s);
    ScanFlag(digits, base);
    ScanStrip(digits, base);
    ScanPlain(Strip(digits), base);
  }

  /** The first bad character or overflow decides the error, whatever follows it. */
  lemma {:induction false} ScanErrorFirst(s: string, t: string, base: nat)
    requires ScanDigits(s, base).Err?
    ensures ScanDigits(s + t, base) == ScanDigits(s, base)
  {
    if t == [] {
      assert s + t == s;
    } else {
      var init := t[..|t| - 1];
      ScanErrorFirst(s, init, base);
      assert (s + t)[..|s + t| - 1] == s + init;
    }
  }

  /** Underscores between digits and after a base prefix are accepted; leading, trailing and
      doubled ones are not. */
  lemma ParseUintUnderscores()
    ensures ParseUint("1_0") == Ok(10)
    ensures ParseUint("0x_f") == Ok(15)
    ensures ParseUint("_1") == Err(ErrSyntax)
    ensures ParseUint("1_") == Err(ErrSyntax)
    ensures ParseUint("1__0") == Err(ErrSyntax)
  {
    SeparatedDecimal();
    PrefixedHex();
    StrayUnderscores();
  }

  lemma SeparatedDecimal()
    ensures ParseUint("1_0") == Ok(10)
  {
    assert "1_0"[..2] == "1_" && "1_"[..1] == "1" && "1"[..0] == [];
    assert ScanDigits("1_0", 10) == Ok(Scan(10, true));
    assert "1_0"[1..] == "_0" && "_0"[1..] == "0" && "0"[1..] == [];
    assert UnderscoresFrom("1_0", Start, false);
  }

  lemma PrefixedHex()
    ensures ParseUint("0x_f") == Ok(15)
  {
    assert BaseOf("0x_f") == (16, "_f");
    assert "_f"[..1] == "_" && "_"[..0] == [];
    assert ScanDigits("_f", 16) == Ok(Scan(15, true));
    assert "0x_f"[2..] == "_f" && "_f"[1..] == "f" && "f"[1..] == [];
    assert UnderscoresFrom("_f", Digit, true);
  }

  lemma StrayUnderscores()
    ensures ParseUint("_1") == Err(ErrSyntax)
    ensures ParseUint("1_") == Err(ErrSyntax)
    ensures ParseUint("1__0") == Err(ErrSyntax)
  {
    LeadingUnderscore();
    TrailingUnderscore();
    DoubledUnderscore();
  }

  lemma LeadingUnderscore()
    ensures ParseUint("_1") == Err(ErrSyntax)
  {
    assert BaseOf("_1") == (10, "_1");
    assert "_1"[..1] == "_" && "_"[..0] == [];
    assert ScanDigits("_1", 10) == Ok(Scan(1, true));
    assert !UnderscoreOK("_1");
  }

  lemma TrailingUnderscore()
    ensures ParseUint("1_") == Err(ErrSyntax)
  {
    assert BaseOf("1_") == (10, "1_");
    assert "1_"[..1] == "1" && "1"[..0] == [];
    assert ScanDigits("1_", 10) == Ok(Scan(1, true));
    assert "1_"[1..] == "_" && "_"[1..] == [];
    assert !UnderscoreOK("1_");
  }

  lemma DoubledUnderscore()
    ensures ParseUint("1__0") == Err(ErrSyntax)
  {
    assert BaseOf("1__0") == (10, "1__0");
    assert "1__0"[..3] == "1__" && "1__"[..2] == "1_" && "1_"[..1] == "1" && "1"[..0] == [];
    assert ScanDigits("1__0", 10) == Ok(Scan(10, true));
    assert "1__0"[1..] == "__0" && "__0"[1..] == "_0";
    assert !UnderscoreOK("1__0");
  }

  /** Decimal digits of n, most significant first. */
  function DecimalOf(n: nat): (s: string)
    ensures |s| >= 1 && AllDigits(s, 10)
  {
    if n < 10 then [('0' as int + n) as char]
    else DecimalOf(n / 10) + [('0' as int + n % 10) as char]
  }

  lemma {:induction false} DecimalOfValue(n: nat)
    ensures DigitsValue(DecimalOf(n), 10) == n
  {
    if n >= 10 {
      var s := DecimalOf(n);
      assert s[..|s| - 1] == DecimalOf(n / 10);
      DecimalOfValue(n / 10);
    }
  }

  /** Atoi on a sign-less string of decimal digits ... */
  lemma AtoiDigits(s: string)
    requires s != [] && AllDigits(s, 10) && DigitsValue(s, 10) <= MaxInt64
    ensures Atoi(s) == Ok(DigitsValue(s, 10))
  {
    assert DigitValue(s[0]) < 10;
  }

  /** ... and on the same digits after a minus sign. */
  lemma AtoiMinusDigits(s: string)
    requires s != [] && AllDigits(s, 10) && DigitsValue(s, 10) <= -MinInt64
    ensures Atoi("-" + s) == Ok(-(DigitsValue(s, 10) as int))
  {
    assert ("-" + s)[1..] == s;
  }

  /** Atoi reads back the decimal spelling of every int64 value. */
  lemma AtoiDecimal(v: int)
    requires MinInt64 <= v <= MaxInt64
    ensures Atoi(if v < 0 then "-" + DecimalOf(-v) else DecimalOf(v)) == Ok(v)
  {
    var n := if v < 0 then -v else v;
    DecimalOfValue(n);
    if v < 0 {
      AtoiMinusDigits(DecimalOf(n));
    } else {
      AtoiDigits(DecimalOf(n));
    }
  }
}
