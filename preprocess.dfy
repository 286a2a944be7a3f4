/**
 * Route path preprocessing of zallocrout (pkg/zallocrout/preprocess.go).
 *
 * A Go path is a byte string; the characters it cares about ('/', '.', ':', '*', letters and
 * digits) are ASCII, so a path is modelled as a string whose characters stand for its bytes.
 */
module RoutePath {
  import opened Wrappers

  // ---------------------------------------------------------------------------
  // Segments: the non-empty pieces between slashes

  /** The length of the leading run of s that holds no '/'. */
  function SegLen(s: string): (n: nat)
    ensures n <= |s|
    ensures forall k :: 0 <= k < n ==> s[k] != '/'
    ensures n < |s| ==> s[n] == '/'
  {
    if s == [] || s[0] == '/' then 0 else 1 + SegLen(s[1..])
  }

  /** The non-empty '/'-separated pieces of s, in order. */
  function Segs(s: string): (ss: seq<string>)
    ensures forall k :: 0 <= k < |ss| ==> ss[k] != [] && NoSlash(ss[k])
    decreases |s|
  {
    if s == [] then []
    else if s[0] == '/' then Segs(s[1..])
    else
      var n := SegLen(s);
      [s[..n]] + Segs(s[n..])
  }

  predicate NoSlash(s: string)
  {
    forall k :: 0 <= k < |s| ==> s[k] != '/'
  }

  lemma {:induction false} SegLenAppend(a: string, b: string)
    requires SegLen(a) < |a| || b == [] || b[0] == '/'
    ensures SegLen(a + b) == SegLen(a)
  {
    if a != [] && a[0] != '/' {
      assert (a + b)[1..] == a[1..] + b;
      SegLenAppend(a[1..], b);
    } else if a == [] {
      assert a + b == b;
    }
  }

  /** Splitting at a slash (or at either end) splits the segments. */
  lemma {:induction false} SegsAppend(a: string, b: string)
    requires a == [] || b == [] || a[|a| - 1] == '/' || b[0] == '/'
    ensures Segs(a + b) == Segs(a) + Segs(b)
    decreases |a|
  {
    if a == [] {
      assert a + b == b;
    } else if a[0] == '/' {
      assert (a + b)[1..] == a[1..] + b;
      SegsAppend(a[1..], b);
    } else {
      var n := SegLen(a);
      SegLenAppend(a, b);
      assert (a + b)[..n] == a[..n];
      assert (a + b)[n..] == a[n..] + b;
      SegsAppend(a[n..], b);
    }
  }

  /** A non-empty run without slashes is one segment. */
  lemma SegsOfWord(w: string)
    requires w != [] && NoSlash(w)
    ensures Segs(w) == [w]
  {
    SegLenWord(w);
    assert w[..SegLen(w)] == w;
    assert Segs(w[SegLen(w)..]) == [];
  }

  lemma {:induction false} SegLenWord(w: string)
    requires NoSlash(w)
    ensures SegLen(w) == |w|
  {
    if w != [] {
      SegLenWord(w[1..]);
    }
  }

  lemma SegsOfSlash()
    ensures Segs("/") == []
  {
    assert "/"[1..] == [];
  }

  // ---------------------------------------------------------------------------
  // The canonical form a path normalises to

  /** One step of the stack: "." is skipped, ".." pops (and is dropped at the root), any other
      segment is pushed. */
  function Resolve(stack: seq<string>, seg: string): seq<string>
  {
    if seg == "." then stack
    else if seg == ".." then (if stack == [] then [] else stack[..|stack| - 1])
    else stack + [seg]
  }

  function ResolveAll(segs: seq<string>): seq<string>
  {
    if segs == [] then []
    else Resolve(ResolveAll(segs[..|segs| - 1]), segs[|segs| - 1])
  }

  /** A segment that names a real directory (not "." or ".."). */
  predicate Plain(s: string)
  {
    s != [] && NoSlash(s) && s != "." && s != ".."
  }

  lemma {:induction false} ResolveAllPlain(segs: seq<string>)
    requires forall k :: 0 <= k < |segs| ==> segs[k] != [] && NoSlash(segs[k])
    ensures forall k :: 0 <= k < |ResolveAll(segs)| ==> Plain(ResolveAll(segs)[k])
  {
    if segs != [] {
      ResolveAllPlain(segs[..|segs| - 1]);
    }
  }

  /** Segments that are all plain resolve to themselves. */
  lemma {:induction false} ResolveAllOfPlain(segs: seq<string>)
    requires forall k :: 0 <= k < |segs| ==> Plain(segs[k])
    ensures ResolveAll(segs) == segs
  {
    if segs != [] {
      ResolveAllOfPlain(segs[..|segs| - 1]);
      assert segs[..|segs| - 1] + [segs[|segs| - 1]] == segs;
    }
  }

  /** "/" followed by each segment and a slash: the bytes normalizePathBytes has written. */
  function Out(r: seq<string>): (s: string)
    ensures |s| >= 1 && s[0] == '/' && s[|s| - 1] == '/'
  {
    if r == [] then "/" else "/" + r[0] + Out(r[1..])
  }

  lemma {:induction false} OutSnoc(r: seq<string>, s: string)
    ensures Out(r + [s]) == Out(r) + s + "/"
  {
    if r == [] {
      assert Out([s][1..]) == "/";
    } else {
      assert (r + [s])[1..] == r[1..] + [s];
      OutSnoc(r[1..], s);
      calc {
        Out(r + [s]);
        "/" + r[0] + Out(r[1..] + [s]);
        "/" + r[0] + (Out(r[1..]) + s + "/");
        { Assoc4("/" + r[0], Out(r[1..]), s, "/"); }
        "/" + r[0] + Out(r[1..]) + s + "/";
      }
    }
  }

  lemma Assoc4(a: string, b: string, c: string, d: string)
    ensures a + (b + c + d) == a + b + c + d
  {
  }

  lemma {:induction false} OutLength(r: seq<string>)
    requires forall k :: 0 <= k < |r| ==> r[k] != []
    ensures |Out(r)| == 1 <==> r == []
  {
  }

  /** Reading the written bytes back gives the segments. */
  lemma {:induction false} SegsOfOut(r: seq<string>)
    requires forall k :: 0 <= k < |r| ==> r[k] != [] && NoSlash(r[k])
    ensures Segs(Out(r)) == r
  {
    if r == [] {
      SegsOfSlash();
    } else {
      var rest := Out(r[1..]);
      SegsOfOut(r[1..]);
      assert ("/" + r[0] + rest)[1..] == r[0] + rest;
      SegsAppend(r[0], rest);
      SegsOfWord(r[0]);
      assert r == [r[0]] + r[1..];
    }
  }

  /** The path normalizePathBytes returns for p: empty for empty, else "/" and the resolved
      segments joined by single slashes. */
  function Normalized(p: string): string
  {
    if p == [] then []
    else
      var r := ResolveAll(Segs(p));
      if r == [] then "/" else Out(r)[..|Out(r)| - 1]
  }

  lemma ResolveAllSnoc(segs: seq<string>, seg: string)
    ensures ResolveAll(segs + [seg]) == Resolve(ResolveAll(segs), seg)
  {
    assert (segs + [seg])[..|segs|] == segs;
  }

  /** A leading slash added in front changes nothing. */
  lemma NormalizedSlashPrefix(p: string)
    requires p != []
    ensures Normalized("/" + p) == Normalized(p)
  {
    assert ("/" + p)[1..] == p;
  }

  // ---------------------------------------------------------------------------
  // What a normalised path looks like

  /** No two slashes in a row. */
  predicate NoDoubleSlash(s: string)
  {
    forall k :: 1 <= k < |s| ==> !(s[k - 1] == '/' && s[k] == '/')
  }

  lemma {:induction false} OutNoDoubleSlash(r: seq<string>)
    requires forall k :: 0 <= k < |r| ==> r[k] != [] && NoSlash(r[k])
    ensures NoDoubleSlash(Out(r))
  {
    if r != [] {
      OutNoDoubleSlash(r[1..]);
      var a := "/" + r[0];
      var rest := Out(r[1..]);
      var o := Out(r);
      assert o == a + rest;
      forall k | 1 <= k < |o|
        ensures !(o[k - 1] == '/' && o[k] == '/')
      {
        if k < |a| {
          assert o[k] == r[0][k - 1];
        } else if k == |a| {
          assert o[k - 1] == r[0][|r[0]| - 1];
        } else {
          assert o[k - 1] == rest[k - 1 - |a|] && o[k] == rest[k - |a|];
        }
      }
    }
  }

  /** Out(r) without its final slash, for non-empty r: '/' and the segments joined by '/'. */
  lemma TrimmedOut(r: seq<string>) returns (t: string)
    requires r != [] && forall k :: 0 <= k < |r| ==> Plain(r[k])
    ensures t == Out(r)[..|Out(r)| - 1]
    ensures |t| >= 2 && t[0] == '/' && t[|t| - 1] != '/'
    ensures NoDoubleSlash(t)
    ensures Segs(t) == r
  {
    t := Out(r)[..|Out(r)| - 1];
    TrimmedLast(r, t);
    OutNoDoubleSlash(r);
    TrimmedSegs(r, t);
  }

  lemma TrimmedLast(r: seq<string>, t: string)
    requires r != [] && r[|r| - 1] != [] && NoSlash(r[|r| - 1])
    requires t == Out(r)[..|Out(r)| - 1]
    ensures |t| >= 2 && t[|t| - 1] != '/'
  {
    var last := r[|r| - 1];
    var a := OutLast(r);
    assert Out(r) == a + last + "/";
    assert t == a + last;
  }

  /** The last segment and its slash close Out(r). */
  lemma OutLast(r: seq<string>) returns (a: string)
    requires r != []
    ensures a == Out(r[..|r| - 1]) && Out(r) == a + r[|r| - 1] + "/"
  {
    a := Out(r[..|r| - 1]);
    OutSnoc(r[..|r| - 1], r[|r| - 1]);
    assert r[..|r| - 1] + [r[|r| - 1]] == r;
  }

  lemma TrimmedSegs(r: seq<string>, t: string)
    requires forall k :: 0 <= k < |r| ==> r[k] != [] && NoSlash(r[k])
    requires t == Out(r)[..|Out(r)| - 1]
    ensures Segs(t) == r
  {
    assert Out(r) == t + "/";
    SegsAppend(t, "/");
    SegsOfSlash();
    SegsOfOut(r);
  }

  /** normalizePathBytes keeps "" empty and otherwise gives '/' followed by segments joined
      by single slashes, with no trailing slash unless the result is "/". */
  lemma NormalizedShape(p: string)
    ensures var n := Normalized(p);
            && (n == [] <==> p == [])
            && (p != [] ==> n[0] == '/')
            && NoDoubleSlash(n)
            && (|n| > 1 ==> n[|n| - 1] != '/')
  {
    if p != [] {
      var r := ResolveAll(Segs(p));
      ResolveAllPlain(Segs(p));
      if r != [] {
        var t := TrimmedOut(r);
      }
    }
  }

  /** The segments of the normalised path are those of p resolved, none of them "." or "..". */
  lemma NormalizedSegs(p: string)
    ensures Segs(Normalized(p)) == ResolveAll(Segs(p))
    ensures forall k :: 0 <= k < |Segs(Normalized(p))| ==> Plain(Segs(Normalized(p))[k])
  {
    var r := ResolveAll(Segs(p));
    ResolveAllPlain(Segs(p));
    if p == [] || r == [] {
      SegsOfSlash();
    } else {
      var t := TrimmedOut(r);
    }
  }

  /** Normalising a normalised path changes nothing. */
  lemma NormalizedIdempotent(p: string)
    ensures Normalized(Normalized(p)) == Normalized(p)
  {
    if p != [] {
      NormalizedShape(p);
      NormalizedSegs(p);
      var n := Normalized(p);
      ResolveAllOfPlain(Segs(n));
    }
  }

  /** A leading "." or ".." resolves against the empty stack and is dropped. */
  lemma {:induction false} ResolveAllDropsLeading(x: string, s: seq<string>)
    requires x == "." || x == ".."
    ensures ResolveAll([x] + s) == ResolveAll(s)
  {
    if s != [] {
      assert ([x] + s)[..|s|] == [x] + s[..|s| - 1];
      ResolveAllDropsLeading(x, s[..|s| - 1]);
    } else {
      assert [x] + s == [x];
      assert [x][..0] == [];
    }
  }

  /** ".." at the root is dropped. */
  lemma NormalizedRootDotDot(q: string)
    requires q != [] && q[0] == '/'
    ensures Normalized("/.." + q) == Normalized(q)
  {
    assert "/.." + q == "/.." + q;
    SegsAppend("/..", q);
    assert "/.."[1..] == "..";
    SegsOfWord("..");
    ResolveAllDropsLeading("..", Segs(q));
  }

  lemma NormalizedRootDotDotExample()
    ensures Normalized("/../api") == "/api"
  {
    assert "/../api" == "/.." + "/api";
    NormalizedRootDotDot("/api");
    NormalizedOneSegment("api");
  }

  /** A path of one plain segment is already normalised. */
  lemma NormalizedOneSegment(w: string)
    requires Plain(w)
    ensures Normalized("/" + w) == "/" + w
  {
    var p := "/" + w;
    assert p[1..] == w;
    SegsOfWord(w);
    assert Segs(p) == [w];
    assert [w][..0] == [];
    assert ResolveAll([w]) == [w];
    assert Out([w]) == p + "/" by {
      assert [w][1..] == [];
    }
    assert (p + "/")[..|p|] == p;
  }

  // ---------------------------------------------------------------------------
  // needsNormalization: the fast path that skips normalisation

  /** The path is empty, lacks the leading '/', ends in '/' (other than "/"), or has a
      slash followed by '/' or '.'. */
  predicate NeedsNormalization(p: string)
  {
    || p == []
    || p[0] != '/'
    || (|p| > 1 && p[|p| - 1] == '/')
    || exists i :: 1 <= i < |p| && p[i - 1] == '/' && (p[i] == '/' || p[i] == '.')
  }

  method ScanNeedsNormalization(path: string) returns (b: bool)
    ensures b == NeedsNormalization(path)
  {
    if |path| == 0 {
      return true;
    }
    if path[0] != '/' {
      return true;
    }
    if |path| > 1 && path[|path| - 1] == '/' {
      return true;
    }
    var i := 1;
    while i < |path|
      invariant 1 <= i <= |path|
      invariant forall q :: 1 <= q < i ==> !(path[q - 1] == '/' && (path[q] == '/' || path[q] == '.'))
    {
      if path[i] == '/' && path[i - 1] == '/' {
        return true;
      }
      if path[i] == '.' && path[i - 1] == '/' {
        return true;
      }
      i := i + 1;
    }
    return false;
  }

  /** A path the fast path accepts, other than "/": every slash is followed by a segment that
      does not start with '.'. */
  predicate Clean(p: string)
  {
    && |p| >= 2 && p[0] == '/' && p[|p| - 1] != '/'
    && forall i :: 1 <= i < |p| && p[i - 1] == '/' ==> p[i] != '/' && p[i] != '.'
  }

  /** A clean path is '/' and its segments each followed by '/', without the last slash. */
  lemma {:induction false} CleanSegsOut(p: string)
    requires Clean(p)
    ensures Out(Segs(p)) == p + "/"
    decreases |p|
  {
    var first, rest := CleanFirst(p);
    if rest == [] {
      OutCons(first, [], "");
    } else {
      CleanSegsOut(rest);
      OutCons(first, Segs(rest), rest);
    }
  }

  lemma OutCons(first: string, tail: seq<string>, rest: string)
    requires Out(tail) == rest + "/"
    ensures Out([first] + tail) == "/" + first + rest + "/"
  {
    assert ([first] + tail)[1..] == tail;
  }

  /** No segment of a clean path starts with '.'. */
  lemma {:induction false} CleanSegsNoDot(p: string)
    requires Clean(p)
    ensures forall k :: 0 <= k < |Segs(p)| ==> Segs(p)[k][0] != '.'
    decreases |p|
  {
    var first, rest := CleanFirst(p);
    if rest != [] {
      CleanSegsNoDot(rest);
    }
    var tail := Segs(rest);
    assert forall k :: 1 <= k < |[first] + tail| ==> ([first] + tail)[k] == tail[k - 1];
  }

  /** A clean path is '/', a first segment not starting with '.', and a clean rest or
      nothing. */
  lemma CleanFirst(p: string) returns (first: string, rest: string)
    requires Clean(p)
    ensures first != [] && first[0] != '.'
    ensures p == "/" + first + rest
    ensures Segs(p) == [first] + Segs(rest)
    ensures rest == [] ==> Segs(rest) == []
    ensures rest != [] ==> |rest| < |p| && Clean(rest)
  {
    var q := p[1..];
    assert q[0] == p[1];
    assert Segs(p) == Segs(q);
    var n := SegLen(q);
    first, rest := q[..n], q[n..];
    assert q == first + rest;
    if n < |q| {
      assert rest == p[n + 1..];
      CleanRest(p, n);
    }
  }

  lemma CleanRest(p: string, n: int)
    requires Clean(p) && 0 < n < |p| - 1 && p[n + 1] == '/'
    ensures Clean(p[n + 1..])
  {
    var rest := p[n + 1..];
    assert rest[|rest| - 1] == p[|p| - 1];
    forall i | 1 <= i < |rest| && rest[i - 1] == '/'
      ensures rest[i] != '/' && rest[i] != '.'
    {
      assert rest[i - 1] == p[n + i] && rest[i] == p[n + 1 + i];
    }
  }

  /** What needsNormalization lets through is already normalised. */
  lemma FastPathSound(p: string)
    requires !NeedsNormalization(p)
    ensures Normalized(p) == p
  {
    if p == "/" {
      SegsOfSlash();
    } else {
      assert Clean(p);
      CleanSegsOut(p);
      CleanSegsNoDot(p);
      var r := Segs(p);
      forall k | 0 <= k < |r|
        ensures Plain(r[k])
      {
        assert r[k][0] != '.';
      }
      ResolveAllOfPlain(r);
      assert Out(r)[..|Out(r)| - 1] == p;
    }
  }

  // ---------------------------------------------------------------------------
  // normalizePathBytes

  /** Go's copy of buf[src..src+len] to buf[dst..] within one slice, the destination not
      after the source, done front to back. */
  method CopyWithin(buf: array<char>, dst: int, src: int, len: int)
    requires 0 <= dst <= src && 0 <= len && src + len <= buf.Length
    modifies buf
    ensures buf[dst..dst + len] == old(buf[src..src + len])
    ensures forall q :: 0 <= q < buf.Length && !(dst <= q < dst + len) ==> buf[q] == old(buf[q])
  {
    var k := 0;
    while k < len
      invariant 0 <= k <= len
      invariant forall q :: dst <= q < dst + k ==> buf[q] == old(buf[q - dst + src])
      invariant forall q :: 0 <= q < buf.Length && !(dst <= q < dst + k) ==> buf[q] == old(buf[q])
    {
      buf[dst + k] := buf[src + k];
      k := k + 1;
    }
    assert forall q :: dst <= q < dst + len ==> buf[dst..dst + len][q - dst] == buf[q];
  }

  lemma SkipSlash(orig: string, i: int)
    requires 0 <= i < |orig| && orig[i] == '/'
    ensures Segs(orig[..i + 1]) == Segs(orig[..i])
  {
    assert orig[..i + 1] == orig[..i] + "/";
    SegsAppend(orig[..i], "/");
    SegsOfSlash();
  }

  lemma SegStep(orig: string, start: int, end: int)
    requires 1 <= start < end <= |orig| && orig[start - 1] == '/'
    requires forall q :: start <= q < end ==> orig[q] != '/'
    ensures Segs(orig[..end]) == Segs(orig[..start]) + [orig[start..end]]
  {
    assert orig[..end] == orig[..start] + orig[start..end];
    SegsAppend(orig[..start], orig[start..end]);
    SegsOfWord(orig[start..end]);
  }

  /** What the loop of normalizePathBytes keeps, for the buffer b scanned up to i of the
      original orig: the bytes from i on are untouched; the stack holds the segments of
      orig[..i] resolved, each with the write position at which it began; and the bytes before
      writePos are "/" and those segments each followed by '/' (the last '/' is not written
      when it would fall past the end). */
  ghost predicate Progress(b: string, orig: string, i: int, wp: int, stack: seq<int>, resolved: seq<string>)
  {
    && |b| == |orig| && 1 <= i <= |orig|
    && (orig[i - 1] == '/' || i == |orig| || orig[i] == '/')
    && b[i..] == orig[i..]
    && resolved == ResolveAll(Segs(orig[..i]))
    && (forall k :: 0 <= k < |resolved| ==> Plain(resolved[k]))
    && wp == |Out(resolved)|
    && (wp <= i || (wp == i + 1 && (i == |orig| || orig[i] == '/')))
    && (wp <= |b| ==> b[..wp] == Out(resolved))
    && (wp == |b| + 1 ==> b == Out(resolved)[..|b|])
    && stack == Starts(resolved)
  }

  /** Where each resolved segment begins in the buffer: the stack of normalizePathBytes. */
  function Starts(r: seq<string>): (st: seq<int>)
    ensures |st| == |r|
  {
    if r == [] then [] else Starts(r[..|r| - 1]) + [|Out(r[..|r| - 1])|]
  }

  lemma ProgressInit(orig: string)
    requires |orig| >= 1 && orig[0] == '/'
    ensures Progress(orig, orig, 1, 1, [], [])
  {
    SegsOfSlash();
    assert orig[..1] == "/";
  }

  lemma ProgressSkip(b: string, orig: string, i: int, wp: int, stack: seq<int>, resolved: seq<string>)
    requires Progress(b, orig, i, wp, stack, resolved)
    requires i < |orig| && orig[i] == '/'
    ensures Progress(b, orig, i + 1, wp, stack, resolved)
  {
    SkipSlash(orig, i);
  }

  /** The segment orig[i..end] is about to be resolved: it starts after a slash and the write
      position has not passed it. */
  lemma SegmentStart(b: string, orig: string, i: int, end: int, wp: int, stack: seq<int>, resolved: seq<string>)
    requires Progress(b, orig, i, wp, stack, resolved)
    requires i < end <= |orig| && orig[i] != '/'
    requires forall q :: i <= q < end ==> orig[q] != '/'
    ensures orig[i - 1] == '/' && wp <= i
    ensures ResolveAll(Segs(orig[..end])) == Resolve(resolved, orig[i..end])
  {
    SegStep(orig, i, end);
    ResolveAllSnoc(Segs(orig[..i]), orig[i..end]);
  }

  /** The segment the inner scan found in the buffer is the same in the original. */
  lemma SegmentInBuffer(b: string, orig: string, i: int, end: int, wp: int, stack: seq<int>, resolved: seq<string>)
    requires Progress(b, orig, i, wp, stack, resolved)
    requires i < end <= |b| && (end == |b| || b[end] == '/')
    requires forall q :: i <= q < end ==> b[q] != '/'
    ensures end == |orig| || orig[end] == '/'
    ensures forall q :: i <= q < end ==> orig[q] != '/'
    ensures b[i..end] == orig[i..end]
  {
    assert b[i..end] == b[i..][..end - i];
    assert orig[i..end] == orig[i..][..end - i];
    assert forall q :: i <= q < |b| ==> b[q] == b[i..][q - i];
  }

  lemma ProgressDot(b: string, orig: string, i: int, end: int, wp: int, stack: seq<int>, resolved: seq<string>)
    requires Progress(b, orig, i, wp, stack, resolved)
    requires i < end <= |b| && (end == |b| || b[end] == '/')
    requires forall q :: i <= q < end ==> b[q] != '/'
    requires b[i..end] == "."
    ensures Progress(b, orig, end, wp, stack, resolved)
  {
    SegmentInBuffer(b, orig, i, end, wp, stack, resolved);
    SegmentStart(b, orig, i, end, wp, stack, resolved);
  }

  lemma ProgressDotDot(b: string, orig: string, i: int, end: int, wp: int, stack: seq<int>, resolved: seq<string>)
    requires Progress(b, orig, i, wp, stack, resolved)
    requires i < end <= |b| && (end == |b| || b[end] == '/')
    requires forall q :: i <= q < end ==> b[q] != '/'
    requires b[i..end] == ".."
    ensures stack == [] ==> Progress(b, orig, end, wp, stack, resolved)
    ensures stack != [] ==> Progress(b, orig, end, stack[|stack| - 1], stack[..|stack| - 1], resolved[..|resolved| - 1])
  {
    SegmentInBuffer(b, orig, i, end, wp, stack, resolved);
    SegmentStart(b, orig, i, end, wp, stack, resolved);
    assert b[end..] == orig[end..] by {
      assert b[end..] == b[i..][end - i..];
      assert orig[end..] == orig[i..][end - i..];
    }
    if stack != [] {
      ProgressPop(b, orig, end, wp, stack, resolved);
    }
  }

  lemma ProgressPop(b: string, orig: string, end: int, wp: int, stack: seq<int>, resolved: seq<string>)
    requires |b| == |orig| && 1 <= end <= |orig|
    requires end == |orig| || orig[end] == '/'
    requires b[end..] == orig[end..]
    requires stack != [] && stack == Starts(resolved)
    requires resolved[..|resolved| - 1] == ResolveAll(Segs(orig[..end]))
    requires forall k :: 0 <= k < |resolved| ==> Plain(resolved[k])
    requires wp == |Out(resolved)| && wp <= end && b[..wp] == Out(resolved)
    ensures Progress(b, orig, end, stack[|stack| - 1], stack[..|stack| - 1], resolved[..|resolved| - 1])
  {
    var r := resolved[..|resolved| - 1];
    assert Starts(resolved) == Starts(r) + [|Out(r)|];
    var wp' := stack[|stack| - 1];
    assert wp' == |Out(r)| && stack[..|stack| - 1] == Starts(r);
    OutPrefix(resolved, |resolved| - 1);
    assert wp' <= wp <= end;
    assert b[..wp'] == Out(r) by {
      assert b[..wp'] == b[..wp][..wp'];
    }
    assert forall k :: 0 <= k < |r| ==> Plain(r[k]);
  }

  /** The bytes written for the first j segments are a prefix of those for all of them. */
  lemma {:induction false} OutPrefix(r: seq<string>, j: int)
    requires 0 <= j <= |r|
    ensures |Out(r[..j])| <= |Out(r)| && Out(r)[..|Out(r[..j])|] == Out(r[..j])
  {
    if j > 0 {
      assert r[..j][1..] == r[1..][..j - 1];
      OutPrefix(r[1..], j - 1);
      var a := "/" + r[0];
      assert Out(r) == a + Out(r[1..]);
      assert Out(r[..j]) == a + Out(r[1..][..j - 1]);
    } else {
      assert r[..j] == [];
    }
  }

  /** The buffer after a segment src[i..end] has been copied down to wp and a '/' written
      after it when there is room. */
  function Written(b: string, wp: int, i: int, end: int): string
    requires 0 <= wp <= i <= end <= |b|
  {
    var len := end - i;
    if wp + len < |b| then b[..wp] + b[i..end] + "/" + b[wp + len + 1..]
    else b[..wp] + b[i..end]
  }

  lemma ProgressPush(b: string, orig: string, i: int, end: int, wp: int, stack: seq<int>, resolved: seq<string>)
    requires Progress(b, orig, i, wp, stack, resolved)
    requires i < end <= |b| && (end == |b| || b[end] == '/')
    requires forall q :: i <= q < end ==> b[q] != '/'
    requires b[i..end] != "." && b[i..end] != ".."
    ensures wp <= i
    ensures Progress(Written(b, wp, i, end), orig, end, wp + (end - i) + 1, stack + [wp], resolved + [orig[i..end]])
  {
    SegmentInBuffer(b, orig, i, end, wp, stack, resolved);
    SegmentStart(b, orig, i, end, wp, stack, resolved);
    var seg := orig[i..end];
    assert b[i..end] == seg by {
      assert b[i..end] == b[i..][..end - i];
      assert orig[i..end] == orig[i..][..end - i];
    }
    assert Plain(seg);
    OutSnoc(resolved, seg);
    var resolved' := resolved + [seg];
    assert resolved'[..|resolved|] == resolved;
    WrittenBytes(b, orig, i, end, wp, Out(resolved));
  }

  /** The bytes of a push: what was before wp, the segment and its '/' (or the segment
      alone when it reaches the end), and past the segment the original bytes. */
  lemma WrittenBytes(b: string, orig: string, i: int, end: int, wp: int, prefix: string)
    requires |b| == |orig| && 0 <= wp <= i < end <= |b|
    requires end == |orig| || orig[end] == '/'
    requires b[i..] == orig[i..]
    requires b[..wp] == prefix
    ensures var b' := Written(b, wp, i, end);
            var len := end - i;
            && |b'| == |b|
            && b'[end..] == orig[end..]
            && (wp + len < |b| ==> b'[..wp + len + 1] == prefix + orig[i..end] + "/")
            && (wp + len == |b| ==> b' == prefix + orig[i..end])
  {
    var len := end - i;
    var b' := Written(b, wp, i, end);
    assert b[i..end] == orig[i..end] by {
      assert b[i..end] == b[i..][..end - i];
      assert orig[i..end] == orig[i..][..end - i];
    }
    if wp + len < |b| {
      assert b'[..wp + len + 1] == prefix + orig[i..end] + "/";
      if wp + len + 1 <= end {
        assert b'[end..] == b[end..];
      } else {
        assert b'[end..] == "/" + b[end + 1..];
      }
      assert b[end..] == orig[end..] by {
        assert b[end..] == b[i..][end - i..];
        assert orig[end..] == orig[i..][end - i..];
      }
    }
  }

  lemma ProgressDone(b: string, orig: string, wp: int, stack: seq<int>, resolved: seq<string>)
    requires |orig| >= 1 && Progress(b, orig, |orig|, wp, stack, resolved)
    ensures var n := if wp > 1 then wp - 1 else wp;
            1 <= n <= |b| && b[..n] == Normalized(orig)
  {
    assert orig[..|orig|] == orig;
    OutLength(resolved);
  }

  /** The inner scan: the end of the segment that starts at start. */
  method SegmentEnd(buf: array<char>, start: int) returns (end: int)
    requires 0 <= start <= buf.Length
    ensures start <= end <= buf.Length
    ensures forall q :: start <= q < end ==> buf[q] != '/'
    ensures end == buf.Length || buf[end] == '/'
  {
    end := start;
    while end < buf.Length && buf[end] != '/'
      invariant start <= end <= buf.Length
      invariant forall q :: start <= q < end ==> buf[q] != '/'
    {
      end := end + 1;
    }
  }

  /** The push branch: copy(path[writePos:], path[start:i]), then a '/' when within the
      slice. */
  method WriteSegment(buf: array<char>, wp: int, start: int, end: int)
    requires 0 <= wp <= start <= end <= buf.Length
    modifies buf
    ensures buf[..] == Written(old(buf[..]), wp, start, end)
  {
    CopyWithin(buf, wp, start, end - start);
    if wp + (end - start) < buf.Length {
      buf[wp + (end - start)] := '/';
    }
    ghost var b := old(buf[..]);
    assert forall q :: 0 <= q < buf.Length ==> buf[..][q] == Written(b, wp, start, end)[q];
  }

  /** One segment of the in-place loop, the one starting at i: "." is skipped, ".." moves
      writePos back to where the last segment began, any other segment is copied down to
      writePos and followed by '/'. */
  method CompactSegment(buf: array<char>, i: int, writePos: int, stack: seq<int>,
                        ghost orig: string, ghost resolved: seq<string>)
    returns (i': int, writePos': int, stack': seq<int>, ghost resolved': seq<string>)
    requires Progress(buf[..], orig, i, writePos, stack, resolved)
    requires i < buf.Length && buf[i] != '/'
    modifies buf
    ensures i < i' <= buf.Length
    ensures Progress(buf[..], orig, i', writePos', stack', resolved')
  {
    var start := i;
    i' := SegmentEnd(buf, start);
    ghost var b := buf[..];
    var segLen := i' - start;
    DotWords(b, start, i');
    if segLen == 1 && buf[start] == '.' {
      ProgressDot(b, orig, start, i', writePos, stack, resolved);
      writePos', stack', resolved' := writePos, stack, resolved;
    } else if segLen == 2 && buf[start] == '.' && buf[start + 1] == '.' {
      ProgressDotDot(b, orig, start, i', writePos, stack, resolved);
      if |stack| > 0 {
        writePos' := stack[|stack| - 1];
        stack' := stack[..|stack| - 1];
        resolved' := resolved[..|resolved| - 1];
      } else {
        writePos', stack', resolved' := writePos, stack, resolved;
      }
    } else {
      ProgressPush(b, orig, start, i', writePos, stack, resolved);
      stack' := stack + [writePos];
      resolved' := resolved + [orig[start..i']];
      WriteSegment(buf, writePos, start, i');
      writePos' := writePos + segLen + 1;
    }
  }

  /** The byte tests of the loop decide whether the segment is "." or "..". */
  lemma DotWords(b: string, start: int, end: int)
    requires 0 <= start < end <= |b|
    ensures b[start..end] == "." <==> end - start == 1 && b[start] == '.'
    ensures b[start..end] == ".." <==> end - start == 2 && b[start] == '.' && b[start + 1] == '.'
  {
    if end - start == 1 && b[start] == '.' {
      assert b[start..end] == ".";
    }
    if end - start == 2 && b[start] == '.' && b[start + 1] == '.' {
      assert b[start..end] == "..";
    }
    if b[start..end] == "." || b[start..end] == ".." {
      assert b[start] == b[start..end][0];
    }
    if b[start..end] == ".." {
      assert b[start + 1] == b[start..end][1];
    }
  }

  /** The in-place loop of normalizePathBytes on a path that starts with '/', and the
      trailing slash dropped unless the result is "/". */
  method Compact(buf: array<char>) returns (n: int)
    requires buf.Length >= 1 && buf[0] == '/'
    modifies buf
    ensures 1 <= n <= buf.Length
    ensures buf[..n] == Normalized(old(buf[..]))
  {
    ghost var orig := buf[..];
    var stack: seq<int> := [];
    ghost var resolved: seq<string> := [];
    var writePos := 1;
    var i := 1;
    ProgressInit(orig);
    while i < buf.Length
      invariant Progress(buf[..], orig, i, writePos, stack, resolved)
      decreases buf.Length - i
    {
      if buf[i] == '/' {
        ProgressSkip(buf[..], orig, i, writePos, stack, resolved);
        i := i + 1;
      } else {
        i, writePos, stack, resolved := CompactSegment(buf, i, writePos, stack, orig, resolved);
      }
    }
    ProgressDone(buf[..], orig, writePos, stack, resolved);
    if writePos > 1 {
      writePos := writePos - 1;
    }
    n := writePos;
  }

  /** normalizePathBytes: empty stays empty; a path without a leading '/' gets one in a new
      buffer and is itself left as it was; otherwise the path is compacted in place. The
      result is the first n bytes of the returned buffer. */
  method NormalizePathBytes(path: array<char>) returns (buf: array<char>, n: int)
    modifies path
    ensures buf == path || fresh(buf)
    ensures (path.Length > 0 && old(path[0]) != '/') <==> fresh(buf)
    ensures fresh(buf) ==> path[..] == old(path[..])
    ensures 0 <= n <= buf.Length
    ensures buf[..n] == Normalized(old(path[..]))
  {
    ghost var p := path[..];
    if path.Length == 0 {
      return path, 0;
    }
    buf := path;
    if path[0] != '/' {
      buf := new char[path.Length + 1];
      buf[0] := '/';
      var k := 0;
      while k < path.Length
        invariant 0 <= k <= path.Length
        invariant path[..] == p
        invariant buf[0] == '/' && forall q :: 1 <= q <= k ==> buf[q] == p[q - 1]
      {
        buf[k + 1] := path[k];
        k := k + 1;
      }
      assert forall q :: 0 <= q < buf.Length ==> buf[..][q] == ("/" + p)[q];
      assert buf[..] == "/" + p;
      NormalizedSlashPrefix(p);
      n := Compact(buf);
    } else {
      n := Compact(buf);
    }
    assert buf[..n] == Normalized(p);
  }

  // ---------------------------------------------------------------------------
  // splitPathToCompressedSegs

  /** The pieces of path between slashes, empty pieces dropped; "" and "/" give none. */
  method SplitPath(path: string) returns (segs: seq<string>)
    ensures segs == Segs(path)
  {
    if |path| == 0 || path == "/" {
      SegsOfSlash();
      return [];
    }
    var start := if path[0] == '/' then 1 else 0;
    assert Segs(path[..start]) == [] by {
      if start == 1 {
        assert path[..1] == "/";
        SegsOfSlash();
      }
    }
    segs := [];
    var i := start;
    while i < |path|
      invariant 0 <= start <= i <= |path|
      invariant start == 0 || path[start - 1] == '/'
      invariant forall q :: start <= q < i ==> path[q] != '/'
      invariant segs == Segs(path[..start])
    {
      if path[i] == '/' {
        SplitStep(path, start, i);
        if i > start {
          segs := segs + [path[start..i]];
        }
        start := i + 1;
      }
      i := i + 1;
    }
    SplitEnd(path, start);
    if start < |path| {
      segs := segs + [path[start..]];
    }
  }

  /** A slash at i closes the piece path[start..i], which counts when it is not empty. */
  lemma SplitStep(path: string, start: int, i: int)
    requires 0 <= start <= i < |path| && path[i] == '/'
    requires start == 0 || path[start - 1] == '/'
    requires forall q :: start <= q < i ==> path[q] != '/'
    ensures Segs(path[..i + 1]) == Segs(path[..start]) + (if i > start then [path[start..i]] else [])
  {
    var piece := path[start..i];
    assert path[..i + 1] == path[..start] + (piece + "/");
    SegsAppend(path[..start], piece + "/");
    SegsAppend(piece, "/");
    SegsOfSlash();
    if i > start {
      SegsOfWord(piece);
    }
  }

  lemma SplitEnd(path: string, start: int)
    requires 0 <= start <= |path|
    requires start == 0 || path[start - 1] == '/'
    requires forall q :: start <= q < |path| ==> path[q] != '/'
    ensures Segs(path) == Segs(path[..start]) + (if start < |path| then [path[start..]] else [])
  {
    assert path == path[..start] + path[start..];
    SegsAppend(path[..start], path[start..]);
    if start < |path| {
      SegsOfWord(path[start..]);
    }
  }

  // ---------------------------------------------------------------------------
  // Segment kinds

  /** ":name" */
  predicate IsParamSeg(seg: string)
  {
    |seg| > 1 && seg[0] == ':'
  }

  /** "*name" */
  predicate IsWildcardSeg(seg: string)
  {
    |seg| > 1 && seg[0] == '*'
  }

  predicate IsStaticSeg(seg: string)
  {
    |seg| > 0 && seg[0] != ':' && seg[0] != '*'
  }

  /** The kinds exclude each other; a non-empty segment other than ":" and "*" has one. */
  lemma SegKinds(seg: string)
    ensures !(IsParamSeg(seg) && IsWildcardSeg(seg))
    ensures !(IsParamSeg(seg) && IsStaticSeg(seg))
    ensures !(IsWildcardSeg(seg) && IsStaticSeg(seg))
    ensures seg != [] && seg != ":" && seg != "*" ==> IsParamSeg(seg) || IsWildcardSeg(seg) || IsStaticSeg(seg)
    ensures seg == ":" || seg == "*" ==> !IsParamSeg(seg) && !IsWildcardSeg(seg) && !IsStaticSeg(seg)
  {
  }

  // ---------------------------------------------------------------------------
  // validateRoute

  datatype RouteError =
    | EmptyPath | NoLeadingSlash | DoubleSlash | DotSegment | DotDotSegment
    | EmptyParam | BadParamName | EmptyWildcard | WildcardNotLast

  /** Go's strings.Contains. */
  predicate Contains(s: string, pat: string)
    decreases |s|
  {
    |pat| <= |s| && (s[..|pat|] == pat || (s != [] && Contains(s[1..], pat)))
  }

  /** Go's strings.Split(s, "/"): the pieces between slashes, empty ones included. */
  function SplitOn(s: string): (pieces: seq<string>)
    ensures |pieces| >= 1
    ensures forall k :: 0 <= k < |pieces| ==> NoSlash(pieces[k])
    decreases |s|
  {
    var n := SegLen(s);
    if n == |s| then [s] else [s[..n]] + SplitOn(s[n + 1..])
  }

  /** Join with "/", the inverse of SplitOn. */
  function JoinSlash(pieces: seq<string>): string
    requires |pieces| >= 1
  {
    if |pieces| == 1 then pieces[0] else pieces[0] + "/" + JoinSlash(pieces[1..])
  }

  lemma {:induction false} JoinSplit(s: string)
    ensures JoinSlash(SplitOn(s)) == s
    decreases |s|
  {
    var n := SegLen(s);
    if n < |s| {
      JoinSplit(s[n + 1..]);
      assert ([s[..n]] + SplitOn(s[n + 1..]))[1..] == SplitOn(s[n + 1..]);
      assert s == s[..n] + "/" + s[n + 1..];
    } else {
      assert s[..n] == s;
    }
  }

  /** The pieces that are not empty. */
  function NonEmpty(pieces: seq<string>): seq<string>
  {
    if pieces == [] then []
    else (if pieces[0] == [] then [] else [pieces[0]]) + NonEmpty(pieces[1..])
  }

  /** The segments are the non-empty pieces of strings.Split. */
  lemma {:induction false} SegsOfSplit(s: string)
    ensures Segs(s) == NonEmpty(SplitOn(s))
    decreases |s|
  {
    var n := SegLen(s);
    if n == |s| {
      if s != [] {
        assert s[..n] == s && s[n..] == [];
      }
      assert NonEmpty([s]) == (if s == [] then [] else [s]) + NonEmpty([]);
    } else {
      var rest := s[n + 1..];
      SegsOfSplit(rest);
      var ps := [s[..n]] + SplitOn(rest);
      assert ps[1..] == SplitOn(rest);
      assert s[n..][1..] == rest;
      if n == 0 {
        assert s[1..] == rest;
      }
    }
  }

  /** Where the k-th non-empty piece comes from; only the last can come from the last piece. */
  function NonEmptySource(pieces: seq<string>, k: int): (j: int)
    requires 0 <= k < |NonEmpty(pieces)|
    ensures 0 <= j < |pieces| && pieces[j] == NonEmpty(pieces)[k]
    ensures k < |NonEmpty(pieces)| - 1 ==> j < |pieces| - 1
    decreases |pieces|
  {
    var head := if pieces[0] == [] then [] else [pieces[0]];
    assert NonEmpty(pieces) == head + NonEmpty(pieces[1..]);
    if head != [] && k == 0 then
      assert |NonEmpty(pieces)| >= 1;
      0
    else
      var k' := k - |head|;
      assert NonEmpty(pieces)[k] == NonEmpty(pieces[1..])[k'];
      1 + NonEmptySource(pieces[1..], k')
  }

  /** A parameter name: letters, digits and '_' after the ':'. */
  predicate ParamName(seg: string)
  {
    forall q :: 1 <= q < |seg| ==> NameChar(seg[q])
  }

  predicate NameChar(c: char)
  {
    ('a' <= c <= 'z') || ('A' <= c <= 'Z') || ('0' <= c <= '9') || c == '_'
  }

  /** The errors found in a single segment rather than in the whole path. */
  predicate SegmentError(e: RouteError)
  {
    e.EmptyParam? || e.BadParamName? || e.EmptyWildcard? || e.WildcardNotLast?
  }

  /** The check of one piece of strings.Split, last telling whether it is the final one. */
  function PieceError(seg: string, last: bool): (e: Option<RouteError>)
    ensures e.Some? ==> SegmentError(e.value)
    ensures e == None <==> PieceOk(seg, last)
  {
    if seg == [] then None
    else if seg[0] == ':' then
      if |seg| == 1 then Some(EmptyParam)
      else if !ParamName(seg) then Some(BadParamName)
      else None
    else if seg[0] == '*' then
      if |seg| == 1 then Some(EmptyWildcard)
      else if !last then Some(WildcardNotLast)
      else None
    else None
  }

  /** The first error among pieces[k..]. */
  function PiecesError(pieces: seq<string>, k: int): (e: Option<RouteError>)
    requires 0 <= k <= |pieces|
    ensures e.Some? ==> SegmentError(e.value)
    decreases |pieces| - k
  {
    if k == |pieces| then None
    else
      var e := PieceError(pieces[k], k == |pieces| - 1);
      if e.Some? then e else PiecesError(pieces, k + 1)
  }

  /** validateRoute: the first error in the order the checks are made, None for a valid
      route. */
  function RouteCheck(path: string): (e: Option<RouteError>)
    ensures e == Some(EmptyPath) <==> path == []
    ensures e == Some(NoLeadingSlash) <==> path != [] && path[0] != '/'
    ensures e.Some? && SegmentError(e.value) ==>
              && path != [] && path[0] == '/'
              && !Contains(path, "//") && !Contains(path, "/./") && !Contains(path, "/../")
  {
    if path == [] then Some(EmptyPath)
    else if path[0] != '/' then Some(NoLeadingSlash)
    else if Contains(path, "//") then Some(DoubleSlash)
    else if Contains(path, "/./") then Some(DotSegment)
    else if Contains(path, "/../") then Some(DotDotSegment)
    else PiecesError(SplitOn(path), 0)
  }

  method ValidateRoute(path: string) returns (e: Option<RouteError>)
    ensures e == RouteCheck(path)
  {
    if |path| == 0 {
      return Some(EmptyPath);
    }
    if path[0] != '/' {
      return Some(NoLeadingSlash);
    }
    if Contains(path, "//") {
      return Some(DoubleSlash);
    }
    if Contains(path, "/./") {
      return Some(DotSegment);
    }
    if Contains(path, "/../") {
      return Some(DotDotSegment);
    }
    var segs := SplitOn(path);
    var i := 0;
    while i < |segs|
      invariant 0 <= i <= |segs|
      invariant PiecesError(segs, 0) == PiecesError(segs, i)
    {
      var seg := segs[i];
      if |seg| == 0 {
        i := i + 1;
        continue;
      }
      if seg[0] == ':' {
        if |seg| == 1 {
          return Some(EmptyParam);
        }
        var j := 1;
        while j < |seg|
          invariant 1 <= j <= |seg|
          invariant forall q :: 1 <= q < j ==> NameChar(seg[q])
        {
          if !NameChar(seg[j]) {
            return Some(BadParamName);
          }
          j := j + 1;
        }
      }
      if seg[0] == '*' {
        if |seg| == 1 {
          return Some(EmptyWildcard);
        }
        if i != |segs| - 1 {
          return Some(WildcardNotLast);
        }
      }
      i := i + 1;
    }
    return None;
  }

  /** A piece that passes: empty, static, a parameter with a proper name, or a wildcard that
      is the final piece. */
  predicate PieceOk(seg: string, last: bool)
  {
    seg == [] || IsStaticSeg(seg) || (IsParamSeg(seg) && ParamName(seg)) || (IsWildcardSeg(seg) && last)
  }

  lemma {:induction false} PiecesErrorNone(pieces: seq<string>, k: int)
    requires 0 <= k <= |pieces|
    ensures PiecesError(pieces, k) == None <==>
            forall j :: k <= j < |pieces| ==> PieceOk(pieces[j], j == |pieces| - 1)
    decreases |pieces| - k
  {
    if k < |pieces| {
      PiecesErrorNone(pieces, k + 1);
    }
  }

  /** Every segment of a valid route is exactly one of static, parameter or wildcard; a
      parameter has a proper name, and a wildcard is the last segment. */
  lemma ValidRouteSegments(path: string)
    requires RouteCheck(path) == None
    ensures var ss := Segs(path);
            forall k :: 0 <= k < |ss| ==>
              && (IsStaticSeg(ss[k]) || IsParamSeg(ss[k]) || IsWildcardSeg(ss[k]))
              && (IsParamSeg(ss[k]) ==> ParamName(ss[k]))
              && (IsWildcardSeg(ss[k]) ==> k == |ss| - 1)
  {
    var ps := SplitOn(path);
    PiecesErrorNone(ps, 0);
    SegsOfSplit(path);
    var ss := Segs(path);
    forall k | 0 <= k < |ss|
      ensures && (IsStaticSeg(ss[k]) || IsParamSeg(ss[k]) || IsWildcardSeg(ss[k]))
              && (IsParamSeg(ss[k]) ==> ParamName(ss[k]))
              && (IsWildcardSeg(ss[k]) ==> k == |ss| - 1)
    {
      var j := NonEmptySource(ps, k);
      assert PieceOk(ps[j], j == |ps| - 1);
    }
  }

  /** validateRoute accepts exactly the paths that start with '/', hold none of "//", "/./"
      and "/../", and whose pieces all pass. */
  lemma RouteCheckValid(path: string)
    ensures RouteCheck(path) == None <==>
            && path != [] && path[0] == '/'
            && !Contains(path, "//") && !Contains(path, "/./") && !Contains(path, "/../")
            && forall j :: 0 <= j < |SplitOn(path)| ==> PieceOk(SplitOn(path)[j], j == |SplitOn(path)| - 1)
  {
    var whole := path != [] && path[0] == '/'
                 && !Contains(path, "//") && !Contains(path, "/./") && !Contains(path, "/../");
    if whole {
      assert RouteCheck(path) == PiecesError(SplitOn(path), 0);
      PiecesErrorNone(SplitOn(path), 0);
    } else {
      assert RouteCheck(path) != None;
    }
  }
}
