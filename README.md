# A verified model of the sequential cores of a Go networking toolkit

This project models, in Dafny, the parts of the toolkit whose behaviour is sequential and
self-contained, together with the Python coverage reporter that ships with it. Each Dafny
module follows one component of the source:

| module | source | what it is |
|---|---|---|
| `Coverage` | scripts/analyze_coverage.py | parses `go test` coverage lines, folds them into per-package (total, covered) statement counts, classifies each package against the 75% target, sorts the report and computes the overall ratio and the deficit |
| `RoutePath` | pkg/zallocrout/preprocess.go | path normalisation (`//`, `.` and `..` resolved in place with a stack of segment starts), splitting into segments, the static/param/wildcard classifiers and route validation |
| `RouteTrie` | pkg/zallocrout/router.go, node.go | the route trie: one root per HTTP method, static children before the param child before the wildcard child, AddRoute and the non-cached Match with its fixed-capacity parameter array |
| `RouteCtx` | pkg/zallocrout/context.go | the pooled request context: parameter and value arrays with counters, Value/SetValue/GetValue/GetParam, release, and ExecuteHandler's middleware composition |
| `BinTag`, `BinCodec`, `BinBits`, `BinValidate`, `BinReflect`, `BinStruct`, `BinRoundTrip`, `BinEncoding`, `BinCli` | pkg/binpack | the binary layout engine: the `bin` struct-tag parser, integer, bit-field, string and hex field codecs, the struct-layout validator, CompileCodec, Encode/EncodeTo/Decode with their round trip, the string encodings and the CLI's tag scanner |
| `TaskQueue` | pkg/taskpool/queue.go, priority_queue.go | the ring buffer queue and the bucketed priority queue with its anti-starvation rule |
| `ScaleStrategy`, `TaskOptions` | pkg/taskpool/scale.go, options.go | the default scale-up/scale-down decisions and counts; the pool and task options with the priority clamp |
| `StateMachine`, `HierarchicalStateMachine` | pkg/statemachine/fsm.go, hsm.go | the flat FSM transition table and the hierarchical machine's ancestor lookup, exit and enter paths |
| `Congestion` | pkg/congestion/controller.go, reno.go | the congestion-window clamp, the controller factory and the Reno controller (slow start and congestion avoidance of section 3.1, fast retransmit and fast recovery of section 3.2 of RFC 5681) |
| `ConnManager` | pkg/netconn/manager.go | the connection registry: monotone descriptor allocation over a connection map and a type map |
| `Wrappers`, `GoStrings` | — | `Option`/`Result`, and the parts of Go's `strings` and `strconv` the tag parser relies on |

Conventions used throughout:

- Go's fixed-width integers are unbounded integers, except where the width matters. The
  node hit counter wraps at 2^32 and `Quo` divides truncating toward zero, as Go does.
- A Go panic is either an explicit error outcome (`Panic`, `Err`) or, where the source
  panics on an input its callers never pass, a precondition. The preconditions are listed
  below.
- Handlers, middlewares, guards and state actions are Go closures. The model knows them by an
  identity; their outcomes (an action that fails, a `Close` or `Write` that reports an
  error) are parameters of the operations that call them.
- Floating-point thresholds in the scale strategy are exact reals. IEEE division by zero is
  written out explicitly.
- Mutexes, atomics and condition variables guard every operation in the source. The model
  runs each operation alone.

## Model

| member | source | states |
|---|---|---|
| Coverage.Fields | scripts/analyze_coverage.py:13 | str.split(): the fields are non-empty and hold no whitespace |
| Coverage.FieldsOfJoin | scripts/analyze_coverage.py:13 | splitting words joined by single spaces gives back the words |
| Coverage.FieldsOfProfileLine | scripts/analyze_coverage.py:13 | a profile line "file:range statements count" splits into its three fields |
| Coverage.PyInt | scripts/analyze_coverage.py:18 | int() accepts exactly an optional sign followed by decimal digits, with single underscores allowed between two digits |
| Coverage.PyIntDecimal | scripts/analyze_coverage.py:24 | int() reads back a printed natural number, with or without a minus sign |
| Coverage.BeforeColon | scripts/analyze_coverage.py:17 | split(':')[0]: the longest colon-free prefix, cut at the first colon |
| Coverage.PackageOf | scripts/analyze_coverage.py:21-23 | the package regex matches iff the path starts with the tree prefix and a non-empty segment, and the package is that prefix plus the segment |
| Coverage.ParseLineCases | scripts/analyze_coverage.py:10-27 | "mode:" lines and lines with fewer than three fields are skipped; a counted line has the package, statement count and hit flag of its fields; int() failures are the errors, a statement count read only inside the tree |
| Coverage.ParseProfileLine | scripts/analyze_coverage.py:9-27 | a well-formed profile line of a package in the tree yields that package, its statement count, and a hit iff its count is positive |
| Coverage.PackagesMembers | scripts/analyze_coverage.py:6 | the packages collected are exactly those of some sample, each once |
| Coverage.TallyCoveredAtMostTotal | scripts/analyze_coverage.py:24-27 | per package, covered statements never exceed the total |
| Coverage.TallyAbsent | scripts/analyze_coverage.py:21-22 | a package with no sample has zero counts |
| Coverage.StatsOfFolded | scripts/analyze_coverage.py:6-27 | the dictionary built sample by sample holds, for each package seen, the sums of its samples |
| Coverage.AddSample | scripts/analyze_coverage.py:23-27 | one loop step adds the sample's statements to its package's total, and to covered when hit |
| Coverage.CollectStats | scripts/analyze_coverage.py:8-27 | the loop over the lines stops at the first int() error, else yields each package's sums |
| Coverage.ErrPersists | scripts/analyze_coverage.py:18-24 | an int() error on an earlier line is the result whatever follows |
| Coverage.GoodIffThreeQuarters | scripts/analyze_coverage.py:39 | a package is Good iff covered is at least three quarters of total |
| Coverage.RowOf | scripts/analyze_coverage.py:37-40 | a row carries the package, its counts, its percentage and status Good iff the percentage is at least 75 |
| Coverage.Rows | scripts/analyze_coverage.py:36-40 | a row for every package with statements and for no other |
| Coverage.RowsOfSamples | scripts/analyze_coverage.py:6-40 | the rows are those of the per-package sums of the samples |
| Coverage.RowsDistinct | scripts/analyze_coverage.py:36 | no package has two rows |
| Coverage.StrLessTotal | scripts/analyze_coverage.py:36 | the name order is total on distinct names |
| Coverage.InsertSorted | scripts/analyze_coverage.py:43 | inserting a row with a new name keeps the table sorted |
| Coverage.SortRows | scripts/analyze_coverage.py:36-43 | the table is a permutation of the rows, sorted by coverage and then by name |
| Coverage.SumCountsOfSamples | scripts/analyze_coverage.py:50-51 | the overall sums over all packages equal the sums over all samples of the tree |
| Coverage.Overall | scripts/analyze_coverage.py:52 | the overall percentage is 0 with no statements and lies in [0, 100] otherwise |
| Coverage.SampleSumCoveredAtMostTotal | scripts/analyze_coverage.py:50-52 | overall covered never exceeds overall total |
| Coverage.ShortNameIsLastSegment | scripts/analyze_coverage.py:46 | split('/')[-1]: the slash-free tail of the path, cut at its last slash |
| Coverage.ShortNameOfPackage | scripts/analyze_coverage.py:46 | a package of the tree is printed by its segment after "pkg/" |
| Coverage.Shortfalls | scripts/analyze_coverage.py:59-63 | exactly the rows under 75 % are listed |
| Coverage.ShortfallSource | scripts/analyze_coverage.py:59-63 | each listed shortfall comes from a row under 75 %, with that row's name, coverage and missing statements |
| Coverage.Analyze | scripts/analyze_coverage.py:8-63 | the report is an error on the first bad integer; otherwise the sorted rows of all packages, the overall percentage and the shortfalls, in table order |
| Coverage.TallyPermutation | scripts/analyze_coverage.py:24-27 | a package's sums do not depend on the order of the samples |
| Coverage.StatsOfPermutation | scripts/analyze_coverage.py:6-27 | pkg_stats is the same whatever the order of the samples |
| Coverage.SampleSumPermutation | scripts/analyze_coverage.py:50-51 | the overall sums do not depend on the order of the samples |
| Coverage.RowsPermutation | scripts/analyze_coverage.py:36-40 | reordered samples give the same rows before sorting, as a multiset |
| Coverage.SortedUnique | scripts/analyze_coverage.py:43 | the table order leaves no choice: two sorted tables of the same rows are equal |
| Coverage.ParseAllOk | scripts/analyze_coverage.py:8-27 | the profile parses exactly when every line does |
| Coverage.ParseAllPermutation | scripts/analyze_coverage.py:8-27 | reordered lines that parse give the same samples, reordered |
| Coverage.ReportOrderIndependent | scripts/analyze_coverage.py:8-63 | reordering the profile's lines changes neither whether it fails nor, when it does not, the rows, overall percentage and shortfalls printed |
| RoutePath.Segs | pkg/zallocrout/preprocess.go:102-129 | the non-empty pieces between slashes, each free of '/' |
| RoutePath.SegsAppend | pkg/zallocrout/preprocess.go:114-126 | splitting at a slash boundary splits the pieces |
| RoutePath.ResolveAllPlain | pkg/zallocrout/preprocess.go:70-88 | resolving "." and ".." leaves only ordinary segments |
| RoutePath.ResolveAllOfPlain | pkg/zallocrout/preprocess.go:79-88 | a path of ordinary segments resolves to itself |
| RoutePath.SegsOfOut | pkg/zallocrout/preprocess.go:80-88 | the segments written back, each followed by '/', split into the same segments |
| RoutePath.NormalizedShape | pkg/zallocrout/preprocess.go:41-96 | the result is empty iff the input is, starts with '/', holds no "//" and ends without '/' unless it is the root |
| RoutePath.NormalizedSegs | pkg/zallocrout/preprocess.go:55-96 | the segments of the result are the input's segments with "." dropped and ".." removing the segment before it (nothing at the root) |
| RoutePath.NormalizedIdempotent | pkg/zallocrout/preprocess.go:40-97 | normalizing a normalized path changes nothing |
| RoutePath.NormalizedSlashPrefix | pkg/zallocrout/preprocess.go:45-48 | a path without the leading slash normalizes as if it had one |
| RoutePath.NormalizedRootDotDot | pkg/zallocrout/preprocess.go:73-78 | ".." at the root is dropped |
| RoutePath.NormalizedRootDotDotExample | pkg/zallocrout/preprocess.go:73-78 | "/../api" normalizes to "/api" |
| RoutePath.NormalizedOneSegment | pkg/zallocrout/preprocess.go:79-96 | "/w" for an ordinary segment w is already normal |
| RoutePath.ScanNeedsNormalization | pkg/zallocrout/preprocess.go:12-32 | the scan answers true for an empty path, a missing leading slash, a trailing slash, "//" or "/." anywhere, and false otherwise |
| RoutePath.FastPathSound | pkg/zallocrout/preprocess.go:12-32 | when the scan says no normalization is needed, normalization would indeed return the path unchanged |
| RoutePath.CopyWithin | pkg/zallocrout/preprocess.go:82 | copy moves a run of bytes leftward within the buffer and touches nothing else |
| RoutePath.SegmentEnd | pkg/zallocrout/preprocess.go:62-65 | the inner loop stops at the next '/' or the end |
| RoutePath.WriteSegment | pkg/zallocrout/preprocess.go:80-88 | the segment is copied to the write position and followed by '/' when room remains |
| RoutePath.CompactSegment | pkg/zallocrout/preprocess.go:61-88 | one segment is consumed and the written prefix stays the normal form of the input read so far |
| RoutePath.ProgressDotDot | pkg/zallocrout/preprocess.go:73-78 | ".." rewinds the write position to where the last kept segment started, or does nothing at the root |
| RoutePath.Compact | pkg/zallocrout/preprocess.go:50-96 | in place, the buffer's prefix of the returned length is the normal form of the original path |
| RoutePath.NormalizePathBytes | pkg/zallocrout/preprocess.go:40-97 | the returned slice is the normal form of the input; a new buffer is made exactly when a slash had to be prepended, and then the input is left as it was |
| RoutePath.SplitPath | pkg/zallocrout/preprocess.go:102-129 | the segments returned are the path's non-empty pieces between slashes |
| RoutePath.SegKinds | pkg/zallocrout/preprocess.go:134-150 | parameter, wildcard and static segments are mutually exclusive, and every segment other than "", ":" and "*" is one of them |
| RoutePath.JoinSplit | pkg/zallocrout/preprocess.go:176 | strings.Split on '/' loses nothing: joining its pieces with '/' gives the path back |
| RoutePath.SegsOfSplit | pkg/zallocrout/preprocess.go:176-180 | the non-empty pieces of strings.Split are the path's segments |
| RoutePath.PieceError | pkg/zallocrout/preprocess.go:183-205 | a piece is refused exactly when it is ":" , "*", a parameter with a character outside letters, digits and '_', or a wildcard that is not the last piece |
| RoutePath.PiecesErrorNone | pkg/zallocrout/preprocess.go:177-206 | no piece error iff every piece passes |
| RoutePath.RouteCheck | pkg/zallocrout/preprocess.go:154-209 | the empty path and a missing leading slash are reported as such; a segment error is reported only after "//", "/./" and "/../" were ruled out |
| RoutePath.ValidateRoute | pkg/zallocrout/preprocess.go:154-209 | the checks run in the source's order and give RouteCheck's answer |
| RoutePath.RouteCheckValid | pkg/zallocrout/preprocess.go:154-209 | a route is accepted iff it starts with '/', holds none of "//", "/./", "/../", and every piece passes |
| RoutePath.ValidRouteSegments | pkg/zallocrout/preprocess.go:154-209 | in an accepted route every segment is static, a parameter with a valid name, or a wildcard in last place |
| RouteTrie.FindStaticChild | pkg/zallocrout/node.go:71-75 | found exactly when a static child has the segment, and it is that child |
| RouteTrie.FindAfterInsert | pkg/zallocrout/node.go:56-68 | after insertChild the child is found under its own type and the other children and fields are unchanged |
| RouteTrie.SetHandler | pkg/zallocrout/node.go:92-100 | the handler is replaced; the middlewares only by a non-empty list; nothing else changes |
| RouteTrie.SetHandlerWithParams | pkg/zallocrout/node.go:103-119 | as setHandler, and the parameter names are replaced only by a non-empty list |
| RouteTrie.SetHandlerWithoutParams | pkg/zallocrout/node.go:92-119 | with no parameter names the two setters agree |
| RouteTrie.Bind | pkg/zallocrout/router.go:227-233 | a parameter is recorded only while fewer than MaxParams (32) are |
| RouteTrie.Walk | pkg/zallocrout/router.go:217-253 | the walk ends at a node of the trie and only appends to the parameters, never past MaxParams |
| RouteTrie.Remap | pkg/zallocrout/router.go:263-268 | the values are kept, and the keys become the route's names exactly when the name count is non-zero and equals the pair count |
| RouteTrie.MatchPathNormalized | pkg/zallocrout/router.go:187-196 | the path walked is the normal form of the request path, whether or not the fast check skipped normalization, and empty only for an empty request |
| RouteTrie.MatchSpecFound | pkg/zallocrout/router.go:255-268 | once the walk ends at a node, the match is that node's handler, middlewares and remapped parameters, or none without a handler |
| RouteTrie.MatchPathSpells | pkg/zallocrout/router.go:198-200 | the walked path is '/' followed by its segments joined with '/' |
| RouteTrie.WildcardBindsRest | pkg/zallocrout/router.go:240-249 | at the k-th segment, pathPos points at it in the walked path and normalizedPath[pathPos:] is the remaining segments joined by '/' |
| RouteTrie.OtherMethodsKept | pkg/zallocrout/router.go:47-53 | adding a route to one method's tree changes no match of any other method |
| RouteTrie.AddRouteEffect | pkg/zallocrout/router.go:40-150 | the segments lead to the node bound, the handler is bound there, the trie only grew, and other methods match as before |
| RouteTrie.StaticRouteMatches | pkg/zallocrout/router.go:217-223 | a route of static segments bound with a handler is what Match answers for its own path, with no parameters |
| RouteTrie.ParamRouteMatches | pkg/zallocrout/router.go:226-237 | for a request fitting a parameter route, Match answers that route's handler, each parameter name paired with the request segment in its place |
| RouteTrie.NoBacktrack | pkg/zallocrout/router.go:217-253 | with routes /a/b and /:x/c, the request /a/c fails, since the static child a is taken without backtracking, while /z/c binds x to z |
| RouteTrie.Router.constructor | pkg/zallocrout/router.go:23-31 | a new router has no method trees |
| RouteTrie.Router.AcquireNode | pkg/zallocrout/router.go:50 | a node without children is appended to the method's tree |
| RouteTrie.Router.InsertChildAt | pkg/zallocrout/node.go:56-68 | the child is stored under the slot its type selects |
| RouteTrie.Router.SetHandlerAt | pkg/zallocrout/router.go:137 | the node is updated by setHandlerWithParams and nothing else changes |
| RouteTrie.Router.IncrementHitCount | pkg/zallocrout/node.go:129-131 | the node's 32-bit hit counter grows by one, wrapping at 2^32, and the new count is answered |
| RouteTrie.Router.Descend | pkg/zallocrout/router.go:70-133 | one segment's step: the existing child of the segment's kind, or a new one inserted there; only that method's tree grows |
| RouteTrie.Router.AddChild | pkg/zallocrout/router.go:81-88 | a new node of the segment's kind becomes the current node's child for the segment |
| RouteTrie.Router.CollectParamNames | pkg/zallocrout/router.go:60-66 | the parameter names of the route in order, without their ':' |
| RouteTrie.Router.RootFor | pkg/zallocrout/router.go:46-53 | the method's existing root, or a new root recorded for the method |
| RouteTrie.Router.DescendAll | pkg/zallocrout/router.go:68-134 | the descent ends at the node the route's segments lead to, stopping after a wildcard |
| RouteTrie.Router.AddRoute | pkg/zallocrout/router.go:40-150 | an invalid route is refused by validateRoute's answer and changes nothing; otherwise the handler is bound at the route's node, other methods match as before, and a static route then matches its own path |
| RouteTrie.Router.Match | pkg/zallocrout/router.go:158-293 | found exactly when MatchSpec finds a route; then the handler, middlewares and a fresh context holding the parent and the remapped parameters |
| RouteTrie.Router.NormalizedForMatch | pkg/zallocrout/router.go:187-196 | the request path itself when the fast check passes it, else its normalized bytes; empty ends the match |
| RouteTrie.Router.WalkSegments | pkg/zallocrout/router.go:211-253 | the loop ends where Walk ends with the parameters Walk records, and fails where Walk fails |
| RouteTrie.Router.Record | pkg/zallocrout/router.go:227-233 | the pair is stored in the next free slot when one is free |
| RouteTrie.Router.RemapKeys | pkg/zallocrout/router.go:263-268 | the first count keys become the route's names, the values and the other slots unchanged |
| RouteCtx.LookupFirst | pkg/zallocrout/context.go:99-106 | the lookup answers the value of the first pair with the key |
| RouteCtx.LookupAbsent | pkg/zallocrout/context.go:99-106 | a key held by no pair is not found |
| RouteCtx.RouteContext.constructor | pkg/zallocrout/context.go:28-36 | a pooled context starts with no parent, no parameters and no values |
| RouteCtx.RouteContext.Acquire | pkg/zallocrout/context.go:39-49 | the context takes the parent and a copy of the first count parameters, and its values are cleared |
| RouteCtx.RouteContext.Release | pkg/zallocrout/context.go:52-63 | parent, parameters and values are cleared, the used value slots are zeroed and the rest left as they were |
| RouteCtx.RouteContext.SetValue | pkg/zallocrout/context.go:89-96 | a value is appended while fewer than MaxValues (6) are stored; a full context refuses and changes nothing |
| RouteCtx.RouteContext.GetValue | pkg/zallocrout/context.go:99-106 | the first stored value under the key, or not found |
| RouteCtx.RouteContext.GetParam | pkg/zallocrout/context.go:109-116 | the first route parameter with the name, or not found |
| RouteCtx.RouteContext.Value | pkg/zallocrout/context.go:77-86 | a key stored in the context answers its first value; any other key is asked of the parent |
| RouteCtx.ComposedLayers | pkg/zallocrout/context.go:147-151 | composing from the last middleware to the first wraps the handler in the middlewares in list order, outermost first |
| RouteCtx.ComposedSuffix | pkg/zallocrout/context.go:149-151 | each loop step wraps the chain built from the later middlewares |
| RouteCtx.ExecuteHandler | pkg/zallocrout/context.go:143-155 | the chain run is the handler wrapped by the middlewares in list order, and the context is released afterwards |
| BinTag.ParseTag | pkg/binpack/tag.go:39-159 | parseTag's answer for every tag is TagSpec: the empty tag and "-" first, then the base part, then the options from left to right, the first failing one giving the error |
| BinTag.ParseOption | pkg/binpack/tag.go:94-110 | one option: "repeat" alone, otherwise key:value trimmed, an option without ':' is an error |
| BinTag.ParseKeyedOption | pkg/binpack/tag.go:111-155 | the switch on the key: len, enc, size (element size and optional endian), bits (index 0..7 or range start<=end within 0..7), if, crc16/crc32/checksum, anything else unknown |
| BinTag.EmptyAndSkip | pkg/binpack/tag.go:40-46 | "" is the empty-tag error and "-" parses to a skipped field |
| BinTag.TagSound | pkg/binpack/tag.go:48-148 | every parsed tag other than "-" has byte order "be" or "le" and bits that are empty or a valid index or range |
| BinTag.OptionsSound | pkg/binpack/tag.go:94-156 | the option loop keeps the byte order and the bits valid |
| BinTag.UnknownOptionRejected | pkg/binpack/tag.go:103-154 | an option that is neither "repeat" nor a known key with a value makes the whole tag an error |
| BinTag.TagPlace | pkg/binpack/tag.go:63-83 | the offset and the size come from the base part alone ("-1" and "var" meaning -1); no option changes them |
| BinTag.BadEndianRejected | pkg/binpack/tag.go:86-89 | an endian in the base part other than be/le is an error |
| BinTag.FormatBaseRoundTrip | pkg/binpack/tag.go:58-91 | a base tag printed from non-negative offset and size and a valid endian parses back to exactly those, nothing else set |
| BinCodec.HexCharToNibble | pkg/binpack/codec.go:290-302 | a hex digit of either case gives its value, anything else 0; the result is below 16 |
| BinCodec.NibblePairsOfHex | pkg/binpack/codec.go:251-287 | decoding the lower-case hex text of any bytes gives the bytes back |
| BinCodec.EncodeHexAsWritten | pkg/binpack/codec.go:251-267 | the hex encoder as written: it panics exactly when the window is odd and the source has more than half its length in bytes; otherwise the window holds the hex of the first pairs and nothing else changes |
| BinCodec.HexOddWindowPanics | pkg/binpack/codec.go:258-260 | a five-byte string in a nine-byte window (and every odd window too small for the source) writes past the window |
| BinCodec.EncodeHex | pkg/binpack/codec.go:251-267 | the corrected encoder writes the hex of as many whole bytes as fit and leaves the rest of the buffer alone |
| BinCodec.HexEncodersAgree | pkg/binpack/codec.go:258 | where the written encoder does not panic, it writes as many pairs as the corrected one |
| BinCodec.DecodeHex | pkg/binpack/codec.go:270-287 | the decoder reads size/2 bytes from consecutive digit pairs |
| BinCodec.HexFieldRoundTrip | pkg/binpack/codec.go:251-287 | a hex string written into a zero-filled field and read back gives the bytes that fitted followed by zero bytes |
| BinCodec.GetByteOrder | pkg/binpack/codec.go:325-330 | little-endian exactly for "le", big-endian otherwise |
| BinCodec.UnsignedRoundTrip | pkg/binpack/codec.go:57-103 | an unsigned value that fits in n bytes reads back from its encoding, in either byte order |
| BinCodec.UnsignedBytesRoundTrip | pkg/binpack/codec.go:57-103 | re-encoding the value read from any n bytes gives the same bytes |
| BinCodec.SignedRoundTrip | pkg/binpack/codec.go:105-163 | a signed value in the two's-complement range of n bytes reads back from its encoding |
| BinCodec.ByteOrdersMirror | pkg/binpack/codec.go:57-103 | the big-endian bytes are the little-endian bytes reversed |
| BinCodec.WithCondition | pkg/binpack/codec.go:349-361 | a condition is accepted iff it is empty or Field==Value whose trimmed value strconv.ParseUint reads in base 0; then the field name is trimmed and the value recorded, nothing else changes |
| GoStrings.ParseUintValue | pkg/binpack/codec.go:356 | base-0 ParseUint succeeds iff the digits after the prefix, underscores dropped, are digits of the base whose value fits in uint64 and every underscore sits where underscoreOK allows; the value is then those digits' value |
| GoStrings.ScanErrorFirst | pkg/binpack/codec.go:356 | the first bad digit or overflow decides the error, whatever follows it |
| GoStrings.ParseUintUnderscores | pkg/binpack/codec.go:356 | "1_0" is 10 and "0x_f" is 15; a leading, trailing or doubled underscore is a syntax error |
| BinCodec.WithKind | pkg/binpack/codec.go:385-483 | the type switch accepts exactly the supported kinds; a variable slice or string needs a len field, a []byte must be variable, another slice needs repeat |
| BinCodec.BuildFieldCodecAccepts | pkg/binpack/codec.go:333-486 | buildFieldCodec succeeds iff the tag skips or the condition is valid and (a bit field has size 1, otherwise the kind is accepted) |
| BinCodec.WordKindsOnlyBitFields | pkg/binpack/codec.go:363-483 | a uint or uintptr field compiles iff it is skipped, or its condition is valid and it is a bit field of size 1: the kind switch has no case for them, so otherwise UnsupportedType |
| BinCodec.BuildFieldCodecRecords | pkg/binpack/codec.go:333-486 | the built codec records the name, kind, offset, size, byte order and repeat flag; it is a bit field iff bits are given; a variable field has a len field and size -1 |
| BinCodec.ConditionRecords | pkg/binpack/codec.go:336-361 | the codec after the condition step |
| BinCodec.BitsOrKindRecords | pkg/binpack/codec.go:363-483 | the bit-field step and the kind step keep what the condition step recorded |
| BinCodec.KindRecords | pkg/binpack/codec.go:385-483 | the kind step keeps everything but the variable-length part |
| BinCodec.BitFieldRange | pkg/binpack/codec.go:364-379 | a bit field built from valid bits has 0 <= start <= end <= 7 |
| BinBits.DecodeBitField | pkg/binpack/codec.go:315-322 | the value read is below 2^(end-start+1) |
| BinBits.EncodeBitFieldBits | pkg/binpack/codec.go:304-313 | writing a bit field changes exactly bits start..end, which hold the low bits of the value |
| BinBits.BitFieldRoundTrip | pkg/binpack/codec.go:304-322 | reading a bit field back gives the value masked to its width; a value that fits comes back unchanged |
| BinStruct.BitFieldWindowRoundTrip | pkg/binpack/codec.go:303-322 | the bit-field encoder and decoder succeed exactly on unsigned kinds (uint and uintptr included); the encoder changes only the window's first byte, and a value that fits its bits reads back unchanged |
| BinBits.BitFieldsDisjoint | pkg/binpack/codec.go:304-322 | writing one bit field leaves every disjoint bit field of the byte unchanged |
| BinValidate.FindString | pkg/binpack/validate.go:204-211 | the first index at which substr occurs in s, -1 when none |
| BinValidate.FindConditionField | pkg/binpack/validate.go:195-202 | the condition field name the function returns |
| BinValidate.ConditionFieldOfSpec | pkg/binpack/validate.go:195-202 | the name is the text before the first "==", else before the first "!=", else empty, and it holds no operator; the CLI's extractConditionField (utils.go:26-33 of binpack-cli) is the same search |
| BinValidate.ValidateStruct | pkg/binpack/validate.go:20-30 | a non-struct is rejected, a struct is validated field by field |
| BinValidate.RegisterField | pkg/binpack/validate.go:42-100 | one pass-one step: the conflict it reports and the layout it records |
| BinValidate.CheckDependencies | pkg/binpack/validate.go:104-165 | one pass-two step: the first missing or late len or condition field, or a variable or repeat field without len |
| BinValidate.FirstPass | pkg/binpack/validate.go:41-101 | the first field whose tag does not parse or whose offset clashes, and the layout of all fields otherwise |
| BinValidate.SecondPass | pkg/binpack/validate.go:103-165 | the first field whose dependencies fail |
| BinValidate.ThirdPass | pkg/binpack/validate.go:167-188 | the first overlap between an offset and the next one, in sorted order |
| BinValidate.FindOverlap | pkg/binpack/validate.go:175-187 | the first non-shareable field at an offset that runs past the next offset |
| BinValidate.AllShare | pkg/binpack/validate.go:69-76 | whether every field already at the offset is a bit or conditional field |
| BinValidate.ValidateStructType | pkg/binpack/validate.go:33-191 | validateStructType: the three passes in order, the first error winning |
| BinValidate.SortInts | pkg/binpack/validate.go:168 | sorted and a permutation of the offsets |
| BinValidate.FirstPassIff | pkg/binpack/validate.go:41-101 | the first pass finds nothing iff every tag parses and no two non-shareable fields share an offset |
| BinValidate.SecondPassIff | pkg/binpack/validate.go:103-165 | the second pass finds nothing iff every len and condition field exists and comes earlier and every variable or repeated field names its len |
| BinValidate.ThirdPassIff | pkg/binpack/validate.go:167-188 | comparing each offset only with the next finds nothing iff no fixed field reaches past the offset of any later field |
| BinValidate.StateDescribes | pkg/binpack/validate.go:59-89 | the first pass records at each offset exactly the fields placed there, each field's tag, and each used offset once |
| BinValidate.ValidateIff | pkg/binpack/validate.go:33-191 | for distinct field names, validation succeeds iff the tags parse, no offsets clash, the dependencies hold and no field overlaps the next |
| BinReflect.CompileCodec | pkg/binpack/reflect_codec.go:24-112 | CompileCodec's answer is Compile: reject a non-struct, gather the field codecs, then resolve the len and condition indices |
| BinReflect.GatherFields | pkg/binpack/reflect_codec.go:45-89 | the gathering loop over every field |
| BinReflect.AddField | pkg/binpack/reflect_codec.go:46-88 | one field: record its index in the field map, append its codec, widen the fixed size, note variable length |
| BinReflect.BuildField | pkg/binpack/reflect_codec.go:50-71 | an untagged field gets the default tag; a tag that does not parse or a codec that does not build is a field error |
| BinReflect.ResolveFields | pkg/binpack/reflect_codec.go:91-109 | the lookup loop: every len or cond field named must be in the field map |
| BinReflect.BuildSound | pkg/binpack/reflect_codec.go:50-71 | a built codec keeps the field's name and kind and has a valid bit range |
| BinReflect.ResolveAllSpec | pkg/binpack/reflect_codec.go:91-109 | resolution succeeds iff every codec's names are in the map, and then sets each codec's indices |
| BinReflect.CompileWellFormed | pkg/binpack/reflect_codec.go:24-112 | a compiled codec is well formed: codecs in field order with kinds matching, valid indices and bit ranges, the fixed size covering every fixed field, hasVarLen on when a field needs it |
| BinReflect.CompileFields | pkg/binpack/reflect_codec.go:45-89 | one codec per field that builds to one, in field order, each with its index filled in |
| BinReflect.CompileLookups | pkg/binpack/reflect_codec.go:44-109 | each len and cond index is the last field of that name (Go's map keeps the last write) |
| BinReflect.CompileSize | pkg/binpack/reflect_codec.go:76-87 | the fixed size is the furthest end of a placed field with positive size, or 0; hasVarLen iff some codec is variable or repeated |
| BinReflect.CompileIff | pkg/binpack/reflect_codec.go:24-112 | compilation succeeds iff the type is a struct, every field builds and every named len or cond field exists |
| BinStruct.EncodeFixedHex | pkg/binpack/reflect_codec.go:277-282 | a fixed hex string field's window is written as WriteFixed says: the hex of as many whole bytes as fit, with the corrected guard |
| BinStruct.EncodeFixed | pkg/binpack/reflect_codec.go:277-282 | a fixed field's encoder writes into its window of size bytes, or fails, leaving the buffer as WriteFixed says |
| BinStruct.EncodeVariableHex | pkg/binpack/reflect_codec.go:256-276 | a variable hex string field's window of n bytes is written as WriteVariable says: the hex of its first n/2 bytes, with the corrected guard |
| BinStruct.EncodeVariable | pkg/binpack/reflect_codec.go:256-276 | a variable field is checked against the buffer and copied (or hex-encoded) into offset..offset+len |
| BinStruct.EncodeRepeated | pkg/binpack/reflect_codec.go:217-255 | a repeated field with an element size is checked as a whole and written element by element |
| BinStruct.EncodeElementAt | pkg/binpack/reflect_codec.go:229-235 | element i is encoded into its window at offset + i*elementSize; the buffer and failure are those of the first i + 1 elements |
| BinStruct.EncodeField | pkg/binpack/reflect_codec.go:206-283 | one codec of encodeToBuffer: a condition that fails skips the field; a condition field whose kind v.Uint() does not accept (uint8 to uint64, uint, uintptr) panics |
| BinStruct.EncodeTo | pkg/binpack/reflect_codec.go:202-286 | encodeToBuffer over every codec in order, stopping at the first error, and the largest end it reached |
| BinStruct.EncodeFieldAt | pkg/binpack/reflect_codec.go:206-285 | pass i of the encode loop after i passes that succeeded: buffer, running maximum and failure as for the first i + 1 codecs |
| BinStruct.EncodedSize | pkg/binpack/reflect_codec.go:134-178 | the size Encode allocates: the fixed size, widened to the end of every variable or repeated field when hasVarLen is on |
| BinStruct.EncodeStruct | pkg/binpack/reflect_codec.go:124-185 | Encode: a zeroed buffer of that size, filled by encodeToBuffer, or its error |
| BinStruct.DecodeFixed | pkg/binpack/reflect_codec.go:385-390 | a fixed field read from its window by its decoder |
| BinStruct.DecodeVariable | pkg/binpack/reflect_codec.go:357-384 | a variable field whose length comes from its len field, checked against the data, copied or hex-decoded |
| BinStruct.DecodeRepeated | pkg/binpack/reflect_codec.go:316-356 | a repeated field of count elements, checked as a whole and read element by element |
| BinStruct.DecodeElementAt | pkg/binpack/reflect_codec.go:329-335 | element i is decoded from its window and appended, or the first failure is returned, as for the first i + 1 elements |
| BinStruct.DecodeField | pkg/binpack/reflect_codec.go:305-391 | one codec of Decode's loop, over the struct decoded so far: a condition or len field of any unsigned kind, uint and uintptr included, is read with v.Uint(); any other kind panics |
| BinStruct.DecodeStruct | pkg/binpack/reflect_codec.go:289-394 | Decode: data shorter than the fixed size is an error, then every codec in order, stopping at the first error with the fields already set kept |
| BinRoundTrip.TotalSizeSpec | pkg/binpack/reflect_codec.go:134-178 | without variable fields the buffer is the fixed size; otherwise it is the largest of the fixed size and every variable or repeated field's end, and fails only on an array of structs |
| BinRoundTrip.EncodeLength | pkg/binpack/reflect_codec.go:124-185 | an encoding is exactly as long as the size computed first |
| BinRoundTrip.ConditionGates | pkg/binpack/reflect_codec.go:207-312 | a conditional field whose condition field differs is neither written nor read; one that matches is written and read as usual; a condition field that is not of an unsigned kind (uint8 to uint64, uint, uintptr) panics on both sides |
| BinRoundTrip.DecodeTooShort | pkg/binpack/reflect_codec.go:300-364 | Decode reports data too short for the whole struct, for a repeated field and for a variable field exactly where the bounds fail |
| BinRoundTrip.VarHexHalf | pkg/binpack/reflect_codec.go:256-381 | with the corrected hex guard, a variable-length hex string of n bytes keeps only its first n/2 bytes: its window is n bytes, which hold the hex of n/2 bytes (for odd n the encoder as written panics instead) |
| BinRoundTrip.ScalarRoundTrip | pkg/binpack/codec.go:45-211 | every scalar kind reads back from its bytes in either byte order |
| BinRoundTrip.RepeatWrites | pkg/binpack/reflect_codec.go:217-235 | a repeated numeric slice over a zeroed region is written as the concatenation of its elements' images, each zero-padded to elementSize |
| BinRoundTrip.RepeatReads | pkg/binpack/reflect_codec.go:316-336 | from a region holding those images, reading as many elements as the slice has gives the slice back |
| BinRoundTrip.EncodeLaysOut | pkg/binpack/reflect_codec.go:124-286 | for a covered layout (one-byte bit fields, repeated numeric slices, byte slices and strings, scalars, conditional fields) Encode succeeds, the buffer holds every active region, each active bit field holds its value in its bits and every other active field its image, zero-padded per element for a repeated slice |
| BinRoundTrip.RoundTrip | pkg/binpack/reflect_codec.go:124-394 | Decode(Encode(v)) succeeds for layouts of one-byte bit fields on disjoint bits, repeated slices of numbers (each element zero-padded to elementSize), byte slices and strings with earlier len fields, scalars, byte arrays and exact fixed strings, and conditional fields with earlier unsigned condition fields; every field an active codec reads comes back, the rest of the target struct (switched-off conditional fields included) is left as it was. The layouts it excludes are listed under Left out |
| BinEncoding.GetEncoding | pkg/binpack/encoding/encoding.go:58-69 | "ascii" gives ASCII, "hex" gives Hex, every other name UTF-8 |
| BinEncoding.FromHexDigit | pkg/binpack/encoding/encoding.go:38-48 | every digit the encoder writes decodes to its nibble |
| BinEncoding.HexDecodeEncode | pkg/binpack/encoding/encoding.go:38-48 | hex decoding undoes hex encoding |
| BinEncoding.DecodeEncode | pkg/binpack/encoding/encoding.go:16-48 | every encoding's Decode undoes its Encode; hex doubles the length, the others keep it |
| BinEncoding.EncodeDecode | pkg/binpack/encoding/encoding.go:16-33 | for UTF-8 and ASCII, Encode also undoes Decode |
| BinEncoding.HexDecodeStops | pkg/binpack/encoding/encoding.go:44-48 | hex decoding keeps only the bytes before the first pair holding a non-hex character |
| BinCli.ExtractBinTag | pkg/binpack/generator/cmd/binpack-cli/utils.go:6-23 | the scan loop's answer is BinTag |
| BinCli.BinTagSpec | pkg/binpack/generator/cmd/binpack-cli/utils.go:6-23 | the result holds no quote; it is "" when no "bin:" with a character after it occurs, else the text after the first such key's quote up to the next quote or the end |
| BinCli.BinTagRoundTrip | pkg/binpack/generator/cmd/binpack-cli/utils.go:12-20 | a quote-free value written as bin:"s" after a key-free prefix is extracted exactly |
| BinCli.TrailingKeyIgnored | pkg/binpack/generator/cmd/binpack-cli/utils.go:13 | a "bin:" at the very end of the tag is not matched |
| TaskQueue.RingQueue.constructor | pkg/taskpool/queue.go:29-37 | an empty, open ring of the given capacity |
| TaskQueue.RingQueue.Push | pkg/taskpool/queue.go:40-64 | a full queue refuses (closed before full), a closed one refuses, otherwise the task is appended at the tail; a refused push changes nothing |
| TaskQueue.RingQueue.Pop | pkg/taskpool/queue.go:67-92 | the oldest task is removed and returned, even after Close; an empty queue answers ErrQueueClosed once closed and nothing while open |
| TaskQueue.RingQueue.BatchPush | pkg/taskpool/queue.go:95-118 | a closed queue refuses the whole batch; otherwise the batch is appended in order |
| TaskQueue.RingQueue.Len | pkg/taskpool/queue.go:121-125 | the number of queued tasks, between 0 and the capacity |
| TaskQueue.RingQueue.Cap | pkg/taskpool/queue.go:128-130 | the capacity |
| TaskQueue.RingQueue.Close | pkg/taskpool/queue.go:133-142 | the queue is closed and keeps its tasks |
| TaskQueue.FifoOrder | pkg/taskpool/queue.go:40-92 | two tasks pushed on an empty open queue are popped in push order |
| TaskQueue.BucketCapacity | pkg/taskpool/priority_queue.go:24-28 | each bucket holds a tenth of the capacity, and at least 10 |
| TaskQueue.BucketIndex | pkg/taskpool/priority_queue.go:55-58 | a priority's bucket is its tens digit, capped at 9, always a valid bucket |
| TaskQueue.BucketIndexMonotone | pkg/taskpool/priority_queue.go:55-58 | a higher priority never lands in a lower bucket |
| TaskQueue.PriorityRingQueue.constructor | pkg/taskpool/priority_queue.go:23-44 | ten empty, open buckets of BucketCapacity each |
| TaskQueue.PriorityRingQueue.Push | pkg/taskpool/priority_queue.go:47-66 | a closed queue refuses; otherwise the task joins its bucket, which may refuse as full; totalSize counts only accepted tasks |
| TaskQueue.PriorityRingQueue.Pop | pkg/taskpool/priority_queue.go:69-113 | an empty queue answers ErrQueueClosed once closed and nothing while open; otherwise the counter advances and the oldest task of the highest non-empty bucket comes out, or of the lowest on every starvationN-th pop |
| TaskQueue.PriorityRingQueue.ScanUp | pkg/taskpool/priority_queue.go:91-98 | the anti-starvation scan stops at the lowest non-empty bucket |
| TaskQueue.PriorityRingQueue.ScanDown | pkg/taskpool/priority_queue.go:100-106 | the normal scan stops at the highest non-empty bucket |
| TaskQueue.PriorityRingQueue.BatchPush | pkg/taskpool/priority_queue.go:116-132 | a closed queue refuses the batch; otherwise each bucket gains the batch's tasks of its priority range, in batch order, and totalSize grows by the batch size |
| TaskQueue.InBucketCounts | pkg/taskpool/priority_queue.go:124-128 | the buckets' shares of a batch add up to the whole batch |
| TaskQueue.PriorityRingQueue.Len | pkg/taskpool/priority_queue.go:135-137 | totalSize is the number of tasks in all buckets |
| TaskQueue.PriorityRingQueue.Cap | pkg/taskpool/priority_queue.go:140-142 | the capacity given at construction |
| TaskQueue.PriorityRingQueue.Close | pkg/taskpool/priority_queue.go:145-156 | the queue and all buckets are closed and keep their tasks |
| ScaleStrategy.NewDefault | pkg/taskpool/scale.go:28-36 | the default thresholds are 0.8 and 0.2, the steps 2 and 1, and the capacity is the one given |
| ScaleStrategy.QuotientCompare | pkg/taskpool/scale.go:44-45 | for a positive divisor, comparing a float quotient with a threshold is comparing the dividend with threshold times divisor |
| ScaleStrategy.ShouldScaleUp | pkg/taskpool/scale.go:39-46 | never scales up at or above the maximum worker count |
| ScaleStrategy.ScaleUpIffQueueUsage | pkg/taskpool/scale.go:39-46 | below the maximum, scales up exactly when queueLen exceeds threshold times capacity |
| ScaleStrategy.ShouldScaleDown | pkg/taskpool/scale.go:49-58 | never scales down at or below the minimum worker count |
| ScaleStrategy.ScaleDownIffIdle | pkg/taskpool/scale.go:49-58 | above the minimum, scales down exactly when queueLen is under threshold times capacity and fewer than half the workers are busy |
| ScaleStrategy.ScaleUpCount | pkg/taskpool/scale.go:61-67 | the count is the step, or less so that current + count reaches max exactly and never passes it |
| ScaleStrategy.ScaleDownCount | pkg/taskpool/scale.go:70-76 | the count is the step, or less so that current - count reaches min exactly and never goes below it |
| ScaleStrategy.DefaultThresholdBoundary | pkg/taskpool/scale.go:28-58 | with the defaults and capacity 100, 81 queued tasks scale up and 80 do not; 19 scale down and 20 do not |
| TaskOptions.ClampPriority | pkg/taskpool/options.go:131-141 | a priority is clamped into [0, 100] and kept when already inside |
| TaskOptions.PoolConfig.constructor | pkg/taskpool/taskpool.go:44-53 | the pool defaults: queue 1000, workers 5 to 50, no priority queue, no autoscale, a 5 s interval, starvationN 10, no default timeout |
| TaskOptions.PoolConfig.Apply | pkg/taskpool/options.go:9-69 | each pool option sets exactly its own field and leaves the others unchanged |
| TaskOptions.Task.constructor | pkg/taskpool/task.go:93-98 | a new task has the generated id, priority 0 and no timeout |
| TaskOptions.Task.Apply | pkg/taskpool/options.go:124-148 | each task option sets exactly its own field; a priority is clamped |
| TaskOptions.ApplyAll | pkg/taskpool/task.go:92-104 | after any sequence of task options the priority lies in [0, 100], and without WithTaskID the generated id is kept |
| StateMachine.RunActionsFailure | pkg/statemachine/hsm.go:135-141 | a run of exit or enter callbacks fails exactly when some registered callback on the path fails; it stops at the first failure, which is its last call, and every earlier call succeeded |
| StateMachine.RunActionsCallsRegistered | pkg/statemachine/hsm.go:155-161 | every callback run belongs to a state on the path that has one registered |
| StateMachine.PerformStateChange | pkg/statemachine/fsm.go:128-154 | a failing exit or transition callback leaves the state unchanged; success or a failing enter callback leaves the target state; an error is the last call made; success iff no callback on the way fails |
| StateMachine.PerformSuccessTrace | pkg/statemachine/hsm.go:133-163 | on success the calls are the exit callbacks, then the transition callback, then the enter callbacks |
| StateMachine.FSM.constructor | pkg/statemachine/fsm.go:19-27 | a new machine starts at its initial state with empty tables |
| StateMachine.FSM.Current | pkg/statemachine/fsm.go:30-34 | the current state |
| StateMachine.FSM.AddTransition | pkg/statemachine/fsm.go:37-70 | a second entry for the same source and event is refused with ErrDuplicateTransition and changes nothing; otherwise the entry (with its optional guard) is added |
| StateMachine.FSM.SetOnEnter | pkg/statemachine/fsm.go:74-78 | the state's enter action is replaced and nothing else changes |
| StateMachine.FSM.SetOnExit | pkg/statemachine/fsm.go:81-85 | the state's exit action is replaced and nothing else changes |
| StateMachine.FSM.SetOnTransition | pkg/statemachine/fsm.go:88-100 | an unknown source and event is refused with ErrEventNotFound; otherwise only that entry's transition callback changes |
| StateMachine.FSM.Can | pkg/statemachine/fsm.go:103-110 | true exactly when the current state has an entry for the event |
| StateMachine.FSM.Trigger | pkg/statemachine/fsm.go:113-155 | the new state, error and callback trace are those of FsmFire; the tables are unchanged |
| StateMachine.FSM.Reset | pkg/statemachine/fsm.go:158-163 | the state returns to the initial one and nothing else changes |
| StateMachine.FsmFireInvalidIffCannot | pkg/statemachine/fsm.go:117-126 | ErrInvalidTransition exactly when Can is false; a refused or denied event runs no callback and keeps the state |
| StateMachine.FsmFireSuccess | pkg/statemachine/fsm.go:113-155 | on success the machine is in the entry's target, after the current state's exit action, the transition callback and the target's enter action, in that order |
| HierarchicalStateMachine.ChainIsParentWalk | pkg/statemachine/hsm.go:220-232 | a walk that ends at a root lists each state followed by its parent |
| HierarchicalStateMachine.AncestorsShape | pkg/statemachine/hsm.go:220-232 | the ancestors start at the state itself, follow the parent map and end at a root |
| HierarchicalStateMachine.ChainStable | pkg/statemachine/hsm.go:223-230 | once a root is reached, more steps add nothing |
| HierarchicalStateMachine.AncestorsSuffix | pkg/statemachine/hsm.go:220-232 | every tail of an ancestor list is the ancestor list of its first state |
| HierarchicalStateMachine.CommonSuffixMaximal | pkg/statemachine/hsm.go:180-187 | the common index counts the longest common tail of the two ancestor lists |
| HierarchicalStateMachine.CommonSuffixSelf | pkg/statemachine/hsm.go:180-187 | a list shares its whole length with itself |
| HierarchicalStateMachine.Reverse | pkg/statemachine/hsm.go:212-215 | the reversal keeps the length and reads the input from the end |
| HierarchicalStateMachine.SelfTransitionRunsNoActions | pkg/statemachine/hsm.go:175-217 | a transition to the current state exits and enters nothing |
| HierarchicalStateMachine.SharedTailIsCommon | pkg/statemachine/hsm.go:180-187 | any shared tail is no longer than the common index |
| HierarchicalStateMachine.ExitEnterDisjoint | pkg/statemachine/hsm.go:175-217 | no state is both exited and entered by one transition |
| HierarchicalStateMachine.FindTransitionNearest | pkg/statemachine/hsm.go:110-124 | an entry is found iff the current state or an ancestor has one, and the one found belongs to the nearest such state |
| HierarchicalStateMachine.HsmFireInvalidIffNoAncestorHandles | pkg/statemachine/hsm.go:110-124 | ErrInvalidTransition exactly when no state on the ancestor list handles the event; the state and calls are then unchanged |
| HierarchicalStateMachine.ReverseInPlace | pkg/statemachine/hsm.go:213-215 | the swap loop leaves the array reversed |
| HierarchicalStateMachine.RunActionsLoop | pkg/statemachine/hsm.go:135-141 | the callback loop makes the calls, and stops at the failure, that RunActions describes |
| HierarchicalStateMachine.HSM.constructor | pkg/statemachine/hsm.go:21-31 | a new machine starts at its initial state with empty tables |
| HierarchicalStateMachine.HSM.AddState | pkg/statemachine/hsm.go:34-40 | the child's parent is set and the child is appended to the parent's children |
| HierarchicalStateMachine.HSM.AddTransition | pkg/statemachine/hsm.go:43-58 | a duplicate source and event is refused and changes nothing; otherwise the entry is added |
| HierarchicalStateMachine.HSM.SetOnEnter | pkg/statemachine/hsm.go:61-66 | the state's enter action is replaced and nothing else changes |
| HierarchicalStateMachine.HSM.SetOnExit | pkg/statemachine/hsm.go:68-73 | the state's exit action is replaced and nothing else changes |
| HierarchicalStateMachine.HSM.Current | pkg/statemachine/hsm.go:75-80 | the current state |
| HierarchicalStateMachine.HSM.GetAncestors | pkg/statemachine/hsm.go:220-232 | the loop returns the state and its ancestors up to a root |
| HierarchicalStateMachine.HSM.CommonIndex | pkg/statemachine/hsm.go:180-187 | the loop computes the length of the longest common tail |
| HierarchicalStateMachine.HSM.GetExitPath | pkg/statemachine/hsm.go:175-194 | the source's ancestors below the common ancestor, innermost first |
| HierarchicalStateMachine.HSM.GetEnterPath | pkg/statemachine/hsm.go:197-217 | the target's ancestors below the common ancestor, outermost first |
| HierarchicalStateMachine.Reversed | pkg/statemachine/hsm.go:211-216 | the slice of enter states is returned with its order reversed, the outermost state first |
| HierarchicalStateMachine.HSM.Can | pkg/statemachine/hsm.go:82-102 | true exactly when the current state or an ancestor has an entry for the event |
| HierarchicalStateMachine.HSM.Lookup | pkg/statemachine/hsm.go:110-124 | the entry found is the nearest ancestor's |
| HierarchicalStateMachine.HSM.Trigger | pkg/statemachine/hsm.go:105-164 | the new state, error and callback trace are those of HsmFire; the tables are unchanged |
| HierarchicalStateMachine.HSM.Transit | pkg/statemachine/hsm.go:129-163 | once an entry is found and allowed: exit actions, then the transition callback, then the enter actions, stopping at the first failure; the state is the target once the exit and transition callbacks succeed |
| HierarchicalStateMachine.HSM.Reset | pkg/statemachine/hsm.go:167-172 | the state returns to the initial one and nothing else changes |
| Congestion.Quo | pkg/congestion/reno.go:55 | Go's truncating integer division, which agrees with Euclidean division on non-negative operands |
| Congestion.ClampWindowBounds | pkg/congestion/controller.go:120-129 | the clamped window is min(max(c, 2·packetSize), maxCWnd): never above the maximum, at least the floor when the floor fits, and c itself when c is in range |
| Congestion.ClampWindowIdempotent | pkg/congestion/controller.go:120-129 | clamping a clamped window changes nothing |
| Congestion.ClampWindowMonotone | pkg/congestion/controller.go:120-129 | clamping preserves the order of windows |
| Congestion.ReducedThreshold | pkg/congestion/reno.go:42-45 | the reduced threshold is half the window or the floor 2·packetSize, whichever is larger |
| Congestion.ReducedThresholdHalves | pkg/congestion/reno.go:69-72 | from a window of at least four segments, the threshold is exactly half the window |
| Congestion.AvoidanceIncrementAtMostOneSegment | pkg/congestion/reno.go:55 | in congestion avoidance one ACK grows the window by at most one segment |
| Congestion.NewController | pkg/congestion/controller.go:141-155 | a known name yields a controller of that algorithm with the given parameters; an unknown one is an error naming it |
| Congestion.NewControllerAcceptsExactlyTheFour | pkg/congestion/controller.go:131-155 | exactly the four names cubic, bbr, reno and vegas are accepted, each giving its own algorithm |
| Congestion.RenoController.constructor | pkg/congestion/controller.go:63-71 | a new controller has cwnd = initialCWnd, ssthresh = 65536 and zeroed counters |
| Congestion.RenoController.SetCongestionWindow | pkg/congestion/controller.go:120-129 | the window becomes the clamp of the argument and nothing else changes |
| Congestion.RenoController.UpdateStats | pkg/congestion/controller.go:103-117 | the stats copy the window, threshold, flight size and counters; the loss rate is refreshed only once bytes were sent |
| Congestion.RenoController.OnPacketSent | pkg/congestion/reno.go:23-29 | the size is added to the bytes in flight and sent, and one more packet is counted |
| Congestion.RenoController.OnAckReceived | pkg/congestion/reno.go:31-61 | the third duplicate ACK halves the threshold (floor 2·mss) and sets the window to it plus three segments; later duplicates add a segment; a new ACK resets the count and grows the window by a segment in slow start or by mss·mss/cwnd after; the window ends clamped |
| Congestion.RenoController.OnPacketLost | pkg/congestion/reno.go:63-76 | a loss counts one segment of lost bytes, halves the threshold (floor 2·mss) and drops the window to it, clamped |
| Congestion.RenoController.GetCongestionWindow | pkg/congestion/reno.go:78-82 | the window, within the clamp bounds while they hold |
| Congestion.LossNeverGrowsWindow | pkg/congestion/reno.go:63-76 | a loss never makes a window that held at least the floor larger |
| ConnManager.ConnectionManager.constructor | pkg/netconn/manager.go:20-26 | a new manager has empty maps and its counter at 1000 |
| ConnManager.ConnectionManager.AllocateFd | pkg/netconn/manager.go:29-32 | the counter is incremented and its new value returned, so fds strictly increase from 1001 and are never registered yet |
| ConnManager.ConnectionManager.RegisterConn | pkg/netconn/manager.go:35-42 | a fresh fd is mapped to the connection and to its type, and the count grows by one |
| ConnManager.ConnectionManager.UnregisterConn | pkg/netconn/manager.go:45-53 | a registered fd is closed and removed from both maps; an unknown fd changes nothing |
| ConnManager.ConnectionManager.GetConn | pkg/netconn/manager.go:56-61 | found exactly when the fd is registered, with its connection |
| ConnManager.ConnectionManager.GetConnType | pkg/netconn/manager.go:64-69 | found exactly when the fd is registered, with its type |
| ConnManager.ConnectionManager.CloseConn | pkg/netconn/manager.go:72-85 | an unknown fd is an error and changes nothing; a known one is removed from both maps whatever Close reports, and that report is returned |
| ConnManager.ConnectionManager.CloseAll | pkg/netconn/manager.go:88-97 | every registered connection is closed exactly once (the descriptors are listed strictly ascending, so none repeats), and both maps end empty |
| ConnManager.ConnectionManager.SendBytes | pkg/netconn/manager.go:100-108 | an unknown fd is an error; otherwise the connection's Write report |
| ConnManager.ConnectionManager.GetAllFds | pkg/netconn/manager.go:137-146 | every registered fd exactly once, and nothing else |
| ConnManager.ConnectionManager.GetConnCount | pkg/netconn/manager.go:149-153 | the number of registered fds |
| ConnManager.RegisterGrowsCount | pkg/netconn/manager.go:35-42 | adding a fresh fd raises the count by exactly one |
| ConnManager.RemoveShrinksCount | pkg/netconn/manager.go:45-53 | removing a registered fd lowers the count by one; removing an unknown fd changes nothing |

## Left out

- Hot cache of `Router.Match` (pkg/zallocrout/router.go:161-185, 270-288) and pkg/zallocrout/cache.go are not part of this model. Their sharded maps, FNV hashing and wall-clock LRU stamps are concurrency and time. The node hit counter is kept only as `IncrementHitCount`; `getHitCount` and `getHandler` are plain field reads of the model's nodes.
- Router metrics, cache statistics and the enable/disable/clear cache switches (router.go:296-328), and pkg/zallocrout/metrics.go and pkg/taskpool/metrics.go: atomic counters and float rates.
- sync.Pool recycling (pkg/zallocrout/resource.go, pkg/binpack/pool.go) and the unsafe byte/string conversions of pkg/bytesconv are not part of this model. A pooled node or context is a fresh object, and a path's bytes are the characters of a string.
- Route nodes are kept in an arena (`RouteTrie.Router.nodes`), and a node pointer is an index into it. Go's in-place pointer updates are updates of the arena entry; no two routers share nodes.
- Mutexes, read-write locks, atomics and condition variables are not modelled. Each operation runs alone, and an operation that would wait for another goroutine is excluded by a precondition.
- TaskQueue.RingQueue.Push, TaskQueue.RingQueue.Pop, TaskQueue.PriorityRingQueue.Pop: a blocking call on a full (or empty) open queue would wait; the preconditions exclude it.
- TaskQueue.RingQueue.BatchPush, TaskQueue.PriorityRingQueue.BatchPush: a batch that does not fit waits for consumers in the source; the preconditions require that it fits.
- TaskQueue.PriorityRingQueue.Push: requires priority > -10. For lower priorities BucketIndex is -1 and Go panics with an index out of range.
- TaskQueue.PriorityRingQueue.Pop: the retry after another goroutine drained the queue between the size check and the bucket scan cannot happen when each operation runs alone.
- RouteCtx.RouteContext.Value: requires a parent context or a locally stored key; Go calls Value on a nil parent and panics. Keys of other types than string are not modelled, and non-string keys always go to the parent.
- `Deadline`, `Done` and `Err` of the route context (context.go:65-75) forward to the parent context and are not modelled; the package-level `GetParam`, `SetValue` and `ReleaseContext` (context.go:119-140) only type-assert a `context.Context` before calling the methods that are modelled.
- Congestion.RenoController.OnAckReceived: requires cwnd != 0 in congestion avoidance, where Go divides by cwnd and panics on 0.
- Congestion.RenoController.UpdateStats: the loss rate is the exact real quotient lostBytes/sentBytes; Go computes float64(lostBytes)/float64(sentBytes) (controller.go:115), which rounds to the nearest float64 and so can differ from the exact quotient.
- `updateRTT`, `calculateSendRate`, `GetSendRate` and `GetStatistics` of pkg/congestion (controller.go:74-101, reno.go:84-97) use time.Duration and float rates; the RTT argument of `OnAckReceived` is dropped. pkg/congestion/cubic.go, bbr.go and vegas.go are not part of this model; `NewController` knows them only as the other algorithm names it accepts.
- `GetConnInfo`, `addrToSocketOption` and `parseAddr` (pkg/netconn/manager.go:111-135, 156-187) turn network addresses into options and are not modelled. `Close` and `Write` on a connection are parameters: whether they report an error.
- ConnManager.ConnectionManager.AllocateFd: the int64 counter is unbounded here; Go would wrap after 2^63 allocations.
- `GetAllFds` iterates a Go map in unspecified order; the model returns the descriptors in increasing order, one permitted order.
- TaskOptions: `WithScaleStrategy`, `WithPanicHandler` and the `WithOn…` hooks (options.go:44-49, 72-121) install user code and are not modelled.
- HierarchicalStateMachine: every operation that walks the parent map requires the whole map to be Acyclic. Go loops forever only when the chain it actually walks from the given state has a cycle; a cycle elsewhere in the map, off that chain, does not stop Go but is excluded by the model. The walk function Chain carries a fuel bound of |parent| steps, which is never exhausted on an acyclic map.
- The context argument of `Trigger` and the bodies of guards and actions are not modelled; what they answer is a parameter.
- Coverage: reading the profile and printing the report are left out. Ratios are exact reals instead of Python floats, and digits of scripts other than ASCII, which `int()` accepts, are not modelled.
- Float32 and float64 fields of binpack are carried as bit patterns; their IEEE conversions are not modelled.
- BinStruct.EncodeFixed: a hex string field uses the corrected hex guard of the finding below. For an odd window with more source bytes than half its size, Go panics; the model writes the hex of the whole bytes that fit. The as-written encoder is BinCodec.EncodeHexAsWritten.
- BinStruct.EncodeFixedHex: the same corrected guard, for the same odd windows.
- BinStruct.EncodeVariable: a hex string field uses the corrected hex guard. Its window is as long as the string, so for a string of odd length Go panics, and the model writes the hex of its first n/2 bytes.
- BinStruct.EncodeVariableHex: the same corrected guard, for the same odd lengths.
- BinRoundTrip.VarHexHalf: proved for every length with the corrected guard; for odd lengths the encoder as written panics.
- BinStruct.EncodeTo: the buffer is an array without spare capacity. A fixed-length window that ends past len(buf) is out of bounds in the model, whereas Go reslices `buf[fc.offset:fc.offset+fc.size]` (reflect_codec.go:277-282) successfully when the window still lies within cap(buf).
- BinRoundTrip.RoundTrip: proved only for the layouts Layout describes. Excluded are: variable-length hex strings (their window holds only half the string, see VarHexHalf); arrays of nested structs (elementSize 0, which Encode cannot size); repeated slices of bool or of non-numeric elements; variable or repeated fields whose len field, and conditional fields whose cond field, is not read earlier by an active codec; overlapping regions other than bit fields on disjoint bits of one byte; fixed strings whose length differs from the field size (Decode trims or pads them); bit-field values wider than their bits (they come back masked, see BinBits.BitFieldRoundTrip); and lengths of 2^63 or more, which do not fit Go's int.
- The `codecCache` memo of CompileCodec (pkg/binpack/reflect_codec.go:20-34, 109) is not modelled: each call compiles again, with the same result.
- Arrays of nested structs in binpack: BinStruct stops with NestedStruct instead of encoding or decoding the elements recursively.
- The binpack-cli generator, debug, docs and validate commands, and the message formatting of pkg/binpack/errors.go, are not part of this model.

## Findings

| source | as written | input that shows it | evidently intended | confidence | as-written member | corrected member |
|---|---|---|---|---|---|---|
| pkg/binpack/codec.go:258-260 | the hex string encoder loops while `i*2 < len(buf)` and writes `buf[i*2+1]` | a 5-byte string in a 9-byte field: at i = 4 it writes buf[9], one past the window, and panics | loop while `i*2+1 < len(buf)`, as the hex decoder does, leaving an odd last byte alone | not executed | BinCodec.EncodeHexAsWritten, BinCodec.HexOddWindowPanics | BinCodec.EncodeHex, BinCodec.HexFieldRoundTrip |
