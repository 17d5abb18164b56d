# clipcli core in Dafny

`clipcli` is a command-line front end to the Clipper polygon library. It reads
point-list files into lists of contours, resolves the names of the clip
operation and of the fill rules, and, when the `-f` argument starts with
`self-intersect`, runs a self-intersection diagnostic on each subject contour
and exits without clipping (clipcli.cpp:258-265). This project models those three pieces of
`clipcli.cpp` and proves properties of them:

- `PolyLoader` (`poly_loader.dfy`): `load_poly` / `load_polys`. Each file is
  a sequence of lines. A line starting with `#` is skipped, and a line starting
  with a newline closes the current contour if it has points. Any other line
  must yield two integers, which are scaled by the multiplication factor and
  appended to the current contour. A line that does not yield two integers
  stops the process with exit code 2. The methods are loops proved against a
  state-machine function. For well-formed input (every data line yields two
  integers), that function is then shown equal to a reference definition that
  cuts the input at blank lines. For other input it is shown to stop at the
  first malformed data line.
- `OptionNames` (`option_names.dfy`): `find_clip_type` / `fill_type`. Each is a
  16-entry synonym table searched in order with `strncmp(entry, f, 16)`.
  `strncmp` is modelled on NUL-terminated strings. Since every entry is
  shorter than 16 characters, a match is proved to mean exact equality.
- `SelfIntersect` (`self_intersect.dfy`): `self_intersect_test`. It checks the
  size guards after `CleanPolygon`/`SimplifyPolygon`, looks for the cleaned
  contour's first vertex in the simplified contour, and walks around both
  contours in lockstep using indices mod n.
- `ClipperTypes` (`clipper_types.dfy`): `IntPoint`, `Path`, `Paths`, `Option`.

Boundaries with the outside world are parameters:

- the `sscanf("%lli %lli")` of a line is `scan: Line -> Option<(int, int)>`;
- the engine's `CleanPolygon` is `clean: Path -> Path`;
- the engine's `SimplifyPolygon` is `simplify: Path -> Paths`.

An input list that the C code updates in place is modelled as an input value
plus a returned value:

- `LoadPoly` returns the caller's list with the new contours appended;
- `SelfIntersectTest` returns the cleaned contour that the caller's `poly`
  holds after the call.

This model follows the code rather than the header comment at
clipcli.cpp:134-147. The comment speaks of comparing against the original
point count and flagging any point that differs. The code compares the
simplified contour with the cleaned one, and during the walk it flags a vertex
only when both of its coordinates differ.

## Model

| member | source | states |
|---|---|---|
| `PolyLoader.LoadPoly` | clipcli.cpp:49-80 | the line loop yields exactly the outcome of the `load_poly` state machine (comment skip, flush on blank line of a non-empty contour, scaled point per data line, exit at the first malformed line, final flush) |
| `PolyLoader.LoadPolys` | clipcli.cpp:83-92 | loading the files in argument order into one list yields the fold of `load_poly` over the files, stopping at the first malformed file |
| `PolyLoader.RunIsSegments` | clipcli.cpp:59-78 | from any state (list `p`, pending contour `cur`), a well-formed input ends as `p` followed by the non-empty groups formed by `cur` continued by the data lines up to each blank line |
| `PolyLoader.LoadIsSegments` | clipcli.cpp:59-78 | on a well-formed file, `load_poly` appends to `p` exactly the non-empty blank-line-separated groups of data lines, comments dropped, in line order |
| `PolyLoader.LoadedPoints` | clipcli.cpp:63-78 | on a well-formed file the contours already in `p` stay unchanged, every appended contour is non-empty, there is one stored point per data line, and point `i` is the scaled pair of data line `i` |
| `PolyLoader.RunMalformed` | clipcli.cpp:70-71 | from any state, the run stops exactly when some data line does not yield two integers, and the line it reports is the first such line |
| `PolyLoader.LoadMalformed` | clipcli.cpp:70-71 | `load_poly` stops if and only if a data line is malformed, and the exit status is then `MalformedExitCode` (2) and otherwise none; the 1-based line number it reports is that of the first malformed data line, and all data lines before it are well-formed |
| `PolyLoader.RunAppends` | clipcli.cpp:63-78 | from any state, the result in list `p` equals the result in an empty list put after `p` (a malformed outcome is the same in both) |
| `PolyLoader.LoadAppends` | clipcli.cpp:65-77 | `load_poly` only appends: its outcome into `p` is its outcome into an empty list put after `p` |
| `PolyLoader.RunSkipsComments` | clipcli.cpp:62 | dropping comment lines from the input never changes whether the run stops, and never changes the contours loaded |
| `PolyLoader.LoadSkipsComments` | clipcli.cpp:62 | a `#` line leaves `load_poly`'s contours untouched: removing all comment lines gives the same loaded list and the same stop/no-stop answer |
| `PolyLoader.LoadPolysConcatenates` | clipcli.cpp:87-91 | `load_polys` gives `p` followed by the contours of each file loaded on its own, concatenated in argument order; if a file is malformed, it reports the first malformed file's line |
| `PolyLoader.EachFilePoints` | clipcli.cpp:87-91 | when every file is well-formed, loading each file on its own succeeds, and the points of the concatenated results are each file's data-line points, file after file |
| `PolyLoader.LoadPolysPoints` | clipcli.cpp:83-92 | when every file is well-formed, `load_polys` succeeds, keeps the contours already in `p`, and appends contours whose points are exactly the scaled data-line points of the files in argument order |
| `PolyLoader.DataPoints` | clipcli.cpp:73 | the reference point sequence has one point per data line, and point `i` is the scaled pair that `scan` gives for data line `i` |
| `PolyLoader.NonEmpty` | clipcli.cpp:64 | dropping empty contours keeps every point in order and leaves no empty contour |
| `OptionNames.StrnEqualFromSuffix` | clipcli.cpp:105 | from position `i` on, `strncmp` with a bound above the entry's length agrees exactly when the two suffixes are equal |
| `OptionNames.StrnEqualIsEquality` | clipcli.cpp:105 | for an entry shorter than 16 characters, `strncmp(entry, f, 16) == 0` holds if and only if `f` equals the entry |
| `OptionNames.FindName` | clipcli.cpp:104-110 | the table search returns the value of the first entry equal to `f`, and returns `dflt` when no entry equals `f` |
| `OptionNames.ClipTypeNamesConsistent` | clipcli.cpp:96-103 | every clip-operation name is shorter than 16 characters; lookup entry `i` is operation `i mod 4`; equal names (the repeated `xor`) sit in the same column |
| `OptionNames.FillTypeNamesConsistent` | clipcli.cpp:115-122 | every fill-rule name is shorter than 16 characters; lookup entry `i` is fill rule `i mod 4`; equal names sit in the same column |
| `OptionNames.FindClipType` | clipcli.cpp:94-111 | total; a name equal to table entry `i` gives Intersection/Union/Difference/Xor by `i mod 4`; any other string gives Union |
| `OptionNames.FillType` | clipcli.cpp:113-132 | total; a name equal to table entry `i` gives EvenOdd/NonZero/Positive/Negative by `i mod 4`; any other string gives NonZero |
| `SelfIntersect.FirstIndexOf` | clipcli.cpp:163-170 | the result is the first index holding the point, or the length when the point does not occur |
| `SelfIntersect.Verdict` | clipcli.cpp:153-180 | the diagnostic's answer is always 0 or 1 |
| `SelfIntersect.FindStart` | clipcli.cpp:163-167 | the `beg_ind` search loop finds the first vertex of the simplified contour equal to the cleaned contour's first vertex, or the length when there is none |
| `SelfIntersect.Walk` | clipcli.cpp:172-178 | the modular lockstep loop (`i` from `beg_ind+1` round to `beg_ind`, `k` from 1) terminates; it reports agreement exactly when no `k` in 1..n-1 has vertex `k` mismatched with simplified vertex `(beg_ind+k) mod n` |
| `SelfIntersect.Check` | clipcli.cpp:153-180 | the guard sequence, the start search and the walk together yield the diagnostic's answer for this mismatch rule; the caller's contour becomes the cleaned one when it was non-empty |
| `SelfIntersect.SelfIntersectTest` | clipcli.cpp:149-181 | returns 0 or 1; returns 1 for empty input and whenever a size guard fails (cleaned contour empty, Simplify did not give exactly one contour, that contour empty, lengths differ); otherwise the answer uses the both-coordinates mismatch of the code; the input is replaced by its cleaned form |
| `SelfIntersect.SelfIntersectTestCorrected` | clipcli.cpp:149-181 | the same contract, with a walk step counted as a mismatch whenever the two vertices differ |
| `SelfIntersect.RotationStart` | clipcli.cpp:163-167 | in a rotation of the cleaned contour whose first vertex is not repeated, the start search finds exactly the rotation's offset |
| `SelfIntersect.RotationWalk` | clipcli.cpp:174-177 | walking a rotation of the cleaned contour from its offset finds no mismatch under either rule |
| `SelfIntersect.RotationAccepted` | clipcli.cpp:153-180 | if Simplify returns a rotation of the cleaned contour and the cleaned contour's first vertex is not repeated, the result is 0 (simple) under either rule |
| `SelfIntersect.RepeatedStartRotationRejected` | clipcli.cpp:163-177 | the ring (0,0),(10,0),(0,0),(0,10), whose start vertex repeats, is answered 1 under either rule when Simplify returns its rotation by two, because the start search stops at the first (0,0) |
| `SelfIntersect.WalkIsRotation` | clipcli.cpp:174-177 | a full walk with the corrected rule that finds no difference, started at a vertex equal to `c[0]`, proves that the simplified contour is a rotation of `c` |
| `SelfIntersect.CorrectedAcceptsOnlyRotations` | clipcli.cpp:153-180 | with the corrected rule, a result of 0 implies that the input and the cleaned contour are non-empty and that Simplify returned exactly one rotation of the cleaned contour |
| `SelfIntersect.AsWrittenAcceptsMore` | clipcli.cpp:175-176 | every contour that the corrected rule calls simple, the code as written also calls simple |
| `SelfIntersect.SingleCoordinateDifferenceAccepted` | clipcli.cpp:175-176 | as written, the square is accepted against a simplified contour that differs from it in one coordinate of one vertex; the corrected rule rejects it |

## Findings

| source | as written | input that shows it | evidently intended | confidence | as-written member | corrected member |
|---|---|---|---|---|---|---|
| clipcli.cpp:175-176 | a walk step is a mismatch only when both X and Y differ (`&&`) | cleaned contour (0,0),(10,0),(10,10),(0,10); Simplify returns the single contour (0,0),(10,0),(10,10),(5,10); result 0 | a vertex that differs in either coordinate is a mismatch, as the header comment at clipcli.cpp:138-140 says ("a point that doesn't match") | medium, not executed | `SelfIntersect.SingleCoordinateDifferenceAccepted` | `SelfIntersect.SelfIntersectTestCorrected` |

The corrected rule is proved to accept only exact rotations of the cleaned
contour (`CorrectedAcceptsOnlyRotations`). `SelfIntersectTest` itself keeps the
code's `&&`.

## Left out

- `main` (clipcli.cpp:183-323): option parsing, help and version output, the verbose dumps, printing of results, and the loop that runs the diagnostic over the subject contours. All of this is command-line and I/O plumbing.
- The sign normalisation of `-x` (clipcli.cpp:235): the multiplication factor is a plain `int` parameter of the loader.
- `Clipper::Execute`, `ClipperOffset`, the offset gate `gOffsetRadius > gEps` and the `atof` parsing: these are a foreign library and floating point.
- `CleanPolygon` and `SimplifyPolygon`: the library's source is not part of this model, so both are function parameters with no properties assumed.
- The `%lli` number syntax (leading white space, hex and octal prefixes, trailing text ignored): this is behind the `scan` parameter.
- `fgets` splitting lines longer than 1023 characters: the input is already a sequence of lines.
- A file that `fopen` cannot open, and the message written to stderr.
- 64-bit overflow of `X*gMulFactor`: coordinates are mathematical integers.
- Update in place and aliasing: `LoadPoly` returns the extended list, and the diagnostic returns the cleaned contour, instead of writing through a reference.
- `SelfIntersect.RotationAccepted`: requires that the cleaned contour's first vertex occurs only once. The code takes the first match of that vertex, so a rotation whose start vertex repeats can be compared at the wrong offset and get 1 (`RepeatedStartRotationRejected` shows one such ring). Such a ring touches itself at that vertex.
- `lib/` (a Delaunay triangulation with an SFML demo, in floating point): it is not used by `clipcli.cpp`.
- Contour ordering policies, neighbour-graph scheduling, tree-structured output and bounding boxes do not appear in `clipcli.cpp`, and are not part of this model.
