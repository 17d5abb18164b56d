/**
  The point-list reader of the front end (`load_poly`, `load_polys`).

  A file is a sequence of lines. A line whose first character is `#` is a
  comment; a line whose first character is a newline is blank and closes the
  current contour if that contour has points; every other line must yield two
  integers, which become one point scaled by the multiplication factor. At the
  end of the input a pending contour with points is kept too.

  The C `sscanf(buf, "%lli %lli", ...)` is the parameter `scan`: it gives the
  two integers of a line, or None when fewer than two were read.
*/
module PolyLoader {
  import opened ClipperTypes

  /** One line as `fgets` returns it (the newline is kept). */
  type Line = string

  /** The number parser applied to a data line. */
  type Scanner = Line -> Option<(int, int)>

  /** Exit status of the process after a malformed line. */
  const MalformedExitCode: int := 2

  /**
    What reading produced: the list of contours, or a stop with exit code
    `MalformedExitCode` at the 1-based line `lineNo` of the file, counting
    every line read (comments and blank lines included).
  */
  datatype LoadOutcome = Loaded(paths: Paths) | Malformed(lineNo: nat)

  /** The exit status the process ends with, if loading ends it: only a malformed line does. */
  function ExitStatus(o: LoadOutcome): Option<int>
  {
    if o.Malformed? then Some(MalformedExitCode) else None
  }

  predicate IsComment(l: Line) { |l| > 0 && l[0] == '#' }

  predicate IsBlank(l: Line) { |l| > 0 && l[0] == '\n' }

  /** A line that must carry two integers. */
  predicate IsData(l: Line) { !IsComment(l) && !IsBlank(l) }

  function Scale(xy: (int, int), mul: int): IntPoint
  {
    IntPoint(xy.0 * mul, xy.1 * mul)
  }

  /** Appends the current contour to `p` when it has points. */
  function Flush(p: Paths, cur: Path): Paths
  {
    if |cur| == 0 then p else p + [cur]
  }

  /**
    The state machine of `load_poly`: `p` is the caller's list, `cur` the
    contour being read, `lineNo` the number of lines already read.
  */
  function Run(lines: seq<Line>, scan: Scanner, mul: int, p: Paths, cur: Path, lineNo: nat): LoadOutcome
    decreases |lines|
  {
    if |lines| == 0 then Loaded(Flush(p, cur))
    else
      var l := lines[0];
      if IsComment(l) then Run(lines[1..], scan, mul, p, cur, lineNo + 1)
      else if IsBlank(l) then Run(lines[1..], scan, mul, Flush(p, cur), [], lineNo + 1)
      else match scan(l)
        case None => Malformed(lineNo + 1)
        case Some(xy) => Run(lines[1..], scan, mul, p, cur + [Scale(xy, mul)], lineNo + 1)
  }

  /** The outcome of `load_poly(fp, p)` on a file made of `lines`. */
  function LoadResult(lines: seq<Line>, scan: Scanner, mul: int, p: Paths): LoadOutcome
  {
    Run(lines, scan, mul, p, [], 0)
  }

  /** The outcome of `load_polys` on the files, in argument order, into `p`. */
  function LoadAllResult(files: seq<seq<Line>>, scan: Scanner, mul: int, p: Paths): LoadOutcome
    decreases |files|
  {
    if |files| == 0 then Loaded(p)
    else match LoadResult(files[0], scan, mul, p)
      case Malformed(n) => Malformed(n)
      case Loaded(q) => LoadAllResult(files[1..], scan, mul, q)
  }

  /** `load_poly`: reads the lines one by one and appends contours to `p`. */
  method LoadPoly(lines: seq<Line>, scan: Scanner, mul: int, p: Paths) returns (r: LoadOutcome)
    ensures r == LoadResult(lines, scan, mul, p)
  {
    var out := p;
    var cur: Path := [];
    var lineNo := 0;
    while lineNo < |lines|
      invariant 0 <= lineNo <= |lines|
      invariant Run(lines[lineNo..], scan, mul, out, cur, lineNo) == LoadResult(lines, scan, mul, p)
    {
      var buf := lines[lineNo];
      assert lines[lineNo..][1..] == lines[lineNo + 1..];
      lineNo := lineNo + 1;
      if IsComment(buf) {
        continue;
      }
      if IsBlank(buf) {
        if |cur| == 0 {
          continue;
        }
        out := out + [cur];
        cur := [];
        continue;
      }
      var k := scan(buf);
      if k.None? {
        return Malformed(lineNo);
      }
      cur := cur + [IntPoint(k.value.0 * mul, k.value.1 * mul)];
    }
    if |cur| > 0 {
      out := out + [cur];
    }
    return Loaded(out);
  }

  /** `load_polys`: loads every file in turn into the same list. */
  method LoadPolys(files: seq<seq<Line>>, scan: Scanner, mul: int, p: Paths) returns (r: LoadOutcome)
    ensures r == LoadAllResult(files, scan, mul, p)
  {
    var polys := p;
    for i := 0 to |files|
      invariant LoadAllResult(files[i..], scan, mul, polys) == LoadAllResult(files, scan, mul, p)
    {
      assert files[i..][1..] == files[i + 1..];
      r := LoadPoly(files[i], scan, mul, polys);
      if r.Malformed? {
        return;
      }
      polys := r.paths;
    }
    assert files[|files|..] == [];
    r := Loaded(polys);
  }

  // ---------------------------------------------------------------------
  // Reference definitions

  /** Every data line yields two integers. */
  predicate WellFormed(lines: seq<Line>, scan: Scanner)
  {
    forall i :: 0 <= i < |lines| && IsData(lines[i]) ==> scan(lines[i]).Some?
  }

  /** The data lines, in order. */
  function DataLines(lines: seq<Line>): (r: seq<Line>)
    ensures forall i :: 0 <= i < |r| ==> IsData(r[i]) && r[i] in lines
    decreases |lines|
  {
    if |lines| == 0 then []
    else (if IsData(lines[0]) then [lines[0]] else []) + DataLines(lines[1..])
  }

  /** The lines that are not comments, in order. */
  function Uncommented(lines: seq<Line>): seq<Line>
    decreases |lines|
  {
    if |lines| == 0 then []
    else (if IsComment(lines[0]) then [] else [lines[0]]) + Uncommented(lines[1..])
  }

  /** A point per data line, in order: the line's two integers scaled by `mul`. */
  function DataPoints(lines: seq<Line>, scan: Scanner, mul: int): (r: Path)
    requires WellFormed(lines, scan)
    ensures |r| == |DataLines(lines)|
    ensures forall i :: 0 <= i < |r| ==>
      scan(DataLines(lines)[i]).Some? && r[i] == Scale(scan(DataLines(lines)[i]).value, mul)
    decreases |lines|
  {
    if |lines| == 0 then []
    else
      WellFormedTail(lines, scan);
      var rest := DataPoints(lines[1..], scan, mul);
      if IsData(lines[0]) then
        assert DataLines(lines) == [lines[0]] + DataLines(lines[1..]);
        [Scale(scan(lines[0]).value, mul)] + rest
      else
        assert DataLines(lines) == DataLines(lines[1..]);
        rest
  }

  /**
    The input cut at blank lines with comments dropped: one group of points
    per stretch of data lines between blank lines (possibly empty groups).
  */
  function Segments(lines: seq<Line>, scan: Scanner, mul: int): (r: Paths)
    requires WellFormed(lines, scan)
    ensures |r| >= 1
    decreases |lines|
  {
    if |lines| == 0 then [[]]
    else
      WellFormedTail(lines, scan);
      var rest := Segments(lines[1..], scan, mul);
      if IsComment(lines[0]) then rest
      else if IsBlank(lines[0]) then [[]] + rest
      else [[Scale(scan(lines[0]).value, mul)] + rest[0]] + rest[1..]
  }

  /** The contours of `ps` that have points, in order. */
  function NonEmpty(ps: Paths): (r: Paths)
    ensures forall i :: 0 <= i < |r| ==> |r[i]| > 0
    ensures Flatten(r) == Flatten(ps)
    decreases |ps|
  {
    if |ps| == 0 then []
    else
      var rest := NonEmpty(ps[1..]);
      if |ps[0]| == 0 then rest
      else
        assert ([ps[0]] + rest)[1..] == rest;
        [ps[0]] + rest
  }

  /** Puts `p` in front of a loaded list; a malformed outcome is kept. */
  function Prepend(p: Paths, o: LoadOutcome): LoadOutcome
  {
    match o
    case Loaded(q) => Loaded(p + q)
    case Malformed(n) => o
  }

  /** Each file loaded on its own into an empty list, the lists concatenated. */
  function EachFile(files: seq<seq<Line>>, scan: Scanner, mul: int): LoadOutcome
    decreases |files|
  {
    if |files| == 0 then Loaded([])
    else match LoadResult(files[0], scan, mul, [])
      case Malformed(n) => Malformed(n)
      case Loaded(a) => Prepend(a, EachFile(files[1..], scan, mul))
  }

  // ---------------------------------------------------------------------
  // Properties

  lemma {:induction false} WellFormedTail(lines: seq<Line>, scan: Scanner)
    requires |lines| > 0 && WellFormed(lines, scan)
    ensures WellFormed(lines[1..], scan)
  {
    forall i | 0 <= i < |lines[1..]| && IsData(lines[1..][i])
      ensures scan(lines[1..][i]).Some?
    {
      assert lines[1..][i] == lines[i + 1];
    }
  }

  /** Dropping empty contours from a list headed by `c` keeps `c` exactly when it has points. */
  lemma NonEmptyCons(c: Path, rest: Paths)
    ensures NonEmpty([c] + rest) == Flush([], c) + NonEmpty(rest)
  {
    assert ([c] + rest)[1..] == rest;
  }

  /** The claim of `RunIsSegments` for one start state. */
  ghost predicate SegmentsClaim(lines: seq<Line>, scan: Scanner, mul: int, p: Paths, cur: Path, n: nat)
    requires WellFormed(lines, scan)
  {
    var s := Segments(lines, scan, mul);
    Run(lines, scan, mul, p, cur, n) == Loaded(p + NonEmpty([cur + s[0]] + s[1..]))
  }

  lemma SegmentsAtEnd(scan: Scanner, mul: int, p: Paths, cur: Path, n: nat)
    ensures SegmentsClaim([], scan, mul, p, cur, n)
  {
    var s := Segments([], scan, mul);
    assert s[0] == [] && s[1..] == [];
    assert cur + s[0] == cur;
    assert [cur + s[0]] + s[1..] == [cur] + [];
    NonEmptyCons(cur, []);
    assert Flush(p, cur) == p + Flush([], cur);
  }

  lemma EmptyHead(t: Paths, cur: Path)
    requires |t| >= 1
    ensures [[] + t[0]] + t[1..] == t
    ensures [cur + ([[]] + t)[0]] + ([[]] + t)[1..] == [cur] + t
  {
    assert [] + t[0] == t[0];
    assert ([[]] + t)[0] == [] && ([[]] + t)[1..] == t;
    assert cur + [] == cur;
  }

  lemma SegmentsAfterBlank(lines: seq<Line>, scan: Scanner, mul: int, p: Paths, cur: Path, n: nat)
    requires |lines| > 0 && IsBlank(lines[0])
    requires WellFormed(lines, scan) && WellFormed(lines[1..], scan)
    requires SegmentsClaim(lines[1..], scan, mul, Flush(p, cur), [], n + 1)
    ensures SegmentsClaim(lines, scan, mul, p, cur, n)
  {
    assert !IsComment(lines[0]);
    var s' := Segments(lines[1..], scan, mul);
    assert Segments(lines, scan, mul) == [[]] + s';
    EmptyHead(s', cur);
    NonEmptyCons(cur, s');
    assert Flush(p, cur) + NonEmpty(s') == p + (Flush([], cur) + NonEmpty(s'));
  }

  lemma SegmentsAfterData(lines: seq<Line>, scan: Scanner, mul: int, p: Paths, cur: Path, n: nat)
    requires |lines| > 0 && IsData(lines[0])
    requires WellFormed(lines, scan) && WellFormed(lines[1..], scan)
    requires SegmentsClaim(lines[1..], scan, mul, p, cur + [Scale(scan(lines[0]).value, mul)], n + 1)
    ensures SegmentsClaim(lines, scan, mul, p, cur, n)
  {
    var pt := Scale(scan(lines[0]).value, mul);
    var s := Segments(lines, scan, mul);
    var s' := Segments(lines[1..], scan, mul);
    assert s == [[pt] + s'[0]] + s'[1..];
    assert cur + s[0] == (cur + [pt]) + s'[0];
    assert s[1..] == s'[1..];
  }

  /** The state machine, started anywhere, yields the non-empty groups of `Segments`. */
  lemma {:induction false} RunIsSegments(lines: seq<Line>, scan: Scanner, mul: int, p: Paths, cur: Path, n: nat)
    requires WellFormed(lines, scan)
    ensures var s := Segments(lines, scan, mul);
      Run(lines, scan, mul, p, cur, n) == Loaded(p + NonEmpty([cur + s[0]] + s[1..]))
    decreases |lines|
  {
    if |lines| == 0 {
      SegmentsAtEnd(scan, mul, p, cur, n);
    } else {
      WellFormedTail(lines, scan);
      var l := lines[0];
      if IsComment(l) {
        RunIsSegments(lines[1..], scan, mul, p, cur, n + 1);
      } else if IsBlank(l) {
        RunIsSegments(lines[1..], scan, mul, Flush(p, cur), [], n + 1);
        SegmentsAfterBlank(lines, scan, mul, p, cur, n);
      } else {
        RunIsSegments(lines[1..], scan, mul, p, cur + [Scale(scan(l).value, mul)], n + 1);
        SegmentsAfterData(lines, scan, mul, p, cur, n);
      }
    }
  }

  /** On a well-formed file, `load_poly` appends exactly the non-empty groups between blank lines. */
  lemma LoadIsSegments(lines: seq<Line>, scan: Scanner, mul: int, p: Paths)
    requires WellFormed(lines, scan)
    ensures LoadResult(lines, scan, mul, p) == Loaded(p + NonEmpty(Segments(lines, scan, mul)))
  {
    var s := Segments(lines, scan, mul);
    RunIsSegments(lines, scan, mul, p, [], 0);
    assert [] + s[0] == s[0];
    assert [[] + s[0]] + s[1..] == s;
  }

  /**
    Reading stops exactly when some data line does not yield two integers,
    and the reported line is the first such line.
  */
  lemma {:induction false} RunMalformed(lines: seq<Line>, scan: Scanner, mul: int, p: Paths, cur: Path, n: nat)
    ensures Run(lines, scan, mul, p, cur, n).Malformed? <==> !WellFormed(lines, scan)
    ensures Run(lines, scan, mul, p, cur, n).Malformed? ==>
      var j := Run(lines, scan, mul, p, cur, n).lineNo - n - 1;
      0 <= j < |lines| && IsData(lines[j]) && scan(lines[j]).None? && WellFormed(lines[..j], scan)
    decreases |lines|
  {
    if |lines| > 0 {
      var l := lines[0];
      var r := Run(lines, scan, mul, p, cur, n);
      if IsData(l) && scan(l).None? {
        assert r == Malformed(n + 1);
        assert lines[..0] == [];
      } else {
        var p', cur' := if IsBlank(l) then Flush(p, cur) else p,
                        if IsComment(l) then cur else if IsBlank(l) then [] else cur + [Scale(scan(l).value, mul)];
        assert r == Run(lines[1..], scan, mul, p', cur', n + 1);
        RunMalformed(lines[1..], scan, mul, p', cur', n + 1);
        if WellFormed(lines, scan) {
          WellFormedTail(lines, scan);
        } else {
          var i :| 0 <= i < |lines| && IsData(lines[i]) && scan(lines[i]).None?;
          assert i > 0;
          assert lines[1..][i - 1] == lines[i];
        }
        if r.Malformed? {
          var j := r.lineNo - (n + 1) - 1;
          assert lines[1..][j] == lines[j + 1];
          assert lines[1..][..j] == lines[1..j + 1];
          var pre := lines[..j + 1];
          forall i | 0 <= i < |pre| && IsData(pre[i])
            ensures scan(pre[i]).Some?
          {
            if i > 0 {
              assert pre[i] == lines[1..j + 1][i - 1];
            }
          }
        }
      }
    }
  }

  /** `load_poly` ends with exit code 2 exactly when a data line is malformed, naming the first one. */
  lemma LoadMalformed(lines: seq<Line>, scan: Scanner, mul: int, p: Paths)
    ensures LoadResult(lines, scan, mul, p).Malformed? <==> !WellFormed(lines, scan)
    ensures LoadResult(lines, scan, mul, p).Malformed? ==>
      var j := LoadResult(lines, scan, mul, p).lineNo - 1;
      0 <= j < |lines| && IsData(lines[j]) && scan(lines[j]).None? && WellFormed(lines[..j], scan)
    ensures ExitStatus(LoadResult(lines, scan, mul, p)) == (if WellFormed(lines, scan) then None else Some(MalformedExitCode))
  {
    RunMalformed(lines, scan, mul, p, [], 0);
  }

  lemma {:induction false} FlattenSegments(lines: seq<Line>, scan: Scanner, mul: int)
    requires WellFormed(lines, scan)
    ensures Flatten(Segments(lines, scan, mul)) == DataPoints(lines, scan, mul)
    decreases |lines|
  {
    if |lines| > 0 {
      WellFormedTail(lines, scan);
      FlattenSegments(lines[1..], scan, mul);
      var s' := Segments(lines[1..], scan, mul);
      var l := lines[0];
      if IsBlank(l) {
        assert ([[]] + s')[1..] == s';
      } else if IsData(l) {
        var pt := Scale(scan(l).value, mul);
        var s := [[pt] + s'[0]] + s'[1..];
        assert s[1..] == s'[1..];
        assert Flatten(s') == s'[0] + Flatten(s'[1..]);
      }
    }
  }

  /**
    On a well-formed file, `load_poly` keeps the contours already in `p`,
    appends only contours with points, and stores one point per data line,
    in line order, each the scaled pair of its own line.
  */
  lemma LoadedPoints(lines: seq<Line>, scan: Scanner, mul: int, p: Paths)
    requires WellFormed(lines, scan)
    ensures LoadResult(lines, scan, mul, p).Loaded?
    ensures var q := LoadResult(lines, scan, mul, p).paths;
      var d := DataLines(lines);
      |p| <= |q| && q[..|p|] == p &&
      (forall i :: |p| <= i < |q| ==> |q[i]| > 0) &&
      |Flatten(q[|p|..])| == |d| &&
      forall i :: 0 <= i < |d| ==>
        scan(d[i]).Some? && Flatten(q[|p|..])[i] == Scale(scan(d[i]).value, mul)
  {
    LoadIsSegments(lines, scan, mul, p);
    FlattenSegments(lines, scan, mul);
    var q := LoadResult(lines, scan, mul, p).paths;
    assert q[|p|..] == NonEmpty(Segments(lines, scan, mul));
    assert q[..|p|] == p;
  }

  /** The state machine only ever adds after what is already in `p`. */
  lemma {:induction false} RunAppends(lines: seq<Line>, scan: Scanner, mul: int, p: Paths, cur: Path, n: nat)
    ensures Run(lines, scan, mul, p, cur, n) == Prepend(p, Run(lines, scan, mul, [], cur, n))
    decreases |lines|
  {
    if |lines| > 0 {
      var l := lines[0];
      if IsComment(l) {
        RunAppends(lines[1..], scan, mul, p, cur, n + 1);
      } else if IsBlank(l) {
        RunAppends(lines[1..], scan, mul, Flush(p, cur), [], n + 1);
        RunAppends(lines[1..], scan, mul, Flush([], cur), [], n + 1);
        assert Flush(p, cur) == p + Flush([], cur);
        match Run(lines[1..], scan, mul, [], [], n + 1)
        case Loaded(q) =>
          assert Flush(p, cur) + q == p + (Flush([], cur) + q);
        case Malformed(_) =>
      } else if scan(l).Some? {
        RunAppends(lines[1..], scan, mul, p, cur + [Scale(scan(l).value, mul)], n + 1);
      }
    } else {
      assert Flush(p, cur) == p + Flush([], cur);
    }
  }

  /** `load_poly` into `p` is `load_poly` into an empty list, put after `p`. */
  lemma LoadAppends(lines: seq<Line>, scan: Scanner, mul: int, p: Paths)
    ensures LoadResult(lines, scan, mul, p) == Prepend(p, LoadResult(lines, scan, mul, []))
  {
    RunAppends(lines, scan, mul, p, [], 0);
  }

  /** Comment lines change nothing but line numbers: dropping them keeps the outcome. */
  lemma {:induction false} RunSkipsComments(lines: seq<Line>, scan: Scanner, mul: int, p: Paths, cur: Path, n: nat, m: nat)
    ensures var a := Run(lines, scan, mul, p, cur, n);
      var b := Run(Uncommented(lines), scan, mul, p, cur, m);
      a.Malformed? == b.Malformed? && (a.Loaded? ==> a == b)
    decreases |lines|
  {
    if |lines| > 0 {
      var l := lines[0];
      if IsComment(l) {
        assert Uncommented(lines) == Uncommented(lines[1..]);
        RunSkipsComments(lines[1..], scan, mul, p, cur, n + 1, m);
      } else {
        var u := Uncommented(lines);
        assert u == [l] + Uncommented(lines[1..]);
        assert u[1..] == Uncommented(lines[1..]);
        if IsBlank(l) {
          RunSkipsComments(lines[1..], scan, mul, Flush(p, cur), [], n + 1, m + 1);
        } else if scan(l).Some? {
          RunSkipsComments(lines[1..], scan, mul, p, cur + [Scale(scan(l).value, mul)], n + 1, m + 1);
        }
      }
    }
  }

  lemma LoadSkipsComments(lines: seq<Line>, scan: Scanner, mul: int, p: Paths)
    ensures LoadResult(lines, scan, mul, p).Malformed? == LoadResult(Uncommented(lines), scan, mul, p).Malformed?
    ensures LoadResult(lines, scan, mul, p).Loaded? ==>
      LoadResult(lines, scan, mul, p) == LoadResult(Uncommented(lines), scan, mul, p)
  {
    RunSkipsComments(lines, scan, mul, p, [], 0, 0);
  }

  /** `load_polys` concatenates the contours of the files in argument order after `p`. */
  lemma {:induction false} LoadPolysConcatenates(files: seq<seq<Line>>, scan: Scanner, mul: int, p: Paths)
    ensures LoadAllResult(files, scan, mul, p) == Prepend(p, EachFile(files, scan, mul))
    decreases |files|
  {
    if |files| > 0 {
      LoadAppends(files[0], scan, mul, p);
      match LoadResult(files[0], scan, mul, [])
      case Malformed(n) =>
      case Loaded(a) =>
        LoadPolysConcatenates(files[1..], scan, mul, p + a);
        match EachFile(files[1..], scan, mul)
        case Loaded(b) =>
          assert (p + a) + b == p + (a + b);
        case Malformed(_) =>
    } else {
      assert p + [] == p;
    }
  }

  /** Every file is well-formed. */
  predicate AllWellFormed(files: seq<seq<Line>>, scan: Scanner)
  {
    forall i :: 0 <= i < |files| ==> WellFormed(files[i], scan)
  }

  /** The reference points of each file, concatenated in argument order. */
  function FilesDataPoints(files: seq<seq<Line>>, scan: Scanner, mul: int): Path
    requires AllWellFormed(files, scan)
    decreases |files|
  {
    if |files| == 0 then []
    else
      assert forall i :: 0 <= i < |files[1..]| ==> files[1..][i] == files[i + 1];
      DataPoints(files[0], scan, mul) + FilesDataPoints(files[1..], scan, mul)
  }

  lemma {:induction false} EachFilePoints(files: seq<seq<Line>>, scan: Scanner, mul: int)
    requires AllWellFormed(files, scan)
    ensures EachFile(files, scan, mul).Loaded?
    ensures Flatten(EachFile(files, scan, mul).paths) == FilesDataPoints(files, scan, mul)
    decreases |files|
  {
    if |files| > 0 {
      var f := files[0];
      assert WellFormed(f, scan);
      assert forall i :: 0 <= i < |files[1..]| ==> files[1..][i] == files[i + 1];
      LoadIsSegments(f, scan, mul, []);
      FlattenSegments(f, scan, mul);
      var a := NonEmpty(Segments(f, scan, mul));
      assert LoadResult(f, scan, mul, []) == Loaded(a) by {
        assert [] + a == a;
      }
      EachFilePoints(files[1..], scan, mul);
      var b := EachFile(files[1..], scan, mul).paths;
      FlattenAppend(a, b);
    }
  }

  /**
    When every file is well-formed, `load_polys` keeps the contours already in
    `p` and appends contours holding exactly the points of each file's data
    lines, file after file in argument order.
  */
  lemma LoadPolysPoints(files: seq<seq<Line>>, scan: Scanner, mul: int, p: Paths)
    requires AllWellFormed(files, scan)
    ensures LoadAllResult(files, scan, mul, p).Loaded?
    ensures var q := LoadAllResult(files, scan, mul, p).paths;
      |p| <= |q| && q[..|p|] == p && Flatten(q[|p|..]) == FilesDataPoints(files, scan, mul)
  {
    LoadPolysConcatenates(files, scan, mul, p);
    EachFilePoints(files, scan, mul);
    var b := EachFile(files, scan, mul).paths;
    assert (p + b)[..|p|] == p && (p + b)[|p|..] == b;
  }
}
