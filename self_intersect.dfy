/**
  The self-intersection diagnostic (`self_intersect_test`).

  The contour is cleaned in place by the engine's `CleanPolygon`, the cleaned
  contour is handed to `SimplifyPolygon`, and the contour is reported simple
  (0) only when the engine returns exactly one contour with the same number
  of vertices, that contour contains the cleaned contour's first vertex, and
  a lockstep walk from that vertex finds no mismatch. Anything else is 1.

  Both engine operations are parameters: their internals are not modelled.
*/
module SelfIntersect {
  import opened ClipperTypes

  /** The engine's `CleanPolygon`. */
  type Cleaner = Path -> Path

  /** The engine's `SimplifyPolygon`. */
  type Simplifier = Path -> Paths

  /**
    When the lockstep walk counts two vertices as different: the code tests
    that both coordinates differ; the intended test is that either does.
  */
  datatype MismatchRule = BothCoordinates | AnyCoordinate

  predicate Mismatch(rule: MismatchRule, a: IntPoint, b: IntPoint)
  {
    match rule
    case BothCoordinates => a.x != b.x && a.y != b.y
    case AnyCoordinate => a.x != b.x || a.y != b.y
  }

  /** The index of the first occurrence of `pt` in `q`, or `|q|` when there is none. */
  function FirstIndexOf(q: Path, pt: IntPoint): (j: nat)
    ensures j <= |q|
    ensures j < |q| ==> q[j] == pt
    ensures forall i :: 0 <= i < j ==> q[i] != pt
    decreases |q|
  {
    if |q| == 0 then 0
    else if q[0] == pt then 0
    else 1 + FirstIndexOf(q[1..], pt)
  }

  /** The size guards: one non-empty simplified contour as long as the non-empty cleaned one. */
  predicate Comparable(c: Path, o: Paths)
  {
    |c| >= 1 && |o| == 1 && |o[0]| >= 1 && |o[0]| == |c|
  }

  /** No walk step from `beg` finds vertex `k` of `c` mismatched with vertex `(beg + k) mod n` of `q`. */
  predicate WalkAgrees(c: Path, q: Path, beg: nat, rule: MismatchRule)
    requires |q| == |c| && beg < |c|
  {
    forall k :: 1 <= k < |c| ==> !Mismatch(rule, q[(beg + k) % |c|], c[k])
  }

  /** The diagnostic's answer for `poly`: 0 for simple, 1 otherwise. */
  function Verdict(poly: Path, clean: Cleaner, simplify: Simplifier, rule: MismatchRule): (r: int)
    ensures r == 0 || r == 1
  {
    if |poly| < 1 then 1
    else
      var c := clean(poly);
      var o := simplify(c);
      if !Comparable(c, o) then 1
      else
        var beg := FirstIndexOf(o[0], c[0]);
        if beg == |o[0]| then 1
        else if WalkAgrees(c, o[0], beg, rule) then 0
        else 1
  }

  lemma ModSmall(x: int, n: int)
    requires 0 <= x < n
    ensures x % n == x
  {
  }

  lemma ModWrap(x: int, n: int)
    requires n <= x < 2 * n
    ensures x % n == x - n
  {
  }

  /** `(x + 1) mod n` for a position `x` of the ring, as index arithmetic. */
  lemma ModNext(x: int, n: int)
    requires 0 <= x < 2 * n
    ensures (x % n + 1) % n == (x + 1) % n
  {
    if x < n {
      ModSmall(x, n);
    } else {
      ModWrap(x, n);
      if x + 1 < 2 * n {
        ModWrap(x + 1, n);
      } else {
        ModSmall(0, n);
      }
    }
    if x % n + 1 < n {
      ModSmall(x % n + 1, n);
    } else {
      ModWrap(x % n + 1, n);
    }
  }

  /** The walk from `beg` comes back to `beg` after exactly `n` steps. */
  lemma ModReturn(beg: int, t: int, n: int)
    requires 0 <= beg < n && 1 <= t <= n
    ensures (beg + t) % n == beg <==> t == n
  {
    if beg + t < n {
      ModSmall(beg + t, n);
    } else {
      ModWrap(beg + t, n);
    }
  }

  /** The search for the rotation offset: the first vertex of `q` equal to `pt`, or `|q|`. */
  method FindStart(q: Path, pt: IntPoint) returns (begInd: nat)
    ensures begInd == FirstIndexOf(q, pt)
  {
    begInd := 0;
    while begInd < |q| && !(q[begInd].x == pt.x && q[begInd].y == pt.y)
      invariant begInd <= |q|
      invariant forall j :: 0 <= j < begInd ==> q[j] != pt
    {
      begInd := begInd + 1;
    }
  }

  /**
    The lockstep walk: `i` runs round the ring of `q` from `begInd + 1` back to
    `begInd` while `k` runs over `c` from 1; false at the first mismatch.
  */
  method Walk(c: Path, q: Path, begInd: nat, rule: MismatchRule) returns (ok: bool)
    requires |q| == |c| && begInd < |c|
    ensures ok == WalkAgrees(c, q, begInd, rule)
  {
    var n := |c|;
    var k := 1;
    var i := (begInd + 1) % n;
    ghost var t := 1;
    ModReturn(begInd, 1, n);
    while i != begInd
      invariant 1 <= t <= n
      invariant t < n ==> k == t
      invariant i == (begInd + t) % n
      invariant i == begInd <==> t == n
      invariant forall m :: 1 <= m < t ==> !Mismatch(rule, q[(begInd + m) % n], c[m])
      decreases n - t
    {
      if Mismatch(rule, q[i], c[k]) {
        return false;
      }
      ModNext(begInd + t, n);
      if t + 1 < n {
        ModSmall(t + 1, n);
      }
      ModReturn(begInd, t + 1, n);
      i := (i + 1) % n;
      k := (k + 1) % n;
      t := t + 1;
    }
    return true;
  }

  /**
    The body of `self_intersect_test` with the walk's mismatch test as a
    parameter. `cleaned` is the caller's contour after the call.
  */
  method Check(poly: Path, clean: Cleaner, simplify: Simplifier, rule: MismatchRule) returns (r: int, cleaned: Path)
    ensures cleaned == if |poly| < 1 then poly else clean(poly)
    ensures r == Verdict(poly, clean, simplify, rule)
  {
    cleaned := poly;
    if |poly| < 1 {
      return 1, cleaned;
    }
    cleaned := clean(poly);
    var opolys := simplify(cleaned);
    if |cleaned| < 1 || |opolys| != 1 || |opolys[0]| < 1 || |opolys[0]| != |cleaned| {
      return 1, cleaned;
    }
    var begInd := FindStart(opolys[0], cleaned[0]);
    if begInd == |opolys[0]| {
      return 1, cleaned;
    }
    var ok := Walk(cleaned, opolys[0], begInd, rule);
    r := if ok then 0 else 1;
  }

  /**
    `self_intersect_test` as written: 1 for empty input, failed size guards,
    a first vertex missing from the simplified contour or a walk step where
    both coordinates differ; 0 otherwise. The input is replaced by its
    cleaned form.
  */
  method SelfIntersectTest(poly: Path, clean: Cleaner, simplify: Simplifier) returns (r: int, cleaned: Path)
    ensures cleaned == if |poly| < 1 then poly else clean(poly)
    ensures r == 0 || r == 1
    ensures |poly| < 1 ==> r == 1
    ensures |poly| >= 1 && !Comparable(clean(poly), simplify(clean(poly))) ==> r == 1
    ensures r == Verdict(poly, clean, simplify, BothCoordinates)
  {
    r, cleaned := Check(poly, clean, simplify, BothCoordinates);
  }

  /** The same diagnostic with a walk step counted as a mismatch when the vertices differ at all. */
  method SelfIntersectTestCorrected(poly: Path, clean: Cleaner, simplify: Simplifier) returns (r: int, cleaned: Path)
    ensures cleaned == if |poly| < 1 then poly else clean(poly)
    ensures r == 0 || r == 1
    ensures |poly| < 1 ==> r == 1
    ensures |poly| >= 1 && !Comparable(clean(poly), simplify(clean(poly))) ==> r == 1
    ensures r == Verdict(poly, clean, simplify, AnyCoordinate)
  {
    r, cleaned := Check(poly, clean, simplify, AnyCoordinate);
  }

  // ---------------------------------------------------------------------
  // Properties

  /** `c` turned so that it starts at its vertex `s`. */
  function Rotate(c: Path, s: nat): (r: Path)
    requires s <= |c|
    ensures |r| == |c|
  {
    c[s..] + c[..s]
  }

  lemma RotateAt(c: Path, s: nat, j: nat)
    requires s < |c| && j < |c|
    ensures j < |c| - s ==> Rotate(c, s)[j] == c[j + s]
    ensures j >= |c| - s ==> Rotate(c, s)[j] == c[j + s - |c|]
  {
  }

  /** The rotation offset of `Rotate(c, s)` at which `c[0]` sits. */
  function StartOf(n: nat, s: nat): nat
    requires s < n
  {
    if s == 0 then 0 else n - s
  }

  lemma RotationWalk(c: Path, s: nat, rule: MismatchRule)
    requires s < |c|
    ensures StartOf(|c|, s) < |c|
    ensures WalkAgrees(c, Rotate(c, s), StartOf(|c|, s), rule)
  {
    var n := |c|;
    var q := Rotate(c, s);
    var beg := StartOf(n, s);
    forall k | 1 <= k < n
      ensures q[(beg + k) % n] == c[k]
    {
      if beg + k < n {
        ModSmall(beg + k, n);
        RotateAt(c, s, beg + k);
      } else {
        ModWrap(beg + k, n);
        RotateAt(c, s, beg + k - n);
      }
    }
  }

  lemma RotationStart(c: Path, s: nat)
    requires s < |c|
    requires forall j :: 0 < j < |c| ==> c[j] != c[0]
    ensures FirstIndexOf(Rotate(c, s), c[0]) == StartOf(|c|, s)
  {
    var q := Rotate(c, s);
    var beg := StartOf(|c|, s);
    RotateAt(c, s, beg);
    forall j | 0 <= j < beg
      ensures q[j] != c[0]
    {
      RotateAt(c, s, j);
    }
  }

  /**
    A simplified contour that is the cleaned contour rotated is judged simple,
    under either mismatch rule, when the first vertex does not occur again.
  */
  lemma RotationAccepted(poly: Path, clean: Cleaner, simplify: Simplifier, rule: MismatchRule, s: nat)
    requires |poly| >= 1 && |clean(poly)| >= 1 && s < |clean(poly)|
    requires simplify(clean(poly)) == [Rotate(clean(poly), s)]
    requires forall j :: 0 < j < |clean(poly)| ==> clean(poly)[j] != clean(poly)[0]
    ensures Verdict(poly, clean, simplify, rule) == 0
  {
    RotationStart(clean(poly), s);
    RotationWalk(clean(poly), s, rule);
  }

  /**
    With the corrected rule, a contour judged simple has a simplified
    counterpart that is exactly the cleaned contour rotated.
  */
  lemma CorrectedAcceptsOnlyRotations(poly: Path, clean: Cleaner, simplify: Simplifier)
    requires Verdict(poly, clean, simplify, AnyCoordinate) == 0
    ensures |poly| >= 1 && |clean(poly)| >= 1
    ensures exists s :: 0 <= s < |clean(poly)| && simplify(clean(poly)) == [Rotate(clean(poly), s)]
  {
    var c := clean(poly);
    var q := simplify(c)[0];
    assert simplify(c) == [q];
    var beg := FirstIndexOf(q, c[0]);
    assert WalkAgrees(c, q, beg, AnyCoordinate);
    var s := WalkIsRotation(c, q, beg);
  }

  /** A walk that finds no difference from a vertex equal to `c[0]` describes a rotation. */
  lemma WalkIsRotation(c: Path, q: Path, beg: nat) returns (s: nat)
    requires |q| == |c| && beg < |c| && q[beg] == c[0]
    requires WalkAgrees(c, q, beg, AnyCoordinate)
    ensures s < |c| && q == Rotate(c, s)
  {
    var n := |c|;
    s := if beg == 0 then 0 else n - beg;
    forall j | 0 <= j < n
      ensures q[j] == Rotate(c, s)[j]
    {
      RotateAt(c, s, j);
      if j > beg {
        var k := j - beg;
        ModSmall(beg + k, n);
        assert !Mismatch(AnyCoordinate, q[(beg + k) % n], c[k]);
      } else if j < beg {
        var k := j + n - beg;
        ModWrap(beg + k, n);
        assert !Mismatch(AnyCoordinate, q[(beg + k) % n], c[k]);
      }
    }
  }

  /** Whatever the corrected diagnostic calls simple, the code as written calls simple too. */
  lemma AsWrittenAcceptsMore(poly: Path, clean: Cleaner, simplify: Simplifier)
    requires Verdict(poly, clean, simplify, AnyCoordinate) == 0
    ensures Verdict(poly, clean, simplify, BothCoordinates) == 0
  {
    if |poly| >= 1 {
      var c := clean(poly);
      var o := simplify(c);
      var beg := FirstIndexOf(o[0], c[0]);
      forall k | 1 <= k < |c|
        ensures !Mismatch(BothCoordinates, o[0][(beg + k) % |c|], c[k])
      {
        assert !Mismatch(AnyCoordinate, o[0][(beg + k) % |c|], c[k]);
      }
    }
  }

  /**
    The code as written calls a square simple against a simplified contour
    whose last vertex differs in one coordinate only; the corrected rule
    rejects it.
  */
  lemma SingleCoordinateDifferenceAccepted()
    ensures var square := [IntPoint(0, 0), IntPoint(10, 0), IntPoint(10, 10), IntPoint(0, 10)];
      var other := [IntPoint(0, 0), IntPoint(10, 0), IntPoint(10, 10), IntPoint(5, 10)];
      other != square &&
      Verdict(square, c => c, c => [other], BothCoordinates) == 0 &&
      Verdict(square, c => c, c => [other], AnyCoordinate) == 1
  {
    var square := [IntPoint(0, 0), IntPoint(10, 0), IntPoint(10, 10), IntPoint(0, 10)];
    var other := [IntPoint(0, 0), IntPoint(10, 0), IntPoint(10, 10), IntPoint(5, 10)];
    assert FirstIndexOf(other, square[0]) == 0;
    assert (0 + 1) % 4 == 1 && (0 + 2) % 4 == 2 && (0 + 3) % 4 == 3;
    assert WalkAgrees(square, other, 0, BothCoordinates);
    assert Mismatch(AnyCoordinate, other[(0 + 3) % 4], square[3]);
  }

  /**
    Why `RotationAccepted` asks for a start vertex that occurs once: this ring
    visits (0,0) twice, and Simplify handing back its rotation by two puts the
    first (0,0) of the result at the wrong offset, so both rules answer 1.
  */
  lemma RepeatedStartRotationRejected()
    ensures var c := [IntPoint(0, 0), IntPoint(10, 0), IntPoint(0, 0), IntPoint(0, 10)];
      Rotate(c, 2) == [IntPoint(0, 0), IntPoint(0, 10), IntPoint(0, 0), IntPoint(10, 0)] &&
      Verdict(c, x => x, x => [Rotate(c, 2)], BothCoordinates) == 1 &&
      Verdict(c, x => x, x => [Rotate(c, 2)], AnyCoordinate) == 1
  {
    var c := [IntPoint(0, 0), IntPoint(10, 0), IntPoint(0, 0), IntPoint(0, 10)];
    var q := Rotate(c, 2);
    assert q == [IntPoint(0, 0), IntPoint(0, 10), IntPoint(0, 0), IntPoint(10, 0)];
    assert FirstIndexOf(q, c[0]) == 0;
    assert (0 + 1) % 4 == 1;
    assert Mismatch(BothCoordinates, q[(0 + 1) % 4], c[1]);
  }
}
