/** Value types shared by the command-line front end and the clipping engine it drives. */
module ClipperTypes {

  /** The engine's integer point; equality is exact on both coordinates. */
  datatype IntPoint = IntPoint(x: int, y: int)

  /** A contour: an implicitly closed ring of points. */
  type Path = seq<IntPoint>

  /** A list of contours. */
  type Paths = seq<Path>

  datatype Option<+T> = None | Some(value: T)

  /** All points of `ps`, contour after contour. */
  function Flatten(ps: Paths): (r: Path)
    ensures |ps| == 0 ==> r == []
  {
    if |ps| == 0 then [] else ps[0] + Flatten(ps[1..])
  }

  lemma {:induction false} FlattenAppend(a: Paths, b: Paths)
    ensures Flatten(a + b) == Flatten(a) + Flatten(b)
  {
    if |a| == 0 {
      assert a + b == b;
    } else {
      assert (a + b)[1..] == a[1..] + b;
      FlattenAppend(a[1..], b);
    }
  }
}
