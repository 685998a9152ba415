/** `np.clip(Z, 0, 255)` on a decoded image: every entry is clamped into the
    pixel range, out-of-range values are pulled to the nearer bound, never
    wrapped or rejected. Images are matrices of integers. */
module Clip {

  type Matrix = seq<seq<int>>

  const PixelMin: int := 0
  const PixelMax: int := 255

  function Clamp(v: int): (c: int)
    ensures PixelMin <= c <= PixelMax
    ensures PixelMin <= v <= PixelMax ==> c == v
    ensures v < PixelMin ==> c == PixelMin
    ensures v > PixelMax ==> c == PixelMax
  {
    if v < PixelMin then PixelMin else if v > PixelMax then PixelMax else v
  }

  predicate SameShape(a: Matrix, b: Matrix)
  {
    |a| == |b| && forall i :: 0 <= i < |a| ==> |a[i]| == |b[i]|
  }

  predicate InRange(z: Matrix)
  {
    forall i, j :: 0 <= i < |z| && 0 <= j < |z[i]| ==> PixelMin <= z[i][j] <= PixelMax
  }

  /** Entry-wise `a <= b` on two matrices of the same shape. */
  predicate Below(a: Matrix, b: Matrix)
    requires SameShape(a, b)
  {
    forall i, j :: 0 <= i < |a| && 0 <= j < |a[i]| ==> a[i][j] <= b[i][j]
  }

  function ClipRow(row: seq<int>): (c: seq<int>)
    ensures |c| == |row|
    ensures forall j :: 0 <= j < |row| ==> c[j] == Clamp(row[j])
  {
    seq(|row|, j requires 0 <= j < |row| => Clamp(row[j]))
  }

  /** The clipped reconstruction: same shape, every entry clamped. */
  function ClipImage(z: Matrix): (c: Matrix)
    ensures SameShape(c, z)
    ensures InRange(c)
    ensures forall i, j :: 0 <= i < |z| && 0 <= j < |z[i]| ==> c[i][j] == Clamp(z[i][j])
  {
    seq(|z|, i requires 0 <= i < |z| => ClipRow(z[i]))
  }

  /** An image already in range is left as it is. */
  lemma ClipInRange(z: Matrix)
    requires InRange(z)
    ensures ClipImage(z) == z
  {
    var c := ClipImage(z);
    forall i | 0 <= i < |z|
      ensures c[i] == z[i]
    {
      assert |c[i]| == |z[i]|;
    }
  }

  /** Clipping twice is clipping once. */
  lemma ClipIdempotent(z: Matrix)
    ensures ClipImage(ClipImage(z)) == ClipImage(z)
  {
    ClipInRange(ClipImage(z));
  }

  /** Clipping is monotone: an entry-wise smaller image clips to an entry-wise smaller image. */
  lemma ClipMonotone(a: Matrix, b: Matrix)
    requires SameShape(a, b) && Below(a, b)
    ensures SameShape(ClipImage(a), ClipImage(b)) && Below(ClipImage(a), ClipImage(b))
  {
  }
}
