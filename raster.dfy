/**
 * The in-memory image of LambdaFunctionHandler and its quarter turn
 * (rotateClockwise90).
 *
 * A raster is seen the way BufferedImage.getRGB(x, y) sees it: px[x][y] is the
 * packed pixel in column x and row y, with rows growing downward. Colour models
 * are not modelled; a pixel is an int.
 */
module Raster {
  /** A raster: its width, its height, and its pixels, px[x][y] for column x and row y. */
  datatype Grid = Grid(width: nat, height: nat, px: seq<seq<int>>)

  /** A BufferedImage always has at least one column and one row, and every
      column holds one pixel per row. */
  predicate WellFormed(r: Grid) {
    r.width >= 1 && r.height >= 1 && |r.px| == r.width &&
    forall x :: 0 <= x < r.width ==> |r.px[x]| == r.height
  }

  type Image = r: Grid | WellFormed(r) witness Grid(1, 1, [[0]])

  /** Two images with the same dimensions and the same pixels are the same value. */
  lemma SameImage(a: Image, b: Image)
    requires a.width == b.width && a.height == b.height
    requires forall x, y :: 0 <= x < a.width && 0 <= y < a.height ==> a.px[x][y] == b.px[x][y]
    ensures a == b
  {
    forall x | 0 <= x < a.width
      ensures a.px[x] == b.px[x]
    {
      assert forall y :: 0 <= y < a.height ==> a.px[x][y] == b.px[x][y];
    }
  }

  /**
   * The quarter turn that rotateClockwise90 performs: the result is h wide and
   * w high, and the source pixel at column x, row y lands at column y, row
   * w-1-x. The top-left pixel thus ends at the bottom-left, which is a
   * counter-clockwise turn in image coordinates (see RotateUndoesClockwise).
   */
  function Rotate(r: Image): (d: Image)
    ensures d.width == r.height && d.height == r.width
  {
    Grid(r.height, r.width,
      seq(r.height, i requires 0 <= i < r.height =>
        seq(r.width, j requires 0 <= j < r.width => r.px[r.width - 1 - j][i])))
  }

  /** Every source pixel (x, y) of a w-wide image reappears, unchanged, at (y, w-1-x)
      of the turned image. */
  lemma RotateMapsPixels(r: Image)
    ensures forall x, y :: 0 <= x < r.width && 0 <= y < r.height ==>
      Rotate(r).px[y][r.width - 1 - x] == r.px[x][y]
  {
  }

  /** The image after n successive turns, as the detection loop sees it at its
      n-th iteration. */
  function Turned(r: Image, n: nat): Image
    decreases n
  {
    if n == 0 then r else Turned(Rotate(r), n - 1)
  }

  /** Four turns give back the original image, dimensions and every pixel, so the
      four iterations of the detection loop see four distinct orientations of
      one image and no more. */
  lemma {:induction false} RotateFourTimes(r: Image)
    ensures Turned(r, 4) == r
  {
    var r1 := Rotate(r);
    var r2 := Rotate(r1);
    var r3 := Rotate(r2);
    var r4 := Rotate(r3);
    var w, h := r.width, r.height;
    forall x, y | 0 <= x < w && 0 <= y < h
      ensures r4.px[x][y] == r.px[x][y]
    {
      assert r1.px[y][w - 1 - x] == r.px[x][y];
      assert r2.px[w - 1 - x][h - 1 - y] == r1.px[y][w - 1 - x];
      assert r3.px[h - 1 - y][x] == r2.px[w - 1 - x][h - 1 - y];
      assert r4.px[x][y] == r3.px[h - 1 - y][x];
    }
    SameImage(r4, r);
  }

  /** A clockwise quarter turn in image coordinates (y grows downward): the pixel
      at column x, row y moves to column h-1-y, row x, so the top-left pixel ends
      at the top-right. */
  function Clockwise(r: Image): (d: Image)
    ensures d.width == r.height && d.height == r.width
  {
    Grid(r.height, r.width,
      seq(r.height, i requires 0 <= i < r.height =>
        seq(r.width, j requires 0 <= j < r.width => r.px[j][r.height - 1 - i])))
  }

  /** The turn of rotateClockwise90 undoes a clockwise turn ... */
  lemma RotateUndoesClockwise(r: Image)
    ensures Rotate(Clockwise(r)) == r
  {
    var w, h := r.width, r.height;
    var c := Clockwise(r);
    var rc := Rotate(c);
    forall x, y | 0 <= x < w && 0 <= y < h
      ensures rc.px[x][y] == r.px[x][y]
    {
      assert c.px[h - 1 - y][x] == r.px[x][y];
      assert rc.px[x][h - 1 - (h - 1 - y)] == c.px[h - 1 - y][x];
    }
    SameImage(rc, r);
  }

  /** ... and a clockwise turn undoes it: the two are inverse, so the turn of
      rotateClockwise90 is a counter-clockwise turn. */
  lemma ClockwiseUndoesRotate(r: Image)
    ensures Clockwise(Rotate(r)) == r
  {
    var w, h := r.width, r.height;
    var q := Rotate(r);
    var cq := Clockwise(q);
    forall x, y | 0 <= x < w && 0 <= y < h
      ensures cq.px[x][y] == r.px[x][y]
    {
      assert q.px[y][w - 1 - x] == r.px[x][y];
      assert cq.px[w - 1 - (w - 1 - x)][y] == q.px[y][w - 1 - x];
    }
    SameImage(cq, r);
  }

  /** On a two-pixel row the turn of rotateClockwise90 and a clockwise turn give
      different images: the method's name does not describe its mapping. */
  lemma RotateDiffersFromClockwise()
    ensures var r: Image := Grid(2, 1, [[1], [2]]); Rotate(r) != Clockwise(r)
  {
    var r: Image := Grid(2, 1, [[1], [2]]);
    assert Rotate(r).px[0][0] == r.px[1][0] == 2;
    assert Clockwise(r).px[0][0] == r.px[0][0] == 1;
  }

  /** Destination of the source pixel (x, y) in a w-wide image. */
  function Remap(w: int, x: int, y: int): (int, int) {
    (y, w - 1 - x)
  }

  /** Source of the destination pixel (i, j) in a turn of a w-wide image. */
  function Unmap(w: int, i: int, j: int): (int, int) {
    (w - 1 - j, i)
  }

  /** The remap of the nested loops is a bijection from the w-by-h source grid
      onto the h-by-w destination grid: no two source pixels share a destination,
      and every destination pixel has a source, so each is written exactly once. */
  lemma RemapIsBijection(w: nat, h: nat)
    ensures forall x, y, x', y' ::
      (0 <= x < w && 0 <= y < h && 0 <= x' < w && 0 <= y' < h &&
       Remap(w, x, y) == Remap(w, x', y')) ==> x == x' && y == y'
    ensures forall x, y :: 0 <= x < w && 0 <= y < h ==>
      0 <= Remap(w, x, y).0 < h && 0 <= Remap(w, x, y).1 < w
    ensures forall i, j :: 0 <= i < h && 0 <= j < w ==>
      0 <= Unmap(w, i, j).0 < w && 0 <= Unmap(w, i, j).1 < h &&
      Remap(w, Unmap(w, i, j).0, Unmap(w, i, j).1) == (i, j)
  {
  }

  /** The image an array holds, read through getRGB(x, y) as a[x, y]. */
  function Contents(a: array2<int>): (r: Image)
    reads a
    requires a.Length0 >= 1 && a.Length1 >= 1
    ensures r.width == a.Length0 && r.height == a.Length1
    ensures forall x, y :: 0 <= x < a.Length0 && 0 <= y < a.Length1 ==> r.px[x][y] == a[x, y]
  {
    Grid(a.Length0, a.Length1,
      seq(a.Length0, x reads a requires 0 <= x < a.Length0 =>
        seq(a.Length1, y reads a requires 0 <= y < a.Length1 => a[x, y])))
  }

  /**
   * rotateClockwise90: allocates an h-by-w image and copies every source pixel
   * (x, y) to Remap(w, x, y) = (y, w-1-x), row by row. Because the remap is a
   * bijection, every destination pixel ends up holding the source pixel at
   * Unmap of its position. The source is only read.
   */
  method RotateClockwise90(src: array2<int>) returns (dest: array2<int>)
    requires src.Length0 >= 1 && src.Length1 >= 1
    ensures fresh(dest)
    ensures dest.Length0 == src.Length1 && dest.Length1 == src.Length0
    ensures forall x, y :: 0 <= x < src.Length0 && 0 <= y < src.Length1 ==>
      dest[y, src.Length0 - 1 - x] == src[x, y]
    ensures forall i, j :: 0 <= i < src.Length1 && 0 <= j < src.Length0 ==>
      dest[i, j] == src[Unmap(src.Length0, i, j).0, Unmap(src.Length0, i, j).1]
    ensures Contents(dest) == Rotate(Contents(src))
  {
    var w, h := src.Length0, src.Length1;
    dest := new int[h, w];
    for y := 0 to h
      invariant forall y', x :: 0 <= y' < y && 0 <= x < w ==> dest[y', w - 1 - x] == src[x, y']
    {
      for x := 0 to w
        invariant forall y', x' :: 0 <= y' < y && 0 <= x' < w ==> dest[y', w - 1 - x'] == src[x', y']
        invariant forall x' :: 0 <= x' < x ==> dest[y, w - 1 - x'] == src[x', y]
      {
        var (i, j) := Remap(w, x, y);
        dest[i, j] := src[x, y];
      }
    }
    // Every destination pixel has a source pixel, whose store filled it.
    RemapIsBijection(w, h);
    forall i, j | 0 <= i < h && 0 <= j < w
      ensures dest[i, j] == src[Unmap(w, i, j).0, Unmap(w, i, j).1]
    {
      var (x, y) := Unmap(w, i, j);
      assert Remap(w, x, y) == (i, j);
    }
    var d, r := Contents(dest), Rotate(Contents(src));
    SameImage(d, r);
  }
}
