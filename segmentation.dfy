/** The placeholder segmentation model of the inference server (`run_model`).

    It ignores the pixel values of its input and marks a disc in an h x w grid:
    entry (y, x) is 1 when `(x - cx)^2 + (y - cx)^2 <= r^2`, with `cx = w / 2`
    and `r = min(h, w) / 4`, and 0 otherwise. The row centre `cy = h / 2` is
    computed by the server but never used: the row coordinate is compared with
    the COLUMN centre, so the disc sits on the diagonal and, for non-square
    images, away from the image centre. The model keeps that behaviour. */
module Segmentation {

  /** `cx = w // 2`: the middle column, used as the centre of both
      coordinates. It splits the columns evenly, one more on the right when w
      is odd. */
  function CentreCol(w: nat): (c: nat)
    ensures 2 * c <= w <= 2 * c + 1
  {
    w / 2
  }

  /** `cy = h // 2`: computed by the server, never used by the mask. */
  function CentreRow(h: nat): nat { h / 2 }

  /** `r = min(h, w) // 4`: a quarter of the shorter side, rounded down. */
  function Radius(h: nat, w: nat): (r: nat)
    ensures 4 * r <= h && 4 * r <= w
    ensures h < 4 * r + 4 || w < 4 * r + 4
  {
    (if h <= w then h else w) / 4
  }

  /** The disc test as the server writes it: the row is measured against `cx`.
      The point (cx, cx) is always inside, and each offset of an inside point
      from cx is at most r on its own. */
  predicate InDisc(h: nat, w: nat, y: int, x: int): (b: bool)
    ensures y == CentreCol(w) && x == CentreCol(w) ==> b
    ensures b ==> (x - CentreCol(w)) * (x - CentreCol(w)) <= Radius(h, w) * Radius(h, w)
    ensures b ==> (y - CentreCol(w)) * (y - CentreCol(w)) <= Radius(h, w) * Radius(h, w)
  {
    var c := CentreCol(w);
    var r := Radius(h, w);
    var a, d := x - c, y - c;
    assert 0 <= a * a && 0 <= d * d;
    a * a + d * d <= r * r
  }

  /** The disc centred on the image centre (cy, cx) that the unused `cy`
      suggests. Used only to state where the two differ. */
  predicate InCentredDisc(h: nat, w: nat, y: int, x: int)
  {
    var r := Radius(h, w);
    (x - CentreCol(w)) * (x - CentreCol(w)) + (y - CentreRow(h)) * (y - CentreRow(h)) <= r * r
  }

  /** `run_model`: a zero mask of the image's first two dimensions, with 1
      written in place at every disc position. The pixel values are never read,
      so the mask is determined by the shape alone. The image is not modified
      (no `modifies` clause). */
  method RunModel<T>(image: array2<T>) returns (mask: array2<int>)
    ensures fresh(mask)
    ensures mask.Length0 == image.Length0 && mask.Length1 == image.Length1
    ensures forall y, x :: 0 <= y < mask.Length0 && 0 <= x < mask.Length1 ==>
              mask[y, x] == if InDisc(image.Length0, image.Length1, y, x) then 1 else 0
  {
    var h, w := image.Length0, image.Length1;
    mask := new int[h, w]((y, x) => 0);
    var y := 0;
    while y < h
      invariant 0 <= y <= h
      invariant forall i, j :: 0 <= i < y && 0 <= j < w ==>
                  mask[i, j] == if InDisc(h, w, i, j) then 1 else 0
      invariant forall i, j :: y <= i < h && 0 <= j < w ==> mask[i, j] == 0
    {
      var x := 0;
      while x < w
        invariant 0 <= x <= w
        invariant forall i, j :: 0 <= i < y && 0 <= j < w ==>
                    mask[i, j] == if InDisc(h, w, i, j) then 1 else 0
        invariant forall j :: 0 <= j < x ==> mask[y, j] == if InDisc(h, w, y, j) then 1 else 0
        invariant forall j :: x <= j < w ==> mask[y, j] == 0
        invariant forall i, j :: y < i < h && 0 <= j < w ==> mask[i, j] == 0
      {
        if InDisc(h, w, y, x) {
          mask[y, x] := 1;
        }
        x := x + 1;
      }
      y := y + 1;
    }
  }

  /** A square bounded by r * r bounds its root: d * d <= r * r gives |d| <= r. */
  lemma SquareBound(d: int, r: int)
    requires 0 <= r && d * d <= r * r
    ensures -r <= d <= r
  {
  }

  /** Every marked position lies in the (2r+1) x (2r+1) box around (cx, cx). */
  lemma DiscInsideBox(h: nat, w: nat, y: int, x: int)
    requires InDisc(h, w, y, x)
    ensures CentreCol(w) - Radius(h, w) <= x <= CentreCol(w) + Radius(h, w)
    ensures CentreCol(w) - Radius(h, w) <= y <= CentreCol(w) + Radius(h, w)
  {
    var c, r := CentreCol(w), Radius(h, w);
    SquareBound(x - c, r);
    SquareBound(y - c, r);
  }

  /** When `w // 2` is a row of the image (and the image has a column), the
      pixel (w // 2, w // 2) is marked, even when the radius is 0. */
  lemma CentrePixelMarked(h: nat, w: nat)
    requires 1 <= w && CentreCol(w) < h
    ensures CentreCol(w) < w
    ensures InDisc(h, w, CentreCol(w), CentreCol(w))
  {
  }

  /** When the disc centre lies more than r rows below the last row (wide,
      short images), no pixel of the image is marked at all. */
  lemma MaskEmptyFarFromCentre(h: nat, w: nat)
    requires CentreCol(w) > h - 1 + Radius(h, w)
    ensures forall y, x :: 0 <= y < h ==> !InDisc(h, w, y, x)
  {
    forall y, x | 0 <= y < h
      ensures !InDisc(h, w, y, x)
    {
      if InDisc(h, w, y, x) {
        DiscInsideBox(h, w, y, x);
      }
    }
  }

  /** A 2-row strip 40 pixels wide gets an all-zero mask: cx = 20 lies far
      below its rows and r = 0. */
  lemma WideStripMaskEmpty()
    ensures forall y, x :: 0 <= y < 2 && 0 <= x < 40 ==> !InDisc(2, 40, y, x)
  {
    MaskEmptyFarFromCentre(2, 40);
  }

  /** For tall images whose centres are more than r apart, the image centre
      (cy, cx) is NOT marked: the disc sits at (cx, cx) instead. */
  lemma ImageCentreMissed(h: nat, w: nat)
    requires CentreRow(h) - CentreCol(w) > Radius(h, w)
    ensures !InDisc(h, w, CentreRow(h), CentreCol(w))
    ensures InCentredDisc(h, w, CentreRow(h), CentreCol(w))
  {
    if InDisc(h, w, CentreRow(h), CentreCol(w)) {
      DiscInsideBox(h, w, CentreRow(h), CentreCol(w));
    }
  }

  /** A 512 x 256 image: the disc (r = 64) is centred at row 128, and the
      image centre (256, 128) is not marked. */
  lemma TallImageCentreMissed()
    ensures !InDisc(512, 256, 256, 128) && InDisc(512, 256, 128, 128)
  {
    ImageCentreMissed(512, 256);
  }

  /** For square images cy == cx, so the disc is the centred one. */
  lemma SquareDiscCentred(n: nat, y: int, x: int)
    ensures InDisc(n, n, y, x) <==> InCentredDisc(n, n, y, x)
  {
  }

  /** Because both coordinates are measured against cx, the disc is symmetric
      under swapping row and column. */
  lemma DiscTransposeSymmetric(h: nat, w: nat, y: int, x: int)
    ensures InDisc(h, w, y, x) <==> InDisc(h, w, x, y)
  {
  }
}
