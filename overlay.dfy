/** Painting the segmentation mask onto the uploaded RGB image, and the
    `mask * 255` scaling applied before a mask is encoded as an 8-bit image. */
module Overlay {

  /** An unsigned 8-bit channel value. */
  newtype byte = x: int | 0 <= x < 256

  /** One pixel of an image converted to RGB. */
  datatype Rgb = Rgb(r: byte, g: byte, b: byte)

  /** The colour written over every masked pixel. */
  const Red: Rgb := Rgb(255, 0, 0)

  /** The overlay: a copy of the image in which every pixel whose mask value
      is 1 is overwritten with red and every other pixel keeps its colour.
      The copy is fresh and the image itself is not modified. */
  method PaintOverlay(image: array2<Rgb>, mask: array2<int>) returns (overlay: array2<Rgb>)
    requires mask.Length0 == image.Length0 && mask.Length1 == image.Length1
    ensures fresh(overlay)
    ensures overlay.Length0 == image.Length0 && overlay.Length1 == image.Length1
    ensures forall y, x :: 0 <= y < image.Length0 && 0 <= x < image.Length1 ==>
              overlay[y, x] == if mask[y, x] == 1 then Red else image[y, x]
  {
    var h, w := image.Length0, image.Length1;
    overlay := new Rgb[h, w]((y, x) requires 0 <= y < h && 0 <= x < w reads image => image[y, x]);
    var y := 0;
    while y < h
      invariant 0 <= y <= h
      invariant forall i, j :: 0 <= i < y && 0 <= j < w ==>
                  overlay[i, j] == if mask[i, j] == 1 then Red else image[i, j]
      invariant forall i, j :: y <= i < h && 0 <= j < w ==> overlay[i, j] == image[i, j]
    {
      var x := 0;
      while x < w
        invariant 0 <= x <= w
        invariant forall i, j :: 0 <= i < y && 0 <= j < w ==>
                    overlay[i, j] == if mask[i, j] == 1 then Red else image[i, j]
        invariant forall j :: 0 <= j < x ==> overlay[y, j] == if mask[y, j] == 1 then Red else image[y, j]
        invariant forall j :: x <= j < w ==> overlay[y, j] == image[y, j]
        invariant forall i, j :: y < i < h && 0 <= j < w ==> overlay[i, j] == image[i, j]
      {
        if mask[y, x] == 1 {
          overlay[y, x] := Red;
        }
        x := x + 1;
      }
      y := y + 1;
    }
  }

  /** Whether every entry of a mask is 0 or 1, as every mask the model
      produces is. */
  predicate IsBinary(mask: array2<int>)
    reads mask
  {
    forall y, x :: 0 <= y < mask.Length0 && 0 <= x < mask.Length1 ==> mask[y, x] == 0 || mask[y, x] == 1
  }

  /** `mask * 255` followed by the cast to unsigned 8-bit: a 0/1 mask becomes
      an image whose pixels are exactly 0 (outside) or 255 (inside), so the
      cast loses nothing. */
  method EncodeMask(mask: array2<int>) returns (encoded: array2<byte>)
    requires IsBinary(mask)
    ensures fresh(encoded)
    ensures encoded.Length0 == mask.Length0 && encoded.Length1 == mask.Length1
    ensures forall y, x :: 0 <= y < mask.Length0 && 0 <= x < mask.Length1 ==>
              (encoded[y, x] == 255 <==> mask[y, x] == 1) &&
              (encoded[y, x] == 0 <==> mask[y, x] == 0)
  {
    var h, w := mask.Length0, mask.Length1;
    encoded := new byte[h, w]((y, x)
      requires 0 <= y < h && 0 <= x < w && (mask[y, x] == 0 || mask[y, x] == 1) reads mask =>
      (mask[y, x] * 255) as byte);
  }
}
