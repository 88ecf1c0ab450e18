/** Decoded raster images and the monochrome frames (imageData) the
    animation engine converts them into. */
module Frames {

  /** The character a cleared terminal cell holds. */
  const Blank: char := ' '

  /** A decoded image whose bounds start at (0, 0): maxX and maxY are
      Bounds().Max.X and Bounds().Max.Y, and alpha(x, y) is the alpha
      channel that RGBA() reports for the pixel at (x, y). */
  datatype Image = Image(maxX: nat, maxY: nat, alpha: (nat, nat) -> nat)

  /** The binary opacity threshold: a pixel is opaque exactly when its
      alpha channel is strictly positive. */
  predicate Opaque(img: Image, x: nat, y: nat) {
    img.alpha(x, y) > 0
  }

  /** What a draw of the frame converted from img, with the given glyph,
      leaves in viewport cell (x, y). */
  function Pixel(img: Image, glyph: char, x: nat, y: nat): char {
    if x < img.maxX && y < img.maxY && Opaque(img, x, y) then glyph else Blank
  }

  /** imageData: one converted frame. data[y, x] tells whether the pixel
      at (x, y) is opaque; the Go slice of slices is a reference, and so
      is the array here. */
  datatype ImageData = ImageData(xMax: nat, yMax: nat, data: array2<bool>) {

    /** The grid has yMax rows of xMax columns. */
    predicate WellFormed() {
      data.Length0 == yMax && data.Length1 == xMax
    }

    /** The guard of the drawing loop: (x, y) lies inside the frame and is
        opaque. The bounds tests come first, so the grid is only read in
        range. */
    predicate Covers(x: nat, y: nat)
      requires WellFormed()
      reads data
    {
      yMax > y && xMax > x && data[y, x]
    }

    /** This frame is the conversion of img: same bounds, and every cell
        is the threshold of the matching pixel. */
    ghost predicate ConvertedFrom(img: Image)
      reads data
    {
      xMax == img.maxX && yMax == img.maxY && WellFormed() &&
      forall y: nat, x: nat :: y < yMax && x < xMax ==> data[y, x] == Opaque(img, x, y)
    }
  }

  /** Drawing a converted frame puts the glyph exactly where the source
      image is opaque. */
  lemma CoversPixel(f: ImageData, img: Image, glyph: char, x: nat, y: nat)
    requires f.ConvertedFrom(img)
    ensures (if f.Covers(x, y) then glyph else Blank) == Pixel(img, glyph, x, y)
  {
  }

  /** Converts one image: allocate a maxY by maxX grid, then mark the
      opaque pixels row by row. */
  method ConvertImage(img: Image) returns (f: ImageData)
    ensures f.ConvertedFrom(img)
  {
    var data := new bool[img.maxY, img.maxX];
    for y := 0 to img.maxY
      invariant forall yy: nat, xx: nat :: yy < y && xx < img.maxX ==> data[yy, xx] == Opaque(img, xx, yy)
    {
      for x := 0 to img.maxX
        invariant forall yy: nat, xx: nat :: yy < y && xx < img.maxX ==> data[yy, xx] == Opaque(img, xx, yy)
        invariant forall xx: nat :: xx < x ==> data[y, xx] == Opaque(img, xx, y)
      {
        var a := img.alpha(x, y);
        if a > 0 {
          data[y, x] := true;
        } else {
          data[y, x] := false;
        }
      }
    }
    f := ImageData(img.maxX, img.maxY, data);
  }
}
