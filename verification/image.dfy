/** The `Sip::Image` class: a bitmap of `height` rows and `width` columns of
    RGBA pixels, addressed as `(row, col)`. */
module Images {
  import opened Pixels
  import opened Grids

  class Image {
    var width: nat
    var height: nat
    var pixels: array2<Pixel>

    /** The pixel storage has exactly the image's geometry. */
    ghost predicate Valid()
      reads this
    {
      pixels.Length0 == height && pixels.Length1 == width
    }

    /** The image's pixels as a value, indexed `[row][col]`. */
    ghost function Grid(): (g: seq<seq<Pixel>>)
      reads this, pixels
      requires Valid()
      ensures IsGrid(g, height, width)
    {
      GridOf(pixels)
    }

    /** The pixel accessor `img(row, col)`, read side: the pixel at `row`,
        `col` of the image's grid. Writes store the whole pixel at
        `pixels[row, col]` once. */
    function At(row: int, col: int): (p: Pixel)
      reads this, pixels
      requires Valid()
      requires 0 <= row < height && 0 <= col < width
      ensures p == Grid()[row][col]
    {
      pixels[row, col]
    }

    /** A new image holds no pixels. */
    constructor ()
      ensures Valid() && width == 0 && height == 0
      ensures fresh(pixels)
    {
      width, height := 0, 0;
      pixels := new Pixel[0, 0];
    }

    /** `clone(img)`: take the geometry of `img`, with storage of its own;
        pixel values are not copied. Cloning an image from itself changes nothing. */
    method Clone(img: Image)
      requires img.Valid()
      modifies this
      ensures Valid() && width == old(img.width) && height == old(img.height)
      ensures img != this ==> fresh(pixels) && unchanged(img)
      ensures img == this ==> unchanged(this)
      ensures img.Grid() == old(img.Grid())
    {
      if img != this {
        width, height := img.width, img.height;
        pixels := new Pixel[img.height, img.width];
      }
    }

    /** `operator=`: a deep copy of `rhs`, geometry and every pixel; the copy
        shares no storage with `rhs`. Assigning an image to itself changes nothing. */
    method Assign(rhs: Image)
      requires rhs.Valid()
      modifies this
      ensures Valid() && width == old(rhs.width) && height == old(rhs.height)
      ensures Grid() == old(rhs.Grid())
      ensures rhs != this ==> fresh(pixels) && unchanged(rhs)
      ensures rhs == this ==> unchanged(this)
    {
      if rhs == this {
        return;
      }
      Clone(rhs);
      var row := 0;
      while row < rhs.height
        invariant Valid() && width == rhs.width && height == rhs.height
        invariant fresh(pixels) && unchanged(rhs)
        invariant 0 <= row <= height
        invariant forall r, c :: 0 <= r < row && 0 <= c < width ==> pixels[r, c] == rhs.pixels[r, c]
      {
        var col := 0;
        while col < rhs.width
          invariant Valid() && width == rhs.width && height == rhs.height
          invariant fresh(pixels) && unchanged(rhs)
          invariant 0 <= col <= width
          invariant forall r, c :: 0 <= r < row && 0 <= c < width ==> pixels[r, c] == rhs.pixels[r, c]
          invariant forall c :: 0 <= c < col ==> pixels[row, c] == rhs.pixels[row, c]
        {
          pixels[row, col] := rhs.At(row, col);
          col := col + 1;
        }
        row := row + 1;
      }
      SameGrid(Grid(), rhs.Grid(), height, width);
    }
  }
}
