/** The generated program of `test-color-threshold`: every colour channel of
    `src` becomes 255 when it is above 128 and 0 otherwise; alpha is copied. */
module ColorThreshold {
  import opened Pixels
  import opened Grids
  import opened Images

  /** The per-channel rule `value > 128 ? 255 : 0`: the result is one of the two
      extremes, and it is 255 exactly when the input is strictly above 128. */
  function Threshold(v: byte): (r: byte)
    ensures r == 0 || r == 255
    ensures r == 255 <==> v > 128
  {
    if v > 128 then 255 else 0
  }

  /** The rule applied to red, green and blue; alpha passes through. */
  function ThresholdPixel(p: Pixel): (q: Pixel)
    ensures q.alpha == p.alpha
    ensures q.red == Threshold(p.red) && q.green == Threshold(p.green) && q.blue == Threshold(p.blue)
  {
    Pixel(Threshold(p.red), Threshold(p.green), Threshold(p.blue), p.alpha)
  }

  /** The threshold is strict: 128 itself maps to 0, 129 to 255. */
  lemma ThresholdIsStrict()
    ensures Threshold(128) == 0 && Threshold(129) == 255
  {
  }

  /** Applying the threshold to a pixel twice is the same as applying it once. */
  lemma ThresholdPixelIdempotent(p: Pixel)
    ensures ThresholdPixel(ThresholdPixel(p)) == ThresholdPixel(p)
  {
  }

  /** Re-applying the threshold program to its own output leaves the image unchanged. */
  lemma {:induction false} ThresholdGridIdempotent(g: seq<seq<Pixel>>)
    ensures MapGrid(ThresholdPixel, MapGrid(ThresholdPixel, g)) == MapGrid(ThresholdPixel, g)
  {
    var once := MapGrid(ThresholdPixel, g);
    var twice := MapGrid(ThresholdPixel, once);
    forall i | 0 <= i < |g| ensures twice[i] == once[i] {
      forall j | 0 <= j < |g[i]| ensures twice[i][j] == once[i][j] {
        ThresholdPixelIdempotent(g[i][j]);
      }
    }
  }

  /** The nested loops of the program: every pixel of `temp` gets the
      thresholded colours and the alpha of the same pixel of `src`, which is
      only read. `order` is the sequence of `(row, col)` cells visited. */
  method ThresholdPixels(src: Image, temp: Image) returns (ghost order: seq<(int, int)>)
    requires src.Valid() && temp.Valid()
    requires temp.width == src.width && temp.height == src.height
    requires temp.pixels != src.pixels
    modifies temp.pixels
    ensures temp.Grid() == MapGrid(ThresholdPixel, src.Grid())
    ensures order == RowMajor(src.height, src.width)
  {
    order := [];
    var row := 0;
    while row < src.height
      invariant 0 <= row <= src.height
      invariant order == RowMajor(row, src.width)
      invariant forall r, c :: 0 <= r < row && 0 <= c < src.width ==>
        temp.pixels[r, c] == ThresholdPixel(src.pixels[r, c])
    {
      var col := 0;
      while col < src.width
        invariant 0 <= col <= src.width
        invariant order == RowMajor(row, src.width) + Row(row, col)
        invariant forall r, c :: 0 <= r < row && 0 <= c < src.width ==>
          temp.pixels[r, c] == ThresholdPixel(src.pixels[r, c])
        invariant forall c :: 0 <= c < col ==> temp.pixels[row, c] == ThresholdPixel(src.pixels[row, c])
      {
        // Every read of `src(row, col)` yields the same pixel.
        var input := src.At(row, col);
        var red := input.red as int;
        var green := input.green as int;
        var blue := input.blue as int;

        var redOut := if red > 128 then 255 else 0;
        var greenOut := if green > 128 then 255 else 0;
        var blueOut := if blue > 128 then 255 else 0;

        // The four channel stores through the pixel pointer, gathered on one
        // pixel value and written back once.
        var px := temp.pixels[row, col];
        px := px.(red := ToByte(redOut));
        px := px.(green := ToByte(greenOut));
        px := px.(blue := ToByte(blueOut));
        px := px.(alpha := input.alpha);
        assert px == ThresholdPixel(input);
        temp.pixels[row, col] := px;
        assert Row(row, col + 1) == Row(row, col) + [(row, col)];
        order := order + [(row, col)];
        col := col + 1;
      }
      row := row + 1;
    }
    SameGrid(temp.Grid(), MapGrid(ThresholdPixel, src.Grid()), src.height, src.width);
  }

  /** The program from `clone` to the final assignment: `temp` takes the
      geometry of `src` and its thresholded pixels, `dst` becomes an
      independent copy of `temp`, and `src` is left as it was. */
  method Run(src: Image, temp: Image, dst: Image) returns (ghost order: seq<(int, int)>)
    requires src.Valid()
    requires src != temp && src != dst && temp != dst
    modifies temp, dst
    ensures temp.Valid() && temp.width == src.width && temp.height == src.height
    ensures temp.Grid() == MapGrid(ThresholdPixel, src.Grid())
    ensures dst.Valid() && dst.width == temp.width && dst.height == temp.height
    ensures dst.Grid() == temp.Grid() && dst.pixels != temp.pixels
    ensures fresh(temp.pixels) && fresh(dst.pixels)
    ensures unchanged(src) && unchanged(src.pixels)
    ensures order == RowMajor(src.height, src.width)
  {
    temp.Clone(src);
    order := ThresholdPixels(src, temp);
    dst.Assign(temp);
  }
}
