/** The generated program of `test-flip-colors`: the colour channels of every
    pixel of `im1` are rotated (red takes green, green takes blue, blue takes
    red); alpha is copied. */
module FlipColors {
  import opened Pixels
  import opened Grids
  import opened Images

  /** One rotation of the colour channels: red takes green, green takes blue,
      blue takes red. */
  function Rotate(p: Pixel): (q: Pixel)
    ensures q.red == p.green && q.green == p.blue && q.blue == p.red
    ensures q.alpha == p.alpha
  {
    Pixel(p.green, p.blue, p.red, p.alpha)
  }

  /** A rotation moves values between the colour channels and never invents or
      drops one; alpha stays where it is. */
  lemma RotatePermutes(p: Pixel)
    ensures Rotate(p).alpha == p.alpha
    ensures multiset{Rotate(p).red, Rotate(p).green, Rotate(p).blue} == multiset{p.red, p.green, p.blue}
  {
  }

  /** Three rotations restore the pixel. */
  lemma RotateThrice(p: Pixel)
    ensures Rotate(Rotate(Rotate(p))) == p
  {
  }

  /** A rotation leaves a pixel as it was exactly when its three colour
      channels are equal; so one or two rotations change a coloured pixel. */
  lemma RotateFixed(p: Pixel)
    ensures Rotate(p) == p <==> p.red == p.green == p.blue
    ensures Rotate(Rotate(p)) == p <==> p.red == p.green == p.blue
  {
  }

  /** Running the program three times in a row gives back the original image. */
  lemma {:induction false} RotateGridThrice(g: seq<seq<Pixel>>)
    ensures MapGrid(Rotate, MapGrid(Rotate, MapGrid(Rotate, g))) == g
  {
    var thrice := MapGrid(Rotate, MapGrid(Rotate, MapGrid(Rotate, g)));
    forall i | 0 <= i < |g| ensures thrice[i] == g[i] {
      forall j | 0 <= j < |g[i]| ensures thrice[i][j] == g[i][j] {
        RotateThrice(g[i][j]);
      }
    }
  }

  /** The nested loops of the program: every pixel of `temp` gets the rotated
      colours and the alpha of the same pixel of `im1`, which is only read.
      `order` is the sequence of `(row, col)` cells visited. */
  method RotatePixels(im1: Image, temp: Image) returns (ghost order: seq<(int, int)>)
    requires im1.Valid() && temp.Valid()
    requires temp.width == im1.width && temp.height == im1.height
    requires temp.pixels != im1.pixels
    modifies temp.pixels
    ensures temp.Grid() == MapGrid(Rotate, im1.Grid())
    ensures order == RowMajor(im1.height, im1.width)
  {
    order := [];
    var row := 0;
    while row < im1.height
      invariant 0 <= row <= im1.height
      invariant order == RowMajor(row, im1.width)
      invariant forall r, c :: 0 <= r < row && 0 <= c < im1.width ==>
        temp.pixels[r, c] == Rotate(im1.pixels[r, c])
    {
      var col := 0;
      while col < im1.width
        invariant 0 <= col <= im1.width
        invariant order == RowMajor(row, im1.width) + Row(row, col)
        invariant forall r, c :: 0 <= r < row && 0 <= c < im1.width ==>
          temp.pixels[r, c] == Rotate(im1.pixels[r, c])
        invariant forall c :: 0 <= c < col ==> temp.pixels[row, c] == Rotate(im1.pixels[row, c])
      {
        // Every read of `im1(row, col)` yields the same pixel.
        var input := im1.At(row, col);
        var red := input.red as int;
        var green := input.green as int;
        var blue := input.blue as int;

        var redOut := green;
        var greenOut := blue;
        var blueOut := red;

        // The four channel stores through the pixel pointer, gathered on one
        // pixel value and written back once.
        var px := temp.pixels[row, col];
        px := px.(red := ToByte(redOut));
        px := px.(green := ToByte(greenOut));
        px := px.(blue := ToByte(blueOut));
        px := px.(alpha := input.alpha);
        temp.pixels[row, col] := px;
        assert Row(row, col + 1) == Row(row, col) + [(row, col)];
        order := order + [(row, col)];
        col := col + 1;
      }
      row := row + 1;
    }
    SameGrid(temp.Grid(), MapGrid(Rotate, im1.Grid()), im1.height, im1.width);
  }

  /** The program from `clone` to the final assignment: `temp` takes the
      geometry of `im1` and its rotated pixels, `im2` becomes an independent
      copy of `temp`, and `im1` is left as it was. */
  method Run(im1: Image, temp: Image, im2: Image) returns (ghost order: seq<(int, int)>)
    requires im1.Valid()
    requires im1 != temp && im1 != im2 && temp != im2
    modifies temp, im2
    ensures temp.Valid() && temp.width == im1.width && temp.height == im1.height
    ensures temp.Grid() == MapGrid(Rotate, im1.Grid())
    ensures im2.Valid() && im2.width == temp.width && im2.height == temp.height
    ensures im2.Grid() == temp.Grid() && im2.pixels != temp.pixels
    ensures fresh(temp.pixels) && fresh(im2.pixels)
    ensures unchanged(im1) && unchanged(im1.pixels)
    ensures order == RowMajor(im1.height, im1.width)
  {
    temp.Clone(im1);
    order := RotatePixels(im1, temp);
    im2.Assign(temp);
  }
}
