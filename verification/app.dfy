/** Model of the computational parts of src/components/App.tsx: the two
    plotting helpers, the in-place pixel effect and the local copy of the
    working-size rule. */
module App {
  import Util
  import opened PathCommands

  /** magPlot: `moveTo(offset, offset)`, then for each index x of `realArr`
      a `lineTo(offset + x * scale, offset + |z_x| * scale)` where z_x is
      the complex sample `(realArr[x], imaginaryArr[x])`. The imaginary
      plane is read at every index of the real one. Neither array is
      written. */
  method MagPlot(offset: real, scale: real, realArr: array<real>, imaginaryArr: array<real>, mag: Modulus)
    returns (path: seq<Cmd>)
    requires imaginaryArr.Length >= realArr.Length
    ensures path == ModulusPath(offset, scale, realArr[..], imaginaryArr[..], mag)
    ensures path == SeriesPath(offset, scale, Magnitudes(realArr[..], imaginaryArr[..], mag))
  {
    path := [MoveTo(offset, offset)];
    var x := 0;
    while x < realArr.Length
      invariant 0 <= x <= realArr.Length
      invariant path == ModulusPath(offset, scale, realArr[..x], imaginaryArr[..], mag)
    {
      var m := mag(realArr[x], imaginaryArr[x]);
      path := path + [LineTo(Coord(offset, scale, x as real), Coord(offset, scale, m))];
      x := x + 1;
      assert realArr[..x][..x - 1] == realArr[..x - 1];
    }
    assert realArr[..x] == realArr[..];
    ModulusPathIsSeriesPath(offset, scale, realArr[..], imaginaryArr[..], mag);
  }

  /** signalPlot: `moveTo(offset, offset)`, then for each index x of the
      signal a `lineTo(offset + x * scale, offset + signal[x] * scale)`, in
      index order. */
  method SignalPlot(offset: real, scale: real, signal: array<real>) returns (path: seq<Cmd>)
    ensures path == SeriesPath(offset, scale, signal[..])
    ensures |path| == signal.Length + 1 && path[0] == MoveTo(offset, offset)
    ensures forall x :: 0 <= x < signal.Length ==>
      path[x + 1] == LineTo(Coord(offset, scale, x as real), Coord(offset, scale, signal[x]))
  {
    path := [MoveTo(offset, offset)];
    var x := 0;
    while x < signal.Length
      invariant 0 <= x <= signal.Length
      invariant path == SeriesPath(offset, scale, signal[..x])
    {
      path := path + [LineTo(Coord(offset, scale, x as real), Coord(offset, scale, signal[x]))];
      x := x + 1;
      assert signal[..x][..x - 1] == signal[..x - 1];
    }
    assert signal[..x] == signal[..];
    forall x | 0 <= x < signal.Length
      ensures path[x + 1] == LineTo(Coord(offset, scale, x as real), Coord(offset, scale, signal[x]))
    {
      SeriesPathAt(offset, scale, signal[..], x);
    }
  }

  /** A byte of a `Uint8ClampedArray`. */
  type Byte = b: int | 0 <= b < 256

  /** The byte written for one trigonometric term: for the red channel
      `sin²(π/64 · t) · 255`, for the green one `cos²(π/64 · t) · 255`, each
      clamped and rounded to a byte. The floating-point values are not
      modelled; the effect is stated for any such map. */
  type Shade = real -> Byte

  /** What calcWeird leaves in byte k of a buffer that held `prior` there.
      Byte k belongs to pixel k / 4 and channel k % 4 (R, G, B, A); the
      pixels are laid out column by column, so pixel p is at column
      p / height and row p % height. R gets the red term of the column
      measured from `cy`, G the green term of the row measured from `cx`,
      and every other byte keeps its value. */
  function WeirdByte(prior: Byte, k: nat, width: nat, height: nat, cx: real, cy: real, red: Shade, green: Shade): (b: Byte)
  {
    var pixel, channel := k / 4, k % 4;
    var inImage := height > 0 && pixel < width * height;
    if inImage && channel == 0 then red((pixel / height) as real - cy)
    else if inImage && channel == 1 then green((pixel % height) as real - cx)
    else prior
  }

  /** The whole buffer after calcWeird. */
  function Weird(before: seq<Byte>, width: nat, height: nat, cx: real, cy: real, red: Shade, green: Shade): (after: seq<Byte>)
    ensures |after| == |before|
  {
    seq(|before|, k requires 0 <= k < |before| => WeirdByte(before[k], k, width, height, cx, cy, red, green))
  }

  /** Where pixel (x, y) sits in column-major order. */
  lemma PixelIndex(x: nat, y: nat, width: nat, height: nat)
    requires x < width && y < height
    ensures x * height + y < width * height
    ensures (x * height + y) / height == x && (x * height + y) % height == y
  {
    assert x * height + y < (x + 1) * height <= width * height;
    Util.DivModSplit(x, y, height);
  }

  /** calcWeird: a running index walks the RGBA buffer, x outer and y inner,
      writing R and G and stepping over B and A. Writes past the end of a
      typed array are dropped, so the buffer may have any length. The
      horizontal term is measured from `cy` and the vertical one from `cx`,
      as written. */
  method CalcWeird(data: array<Byte>, width: nat, height: nat, cx: real, cy: real, red: Shade, green: Shade)
    modifies data
    ensures data[..] == Weird(old(data[..]), width, height, cx, cy, red, green)
  {
    ghost var before := data[..];
    ghost var after := Weird(before, width, height, cx, cy, red, green);
    var i := 0;
    var x := 0;
    while x < width
      invariant 0 <= x <= width
      invariant i == 4 * (x * height)
      invariant forall k :: 0 <= k < data.Length ==> data[k] == if k < i then after[k] else before[k]
    {
      var y := 0;
      while y < height
        invariant 0 <= y <= height
        invariant i == 4 * (x * height + y)
        invariant forall k :: 0 <= k < data.Length ==> data[k] == if k < i then after[k] else before[k]
      {
        WeirdPixel(before, width, height, cx, cy, red, green, x, y);
        if i < data.Length {
          data[i] := red(x as real - cy);
        }
        i := i + 1;
        if i < data.Length {
          data[i] := green(y as real - cx);
        }
        i := i + 1;
        i := i + 1; // B
        i := i + 1; // A
        y := y + 1;
      }
      assert x * height + height == (x + 1) * height;
      x := x + 1;
    }
    assert i == 4 * (width * height);
    forall k | i <= k < data.Length ensures after[k] == before[k] {
      WeirdOnlyWritesRedGreen(before, width, height, cx, cy, red, green, k);
    }
  }

  /** Pixel (x, y) sits at byte 4 * (x * height + y), inside the first
      4 * width * height bytes: its R byte becomes the red term of x - cy,
      its G byte the green term of y - cx, and its B and A bytes keep their
      values (each byte as far as the buffer reaches). */
  lemma WeirdPixel(before: seq<Byte>, width: nat, height: nat, cx: real, cy: real, red: Shade, green: Shade, x: nat, y: nat)
    requires x < width && y < height
    ensures var after, k := Weird(before, width, height, cx, cy, red, green), 4 * (x * height + y);
      k + 4 <= 4 * (width * height)
      && (k < |before| ==> after[k] == red(x as real - cy))
      && (k + 1 < |before| ==> after[k + 1] == green(y as real - cx))
      && (k + 2 < |before| ==> after[k + 2] == before[k + 2])
      && (k + 3 < |before| ==> after[k + 3] == before[k + 3])
  {
    PixelIndex(x, y, width, height);
  }

  /** Only R and G bytes of pixels inside the image change: a byte that
      differs afterwards lies below 4 * width * height at an offset 4k or
      4k + 1. */
  lemma WeirdOnlyWritesRedGreen(before: seq<Byte>, width: nat, height: nat, cx: real, cy: real, red: Shade, green: Shade, k: nat)
    requires k < |before|
    requires k >= 4 * (width * height) || k % 4 == 2 || k % 4 == 3
    ensures Weird(before, width, height, cx, cy, red, green)[k] == before[k]
  {
    if k >= 4 * (width * height) {
      assert k / 4 >= width * height;
    }
  }

  /** Pixels in one column share their R byte. */
  lemma WeirdColumnSharesRed(before: seq<Byte>, width: nat, height: nat, cx: real, cy: real, red: Shade, green: Shade, x: nat, y1: nat, y2: nat)
    requires x < width && y1 < height && y2 < height
    requires 4 * (x * height + y1) + 4 <= |before| && 4 * (x * height + y2) + 4 <= |before|
    ensures var after := Weird(before, width, height, cx, cy, red, green);
      after[4 * (x * height + y1)] == after[4 * (x * height + y2)]
  {
    WeirdPixel(before, width, height, cx, cy, red, green, x, y1);
    WeirdPixel(before, width, height, cx, cy, red, green, x, y2);
  }

  /** Pixels in one row share their G byte. */
  lemma WeirdRowSharesGreen(before: seq<Byte>, width: nat, height: nat, cx: real, cy: real, red: Shade, green: Shade, x1: nat, x2: nat, y: nat)
    requires x1 < width && x2 < width && y < height
    requires 4 * (x1 * height + y) + 4 <= |before| && 4 * (x2 * height + y) + 4 <= |before|
    ensures var after := Weird(before, width, height, cx, cy, red, green);
      after[4 * (x1 * height + y) + 1] == after[4 * (x2 * height + y) + 1]
  {
    WeirdPixel(before, width, height, cx, cy, red, green, x1, y);
    WeirdPixel(before, width, height, cx, cy, red, green, x2, y);
  }

  /** The R and G bytes do not depend on what the buffer held: two buffers
      of one length that agree on B and A and on every byte past the image
      come out equal. */
  lemma WeirdIgnoresOldRedGreen(b1: seq<Byte>, b2: seq<Byte>, width: nat, height: nat, cx: real, cy: real, red: Shade, green: Shade)
    requires |b1| == |b2|
    requires forall k :: 0 <= k < |b1| && (k % 4 >= 2 || k >= 4 * (width * height)) ==> b1[k] == b2[k]
    ensures Weird(b1, width, height, cx, cy, red, green) == Weird(b2, width, height, cx, cy, red, green)
  {
    var w1, w2 := Weird(b1, width, height, cx, cy, red, green), Weird(b2, width, height, cx, cy, red, green);
    forall k | 0 <= k < |b1| ensures w1[k] == w2[k] {
      if k < 4 * (width * height) {
        assert k / 4 < width * height;
      }
    }
  }

  /** The local copy of closestPowerOfTwo runs the same halving loop and so
      agrees with the one in util.ts on every input. */
  method ClosestPowerOfTwo(n: real) returns (i: int)
    ensures i == Util.WorkingSize(n)
  {
    i := 32768;
    Util.MaxSizeIsPowerOfTwo();
    while i > 64 && i as real > n
      invariant Util.IsPowerOfTwo(i) && Util.MinSize <= i <= Util.MaxSize
      invariant i == Util.MaxSize || n < (2 * i) as real
      decreases i
    {
      Util.PowerOfTwoGap(Util.MinSize, i);
      i := i / 2;
    }
    Util.WorkingSizeUnique(n, i);
  }
}
