/** Model of src/components/imageUtil.ts: its own copy of the magnitude
    plot. (`fftCanvas`, the other export, drives the external transform
    library and is not part of this model.) */
module ImageUtil {
  import opened PathCommands

  /** magPlot: the same algorithm as App.tsx's magPlot, so it records the
      same commands for the same inputs: `moveTo(offset, offset)`, then one
      `lineTo` per index of `realArr`, in index order, at the magnitude of
      the complex sample there. `imaginaryArr` is read at every index of
      `realArr`; neither array is written. */
  method MagPlot(offset: real, scale: real, realArr: array<real>, imaginaryArr: array<real>, mag: Modulus)
    returns (p2: seq<Cmd>)
    requires imaginaryArr.Length >= realArr.Length
    ensures p2 == ModulusPath(offset, scale, realArr[..], imaginaryArr[..], mag)
    ensures |p2| == realArr.Length + 1 && p2[0] == MoveTo(offset, offset)
    ensures forall x :: 0 <= x < realArr.Length ==>
      p2[x + 1] == LineTo(Coord(offset, scale, x as real), Coord(offset, scale, mag(realArr[x], imaginaryArr[x])))
  {
    p2 := [MoveTo(offset, offset)];
    var x := 0;
    while x < realArr.Length
      invariant 0 <= x <= realArr.Length
      invariant p2 == ModulusPath(offset, scale, realArr[..x], imaginaryArr[..], mag)
    {
      var m := mag(realArr[x], imaginaryArr[x]);
      p2 := p2 + [LineTo(Coord(offset, scale, x as real), Coord(offset, scale, m))];
      x := x + 1;
      assert realArr[..x][..x - 1] == realArr[..x - 1];
    }
    assert realArr[..x] == realArr[..];
    forall x | 0 <= x < realArr.Length
      ensures p2[x + 1] == LineTo(Coord(offset, scale, x as real), Coord(offset, scale, mag(realArr[x], imaginaryArr[x])))
    {
      ModulusPathAt(offset, scale, realArr[..], imaginaryArr[..], mag, x);
    }
  }
}
