# fft-test: verified model of the sizing, colour, plotting and pixel-effect code

The repository is a React/canvas demo that plots a signal and its spectrum and
distorts image pixels as the mouse moves. The spectral transform itself is
done by an external `fourier` package. What this Dafny project models is the
code around those calls:

- `closestPowerOfTwo` (src/components/util.ts, copied in src/components/App.tsx):
  the working-size rule. It starts at 2^15 = 32768 and halves while the
  candidate is above both 64 and the dimension `n`. The model proves that the
  result is the largest power of two not above `n`, clamped to [64, 32768].
  This is not the nearest power of two: every `n` below 128 gives 64. The rule
  is kept exactly as written.
- `splitColor` (src/components/util.ts): unpacks a 32-bit packed colour into
  its four byte channels.
- `magPlot` and `signalPlot` (src/components/App.tsx, src/components/imageUtil.ts):
  each builds a `Path2D` from one `moveTo(offset, offset)` and one `lineTo`
  per sample. A `Path2D` is modelled as the list of `Cmd` values
  (`MoveTo`/`LineTo`) recorded into it.
- `calcWeird` (src/components/App.tsx): writes the R and G bytes of every
  pixel of an RGBA8 buffer in place and steps over B and A. A running index
  walks the buffer with x in the outer loop and y in the inner loop, so the
  pixels are in column-major order. The horizontal term is measured from `cy`
  and the vertical one from `cx`: the mouse axes are crossed, and the model
  keeps this as written.

Files:

| file | module | models |
|---|---|---|
| util.dfy | `Util` | src/components/util.ts |
| path_commands.dfy | `PathCommands` | the `Path2D` command list, and the polylines the plotting helpers record |
| app.dfy | `App` | src/components/App.tsx |
| image_util.dfy | `ImageUtil` | src/components/imageUtil.ts |

Modelling choices:

- JavaScript numbers are modelled as `real`, and float rounding is not
  modelled. Loop counters and canvas sizes are `nat`. `splitColor`'s input is
  an `int`.
- `splitColor` applies ToInt32 explicitly: the integer is taken modulo 2^32
  and read as a signed 32-bit value. `s >> k` on that value is an arithmetic
  shift, which is floor division by 2^k. `& 0xFF` is the non-negative
  remainder modulo 256. For a positive divisor, Dafny's `/` and `%` are
  exactly these operations.
- `Math.sqrt(re*re + im*im)` is a parameter `mag` of type `Modulus`. This is a
  function whose results are never negative.
- In `calcWeird`, each trigonometric byte is a parameter of type `Shade`
  (`real -> Byte`). `red(t)` stands for `sin²(π/64·t)·255` and `green(t)` for
  `cos²(π/64·t)·255`, each clamped to a byte by the `Uint8ClampedArray`. The
  model proves the write pattern for any such maps.
- A typed array ignores writes past its end. The model therefore guards each
  of `calcWeird`'s writes with `i < data.Length`, and accepts a buffer of any
  length.
- The sizing input is any real. src/components/App.tsx:211-213 passes the
  non-negative `Math.min(document.body.clientWidth, document.body.clientHeight)`,
  but src/components/AppTwo.tsx:61 passes `clientWidth / 2 - 200`, which can
  be negative or fractional.

## Model

| member | source | states |
|---|---|---|
| Util.ClosestPowerOfTwo | src/components/util.ts:1-7 | The halving loop returns `WorkingSize(n)`, a power of two in [64, 32768]. It halves at most 9 times, and after `halvings` halvings the result is 2^(15 - halvings). For `n >= 32768` it does not halve at all. |
| Util.WorkingSize | src/components/util.ts:2-5 | The reference definition, an upward search from 64. Its result is a power of two in [64, 32768]. It is at most `n` unless it is 64, and its double exceeds `n` unless it is 32768. |
| Util.WorkingSizeUnique | src/components/util.ts:2-6 | Exactly one value satisfies that characterisation. So the result is the largest power of two not above `n`, clamped to [64, 32768]. |
| Util.WorkingSizeMonotone | src/components/util.ts:3-5 | `n <= m` implies `WorkingSize(n) <= WorkingSize(m)`. |
| Util.WorkingSizeBelow128 | src/components/util.ts:3-5 | Every `n < 128`, negative values included, gives 64. |
| Util.WorkingSizeAtCeiling | src/components/util.ts:2-3 | Every `n >= 32768` gives 32768. |
| Util.WorkingSizeExamples | src/components/util.ts:3-5 | `WorkingSize(100) == 64` and `WorkingSize(500) == 256`. |
| Util.ToInt32 | src/components/util.ts:17-20 | The signed 32-bit value the bit operators act on is in [-2^31, 2^31) and congruent to the input modulo 2^32. |
| Util.SplitColor | src/components/util.ts:16-23 | r, g, b and a are each in [0, 255]. |
| Util.SplitColorReconstructs | src/components/util.ts:17-22 | `r + 256*g + 65536*b + 16777216*a == rgba mod 2^32`. So r is bits 0-7, g bits 8-15, b bits 16-23 and a bits 24-31. |
| Util.PackSplitRoundTrip | src/components/util.ts:16-23 | Splitting a colour packed from four bytes gives those four bytes back. |
| PathCommands.SeriesPath | src/components/App.tsx:68-75 | The polyline of a series has one command more than the series has samples, and its first command is `MoveTo(offset, offset)`. |
| PathCommands.ModulusPath | src/components/App.tsx:53-66 | The polyline of two planes has one command more than the real plane has samples, and its first command is `MoveTo(offset, offset)`. |
| PathCommands.Magnitudes | src/components/App.tsx:61-62 | Element x of the magnitude series is `mag(re[x], im[x])`, and it is never negative. |
| PathCommands.SeriesPathAt | src/components/App.tsx:71-73 | Command x+1 is `LineTo(offset + x*scale, offset + signal[x]*scale)`. So the commands after the first are exactly one `LineTo` per sample, in index order. |
| PathCommands.ModulusPathAt | src/components/imageUtil.ts:11-14 | Command x+1 is `LineTo(offset + x*scale, offset + mag(re[x], im[x])*scale)`. |
| PathCommands.ModulusPathIsSeriesPath | src/components/App.tsx:61-63 | `magPlot(o, s, re, im)` gives the same path as `signalPlot(o, s, m)` with `m[x] = mag(re[x], im[x])`. |
| PathCommands.SeriesPathAdvances | src/components/App.tsx:72 | When `scale > 0`, the `LineTo` x-coordinates strictly increase with the index. |
| PathCommands.ModulusPathYAtLeastOffset | src/components/imageUtil.ts:12-13 | When `scale >= 0`, every `LineTo` of a magnitude plot has `y >= offset`. |
| App.MagPlot | src/components/App.tsx:53-66 | The loop records exactly `ModulusPath`, which equals the series path of the magnitudes. It needs `imaginaryArr` to be at least as long as `realArr`, and it writes neither array. |
| App.SignalPlot | src/components/App.tsx:68-75 | The loop records exactly `SeriesPath`: one `MoveTo(offset, offset)`, then command x+1 is `LineTo(offset + x*scale, offset + signal[x]*scale)`. |
| App.CalcWeird | src/components/App.tsx:121-143 | The nested loops with the running index leave the buffer equal to `Weird(old buffer)`. In that result, byte k of a pixel inside the image is R (k%4 == 0) or G (k%4 == 1) of pixel k/4, at column (k/4)/height and row (k/4)%height. Every other byte is unchanged. |
| App.WeirdPixel | src/components/App.tsx:131-140 | Pixel (x, y) sits at byte `4*(x*height+y)`, and its four bytes lie below `4*width*height`. As far as the buffer reaches, its R byte is `red(x - cy)`, its G byte is `green(y - cx)`, and its B and A bytes are unchanged. |
| App.WeirdOnlyWritesRedGreen | src/components/App.tsx:137-140 | B bytes, A bytes and every byte at or past `4*width*height` are unchanged. |
| App.WeirdColumnSharesRed | src/components/App.tsx:131-137 | Two pixels with the same x get the same R byte. |
| App.WeirdRowSharesGreen | src/components/App.tsx:134-138 | Two pixels with the same y get the same G byte. |
| App.WeirdIgnoresOldRedGreen | src/components/App.tsx:137-140 | The result does not depend on the old R and G bytes of pixels inside the image. Two buffers of the same length, of any length, that agree on the B and A bytes and on every byte at or past `4*width*height` give identical output, so the effect is deterministic. |
| App.ClosestPowerOfTwo | src/components/App.tsx:159-165 | The duplicated loop returns `Util.WorkingSize(n)` for every `n`, so it agrees with the one in util.ts. |
| ImageUtil.MagPlot | src/components/imageUtil.ts:3-16 | The loop records exactly `ModulusPath`, the same path as App.tsx's magPlot: `MoveTo(offset, offset)`, then command x+1 is `LineTo(offset + x*scale, offset + mag(re[x], im[x])*scale)`, one per index of `realArr`, in order. |

## Left out

- The `fourier` package calls are foreign code that is not shown: `alloc`, the kernel looked up by the name `fft_f64_${len}_asm`, `init`, `transform`, `array2heap` and `heap2array`. This leaves out `test` and its call at load time (src/components/App.tsx:26-51), `render` (src/components/App.tsx:77-119) and `fftCanvas` (src/components/imageUtil.ts:18-59).
- The loops in those three functions that build the test waveforms with `Math.sin` and `Math.cos` are left out with them, because they are floating-point numerics.
- The values of `Math.sin`, `Math.cos` and `Math.sqrt`, and IEEE-754 rounding, are not modelled. They appear as the `Shade` and `Modulus` parameters, and plot coordinates are computed exactly over the reals.
- The `Uint8ClampedArray` conversion from float to byte (clamping and rounding) is not modelled. The written value is taken as an already valid byte.
- The `fp.throttle(50, …)` wrapper in `applyWeird` (src/components/App.tsx:145-157) is left out because it is timing and lodash behaviour. So are the `getImageData`/`putImageData` canvas I/O around `calcWeird`.
- The React components and DOM wiring are UI state and event handling with no computation to verify: `App`, `DragWindow` and `Image` in src/components/App.tsx:167-388, src/components/dragWindow.tsx, src/components/image.tsx, src/components/AppTwo.tsx, src/components/domUtil.ts and src/index.tsx.
- Util.SplitColor: the input is an integer. A fractional, NaN or infinite number, which ToInt32 would first truncate or send to 0, is not modelled.
- Util.ClosestPowerOfTwo: NaN and the infinities are not modelled as inputs. With NaN the loop would never run and the result would be 32768.
- App.MagPlot: requires `imaginaryArr` to be at least as long as `realArr`. With a shorter imaginary array the source reads `undefined`, the magnitude becomes NaN, and the canvas ignores the resulting `lineTo`. NaN is not modelled. Both callers pass arrays of equal length.
- ImageUtil.MagPlot: has the same length requirement as App.MagPlot, for the same reason.
- App.CalcWeird: `width` and `height` are natural numbers (canvas sizes). With a negative bound the loops would simply not run.
