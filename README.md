# Click heat map: per-pixel counter and count-to-colour mapping

The page counts clicks on a canvas pixel by pixel. The counter is a
dictionary `clickMap`, keyed by the string `"x,y"` of the clicked pixel.
Each click increments that pixel's count, starting it at 1 on the first
click. The page then draws a translucent dot whose colour comes from
`getColor(count)`. The colour caps the count at 10. Red is
`floor(capped/10*255)`, green is `floor(255 - capped/10*255)`, blue is 0
and alpha is 0.3.

This project models those two pieces:

- `keys.dfy`, module `PixelKeys`: the key string `"x,y"`. It models how an
  integer is rendered in a template literal: decimal digits, a leading `-`
  for negatives and no leading zeros. A parser is given as the inverse, and
  it shows that the key encoding is injective.
- `keyed_table.dfy`, module `KeyedTable`: the string-keyed dictionary as a
  function `Encode` of a table keyed by pixel pairs. Lookups and updates
  agree on the two forms. The main result is `SourceUpdate`: the source's
  update `clickMap[key] = (clickMap[key] || 0) + 1` is exactly "add one at
  pixel (x, y)" on the pair-keyed table.
- `clicks.dfy`, module `ClickCounter`: class `ClickMap`. Its field `counts`
  is updated in place by `Click`. A ghost `History` of clicked pixels is the
  reference: the object invariant says that each pixel's count is the
  number of times the pixel occurs in `History`.
- `colors.dfy`, module `Colors`: `getColor` as a pure function on integers.
  It uses exact integer arithmetic: `(c*255)/10` and `(2550 - c*255)/10`
  with `c = min(n, 10)`. Dafny's `/` by a positive divisor rounds toward
  negative infinity, the same as `Math.floor` on the exact quotient.

Inside the class the table is keyed by pixel pairs, so the object
invariant needs no reasoning about strings. `KeyInjective` and
`KeyedTable.SourceUpdate` show that the pair-keyed table matches the
string-keyed one exactly, and `ClickCounter.ClickOnStringTable` applies
this to the state `Click` leaves behind.

The code has no bounds check on the click coordinates, and neither does the
model. A click in the container but outside the canvas stores negative or
out-of-range coordinates like any other pixel.

`PixelKeys.IndexOf` and `PixelKeys.ParseKey` split a key at its first comma
and read the halves back. The code never parses a key. These two functions
exist only to prove the round trip `KeyRoundTrip`, from which
`KeyInjective` follows. `KeyedTable.Lookup` is the definition of the read
`clickMap[key] || 0`: the value stored under "x,y", or 0 when the key is
absent. The `EncodeLookup` row states what that read returns.

## Model

| member | source | states |
|---|---|---|
| PixelKeys.NatToString | script.js:33 | the decimal rendering of a natural number is non-empty and made only of digits |
| PixelKeys.NoLeadingZero | script.js:33 | a rendering starts with '0' exactly for 0, whose rendering is "0" |
| PixelKeys.IntToString | script.js:33 | an integer's rendering is non-empty and never contains the separator ',' |
| PixelKeys.SignOfRendering | script.js:33 | a rendering starts with '-' exactly when the integer is negative |
| PixelKeys.ParseNatToString | script.js:33 | reading the digits of a rendered natural number gives the number back |
| PixelKeys.ParseIntToString | script.js:33 | parsing a rendered integer gives the integer back |
| PixelKeys.Key | script.js:33 | the key is the rendering of x, a comma, then the rendering of y; its first comma is the one right after x, since a rendering has no comma |
| PixelKeys.KeyRoundTrip | script.js:33 | splitting the key "x,y" at its first comma and parsing both halves gives (x, y) back |
| PixelKeys.KeyInjective | script.js:33 | two pixels have the same key exactly when they are the same pixel |
| KeyedTable.Encode | script.js:33-35 | the string table holds, under the key of each pixel, that pixel's count, and has no other keys |
| KeyedTable.EncodeLookup | script.js:35 | looking up a key on the string table, with 0 for a missing key, gives the pixel's count, 0 for a pixel never clicked |
| KeyedTable.EncodeUpdate | script.js:35 | storing a count for a pixel is storing it under that pixel's key and changes no other key |
| KeyedTable.SourceUpdate | script.js:33-35 | the source's update (the stored count or 0, plus one, stored under the key) is the pair-table update that adds one at (x, y) |
| ClickCounter.ClickMap.constructor | script.js:8 | the table starts empty, with no clicks recorded |
| ClickCounter.ClickMap.Click | script.js:33-37 | the clicked pixel's count becomes its old count plus one (1 on a first click), and that value is returned for drawing; no other pixel's count changes; no key is removed; every stored count stays at least 1 and equals the number of clicks on its pixel |
| ClickCounter.ClickMap.CountAt | script.js:35 | the count read for a pixel is the number of clicks it has received, and is 0 exactly when the pixel has no entry in the table |
| ClickCounter.ClickOnStringTable | script.js:33-37 | after Click, the string-keyed table is the old one with the count under "x,y" replaced by the old count read there (0 when absent) plus one, and nothing else changed; reading "x,y" back gives the intensity Click returned for drawing |
| ClickCounter.ClickedPixels | script.js:35 | the table's keys are exactly the pixels that have been clicked |
| ClickCounter.ClickMap.DotColor | script.js:37 | the colour drawn for a clicked pixel has red in [25, 255], green in [0, 229], blue 0 and alpha 0.3 |
| Colors.Capped | script.js:11 | the capped intensity is the smaller of the intensity and 10 |
| Colors.GetColor | script.js:10-15 | red is the floor of capped*25.5, green the floor of 255 - capped*25.5, blue 0, alpha 0.3; both channels lie in [0, 255] for non-negative intensity; every intensity of 10 or more gives pure red (255, 0, 0, 0.3) |
| Colors.ColorMonotone | script.js:11-13 | as intensity rises, red never falls and green never rises; below 10 both change strictly; from 10 on the colour is fixed |
| Colors.RedGreenComplement | script.js:12-13 | red plus green is 255 when the capped count is even and 254 when it is odd |
| Colors.ClickedColor | script.js:35-37 | an intensity of at least 1, which every drawn click has, gives red of at least 25 and green of at most 229 |

## Left out

- DOM and canvas setup (script.js:1-6): browser objects with no logic.
- `drawDot` (script.js:17-27): canvas drawing with a radial gradient, an arc and a fill on an external context. Only the colour it is given is modelled (`DotColor`).
- The click listener's translation from client to canvas coordinates (script.js:29-32): `getBoundingClientRect` and `Math.floor` on floating-point mouse positions. `Click` takes the integer pixel (x, y) directly.
- The `rgba(...)` string (script.js:14): `GetColor` returns the four channels as a record.
- Floating-point arithmetic in `getColor`: the model uses exact rationals floored. For the integer counts the code passes in, it gives the same channels.
- PixelKeys.IntToString: does not model the exponent notation that JavaScript uses for magnitudes of 1e21 and above. Pixel coordinates never come near that.
- ClickCounter.ClickMap.Click: the class holds the table keyed by pixel pairs, not by strings. The string-keyed form is related to it by ClickCounter.ClickOnStringTable, which applies to Click's postcondition, rather than in that postcondition itself.
- ClickCounter.ClickMap.Click: counts are unbounded natural numbers. In JavaScript they are Numbers, and past 2^53 adding one no longer changes them. No session comes near that many clicks on one pixel.
