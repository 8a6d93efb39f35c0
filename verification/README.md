# demsos pixel-to-expression converter in Dafny

demsos turns a PNG into a Desmos graph: `parse_image` in `src/desmos.rs`
walks the decoded image's pixels and emits one Desmos `Expression` per
pixel. Each expression shades a unit cell in the pixel's colour. This
project models that converter and proves what it promises:

- one expression per pixel, in the order the pixel iterator yields them;
- ids equal to positions, so they run contiguously from 0 to n - 1;
- a `color` of the form `rgb(r, g, b)` from which red, green and blue can
  be read back, with alpha playing no part;
- a LaTeX inequality `x\le x\le x+1\left\{y\le y\le y+1\right\}` that
  describes the cell from `(x, y)` to `(x + 1, y + 1)`;
- the constant `type` and empty style fields.

Modules:

- `Options` (`options.dfy`): an optional value for the parsers.
- `Decimal` (`decimal.dfy`): decimal rendering of naturals, which is what
  Rust's `{}` formatting of `u8`/`u32` prints, and its inverse.
- `Raster` (`raster.dfy`): the decoded image as a width, a height and a
  sequence of `(x, y, rgba)` pixels.
- `DesmosText` (`desmos_text.dfy`): the colour and LaTeX strings, with
  parsers that invert them.
- `Desmos` (`desmos.dfy`): the `Expression` record, the per-pixel
  expression `ExprOf`, the converter as a fold (`Convert`), the push loop
  `ParseImage`, and the properties that relate them.

Every renderer has a partner that inverts it:

- `StringToNat` / `ReadNat` for `NatToString`;
- `ParseColor` for `ColorOf`;
- `ParseLatex` for `LatexOf`.

The round-trip lemmas make the properties more than restatements of
string concatenation. They show that the strings determine the channels and
the cell bounds, and that the renderers are injective.

Orientation: the code uses the pixel's own row `y` as the plotted y bound.
A larger image row is therefore plotted higher up, and the picture comes out
upside down, as the FIXME at `src/desmos.rs:27` admits. The model keeps this
behaviour (`RowsPlotUpward`).

## Model

| member | source | states |
|---|---|---|
| Decimal.NatToString | src/desmos.rs:25 | a number is printed as a non-empty string of ASCII digits, with a leading `0` only for zero itself |
| Decimal.StringToNatOfRendering | src/desmos.rs:25 | reading the printed digits back gives the number, so no value is lost in `format!` |
| Decimal.NatToStringInjective | src/desmos.rs:25 | two numbers print the same exactly when they are equal |
| Decimal.ReadNatOfRendering | src/desmos.rs:27 | a printed number followed by text that does not start with a digit is read back whole, so the numbers in the templates stay delimited |
| Raster.ValidPixelsFit | src/desmos.rs:27 | for a pixel inside the image, the `u32` additions `x + 1` and `y + 1` cannot overflow |
| DesmosText.ColorOf | src/desmos.rs:25 | the `rgb({}, {}, {})` string of channels 0, 1 and 2; it has no contract of its own, and its meaning is fixed by `ColorRoundTrip` and `ColorOfInjective` |
| DesmosText.ColorRoundTrip | src/desmos.rs:25 | the colour string has the form `rgb(r, g, b)` and gives back channels 0, 1 and 2 |
| DesmosText.ColorOfInjective | src/desmos.rs:25 | two pixels get the same colour string exactly when red, green and blue agree, whatever their alpha |
| DesmosText.LatexOf | src/desmos.rs:27 | the LaTeX inequality for the pixel at `(x, y)`, with `x + 1` and `y + 1` as 32-bit additions; it has no contract of its own, and its meaning is fixed by `LatexRoundTrip` and `LatexOfInjective` |
| DesmosText.CellLatexRoundTrip | src/desmos.rs:27 | the LaTeX template, filled with any four numbers, gives back those four numbers as the bounds `a <= X <= b`, `c <= Y <= d` |
| DesmosText.LatexRoundTrip | src/desmos.rs:27 | the LaTeX string bounds the unit cell `x <= X <= x + 1`, `y <= Y <= y + 1` at the pixel's unflipped coordinates |
| DesmosText.LatexOfInjective | src/desmos.rs:27 | distinct coordinates give distinct LaTeX strings |
| Desmos.ExprOf | src/desmos.rs:22-31 | the expression built for a pixel carries the id it was given and type `expression` with empty fill opacity, line opacity and line width, whatever the pixel |
| Desmos.ExprOfText | src/desmos.rs:25-27 | an expression's colour and LaTeX carry exactly its pixel's red, green, blue and unit cell |
| Desmos.Convert | src/desmos.rs:18-36 | building the list by pushing one expression per pixel, with id equal to the length so far, gives exactly one expression per pixel, and the i-th one is the expression of pixel i with id i |
| Desmos.ParseImage | src/desmos.rs:18-36 | the push loop returns as many expressions as there are pixels, with ids equal to positions and the fixed type and style, and agrees with the fold |
| Desmos.ConvertAppend | src/desmos.rs:21-33 | one more pixel appends exactly one expression and leaves the earlier ones unchanged |
| Desmos.ConvertPrefix | src/desmos.rs:21-34 | the first k expressions depend only on the first k pixels; nothing is reordered, dropped or duplicated |
| Desmos.IdsAreIndices | src/desmos.rs:24 | the set of ids is exactly 0 .. n - 1, and ids strictly increase in iteration order |
| Desmos.ExprOfInjective | src/desmos.rs:22-31 | two expressions are equal exactly when they share a position, the pixel coordinates and the red, green and blue channels |
| Desmos.RecolorIsLocal | src/desmos.rs:22-31 | recolouring one pixel changes only that expression's `color`, and changes it exactly when red, green or blue changes |
| Desmos.AlphaIgnored | src/desmos.rs:25 | changing a pixel's alpha leaves the whole output unchanged |
| Desmos.RowsPlotUpward | src/desmos.rs:27 | a pixel further down the image is plotted at a greater y: every point of its cell lies at or below every point of the later row's cell, so the image appears upside down |
| Desmos.CompleteImageCells | src/desmos.rs:21-36 | an image that visits all of its W×H positions once yields W×H expressions, and no two of them parse to the same cell bounds, so no two shade the same cell |
| Desmos.TwoBlackPixels | src/desmos.rs:18-36 | a 2×1 black image gives expressions 0 and 1, coloured `rgb(0, 0, 0)`, for the cells at x = 0 and x = 1 |

## Left out

- `src/main.rs`: command-line parsing, the `.png` extension check and the 5,000,000-byte size check. These are I/O glue around a single comparison each, and `main.rs` never calls `parse_image`.
- Image decoding and the order of the `image` crate's `pixels()` iterator. The model takes the pixel sequence as given and proves that the output follows it. It assumes only what the decoder guarantees: every pixel lies inside the image (`Image.Valid`), so `x`, `y < u32::MAX`.
- JSON serialisation. The serde derives and the field renames `fillOpacity`, `lineOpacity` and `lineWidth` are generated code. The renames are recorded as field names of `Expression`, and `kind` stands for the JSON field `type`.
- Desmos.ExprOf: `id` is a `usize` in the source and a `nat` here. A `Vec` cannot hold `usize::MAX` elements, so `expressions.len()` never wraps.
- Save-document assembly, thumbnails, graph-hash handling and HTTP upload. None of these appears in the modelled source files.
