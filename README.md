# Palette engine of the sword-sprite generator

`generate.py` builds pixel-art swords by recolouring template parts. The
palette image is a grid of colours: column `x < palettes.size[0]` is a shade
(darkest first) and row `y < palettes.size[1]` is one palette. For each
opaque pixel of a template, `get_value_index` finds the grid cell holding
its colour. It checks the memo `palette_cache` first, then scans the grid
column by column, and finally falls back to a brightness threshold table.
`get_palette_color` then reads the same shade from the palette `shift` rows
further on, wrapping around the grid. `palette_swap` applies the two to
every opaque pixel of a copy of the template. `calculate_possibilities`
reports the size of the generator's output space.

The Dafny module `Generate` (file `generate.dfy`) models this engine:

- The module globals `palettes` and `palette_cache` become the fields of
  the class `PaletteBank`. The palette is an `array2<Color>` indexed
  `[shade, palette]`, and the cache is a `map<Color, Coord>` that the
  lookup methods reassign.
- The cache invariant `Valid` says every cached cell is the cell its colour
  resolves to (`Resolves`):
  - the first cell in scan order (`IsFirstMatch`) when the colour occurs in
    the grid;
  - otherwise `(shade of its brightness, 0)`.
- `palette_swap` is a method that fills a fresh `array2`. Its nested loops
  are split into a column method and a pixel method.
- The Python exceptions the engine can raise are an explicit `Error` value
  in a `Result`:
  - `ZeroDivisionError`: the modulo by a grid with no rows;
  - `IndexError`: a column outside the grid, or the threshold table
    overrun;
  - `TypeError`: the tuple comparison of the brightness loop.

Notes on the code:

- The palette is chosen by shifting the found row by `palette`
  (`(row + shift) % height`), not by replacing the row.
- The threshold table is `(0.0, 0.4, 0.55, 0.75, 0.95)`, and the loop stops
  at the first threshold that is not below the brightness. A brightness of
  exactly 0.4 is therefore shade 1.
- An opaque pixel takes the palette colour whole, alpha included. Nothing
  keeps the template's alpha.

## Model

| member | source | states |
|---|---|---|
| Generate.HsvValue | generate.py:84 | the value channel of `rgb_to_hsv` lies in [0, 1], is at least each of r/255, g/255, b/255, and equals one of them (the channel maximum) |
| Generate.ShadeExists | generate.py:83-88 | every brightness falls into some shade of the five-entry threshold table |
| Generate.ShadeUnique | generate.py:85-89 | a brightness has exactly one shade, so a cached fallback cell equals a recomputed one |
| Generate.ShadeMonotone | generate.py:85-87 | the shade is monotone non-decreasing in brightness |
| Generate.ShadeBoundaries | generate.py:83-87 | the loop stops at the first threshold not below v: 0.0 is shade 0, 0.4 is shade 1, 0.41 is shade 2, 0.95 is shade 4; 1.0 is shade 4 in the corrected bucketing (the source's loop runs past the table for it) |
| Generate.ShadeByValue | generate.py:83-87 | the brightness loop, stopping at the lightest shade, returns the shade of v (every earlier threshold is exceeded, and the one reached is not, unless it is the last) |
| Generate.ShadeByValueAsWritten | generate.py:85-87 | the unbounded loop on a scalar brightness succeeds exactly when v <= 0.95, then returns the shade of v; otherwise it indexes past the table (IndexError) |
| Generate.ShiftedRow | generate.py:58 | the shifted row `(row + shift) % height` is always a valid row index |
| Generate.ShiftedRowPeriodic | generate.py:58 | shifting by `height` more rows lands on the same row |
| Generate.ReachableRowsAreAllRows | generate.py:19-22 | with the shift drawn from `randint(0, height)`, every one of the `height` rows is reachable from any row, and no other row is |
| Generate.OpaqueBeforeMembers | generate.py:48-52 | a colour was visited before pixel (i, j) exactly when some opaque pixel earlier in column-major order has that colour |
| Generate.PaletteBank.constructor | generate.py:99-100 | loading the palette image starts with an empty, consistent cache |
| Generate.PaletteBank.ResolvesUnique | generate.py:72-79 | a colour resolves to one cell only, so a cached answer is the answer a fresh lookup would give |
| Generate.PaletteBank.FindInPalettes | generate.py:75-79 | the column-major scan returns the first cell in scan order holding the colour, or reports that no cell holds it |
| Generate.PaletteBank.GetValueIndex | generate.py:61-90 | the result is the cell the colour resolves to; the cache gains exactly that entry and keeps every other one; on a cache hit the cached cell is returned and the cache is unchanged |
| Generate.PaletteBank.GetValueIndexAsWritten | generate.py:72-90 | as written the lookup fails exactly when the colour is neither cached nor in the grid: the guard at line 86 compares the (h, s, v) triple with a float, which Python 3 refuses (TypeError), and nothing is cached; otherwise it returns the cell the colour resolves to and caches it as GetValueIndex does. Python 2 orders any tuple above any float, so there the same loop runs past the table and raises IndexError |
| Generate.PaletteBank.GetValueIndexIdempotent | generate.py:72-79 | a second lookup of the same colour returns the same cell and changes nothing further |
| Generate.PaletteBank.GetPaletteColor | generate.py:57-59 | the lookup succeeds exactly when the grid has rows and the column is inside it; it then returns the cell in the same column and the shifted row; a grid without rows raises ZeroDivisionError and a column outside the grid raises IndexError |
| Generate.PaletteBank.ShiftByHeight | generate.py:19-22 | a shift equal to the number of palettes (randint's inclusive bound) reads the same colour as no shift |
| Generate.PaletteBank.ShiftFromRowZero | generate.py:58-59 | from row 0 a shift t < height reads row t of the same column |
| Generate.PaletteBank.ResolveThenReadBack | generate.py:57-59 | a grid colour, resolved and read back with shift 0, is itself |
| Generate.PaletteBank.RecolouredIsLookup | generate.py:52 | an opaque output pixel equals get_palette_color of the cell its input colour resolves to |
| Generate.PaletteBank.SwapPixel | generate.py:50-52 | an opaque pixel is written with its palette colour and its colour enters the cache; a transparent pixel and the cache are left alone; no other pixel changes |
| Generate.PaletteBank.SwapColumn | generate.py:49-52 | one column is recoloured top to bottom and the cache gains its opaque colours; a failing lookup stops it at the first such pixel |
| Generate.PaletteBank.PaletteSwap | generate.py:38-54 | the output is a fresh copy with the input's dimensions; each opaque pixel becomes the palette colour of its cached cell shifted by `palette`; each transparent pixel is the input pixel; the cache gains exactly the image's opaque colours and keeps every old entry; the input is not modified; a failing lookup aborts at the first failing opaque pixel in scan order |
| Generate.PaletteBank.CalculatePossibilities | generate.py:8-9 | the count is the product of the four template counts times the palette grid's width to the fourth power |
| Generate.PaletteBank.SwordCount | generate.py:9 | the corrected count multiplies by the number of palettes (rows) to the fourth power |
| Generate.PaletteBank.PossibilityCountUsesWidth | generate.py:9 | with a 5-shade, 32-palette grid and one template per part, the count as written is 625, while the parts can be recoloured in 1048576 ways |

## Left out

- Reading, converting and saving images with PIL (`Image.open`, `convert("RGBA")`, `save`, `new`) are library calls. Images are arrays of RGBA colours, and the palette image is taken to be RGBA as well: an RGB palette would return 3-tuples that never equal a 4-tuple pixel.
- Compositing the four parts with `Image.paste` and masks (generate.py:24-30) belongs to PIL and is not modelled. The layers are pasted in the order grip, pommel, blade, crossguard.
- Listing template files with `glob` and `os.path` (generate.py:103-106) is filesystem plumbing. The template lists appear only through their lengths.
- `random.choice`, `random.randint` and `random.seed` (generate.py:19-22, 97) become parameters: the chosen template is the image passed in, and the drawn shift is `shift`. Only the range of `randint` is modelled, in `ReachableRowsAreAllRows` and `ShiftByHeight`.
- `colorsys.rgb_to_hsv` is modelled only through its value channel, computed over exact reals rather than floats. Hue and saturation are never used once the fallback is corrected. 0.0 and 0.4 are the only thresholds of the form n/255, and float division gives them exactly, so this changes no shade.
- The `print` diagnostics and the `__main__` sprite-sheet loop (generate.py:81, 93-121) are output and orchestration.
- The procedural palette-ramp generator and the blade rasteriser are not part of this model. Neither is in the source.
- GetValueIndex: uses the corrected fallback (`ShadeByValue` on the value channel), so it always returns a cell and never raises. The as-written behaviour is captured by `GetValueIndexAsWritten` and `ShadeByValueAsWritten`.
- PaletteSwap: the coordinate of the failing pixel is stated to exist but is not returned, because the source only raises.

## Findings

| source | as written | input that shows it | evidently intended | confidence | as-written member | corrected member |
|---|---|---|---|---|---|---|
| generate.py:84-86 | `v` is the whole (h, s, v) tuple from `rgb_to_hsv`, compared with a float threshold | any colour absent from the palette grid, e.g. (10, 20, 30, 255): Python 3 raises TypeError at the comparison | compare the value channel `v[2]` with the thresholds | high (not executed) | Generate.PaletteBank.GetValueIndexAsWritten | Generate.PaletteBank.GetValueIndex |
| generate.py:85-87 | the loop has no upper bound on `output` | a scalar brightness above 0.95, e.g. white (255, 255, 255, 255) absent from the grid, v = 1.0: `palette_values[5]` raises IndexError | stop at the lightest shade, index 4 | high (not executed) | Generate.ShadeByValueAsWritten | Generate.ShadeByValue |
| generate.py:9 | each part's palette factor is `palettes.size[0]`, the number of shades | a 5 x 32 palette grid with one template per part: 625 possibilities, although the four parts have 32 palettes each | `palettes.size[1]`, the number of palettes a swap chooses between | medium (not executed) | Generate.PaletteBank.PossibilityCountUsesWidth | Generate.PaletteBank.SwordCount |
