/** The palette-indexing and palette-swapping engine of the sword-sprite generator.

    The palette image is a grid of colours: its column x is a shade (darkest
    first) and its row y is one palette. A template part is recoloured by
    finding, for each opaque pixel, the (shade, palette) cell that holds its
    colour and reading the same shade from a palette `shift` rows further on.
 */
module Generate {

  /** One 8-bit channel of a pixel, as read from an "RGBA" image. */
  type Channel = x: int | 0 <= x <= 255

  /** An RGBA pixel. Alpha 0 means the pixel is not part of the shape. */
  datatype Color = Color(r: Channel, g: Channel, b: Channel, a: Channel)

  /** A (column, row) cell of the palette grid: the column is the shade, the row the palette. */
  type Coord = (nat, nat)

  /** The Python exceptions the engine can raise. */
  datatype Error = TypeError | IndexError | ZeroDivisionError

  datatype Result<T> = Ok(value: T) | Err(error: Error)

  datatype Option<T> = None | Some(value: T)

  /** (x, y) is visited before (i, j) by the nested loops of the source:
      the outer loop runs over columns, the inner one over rows. */
  predicate Before(x: int, y: int, i: int, j: int)
  {
    x < i || (x == i && y < j)
  }

  // ---------------------------------------------------------------------
  // Brightness fallback
  // ---------------------------------------------------------------------

  /** The value channel of colorsys.rgb_to_hsv for the channels scaled to
      [0, 1]: the largest of red, green and blue, over 255. */
  function HsvValue(c: Color): (v: real)
    ensures 0.0 <= v <= 1.0
    ensures c.r as real / 255.0 <= v && c.g as real / 255.0 <= v && c.b as real / 255.0 <= v
    ensures v == c.r as real / 255.0 || v == c.g as real / 255.0 || v == c.b as real / 255.0
  {
    var m := if c.r >= c.g && c.r >= c.b then c.r else if c.g >= c.b then c.g else c.b;
    m as real / 255.0
  }

  /** The brightness thresholds of the fallback, one per shade. */
  const PaletteValues: seq<real> := [0.0, 0.4, 0.55, 0.75, 0.95]

  /** The index of the lightest shade. */
  const LastShade: nat := 4

  /** k is the shade the fallback gives brightness v: v exceeds every
      threshold before k, and v does not exceed the threshold at k unless k
      is the lightest shade (where the table ends). */
  predicate IsShadeOf(v: real, k: nat)
  {
    k <= LastShade &&
    (forall m :: 0 <= m < k ==> v > PaletteValues[m]) &&
    (k < LastShade ==> v <= PaletteValues[k])
  }

  /** Every brightness has a shade. */
  lemma ShadeExists(v: real) returns (k: nat)
    ensures IsShadeOf(v, k)
  {
    if v <= 0.0 { k := 0; }
    else if v <= 0.4 { k := 1; }
    else if v <= 0.55 { k := 2; }
    else if v <= 0.75 { k := 3; }
    else { k := 4; }
  }

  /** A brightness has only one shade, so a cached fallback entry is the one
      a fresh lookup would produce. */
  lemma ShadeUnique(v: real, k: nat, l: nat)
    requires IsShadeOf(v, k) && IsShadeOf(v, l)
    ensures k == l
  {
  }

  /** A brighter colour never falls into a darker shade. */
  lemma ShadeMonotone(v: real, w: real, k: nat, l: nat)
    requires v <= w && IsShadeOf(v, k) && IsShadeOf(w, l)
    ensures k <= l
  {
  }

  /** The first threshold not below the brightness names the shade: 0.0 is
      shade 0, 0.4 is shade 1 (it does not exceed 0.4), and full brightness
      is the lightest shade. */
  lemma ShadeBoundaries()
    ensures IsShadeOf(0.0, 0) && IsShadeOf(0.4, 1) && IsShadeOf(0.41, 2)
    ensures IsShadeOf(0.95, 4) && IsShadeOf(1.0, 4)
  {
  }

  /** The brightness loop, on the HSV value channel and stopping at the
      lightest shade: the corrected form of the fallback, used by
      GetValueIndex. */
  method ShadeByValue(v: real) returns (shade: nat)
    ensures IsShadeOf(v, shade)
  {
    shade := 0;
    while shade < LastShade && v > PaletteValues[shade]
      invariant shade <= LastShade
      invariant forall m :: 0 <= m < shade ==> v > PaletteValues[m]
    {
      shade := shade + 1;
    }
  }

  /** The brightness loop as written, given a scalar brightness: it has no
      upper bound, so any v above the last threshold indexes past the
      five-entry table. */
  method ShadeByValueAsWritten(v: real) returns (r: Result<nat>)
    ensures r.Ok? <==> v <= PaletteValues[LastShade]
    ensures r.Ok? ==> IsShadeOf(v, r.value)
    ensures r.Err? ==> r.error == IndexError
  {
    var output := 0;
    while output < |PaletteValues| && v > PaletteValues[output]
      invariant output <= |PaletteValues|
      invariant forall m :: 0 <= m < output ==> v > PaletteValues[m]
    {
      output := output + 1;
    }
    if output == |PaletteValues| {
      return Err(IndexError);
    }
    return Ok(output);
  }

  // ---------------------------------------------------------------------
  // Shifting rows and counting possibilities
  // ---------------------------------------------------------------------

  /** The row reached from `row` after `shift` further rows, wrapping at
      `height` (Python's `%` with a positive divisor, which is Dafny's). */
  function ShiftedRow(row: int, shift: int, height: nat): (y: nat)
    requires height > 0
    ensures y < height
  {
    (row + shift) % height
  }

  /** A full turn of the rows changes nothing: shifting by `height` more
      lands on the same row. */
  lemma ShiftedRowPeriodic(row: int, shift: int, height: nat)
    requires height > 0
    ensures ShiftedRow(row, shift + height, height) == ShiftedRow(row, shift, height)
  {
    var k := row + shift;
    var q := k / height;
    assert k == height * q + k % height;
    assert k + height == height * (q + 1) + k % height;
    ModOfMultiplePlus(k + height, height, q + 1, k % height);
  }

  /** Division with remainder is unique: a == n * q + r with 0 <= r < n
      makes r the remainder of a by n. */
  lemma ModOfMultiplePlus(a: int, n: int, q: int, r: int)
    requires n > 0 && 0 <= r < n && a == n * q + r
    ensures a % n == r
  {
    var q', r' := a / n, a % n;
    assert a == n * q' + r';
    if q' < q {
      assert n * (q - q') == r' - r;
      MulAtLeast(n, q - q');
    } else if q' > q {
      assert n * (q' - q) == r - r';
      MulAtLeast(n, q' - q);
    }
  }

  lemma {:induction false} MulAtLeast(n: nat, d: int)
    requires d >= 1
    ensures n * d >= n
    decreases d
  {
    if d > 1 {
      MulAtLeast(n, d - 1);
      assert n * d == n * (d - 1) + n;
    }
  }

  function Pow4(n: nat): nat
  {
    n * n * n * n
  }

  /** Four factors `count * w` regroup as the product of the counts times w^4. */
  lemma Regroup(a: nat, b: nat, c: nat, d: nat, w: nat)
    ensures (a * w) * (b * w) * (c * w) * (d * w) == a * b * c * d * Pow4(w)
  {
    MulSwapMiddle(a, w, b, w);
    MulSwapMiddle(a * b, w * w, c, w);
    MulSwapMiddle(a * b * c, w * w * w, d, w);
  }

  lemma MulSwapMiddle(x: int, y: int, u: int, v: int)
    ensures (x * y) * (u * v) == (x * u) * (y * v)
  {
    calc {
      (x * y) * (u * v);
      == x * (y * (u * v));
      == x * ((y * u) * v);
      == x * ((u * y) * v);
      == x * (u * (y * v));
      == (x * u) * (y * v);
    }
  }

  /** The rows 0 .. height - 1 of the palette grid. */
  ghost function Rows(height: nat): set<nat>
  {
    if height == 0 then {} else Rows(height - 1) + {height - 1}
  }

  lemma {:induction false} RowsAre(height: nat)
    ensures forall y: nat :: y in Rows(height) <==> y < height
    ensures |Rows(height)| == height
  {
    if height > 0 {
      RowsAre(height - 1);
      assert height - 1 !in Rows(height - 1);
    }
  }

  /** The rows a palette swap lands on from row j when the shift is drawn
      from randint(0, height), both ends included. */
  ghost function ReachableRows(j: nat, height: nat): set<nat>
    requires height > 0
  {
    set s: nat | s <= height :: ShiftedRow(j, s, height)
  }

  /** Every row is reachable from every row, so a part has exactly `height`
      distinct palette choices. */
  lemma ReachableRowsAreAllRows(j: nat, height: nat)
    requires j < height
    ensures ReachableRows(j, height) == Rows(height)
    ensures |ReachableRows(j, height)| == height
  {
    forall y: nat | y < height
      ensures y in ReachableRows(j, height)
    {
      if y >= j {
        ModOfMultiplePlus(y, height, 0, y);
        assert ShiftedRow(j, y - j, height) == y;
      } else {
        ModOfMultiplePlus(y + height, height, 1, y);
        assert ShiftedRow(j, y + height - j, height) == y;
      }
    }
    RowsAre(height);
    assert ReachableRows(j, height) == Rows(height);
  }

  // ---------------------------------------------------------------------
  // Pixel sets of a template image
  // ---------------------------------------------------------------------

  /** The colours of the opaque pixels the swap loop visits before (i, j),
      gathered in visiting order. */
  ghost function OpaqueBefore(image: array2<Color>, i: nat, j: nat): set<Color>
    requires (i < image.Length0 && j <= image.Length1) || (i == image.Length0 && j == 0)
    reads image
    decreases i, j
  {
    if j > 0 then
      OpaqueBefore(image, i, j - 1) + (if image[i, j - 1].a > 0 then {image[i, j - 1]} else {})
    else if i > 0 then
      OpaqueBefore(image, i - 1, image.Length1)
    else
      {}
  }

  /** The visited colours are exactly the colours of the opaque pixels
      before (i, j) in visiting order. */
  lemma {:induction false} OpaqueBeforeMembers(image: array2<Color>, i: nat, j: nat, c: Color)
    requires (i < image.Length0 && j <= image.Length1) || (i == image.Length0 && j == 0)
    ensures c in OpaqueBefore(image, i, j) <==>
            exists x, y :: 0 <= x < image.Length0 && 0 <= y < image.Length1 && Before(x, y, i, j) &&
                           image[x, y].a > 0 && image[x, y] == c
    decreases i, j
  {
    if j > 0 {
      OpaqueBeforeMembers(image, i, j - 1, c);
      if image[i, j - 1].a > 0 && image[i, j - 1] == c {
        assert Before(i, j - 1, i, j);
      }
    } else if i > 0 {
      OpaqueBeforeMembers(image, i - 1, image.Length1, c);
    }
  }

  /** m' keeps every entry of m. */
  ghost predicate Extends(m: map<Color, Coord>, m': map<Color, Coord>)
  {
    forall c :: c in m ==> c in m' && m'[c] == m[c]
  }

  // ---------------------------------------------------------------------
  // The palette bank and its cache
  // ---------------------------------------------------------------------

  /** The palette image and the memo of resolved colours: the module-level
      `palettes` and `palette_cache` of the source, owned by one object. */
  class PaletteBank {
    /** The palette image, indexed [x, y]: x < Length0 is the shade, y < Length1 the palette. */
    const palettes: array2<Color>
    /** Colours already resolved, with the cell they resolved to. */
    var paletteCache: map<Color, Coord>

    /** Some cell of the palette grid holds c. */
    ghost predicate Occurs(c: Color)
      reads palettes
    {
      exists x, y :: 0 <= x < palettes.Length0 && 0 <= y < palettes.Length1 && palettes[x, y] == c
    }

    /** `at` is the first cell holding c in the scan order. */
    ghost predicate IsFirstMatch(c: Color, at: Coord)
      reads palettes
    {
      at.0 < palettes.Length0 && at.1 < palettes.Length1 && palettes[at.0, at.1] == c &&
      forall x, y :: 0 <= x < palettes.Length0 && 0 <= y < palettes.Length1 && Before(x, y, at.0, at.1) ==>
        palettes[x, y] != c
    }

    /** `at` is what a lookup of c yields: its first cell when c occurs in
        the grid, otherwise the shade of its brightness in row 0. */
    ghost predicate Resolves(c: Color, at: Coord)
      reads palettes
    {
      if Occurs(c) then IsFirstMatch(c, at) else at.1 == 0 && IsShadeOf(HsvValue(c), at.0)
    }

    /** The cache invariant: every cached cell is the one its colour resolves to. */
    ghost predicate Valid()
      reads this, palettes
    {
      forall c {:trigger Resolves(c, paletteCache[c])} :: c in paletteCache ==> Resolves(c, paletteCache[c])
    }

    /** Loading the palette image, with an empty cache. */
    constructor (palettes: array2<Color>)
      ensures this.palettes == palettes && paletteCache == map[]
      ensures Valid()
    {
      this.palettes := palettes;
      paletteCache := map[];
    }

    /** A colour resolves to one cell only, so every lookup of it, cached
        or not, returns the same coordinate. */
    lemma ResolvesUnique(c: Color, at: Coord, at': Coord)
      requires Resolves(c, at) && Resolves(c, at')
      ensures at == at'
    {
      if !Occurs(c) {
        ShadeUnique(HsvValue(c), at.0, at'.0);
      }
    }

    /** The column-major scan of the palette grid for an exact match. */
    method FindInPalettes(color: Color) returns (found: Option<Coord>)
      ensures found.None? ==> !Occurs(color)
      ensures found.Some? ==> IsFirstMatch(color, found.value)
    {
      var i := 0;
      while i < palettes.Length0
        invariant 0 <= i <= palettes.Length0
        invariant forall x, y :: 0 <= x < i && 0 <= y < palettes.Length1 ==> palettes[x, y] != color
      {
        var j := 0;
        while j < palettes.Length1
          invariant 0 <= j <= palettes.Length1
          invariant forall x, y :: 0 <= x < palettes.Length0 && 0 <= y < palettes.Length1 && Before(x, y, i, j) ==>
            palettes[x, y] != color
        {
          if palettes[i, j] == color {
            return Some((i, j));
          }
          j := j + 1;
        }
        i := i + 1;
      }
      return None;
    }

    /** get_value_index: the cached cell of `color`, else the first cell that
        holds it, else (the shade of its brightness, row 0); the answer is
        cached. */
    method GetValueIndex(color: Color) returns (at: Coord)
      requires Valid()
      modifies this`paletteCache
      ensures Valid()
      ensures Resolves(color, at)
      ensures paletteCache == old(paletteCache)[color := at]
      ensures color in old(paletteCache) ==> at == old(paletteCache)[color] && paletteCache == old(paletteCache)
    {
      if color in paletteCache {
        return paletteCache[color];
      }
      var found := FindInPalettes(color);
      if found.Some? {
        at := found.value;
      } else {
        var shade := ShadeByValue(HsvValue(color));
        at := (shade, 0);
      }
      paletteCache := paletteCache[color := at];
    }

    /** get_value_index as written: a colour neither cached nor in the grid
        reaches the brightness loop, whose guard compares the whole
        (hue, saturation, value) triple with a float threshold. Python 3
        refuses that comparison, so such a lookup raises TypeError before
        anything is cached; a found colour is cached as in GetValueIndex. */
    method GetValueIndexAsWritten(color: Color) returns (r: Result<Coord>)
      requires Valid()
      modifies this`paletteCache
      ensures Valid()
      ensures r.Err? <==> color !in old(paletteCache) && !Occurs(color)
      ensures r.Err? ==> r.error == TypeError && paletteCache == old(paletteCache)
      ensures r.Ok? ==> Resolves(color, r.value) && paletteCache == old(paletteCache)[color := r.value]
      ensures color in old(paletteCache) ==> r == Ok(old(paletteCache)[color]) && paletteCache == old(paletteCache)
    {
      if color in paletteCache {
        assert Resolves(color, paletteCache[color]);
        return Ok(paletteCache[color]);
      }
      var found := FindInPalettes(color);
      if found.None? {
        return Err(TypeError);
      }
      paletteCache := paletteCache[color := found.value];
      return Ok(found.value);
    }

    /** Looking a colour up twice gives the same cell, and the second lookup
        leaves the cache as the first left it. */
    method GetValueIndexIdempotent(color: Color) returns (first: Coord, second: Coord)
      requires Valid()
      modifies this`paletteCache
      ensures first == second && Resolves(color, first)
      ensures paletteCache == old(paletteCache)[color := first]
    {
      first := GetValueIndex(color);
      ghost var afterFirst := paletteCache;
      second := GetValueIndex(color);
      assert paletteCache == afterFirst;
    }

    /** get_palette_color: the colour in the same column (shade), `shift`
        rows (palettes) further on, wrapping at the number of rows. */
    function GetPaletteColor(index: Coord, shift: int): (r: Result<Color>)
      reads palettes
      ensures r.Ok? <==> palettes.Length1 > 0 && index.0 < palettes.Length0
      ensures palettes.Length1 == 0 ==> r == Err(ZeroDivisionError)
      ensures palettes.Length1 > 0 && r.Err? ==> r.error == IndexError
      ensures r.Ok? ==> r.value == palettes[index.0, ShiftedRow(index.1, shift, palettes.Length1)]
    {
      if palettes.Length1 == 0 then Err(ZeroDivisionError)
      else
        var y := ShiftedRow(index.1, shift, palettes.Length1);
        if index.0 < palettes.Length0 then Ok(palettes[index.0, y]) else Err(IndexError)
    }

    /** A shift by the number of palettes (randint's inclusive upper bound)
        lands where a shift by zero does. */
    lemma ShiftByHeight(index: Coord, shift: int)
      ensures GetPaletteColor(index, shift + palettes.Length1) == GetPaletteColor(index, shift)
    {
      if palettes.Length1 > 0 {
        ShiftedRowPeriodic(index.1, shift, palettes.Length1);
      }
    }

    /** Shifting a colour of row 0 by t < height reads row t: on row 0 the
        shift is a choice of palette. */
    lemma ShiftFromRowZero(x: nat, t: nat)
      requires x < palettes.Length0 && t < palettes.Length1
      ensures GetPaletteColor((x, 0), t) == Ok(palettes[x, t])
    {
    }

    /** A colour of the grid, resolved and read back with no shift, is
        itself: recolouring with shift 0 leaves palette colours alone. */
    lemma ResolveThenReadBack(c: Color, at: Coord)
      requires Occurs(c) && Resolves(c, at)
      ensures GetPaletteColor(at, 0) == Ok(c)
    {
      ModOfMultiplePlus(at.1, palettes.Length1, 0, at.1);
    }

    /** `out` is what the swap makes of `pixel`: an opaque pixel becomes its
        cached cell read `shift` rows on, a transparent one is kept. */
    ghost predicate Recoloured(cache: map<Color, Coord>, pixel: Color, out: Color, shift: int)
      reads palettes
    {
      if pixel.a > 0 then
        pixel in cache && GetPaletteColor(cache[pixel], shift) == Ok(out)
      else
        out == pixel
    }

    /** With a sound cache, a recoloured opaque pixel is the palette colour
        of the cell its colour resolves to: what a fresh lookup followed by
        get_palette_color gives. */
    lemma RecolouredIsLookup(pixel: Color, out: Color, shift: int, at: Coord)
      requires Valid()
      requires pixel.a > 0 && Recoloured(paletteCache, pixel, out, shift)
      requires Resolves(pixel, at)
      ensures GetPaletteColor(at, shift) == Ok(out)
    {
      assert Resolves(pixel, paletteCache[pixel]);
      ResolvesUnique(pixel, paletteCache[pixel], at);
    }

    /** One step of the swap loop: pixel (i, j) of `output`, still holding
        the original colour, is recoloured when it is opaque. */
    method SwapPixel(image: array2<Color>, output: array2<Color>, i: nat, j: nat, shift: int) returns (err: Option<Error>)
      requires Valid()
      requires i < image.Length0 && j < image.Length1
      requires output.Length0 == image.Length0 && output.Length1 == image.Length1
      requires output != palettes && output != image
      requires output[i, j] == image[i, j]
      modifies this`paletteCache, output
      ensures Valid()
      ensures Extends(old(paletteCache), paletteCache)
      ensures paletteCache.Keys == old(paletteCache).Keys + (if image[i, j].a > 0 then {image[i, j]} else {})
      ensures forall x, y :: 0 <= x < output.Length0 && 0 <= y < output.Length1 && (x != i || y != j) ==>
        output[x, y] == old(output[x, y])
      ensures err.None? ==> Recoloured(paletteCache, image[i, j], output[i, j], shift)
      ensures err.Some? ==>
        && image[i, j].a > 0 && image[i, j] in paletteCache
        && GetPaletteColor(paletteCache[image[i, j]], shift) == Err(err.value)
    {
      var col := image[i, j];
      if col.a > 0 {
        var at := GetValueIndex(col);
        var c := GetPaletteColor(at, shift);
        if c.Err? {
          return Some(c.error);
        }
        output[i, j] := c.value;
      }
      return None;
    }

    /** The inner loop of palette_swap: column i of `output`, still holding
        the original colours, is recoloured top to bottom; it stops at the
        first pixel whose palette lookup fails. */
    method SwapColumn(image: array2<Color>, output: array2<Color>, i: nat, shift: int, ghost base: set<Color>)
      returns (err: Option<Error>, ghost row: nat)
      requires Valid()
      requires i < image.Length0
      requires output.Length0 == image.Length0 && output.Length1 == image.Length1
      requires output != palettes && output != image
      requires paletteCache.Keys == base + OpaqueBefore(image, i, 0)
      requires forall y :: 0 <= y < image.Length1 ==> output[i, y] == image[i, y]
      modifies this`paletteCache, output
      ensures Valid()
      ensures Extends(old(paletteCache), paletteCache)
      ensures forall x, y :: 0 <= x < output.Length0 && 0 <= y < output.Length1 && x != i ==>
        output[x, y] == old(output[x, y])
      ensures err.None? ==>
        && paletteCache.Keys == base + OpaqueBefore(image, i + 1, 0)
        && forall y :: 0 <= y < image.Length1 ==> Recoloured(paletteCache, image[i, y], output[i, y], shift)
      ensures err.Some? ==>
        && row < image.Length1 && image[i, row].a > 0
        && image[i, row] in paletteCache && GetPaletteColor(paletteCache[image[i, row]], shift) == Err(err.value)
        && paletteCache.Keys == base + OpaqueBefore(image, i, row) + {image[i, row]}
        && forall y' :: 0 <= y' < row && image[i, y'].a > 0 ==>
             image[i, y'] in paletteCache && GetPaletteColor(paletteCache[image[i, y']], shift).Ok?
    {
      var h := image.Length1;
      var j := 0;
      while j < h
        invariant 0 <= j <= h
        invariant Valid()
        invariant Extends(old(paletteCache), paletteCache)
        invariant paletteCache.Keys == base + OpaqueBefore(image, i, j)
        invariant forall x, y :: 0 <= x < output.Length0 && 0 <= y < output.Length1 && x != i ==>
          output[x, y] == old(output[x, y])
        invariant forall y :: 0 <= y < h ==>
          if y < j then Recoloured(paletteCache, image[i, y], output[i, y], shift) else output[i, y] == image[i, y]
      {
        ghost var before := paletteCache;
        err := SwapPixel(image, output, i, j, shift);
        row := j;
        forall y | 0 <= y < j
          ensures Recoloured(paletteCache, image[i, y], output[i, y], shift)
        {
          RecolouredExtends(before, paletteCache, image[i, y], output[i, y], shift);
        }
        if err.Some? {
          return;
        }
        if image[i, j].a > 0 {
          assert OpaqueBefore(image, i, j + 1) == OpaqueBefore(image, i, j) + {image[i, j]};
        } else {
          assert OpaqueBefore(image, i, j + 1) == OpaqueBefore(image, i, j);
        }
        j := j + 1;
      }
      assert OpaqueBefore(image, i + 1, 0) == OpaqueBefore(image, i, h);
      return None, 0;
    }

    /** palette_swap: a copy of the image in which every opaque pixel is
        replaced by the palette colour its cell resolves to (row shifted by
        `shift`) and every transparent pixel is kept; the cache gains exactly
        the opaque colours of the image. A failing lookup aborts the swap. */
    method PaletteSwap(image: array2<Color>, shift: int) returns (r: Result<array2<Color>>)
      requires Valid()
      modifies this`paletteCache
      ensures Valid()
      ensures Extends(old(paletteCache), paletteCache)
      ensures r.Ok? ==>
        && fresh(r.value)
        && r.value.Length0 == image.Length0 && r.value.Length1 == image.Length1
        && paletteCache.Keys == old(paletteCache).Keys + OpaqueBefore(image, image.Length0, 0)
        && forall x: nat, y: nat :: x < image.Length0 && y < image.Length1 ==>
             Recoloured(paletteCache, image[x, y], r.value[x, y], shift)
      ensures r.Err? ==> exists x: nat, y: nat ::
        && x < image.Length0 && y < image.Length1 && image[x, y].a > 0
        && image[x, y] in paletteCache && GetPaletteColor(paletteCache[image[x, y]], shift) == Err(r.error)
        && paletteCache.Keys == old(paletteCache).Keys + OpaqueBefore(image, x, y) + {image[x, y]}
        && forall x': nat, y': nat :: x' < image.Length0 && y' < image.Length1 && Before(x', y', x, y) && image[x', y'].a > 0 ==>
             image[x', y'] in paletteCache && GetPaletteColor(paletteCache[image[x', y']], shift).Ok?
    {
      var w, h := image.Length0, image.Length1;
      var output := new Color[w, h]((x: nat, y: nat) reads image requires x < w && y < h => image[x, y]);
      var i := 0;
      while i < w
        invariant 0 <= i <= w
        invariant Valid()
        invariant Extends(old(paletteCache), paletteCache)
        invariant paletteCache.Keys == old(paletteCache).Keys + OpaqueBefore(image, i, 0)
        invariant forall x: nat, y: nat :: x < w && y < h ==>
          if x < i then Recoloured(paletteCache, image[x, y], output[x, y], shift) else output[x, y] == image[x, y]
      {
        ghost var before := paletteCache;
        var err;
        ghost var row;
        err, row := SwapColumn(image, output, i, shift, old(paletteCache).Keys);
        forall x: nat, y: nat | x < i && y < h
          ensures Recoloured(paletteCache, image[x, y], output[x, y], shift)
        {
          RecolouredExtends(before, paletteCache, image[x, y], output[x, y], shift);
        }
        if err.Some? {
          ScannedBeforeAbort(paletteCache, image, output, shift, i, row);
          return Err(err.value);
        }
        i := i + 1;
      }
      return Ok(output);
    }

    /** When column i aborts at row y, every opaque pixel scanned before
        (i, y) was looked up successfully: the earlier columns were
        recoloured, and column i succeeded above row y. */
    lemma ScannedBeforeAbort(cache: map<Color, Coord>, image: array2<Color>, output: array2<Color>, shift: int, i: nat, y: nat)
      requires i < image.Length0 && y < image.Length1
      requires output.Length0 == image.Length0 && output.Length1 == image.Length1
      requires forall x: nat, y': nat :: x < i && y' < image.Length1 ==> Recoloured(cache, image[x, y'], output[x, y'], shift)
      requires forall y' :: 0 <= y' < y && image[i, y'].a > 0 ==>
        image[i, y'] in cache && GetPaletteColor(cache[image[i, y']], shift).Ok?
      ensures forall x': nat, y': nat :: x' < image.Length0 && y' < image.Length1 && Before(x', y', i, y) && image[x', y'].a > 0 ==>
        image[x', y'] in cache && GetPaletteColor(cache[image[x', y']], shift).Ok?
    {
    }

    /** A recoloured pixel stays recoloured when the cache only gains entries. */
    lemma RecolouredExtends(cache: map<Color, Coord>, cache': map<Color, Coord>, pixel: Color, out: Color, shift: int)
      requires Extends(cache, cache')
      requires Recoloured(cache, pixel, out, shift)
      ensures Recoloured(cache', pixel, out, shift)
    {
    }

    /** calculate_possibilities: each of the four parts contributes its
        number of templates times the palette grid's WIDTH (its number of
        shades). */
    function CalculatePossibilities(grips: seq<string>, pommels: seq<string>, crossguards: seq<string>, blades: seq<string>): (n: nat)
      ensures n == |grips| * |pommels| * |crossguards| * |blades| * Pow4(palettes.Length0)
    {
      var w := palettes.Length0;
      Regroup(|grips|, |pommels|, |crossguards|, |blades|, w);
      (|grips| * w) * (|pommels| * w) * (|crossguards| * w) * (|blades| * w)
    }

    /** The possibility count with each part's palette factor taken as the
        number of palettes (rows) a swap chooses between. */
    function SwordCount(grips: seq<string>, pommels: seq<string>, crossguards: seq<string>, blades: seq<string>): (n: nat)
      ensures n == |grips| * |pommels| * |crossguards| * |blades| * Pow4(palettes.Length1)
    {
      var h := palettes.Length1;
      Regroup(|grips|, |pommels|, |crossguards|, |blades|, h);
      (|grips| * h) * (|pommels| * h) * (|crossguards| * h) * (|blades| * h)
    }

    /** With a 5-shade, 32-palette grid and one template per part, the count
        as written is 625 while the parts can be recoloured in 32^4 ways. */
    lemma PossibilityCountUsesWidth(grips: seq<string>, pommels: seq<string>, crossguards: seq<string>, blades: seq<string>)
      requires palettes.Length0 == 5 && palettes.Length1 == 32
      requires |grips| == |pommels| == |crossguards| == |blades| == 1
      ensures CalculatePossibilities(grips, pommels, crossguards, blades) == 625
      ensures SwordCount(grips, pommels, crossguards, blades) == 1048576
    {
    }
  }
}
