/** The sampling pipeline of complexvis/main.c: window-layout constants, the
    pixel-to-complex mapping, the colour encoder and the fill of the graph's
    pixel buffer. `erf`, the active function and `SDL_MapRGBA` are parameters. */
module Graph {
  import opened CDouble

  type Byte = x: int | 0 <= x < 256
  type Uint32 = x: int | 0 <= x < 0x1_0000_0000

  const WindowWidth := 800
  const WindowHeight := 600
  const FontSize := 16
  const InfoHeight := FontSize + 2 * (FontSize / 5)
  const GraphHeight := WindowHeight - InfoHeight
  const GraphWidth := GraphHeight
  const InfoWidth := GraphWidth

  /** Centre and scale of the mapping, in C's integer division (all operands
      are positive, so it agrees with Dafny's). */
  const Centre := GraphWidth / 2
  const Scale := GraphWidth / 8

  lemma LayoutConstants()
    ensures InfoHeight == 22
    ensures GraphHeight == 578 && GraphWidth == 578 && InfoWidth == 578
    ensures Centre == 289 && Scale == 72 && GraphHeight / 2 == Centre && GraphHeight / 8 == Scale
  {
  }

  /** `cdouble_from_coords`: pixel (i, j) as a point of the complex plane. The
      integer offset from the centre is converted to a real and divided by
      the integer scale. */
  function FromCoords(i: int, j: int): (z: Complex)
    ensures z.re * Scale as real == (i - Centre) as real
    ensures z.im * Scale as real == (j - Centre) as real
  {
    Cons((i - GraphWidth / 2) as real / (GraphWidth / 8) as real,
         (j - GraphHeight / 2) as real / (GraphHeight / 8) as real)
  }

  lemma FromCoordsCentre()
    ensures FromCoords(289, 289) == Zero
  {
  }

  /** The real part depends on the column only, the imaginary part on the row
      only, and each grows strictly with its coordinate. */
  lemma FromCoordsMonotone(i1: int, j1: int, i2: int, j2: int)
    ensures FromCoords(i1, j1).re == FromCoords(i1, j2).re
    ensures FromCoords(i1, j1).im == FromCoords(i2, j1).im
    ensures i1 < i2 ==> FromCoords(i1, j1).re < FromCoords(i2, j1).re
    ensures j1 < j2 ==> FromCoords(i1, j1).im < FromCoords(i1, j2).im
  {
    var a, b := FromCoords(i1, j1), FromCoords(i2, j2);
    assert Scale == 72;
    assert (b.re - a.re) * 72.0 == b.re * 72.0 - a.re * 72.0 == (i2 - i1) as real;
    assert (b.im - a.im) * 72.0 == b.im * 72.0 - a.im * 72.0 == (j2 - j1) as real;
  }

  /** Distinct pixels represent distinct points. */
  lemma FromCoordsInjective(i1: int, j1: int, i2: int, j2: int)
    requires FromCoords(i1, j1) == FromCoords(i2, j2)
    ensures i1 == i2 && j1 == j2
  {
    FromCoordsMonotone(i1, j1, i2, j2);
    FromCoordsMonotone(i2, j2, i1, j1);
    FromCoordsMonotone(i1, j1, i2, j1);
    FromCoordsMonotone(i2, j1, i1, j1);
  }

  /** The range hypothesis on the supplied Gauss error function. */
  ghost predicate ErfRange(erf: real -> real)
  {
    forall x :: -1.0 <= erf(x) <= 1.0
  }

  /** C's conversion of a `double` to `int`: truncation toward zero. */
  function TruncToInt(x: real): (n: int)
    ensures 0.0 <= x ==> n as real <= x < n as real + 1.0
    ensures x < 0.0 ==> n as real - 1.0 < x <= n as real
  {
    if x >= 0.0 then x.Floor else -((-x).Floor)
  }

  /** One channel of `cdouble_to_color`, given the value `e` of erf: the
      truncated `(e + 1) * 128`, with values of 256 or more cut down to 255,
      then stored into an 8-bit unsigned field (which reduces modulo 256). */
  function Norm(e: real): (n: Byte)
    ensures -1.0 <= e < 1.0 ==> n as real <= (e + 1.0) * 128.0 < n as real + 1.0
    ensures e >= 1.0 ==> n == 255
  {
    var v := TruncToInt((e + 1.0) * 128.0);
    var clamped := if v >= 256 then 255 else v;
    clamped % 256
  }

  /** Only the upper end is ever clamped, and only when erf is exactly 1; the
      truncated value is never negative, so no lower clamp is needed. */
  lemma NormClampedExactlyAtOne(e: real)
    requires -1.0 <= e <= 1.0
    ensures TruncToInt((e + 1.0) * 128.0) >= 0
    ensures TruncToInt((e + 1.0) * 128.0) >= 256 <==> e == 1.0
  {
  }

  lemma NormMonotone(e1: real, e2: real)
    requires -1.0 <= e1 <= e2 <= 1.0
    ensures Norm(e1) <= Norm(e2)
  {
    if e2 < 1.0 {
      var x1, x2 := (e1 + 1.0) * 128.0, (e2 + 1.0) * 128.0;
      assert x1 <= x2;
      assert x1.Floor <= x2.Floor;
    }
  }

  datatype Color = Color(r: Byte, g: Byte, b: Byte, a: Byte)

  /** `cdouble_to_color`. The source never assigns the alpha field, so the
      colour carries whatever `junkAlpha` the uninitialised field holds; each
      call has its own field, so the fill takes one such value per pixel. */
  function ToColor(z: Complex, erf: real -> real, junkAlpha: Byte): (c: Color)
    ensures c.r == 0
    ensures c.a == junkAlpha
  {
    Color(0, Norm(erf(z.re)), Norm(erf(z.im)), junkAlpha)
  }

  /** The origin is coloured mid-green, mid-blue when erf(0) = 0. */
  lemma ToColorOrigin(erf: real -> real, junkAlpha: Byte)
    requires erf(0.0) == 0.0
    ensures ToColor(Zero, erf, junkAlpha) == Color(0, 128, 128, junkAlpha)
  {
  }

  /** A component where erf saturates at 1 gives the channel 255, never 256. */
  lemma ToColorSaturates(z: Complex, erf: real -> real, junkAlpha: Byte)
    ensures erf(z.re) == 1.0 ==> ToColor(z, erf, junkAlpha).g == 255
    ensures erf(z.im) == 1.0 ==> ToColor(z, erf, junkAlpha).b == 255
  {
  }

  /** With erf in [-1, 1], green and blue are the truncated
      `(erf + 1) * 128` capped at 255: the 8-bit store never wraps. */
  lemma ToColorChannels(z: Complex, erf: real -> real, junkAlpha: Byte)
    requires ErfRange(erf)
    ensures var c := ToColor(z, erf, junkAlpha);
      c.g == Min(TruncToInt((erf(z.re) + 1.0) * 128.0), 255) &&
      c.b == Min(TruncToInt((erf(z.im) + 1.0) * 128.0), 255)
  {
    NormClampedExactlyAtOne(erf(z.re));
    NormClampedExactlyAtOne(erf(z.im));
  }

  function Min(a: int, b: int): int
  {
    if a < b then a else b
  }

  /** Green follows the real part and blue the imaginary part, each growing
      with erf of its component. */
  lemma ToColorMonotone(z1: Complex, z2: Complex, erf: real -> real, junkAlpha: Byte)
    requires ErfRange(erf)
    ensures erf(z1.re) <= erf(z2.re) ==> ToColor(z1, erf, junkAlpha).g <= ToColor(z2, erf, junkAlpha).g
    ensures erf(z1.im) <= erf(z2.im) ==> ToColor(z1, erf, junkAlpha).b <= ToColor(z2, erf, junkAlpha).b
  {
    if erf(z1.re) <= erf(z2.re) { NormMonotone(erf(z1.re), erf(z2.re)); }
    if erf(z1.im) <= erf(z2.im) { NormMonotone(erf(z1.im), erf(z2.im)); }
  }

  /** Position of pixel (i, j) in the row-major buffer. */
  function Index(i: int, j: int): (k: int)
    ensures 0 <= i < GraphWidth && 0 <= j < GraphHeight ==> 0 <= k < GraphWidth * GraphHeight
  {
    j * GraphWidth + i
  }

  /** x * d moves away from 0 by at least d for every unit of x. */
  lemma {:induction false} MulAtLeast(x: int, d: int)
    requires d > 0
    ensures x >= 1 ==> x * d >= d
    ensures x <= -1 ==> x * d <= -d
    decreases if x < 0 then -x else x
  {
    if x > 1 {
      MulAtLeast(x - 1, d);
      assert x * d == (x - 1) * d + d;
    } else if x < -1 {
      MulAtLeast(x + 1, d);
      assert x * d == (x + 1) * d - d;
    }
  }

  /** Quotient and remainder are the unique q, m with k == q * d + m and
      0 <= m < d (Dafny's Euclidean division; all operands here are
      non-negative, where it agrees with C's). */
  lemma {:induction false} DivModUnique(k: int, d: int, q: int, m: int)
    requires d > 0 && 0 <= m < d && k == q * d + m
    ensures k / d == q && k % d == m
  {
    var q', m' := k / d, k % d;
    assert q' * d + m' == k;
    assert (q - q') * d == m' - m;
    MulAtLeast(q - q', d);
  }

  /** The column and row of a pixel are recovered from its index, so distinct
      pixels never share a cell. */
  lemma IndexCoords(i: int, j: int)
    requires 0 <= i < GraphWidth
    ensures Index(i, j) % GraphWidth == i && Index(i, j) / GraphWidth == j
  {
    DivModUnique(Index(i, j), GraphWidth, j, i);
  }

  lemma IndexInjective(i1: int, j1: int, i2: int, j2: int)
    requires 0 <= i1 < GraphWidth && 0 <= i2 < GraphWidth
    requires Index(i1, j1) == Index(i2, j2)
    ensures i1 == i2 && j1 == j2
  {
    IndexCoords(i1, j1);
    IndexCoords(i2, j2);
  }

  /** Every cell of the buffer is the index of exactly the pixel given by its
      remainder and quotient. */
  lemma IndexOfCell(k: int)
    requires 0 <= k < GraphWidth * GraphHeight
    ensures 0 <= k % GraphWidth < GraphWidth && 0 <= k / GraphWidth < GraphHeight
    ensures Index(k % GraphWidth, k / GraphWidth) == k
  {
  }

  /** The point the active function `f` is evaluated at for pixel (i, j), and
      its value there: shared by the bulk fill and the cursor readout. */
  function Sample(i: int, j: int, f: Complex -> Complex): Complex
  {
    f(FromCoords(i, j))
  }

  /** `SDL_MapRGBA` applied to a colour. */
  function Pack(c: Color, mapRGBA: (Byte, Byte, Byte, Byte) -> Uint32): Uint32
  {
    mapRGBA(c.r, c.g, c.b, c.a)
  }

  /** The packed colour that the fill stores for pixel (i, j); `alpha(i, j)`
      is the indeterminate alpha byte of that pixel's colour. */
  function PixelValue(i: int, j: int, f: Complex -> Complex, erf: real -> real,
                      mapRGBA: (Byte, Byte, Byte, Byte) -> Uint32, alpha: (int, int) -> Byte): Uint32
  {
    Pack(ToColor(Sample(i, j, f), erf, alpha(i, j)), mapRGBA)
  }

  /** The first `rows` pixels of column i, top to bottom, in the order the
      inner loop visits them. */
  function Column(i: int, rows: nat): (s: seq<(int, int)>)
    ensures |s| == rows
  {
    seq(rows, j requires 0 <= j < rows => (i, j))
  }

  /** The pixel visiting order of the fill over its first `cols` columns of
      `rows` pixels each: column by column, each column top to bottom. */
  function Traversal(cols: nat, rows: nat): seq<(int, int)>
  {
    if cols == 0 then [] else Traversal(cols - 1, rows) + Column(cols - 1, rows)
  }

  lemma {:induction false} TraversalLength(cols: nat, rows: nat)
    ensures |Traversal(cols, rows)| == cols * rows
  {
    if cols > 0 {
      TraversalLength(cols - 1, rows);
      assert cols * rows == (cols - 1) * rows + rows;
    }
  }

  /** The k-th pixel visited is column k / rows, row k % rows. */
  lemma {:induction false} TraversalAt(cols: nat, rows: nat, k: int)
    requires 0 <= k < cols * rows
    ensures |Traversal(cols, rows)| == cols * rows
    ensures Traversal(cols, rows)[k] == (k / rows, k % rows)
  {
    TraversalLength(cols, rows);
    TraversalLength(cols - 1, rows);
    var base := (cols - 1) * rows;
    assert cols * rows == base + rows;
    if k < base {
      TraversalAt(cols - 1, rows, k);
      assert Traversal(cols, rows)[k] == Traversal(cols - 1, rows)[k];
    } else {
      assert Traversal(cols, rows)[k] == Column(cols - 1, rows)[k - base];
      DivModUnique(k, rows, cols - 1, k - base);
    }
  }

  /** The fill visits every pixel of the graph exactly once, pixel (i, j) as
      the (i * GraphHeight + j)-th. */
  lemma TraversalVisitsEachPixelOnce(i: int, j: int)
    requires 0 <= i < GraphWidth && 0 <= j < GraphHeight
    ensures |Traversal(GraphWidth, GraphHeight)| == GraphWidth * GraphHeight
    ensures 0 <= i * GraphHeight + j < GraphWidth * GraphHeight
    ensures Traversal(GraphWidth, GraphHeight)[i * GraphHeight + j] == (i, j)
    ensures forall k :: 0 <= k < GraphWidth * GraphHeight && Traversal(GraphWidth, GraphHeight)[k] == (i, j) ==>
      k == i * GraphHeight + j
  {
    assert 0 <= Index(j, i) < GraphWidth * GraphHeight;
    DivModUnique(i * GraphHeight + j, GraphHeight, i, j);
    TraversalAt(GraphWidth, GraphHeight, i * GraphHeight + j);
    forall k | 0 <= k < GraphWidth * GraphHeight && Traversal(GraphWidth, GraphHeight)[k] == (i, j)
      ensures k == i * GraphHeight + j
    {
      TraversalAt(GraphWidth, GraphHeight, k);
      DivModUnique(k, GraphHeight, k / GraphHeight, k % GraphHeight);
    }
  }

  /** `set_graph_pixel`: store the packed colour of pixel (i, j) at its
      row-major index, leaving every other cell as it was. */
  method SetGraphPixel(pixels: array<Uint32>, i: int, j: int, color: Color,
                       mapRGBA: (Byte, Byte, Byte, Byte) -> Uint32)
    requires pixels.Length == GraphWidth * GraphHeight
    requires 0 <= i < GraphWidth && 0 <= j < GraphHeight
    modifies pixels
    ensures 0 <= Index(i, j) < pixels.Length
    ensures pixels[Index(i, j)] == Pack(color, mapRGBA)
    ensures forall k :: 0 <= k < pixels.Length && k != Index(i, j) ==> pixels[k] == old(pixels[k])
    ensures forall ii, jj :: 0 <= ii < GraphWidth && 0 <= jj < GraphHeight && (ii, jj) != (i, j) ==>
      pixels[Index(ii, jj)] == old(pixels[Index(ii, jj)])
  {
    assert 0 <= Index(i, j) < GraphWidth * GraphHeight;
    pixels[j * GraphWidth + i] := mapRGBA(color.r, color.g, color.b, color.a);
    forall ii, jj | 0 <= ii < GraphWidth && 0 <= jj < GraphHeight && (ii, jj) != (i, j)
      ensures Index(ii, jj) != Index(i, j)
    {
      if Index(ii, jj) == Index(i, j) { IndexInjective(ii, jj, i, j); }
    }
  }

  /** `set_graph_pixels`: columns in the outer loop, rows in the inner one.
      Afterwards every cell holds the packed colour of its own pixel, whatever
      the buffer held before; `trace` records the pixels in visiting order. */
  method SetGraphPixels(pixels: array<Uint32>, f: Complex -> Complex, erf: real -> real,
                        mapRGBA: (Byte, Byte, Byte, Byte) -> Uint32, alpha: (int, int) -> Byte)
    returns (ghost trace: seq<(int, int)>)
    requires pixels.Length == GraphWidth * GraphHeight
    modifies pixels
    ensures forall i, j :: 0 <= i < GraphWidth && 0 <= j < GraphHeight ==>
      pixels[Index(i, j)] == PixelValue(i, j, f, erf, mapRGBA, alpha)
    ensures forall k :: 0 <= k < pixels.Length ==>
      pixels[k] == PixelValue(k % GraphWidth, k / GraphWidth, f, erf, mapRGBA, alpha)
    ensures trace == Traversal(GraphWidth, GraphHeight)
  {
    LayoutConstants();
    trace := [];
    var i := 0;
    while i < GraphWidth
      invariant 0 <= i <= GraphWidth
      invariant trace == Traversal(i, GraphHeight)
      invariant forall ii, jj :: 0 <= ii < i && 0 <= jj < GraphHeight ==>
        pixels[Index(ii, jj)] == PixelValue(ii, jj, f, erf, mapRGBA, alpha)
    {
      var j := 0;
      ghost var column := [];
      while j < GraphHeight
        invariant 0 <= j <= GraphHeight
        invariant |column| == j && forall jj :: 0 <= jj < j ==> column[jj] == (i, jj)
        invariant forall ii, jj :: 0 <= ii <= i && 0 <= jj < GraphHeight && (ii < i || jj < j) ==>
          pixels[Index(ii, jj)] == PixelValue(ii, jj, f, erf, mapRGBA, alpha)
      {
        var w := FromCoords(i, j);
        var z := f(w);
        var color := ToColor(z, erf, alpha(i, j));
        SetGraphPixel(pixels, i, j, color, mapRGBA);
        assert pixels[Index(i, j)] == PixelValue(i, j, f, erf, mapRGBA, alpha);
        column := column + [(i, j)];
        j := j + 1;
      }
      assert column == Column(i, GraphHeight);
      trace := trace + column;
      i := i + 1;
    }
    CellsHoldTheirPixels(pixels[..], f, erf, mapRGBA, alpha);
  }

  /** A buffer that holds the packed colour of every pixel at that pixel's
      index holds, at every cell k, the colour of column k % GraphWidth and
      row k / GraphWidth: the fill leaves no cell unwritten. */
  lemma CellsHoldTheirPixels(s: seq<Uint32>, f: Complex -> Complex, erf: real -> real,
                             mapRGBA: (Byte, Byte, Byte, Byte) -> Uint32, alpha: (int, int) -> Byte)
    requires |s| == GraphWidth * GraphHeight
    requires forall i, j :: 0 <= i < GraphWidth && 0 <= j < GraphHeight ==>
      s[Index(i, j)] == PixelValue(i, j, f, erf, mapRGBA, alpha)
    ensures forall k :: 0 <= k < |s| ==>
      s[k] == PixelValue(k % GraphWidth, k / GraphWidth, f, erf, mapRGBA, alpha)
  {
    forall k | 0 <= k < |s|
      ensures s[k] == PixelValue(k % GraphWidth, k / GraphWidth, f, erf, mapRGBA, alpha)
    {
      IndexOfCell(k);
    }
  }

  /** The whole pass writes only inside the buffer and every cell exactly
      once: the index of the k-th visited pixel is k's own cell in row-major
      order, so different steps write different cells. */
  lemma FillWritesEachCellOnce(k1: int, k2: int)
    requires 0 <= k1 < GraphWidth * GraphHeight && 0 <= k2 < GraphWidth * GraphHeight
    ensures |Traversal(GraphWidth, GraphHeight)| == GraphWidth * GraphHeight
    ensures var p := Traversal(GraphWidth, GraphHeight)[k1];
      0 <= Index(p.0, p.1) < GraphWidth * GraphHeight
    ensures var p1, p2 := Traversal(GraphWidth, GraphHeight)[k1], Traversal(GraphWidth, GraphHeight)[k2];
      Index(p1.0, p1.1) == Index(p2.0, p2.1) ==> k1 == k2
  {
    TraversalAt(GraphWidth, GraphHeight, k1);
    TraversalAt(GraphWidth, GraphHeight, k2);
    IndexOfCell(k1);
    IndexOfCell(k2);
    var p1, p2 := Traversal(GraphWidth, GraphHeight)[k1], Traversal(GraphWidth, GraphHeight)[k2];
    assert p1 == (k1 / GraphHeight, k1 % GraphHeight) && p2 == (k2 / GraphHeight, k2 % GraphHeight);
    assert 0 <= p1.0 < GraphWidth && 0 <= p2.0 < GraphWidth;
    assert 0 <= Index(p1.0, p1.1) < GraphWidth * GraphHeight;
    if Index(p1.0, p1.1) == Index(p2.0, p2.1) {
      IndexInjective(p1.0, p1.1, p2.0, p2.1);
      assert k1 == p1.0 * GraphHeight + p1.1;
      assert k2 == p2.0 * GraphHeight + p2.1;
    }
  }
}
