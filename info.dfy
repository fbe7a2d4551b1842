/** The text half of `show_info` in complexvis/main.c: the cursor readout
    "f(w) = z" for the pixel under the pointer. Drawing the text is not part
    of this model. */
module Info {
  import opened Format
  import opened CDouble
  import opened Graph

  /** The readout buffer is 64 bytes and `snprintf` is given size 63. */
  const TextBufferSize := 64
  const TextLimit := 63

  /** Either the text to draw, or the fatal error that ends the process. */
  datatype Readout = Shown(text: string) | Fatal(message: string)

  const AllocationMessage := "Failed to allocate memory for the info text"

  /** The composed line `"f(%s) = %s"`, cut down to what `snprintf` keeps. */
  function InfoText(wstr: string, zstr: string): (r: string)
    ensures |r| <= TextLimit - 1 < TextBufferSize
    ensures |wstr| + |zstr| + 6 <= TextLimit - 1 ==> r == "f(" + wstr + ") = " + zstr
    ensures |wstr| + |zstr| + 6 > TextLimit - 1 ==> |r| == TextLimit - 1
    ensures r <= "f(" + wstr + ") = " + zstr
  {
    Snprintf(TextLimit, "f(" + wstr + ") = " + zstr)
  }

  /** The readout for pointer position (x, y): the point and the value of the
      active function there, both formatted. `wOk` and `zOk` say whether the
      two formatting buffers could be allocated; the readout is fatal, with the
      allocation message, exactly when one of them could not be. Coordinates
      outside the graph are accepted; the mapping is defined for every integer. */
  function ShowInfo(x: int, y: int, f: Complex -> Complex, fmt2: real -> string,
                    wOk: bool, zOk: bool): (r: Readout)
    ensures r.Fatal? <==> !(wOk && zOk)
    ensures r.Fatal? ==> r.message == AllocationMessage
  {
    var w := FromCoords(x, y);
    var z := f(w);
    var wstr := Str(w, fmt2, wOk);
    var zstr := Str(z, fmt2, zOk);
    if !(wstr.Some? && zstr.Some?) then Fatal(AllocationMessage)
    else Shown(InfoText(wstr.value, zstr.value))
  }

  /** The text always begins with "f(" and never exceeds 62 characters. */
  lemma ShowInfoShape(x: int, y: int, f: Complex -> Complex, fmt2: real -> string)
    ensures ShowInfo(x, y, f, fmt2, true, true).Shown?
    ensures var t := ShowInfo(x, y, f, fmt2, true, true).text;
      |t| <= TextLimit - 1 && "f(" <= t
  {
    var w := FromCoords(x, y);
    var wstr := Str(w, fmt2, true).value;
    var zstr := Str(f(w), fmt2, true).value;
    assert "f(" + wstr + ") = " + zstr == "f(" + (wstr + ") = " + zstr);
    SnprintfKeepsPrefix(TextLimit, "f(", wstr + ") = " + zstr);
  }

  /** For a buffer filled by `set_graph_pixels`, the readout at a pixel of the
      graph formats the very point w whose value f(w) the cell at that pixel
      is coloured by. */
  lemma ReadoutMatchesFilledCell(pixels: seq<Uint32>, x: int, y: int, f: Complex -> Complex,
                                 fmt2: real -> string, erf: real -> real,
                                 mapRGBA: (Byte, Byte, Byte, Byte) -> Uint32, alpha: (int, int) -> Byte)
    requires |pixels| == GraphWidth * GraphHeight
    requires forall k :: 0 <= k < |pixels| ==>
      pixels[k] == PixelValue(k % GraphWidth, k / GraphWidth, f, erf, mapRGBA, alpha)
    requires 0 <= x < GraphWidth && 0 <= y < GraphHeight
    ensures 0 <= Index(x, y) < |pixels|
    ensures exists w: Complex ::
      ShowInfo(x, y, f, fmt2, true, true) == Shown(InfoText(Str(w, fmt2, true).value, Str(f(w), fmt2, true).value)) &&
      pixels[Index(x, y)] == Pack(ToColor(f(w), erf, alpha(x, y)), mapRGBA)
  {
    IndexCoords(x, y);
    var w := FromCoords(x, y);
    assert pixels[Index(x, y)] == PixelValue(x, y, f, erf, mapRGBA, alpha);
    assert ShowInfo(x, y, f, fmt2, true, true) == Shown(InfoText(Str(w, fmt2, true).value, Str(f(w), fmt2, true).value));
  }
}
