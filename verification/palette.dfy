/** Colour-table selection (drawFrame) and the grey fallback table (genDefColorMap). */
module Palette {
  import opened Pixels

  /** Entry i of the table is the grey (i, i, i), for all 256 indices. */
  predicate IsGreyRamp(m: ColorMap) {
    |m| == 256 && forall i :: 0 <= i < 256 ==> m[i] == Rgb(i, i, i)
  }

  /** genDefColorMap. `made` is what the map allocator returned for an 8-bit table: a
      256-entry table with unspecified contents, or None when it failed. */
  method GenDefColorMap(made: Option<ColorMap>) returns (m: Option<ColorMap>)
    requires made.Some? ==> |made.value| == 256
    ensures m.Some? <==> made.Some?
    ensures m.Some? ==> IsGreyRamp(m.value)
  {
    if made.None? {
      return None;
    }
    var colors := made.value;
    for c := 0 to 256
      invariant |colors| == 256
      invariant forall i :: 0 <= i < c ==> colors[i] == Rgb(i, i, i)
    {
      colors := colors[c := Rgb(c, c, c)];
    }
    return Some(colors);
  }

  /** The table drawFrame hands to the blitter: the frame's local table, else the global
      table of the screen, else the default table. */
  function ChoosePalette(localMap: Option<ColorMap>, globalMap: Option<ColorMap>, defaultMap: ColorMap): (m: ColorMap)
    // a local table always wins, the global table comes next, the default table last
    ensures localMap.Some? ==> m == localMap.value
    ensures localMap.None? && globalMap.Some? ==> m == globalMap.value
    ensures localMap.None? && globalMap.None? ==> m == defaultMap
  {
    match localMap
    case Some(l) => l
    case None => if globalMap.Some? then globalMap.value else defaultMap
  }
}
