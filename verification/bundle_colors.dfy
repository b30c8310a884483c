/** The colour helpers as the bundled main.js has them: `getColorDelta`
    with the opposite sign, `invertColorName` accepting `undefined`, and a
    `mapColor` that also reports how far the chosen entry is from the paint
    and in which direction. */
module BundleColors {
  import opened Optional
  import opened JsString
  import opened OrderedMap
  import Utils
  import opened Resolver

  /** main.js `getColorDelta(color1, color2)`: `color2 - color1` per channel,
      the step that takes `color1` to `color2`. The snapshots disagree on the
      sign: this is the negation of src/utils.ts's delta. */
  function GetColorDelta(color1: Utils.Rgb, color2: Utils.Rgb): (d: Utils.Rgb)
    ensures Utils.Add(color1, d) == color2
    ensures d == Utils.Negate(Utils.GetColorDelta(color1, color2))
  {
    Utils.Rgb(color2.r - color1.r, color2.g - color1.g, color2.b - color1.b)
  }

  /** main.js `invertColorName`: `undefined` passes through, any string is
      inverted as src/utils.ts does it. */
  function InvertColorName(color: Option<string>): (r: Option<string>)
    ensures r.None? <==> color.None?
    ensures color.Some? ==> r.value == Utils.InvertColorName(color.value)
  {
    match color
    case None => None
    case Some(c) => Some(if Contains(c, "light") then Replace(c, "light", "dark") else Replace(c, "dark", "light"))
  }

  /** What the bundled `mapColor` returns: the variable and kind as before,
      plus `delta`, `deltaColor` and the paint parsed as hex. */
  datatype Mapped = Mapped(variable: Option<string>, kind: Kind, delta: Utils.Distance,
                           deltaColor: Option<Utils.Rgb>, sourceColor: Option<Utils.Rgb>)

  /** A `delta` that JavaScript treats as true: anything but 0. */
  predicate Truthy(d: Utils.Distance) {
    d.Infinite? || d.n != 0
  }

  /** main.js `mapColor(sourceColor, findClosestColor)`. */
  function MapColor(t: Tables, sourceColor: string, findClosestColor: bool): (r: Mapped)
    ensures r.sourceColor == Utils.HexToRgb(sourceColor)
    ensures Resolved(r.variable, r.kind) == Resolver.MapColor(t, sourceColor, findClosestColor)
    ensures !FallsBack(t, sourceColor, findClosestColor) ==> r.delta == Utils.Finite(0) && r.deltaColor.None?
    ensures FallsBack(t, sourceColor, findClosestColor) ==> r.deltaColor.Some?
    ensures Truthy(r.delta) ==> FallsBack(t, sourceColor, findClosestColor) && r.sourceColor.Some?
  {
    var colorVar := Get(t.colorToVar, sourceColor);
    var shadeVar := Get(t.shadeToVar, sourceColor);
    var source := Utils.HexToRgb(sourceColor);
    if colorVar.None? && shadeVar.None? && source.Some? && findClosestColor then
      var closestColor := Utils.FindClosestColorVar(source.value, t.rgbColorToVar);
      var closestShade := Utils.FindClosestColorVar(source.value, t.rgbShadeToVar);
      if Less(closestColor.delta, closestShade.delta) then
        Mapped(Some(closestColor.variable), Color, closestColor.delta,
               Some(GetColorDelta(source.value, closestColor.foundColor)), source)
      else
        Mapped(Some(closestShade.variable), Shade, closestShade.delta,
               Some(GetColorDelta(source.value, closestShade.foundColor)), source)
    else if colorVar.Some? then Mapped(colorVar, Color, Utils.Finite(0), None, source)
    else if shadeVar.Some? then Mapped(shadeVar, Shade, Utils.Finite(0), None, source)
    else Mapped(None, Unknown, Utils.Finite(0), None, source)
  }

  /** A fallback hit (on non-empty tables) carries the Manhattan distance to
      the chosen entry as `delta`, and `deltaColor` is the step from the
      paint to that entry: the paint plus `deltaColor` is the entry's colour,
      and the step's size is `delta`. */
  lemma FallbackDelta(t: Tables, sourceColor: string)
    requires FallsBack(t, sourceColor, true)
    requires |t.rgbColorToVar| > 0 && |t.rgbShadeToVar| > 0
    ensures var r := MapColor(t, sourceColor, true);
      var source := Utils.HexToRgb(sourceColor).value;
      var table := if r.kind == Color then t.rgbColorToVar else t.rgbShadeToVar;
      && r.kind != Unknown
      && exists k: nat :: k < |table| && r.variable == Some(table[k].1)
           && r.delta == Utils.Finite(Utils.GetMagnitudeColorDelta(source, table[k].0))
           && Utils.Add(source, r.deltaColor.value) == table[k].0
           && Utils.Norm1(r.deltaColor.value) == r.delta.n
  {
    var r := MapColor(t, sourceColor, true);
    var source := Utils.HexToRgb(sourceColor).value;
    var table := if r.kind == Color then t.rgbColorToVar else t.rgbShadeToVar;
    assert r.kind != Unknown && r.variable == Some(Utils.FindClosestColorVar(source, table).variable)
      && r.delta == Utils.FindClosestColorVar(source, table).delta
      && r.deltaColor == Some(GetColorDelta(source, Utils.FindClosestColorVar(source, table).foundColor));
    ClosestStep(source, table);
  }

  /** The entry the search picks is some entry of the table; its distance is
      the delta, and the step to it has that size. */
  lemma ClosestStep(source: Utils.Rgb, table: Utils.ColorTable)
    requires |table| > 0
    ensures var c := Utils.FindClosestColorVar(source, table);
      exists k: nat :: k < |table| && c.variable == table[k].1
        && c.delta == Utils.Finite(Utils.GetMagnitudeColorDelta(source, table[k].0))
        && Utils.Add(source, GetColorDelta(source, c.foundColor)) == table[k].0
        && Utils.Norm1(GetColorDelta(source, c.foundColor)) == c.delta.n
  {
    var c := Utils.FindClosestColorVar(source, table);
    var k: nat :| Utils.EarliestNearest(source, table, |table|, k) && c == Utils.ClosestAt(source, table, k);
    Utils.MagnitudeSymmetric(source, table[k].0);
    Utils.ColorDeltaProperties(table[k].0, source);
  }
}
