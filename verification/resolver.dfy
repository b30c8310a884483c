/** `mapColor` of src/processors.ts: a paint string is looked up exactly in
    the colour names, then in the shade names; failing both, and when the
    caller allows it, a six-digit hex paint is matched to the nearest entry
    of either RGB table. */
module Resolver {
  import opened Optional
  import opened JsString
  import opened OrderedMap
  import opened Utils
  import opened Palette

  /** The `type` field: which table the variable came from. */
  datatype Kind = Color | Shade | Unknown

  /** What `mapColor` returns: the theme variable, if any, and its kind. */
  datatype Resolved = Resolved(variable: Option<string>, kind: Kind)

  /** The four maps `mapColor` consults. */
  datatype Tables = Tables(colorToVar: StringMap, rgbColorToVar: ColorTable,
                           shadeToVar: StringMap, rgbShadeToVar: ColorTable)

  /** The maps `transformColorMap` builds from `svgColors` and `svgShades`;
      the source builds them lazily on first use and keeps them. */
  const Standard: Tables := Tables(NameMap(SvgColors), HexPairs(Flatten(SvgColors)),
                                   NameMap(SvgShades), HexPairs(Flatten(SvgShades)))

  /** `a < b` on the `delta` numbers, where no entry at all is +Infinity. */
  predicate Less(a: Distance, b: Distance) {
    match a
    case Infinite => false
    case Finite(x) => b.Infinite? || x < b.n
  }

  /** Neither name map has `color` as given (no lower-casing). */
  predicate NoExactHit(t: Tables, color: string) {
    !HasKey(t.colorToVar, color) && !HasKey(t.shadeToVar, color)
  }

  /** The nearest-match fallback is taken. */
  predicate FallsBack(t: Tables, color: string, findClosestColor: bool) {
    NoExactHit(t, color) && findClosestColor && HexToRgb(color).Some?
  }

  /** `mapColor(color, findClosestColor)`. */
  function MapColor(t: Tables, color: string, findClosestColor: bool): (r: Resolved)
    ensures r.kind == Unknown <==> r.variable.None?
    ensures HasKey(t.colorToVar, color) ==> r == Resolved(Get(t.colorToVar, color), Color)
    ensures !HasKey(t.colorToVar, color) && HasKey(t.shadeToVar, color) ==>
      r == Resolved(Get(t.shadeToVar, color), Shade)
    ensures NoExactHit(t, color) && !FallsBack(t, color, findClosestColor) ==> r == Resolved(None, Unknown)
    ensures FallsBack(t, color, findClosestColor) ==> r.kind != Unknown
  {
    var colorVar := Get(t.colorToVar, color);
    var shadeVar := Get(t.shadeToVar, color);
    var rgb := HexToRgb(color);
    if colorVar.None? && shadeVar.None? && rgb.Some? && findClosestColor then
      var closestColor := FindClosestColorVar(rgb.value, t.rgbColorToVar);
      var closestShade := FindClosestColorVar(rgb.value, t.rgbShadeToVar);
      if Less(closestColor.delta, closestShade.delta) then Resolved(Some(closestColor.variable), Color)
      else Resolved(Some(closestShade.variable), Shade)
    else if colorVar.Some? then Resolved(colorVar, Color)
    else if shadeVar.Some? then Resolved(shadeVar, Shade)
    else Resolved(None, Unknown)
  }

  /** In the fallback, the chosen entry is the earliest nearest one of its
      table; a colour wins only when it is strictly nearer than every shade,
      so a tie goes to the shade. */
  lemma FallbackNearest(t: Tables, color: string)
    requires FallsBack(t, color, true)
    requires |t.rgbColorToVar| > 0 && |t.rgbShadeToVar| > 0
    ensures var target := HexToRgb(color).value;
      var r := MapColor(t, color, true);
      && (r.kind == Color ==>
            exists k: nat :: EarliestNearest(target, t.rgbColorToVar, |t.rgbColorToVar|, k)
              && r.variable == Some(t.rgbColorToVar[k].1)
              && forall j :: 0 <= j < |t.rgbShadeToVar| ==>
                   DistanceTo(target, t.rgbColorToVar, k) < DistanceTo(target, t.rgbShadeToVar, j))
      && (r.kind == Shade ==>
            exists k: nat :: EarliestNearest(target, t.rgbShadeToVar, |t.rgbShadeToVar|, k)
              && r.variable == Some(t.rgbShadeToVar[k].1)
              && forall j :: 0 <= j < |t.rgbColorToVar| ==>
                   DistanceTo(target, t.rgbShadeToVar, k) <= DistanceTo(target, t.rgbColorToVar, j))
  {
    var target := HexToRgb(color).value;
    var cc := FindClosestColorVar(target, t.rgbColorToVar);
    var cs := FindClosestColorVar(target, t.rgbShadeToVar);
    var kc: nat :| EarliestNearest(target, t.rgbColorToVar, |t.rgbColorToVar|, kc)
      && cc == ClosestAt(target, t.rgbColorToVar, kc);
    var ks: nat :| EarliestNearest(target, t.rgbShadeToVar, |t.rgbShadeToVar|, ks)
      && cs == ClosestAt(target, t.rgbShadeToVar, ks);
    if Less(cc.delta, cs.delta) {
      assert MapColor(t, color, true) == Resolved(Some(t.rgbColorToVar[kc].1), Color);
    } else {
      assert MapColor(t, color, true) == Resolved(Some(t.rgbShadeToVar[ks].1), Shade);
    }
  }

  /** The name maps are keyed by lower-cased aliases and the lookup does not
      lower-case, so a paint with an upper-case letter (`#FF0000`, `Red`)
      never hits exactly: with the fallback disabled it stays unknown. */
  lemma UppercaseMisses(color: string)
    requires HasUpper(color)
    ensures NoExactHit(Standard, color)
    ensures MapColor(Standard, color, false) == Resolved(None, Unknown)
  {
    NameMapKeys(SvgColors, color);
    NameMapKeys(SvgShades, color);
  }

  /** `magenta`, listed under two colour slots, resolves exactly to the
      later one. */
  lemma MagentaResolves()
    ensures MapColor(Standard, "magenta", true) == Resolved(Some("--g-color-light-purple"), Color)
  {
    MagentaIsLightPurple();
  }
}
