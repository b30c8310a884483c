/** `makeDynamicSvg`: every element of the eight recoloured kinds gets a
    `style` attribute whose `fill`/`stroke` declarations point at theme
    variables, and the element's own quoted paints are deleted at the end.
    Both snapshots are covered: src/processors.ts (`Source`) and the bundled
    main.js (`Bundled`), which can blend the paint back in. */
module Rewriter {
  import opened Optional
  import opened JsString
  import opened JsNumber
  import opened OrderedMap
  import opened Utils
  import opened Attributes
  import opened Resolver
  import BundleColors
  import Scanner

  /** `svgTags`, in the order they are processed. */
  const SvgTags: seq<string> := ["text", "path", "rect", "circle", "ellipse", "line", "polyline", "polygon"]

  /** `svgStyleTags`. */
  datatype Axis = Fill | Stroke

  function AxisName(axis: Axis): string {
    match axis
    case Fill => "fill"
    case Stroke => "stroke"
  }

  /** Which snapshot's declarations are produced. The bundle prints the
      numbers of its blend with JavaScript's number-to-string conversion,
      which is taken as the parameter `show`; `semicolon` says whether its
      blend declaration ends in `;`: false is main.js as written, true is
      the correction `Blend` makes. */
  datatype Flavor = Source | Bundled(show: real -> string, semicolon: bool)

  /** `params.get(key)` is truthy: present and not the empty string. */
  predicate IsSet(params: StringMap, key: string) {
    Get(params, key).Some? && Get(params, key).value != ""
  }

  /** `!rcolor.color`: no variable, or the empty name. */
  predicate Falsy(variable: Option<string>) {
    variable.None? || variable.value == ""
  }

  /** A paint written `rgb(…)` becomes hex through `rgb100ToHex`. */
  function FromRgb(paint: string): (r: string)
    ensures !StartsWith(paint, "rgb") ==> r == paint
    ensures StartsWith(paint, "rgb") ==> StartsWith(r, "#")
  {
    if StartsWith(paint, "rgb") then Rgb100ToHex(Split(RgbStrip(paint), ',')) else paint
  }

  /** `tagColor` for one axis of one element, whose attribute text is
      `style`; `None` when the stroke is skipped because the element has no
      stroke and `{tag}-implicit-stroke` is not set. */
  function Paint(style: string, tag: string, axis: Axis, params: StringMap): (r: Option<string>)
    ensures r.None? <==>
      axis == Stroke && MatchedAttr(style, "stroke").None? && !IsSet(params, tag + "-implicit-stroke")
    ensures MatchedAttr(style, AxisName(axis)).None? && r.Some? ==> r.value == "black"
    ensures MatchedAttr(style, AxisName(axis)).Some? ==>
      r == Some(FromRgb(PropertyStrip(MatchedAttr(style, AxisName(axis)).value)))
  {
    match MatchedAttr(style, AxisName(axis))
    case Some(m) => Some(FromRgb(PropertyStrip(m)))
    case None =>
      if axis == Stroke && !IsSet(params, tag + "-implicit-stroke") then None
      else Some("black")
  }

  /** `(params.get('{tag}-{axis}') || '').split(',')`. */
  function Tokens(params: StringMap, tag: string, axis: Axis): (tokens: seq<string>)
    ensures |tokens| >= 1 && Join(tokens, ',') == Get(params, tag + "-" + AxisName(axis)).GetOr("")
  {
    Split(Get(params, tag + "-" + AxisName(axis)).GetOr(""), ',')
  }

  /** The class a `keep-*` token sets. */
  function KeepClass(token: string): Option<string> {
    if token == "keep-color" then Some("class=\"keep-color\"")
    else if token == "keep-shade" then Some("class=\"keep-shade\"")
    else if token == "keep-all" then Some("class=\"keep-color keep-shade\"")
    else None
  }

  /** A token that inverts a variable of this kind. */
  predicate Inverts(token: string, kind: Kind) {
    || token == "invert-all"
    || (token == "invert-color" && kind == Color)
    || (token == "invert-shade" && kind == Shade)
  }

  /** The variable after the token loop, and `additionalTag`. */
  datatype Styled = Styled(variable: string, keep: string)

  /** One token; `invert` is `invertColorName`. */
  function TokenStep(st: Styled, token: string, kind: Kind, invert: string -> string): Styled {
    match KeepClass(token)
    case Some(c) => st.(keep := c)
    case None => if Inverts(token, kind) then st.(variable := invert(st.variable)) else st
  }

  /** How many of `tokens` invert a variable of `kind`. */
  function InvertCount(tokens: seq<string>, kind: Kind): (n: nat)
    ensures n <= |tokens|
    decreases |tokens|
  {
    if |tokens| == 0 then 0
    else InvertCount(tokens[..|tokens| - 1], kind) + (if Inverts(tokens[|tokens| - 1], kind) then 1 else 0)
  }

  /** `invert` applied `n` times. */
  function Iterate(invert: string -> string, n: nat, v: string): string {
    if n == 0 then v else invert(Iterate(invert, n - 1, v))
  }

  /** The `for (const param of params)` loop: the variable is inverted once
      per inverting token. */
  function ApplyTokens(tokens: seq<string>, kind: Kind, start: Styled, invert: string -> string): (r: Styled)
    ensures r.variable == Iterate(invert, InvertCount(tokens, kind), start.variable)
    decreases |tokens|
  {
    if |tokens| == 0 then start
    else TokenStep(ApplyTokens(tokens[..|tokens| - 1], kind, start, invert), tokens[|tokens| - 1], kind, invert)
  }

  /** The class after the loop is the one the last `keep-*` token names,
      and the old one when there is none. */
  lemma LastKeep(tokens: seq<string>, kind: Kind, start: Styled, invert: string -> string)
    ensures var r := ApplyTokens(tokens, kind, start, invert);
      && ((forall i :: 0 <= i < |tokens| ==> KeepClass(tokens[i]).None?) ==> r.keep == start.keep)
      && ((exists i :: 0 <= i < |tokens| && KeepClass(tokens[i]).Some?) ==>
            exists i :: 0 <= i < |tokens| && KeepClass(tokens[i]) == Some(r.keep)
              && forall j :: i < j < |tokens| ==> KeepClass(tokens[j]).None?)
  {
    if forall i :: 0 <= i < |tokens| ==> KeepClass(tokens[i]).None? {
      NoKeep(tokens, kind, start, invert);
    } else {
      var k :| 0 <= k < |tokens| && KeepClass(tokens[k]).Some?;
      var i := SomeKeep(tokens, kind, start, invert, k);
    }
  }

  /** Without `keep-*` tokens the class stays. */
  lemma {:induction false} NoKeep(tokens: seq<string>, kind: Kind, start: Styled, invert: string -> string)
    requires forall i :: 0 <= i < |tokens| ==> KeepClass(tokens[i]).None?
    ensures ApplyTokens(tokens, kind, start, invert).keep == start.keep
    decreases |tokens|
  {
    if |tokens| > 0 {
      var init := tokens[..|tokens| - 1];
      assert forall i :: 0 <= i < |init| ==> init[i] == tokens[i];
      NoKeep(init, kind, start, invert);
    }
  }

  /** With a `keep-*` token at `k` the class is the one the last such
      token, at `i`, names. */
  lemma {:induction false} SomeKeep(tokens: seq<string>, kind: Kind, start: Styled, invert: string -> string, k: nat)
    returns (i: nat)
    requires k < |tokens| && KeepClass(tokens[k]).Some?
    ensures k <= i < |tokens| && KeepClass(tokens[i]) == Some(ApplyTokens(tokens, kind, start, invert).keep)
    ensures forall j :: i < j < |tokens| ==> KeepClass(tokens[j]).None?
    decreases |tokens|
  {
    var last := |tokens| - 1;
    var init := tokens[..last];
    var r0 := ApplyTokens(init, kind, start, invert);
    assert ApplyTokens(tokens, kind, start, invert) == TokenStep(r0, tokens[last], kind, invert);
    if KeepClass(tokens[last]).Some? {
      i := last;
    } else {
      assert init[k] == tokens[k];
      i := SomeKeep(init, kind, start, invert, k);
      assert forall j :: i < j < |init| ==> init[j] == tokens[j];
    }
  }

  /** Applying an involution an even number of times is the identity, an odd
      number of times is one application. */
  lemma {:induction false} IterateInvolution(g: string -> string, n: nat, v: string)
    requires g(g(v)) == v
    ensures Iterate(g, n, v) == if n % 2 == 0 then v else g(v)
  {
    if n > 0 {
      IterateInvolution(g, n - 1, v);
    }
  }

  /** Inverting a name with one marker an even number of times gives it
      back, an odd number of times inverts it once. */
  lemma InvertParity(n: nat, v: string)
    requires SingleMarker(v)
    ensures Iterate(Utils.InvertColorName, n, v) == if n % 2 == 0 then v else Utils.InvertColorName(v)
  {
    InvertInvolution(v);
    IterateInvolution(Utils.InvertColorName, n, v);
  }

  /** `axis:value;`: the shape of every finished declaration. */
  function DeclOf(axis: Axis, value: string): (d: string)
    ensures StartsWith(d, AxisName(axis) + ":") && d[|d| - 1] == ';'
  {
    var d := AxisName(axis) + ":" + value + ";";
    assert d[..|AxisName(axis)| + 1] == AxisName(axis) + ":";
    d
  }

  /** The indentation of the blend template's continuation lines. */
  const Indent: string := "                                    "

  function Channel(expr: string): string {
    Indent + "clamp(0, calc(" + expr + "), 255)"
  }

  /** The `rgb(…)` value of the bundle's blend, three clamped channels. */
  function BlendValue(er: string, eg: string, eb: string): string {
    "rgb(\n" + Channel(er) + ", \n" + Channel(eg) + ", \n" + Channel(eb) + ")"
  }

  /** The channel expressions: mode `mix` weighs the original paint by the
      multiplier and the variable's channel by its complement; any other mode
      adds the scaled step from the paint to the matched entry to the
      variable's channel. */
  function BlendExprs(show: real -> string, mode: string, v: string, m: real,
                      sourceColor: Rgb, deltaColor: Rgb): (string, string, string)
  {
    if mode == "mix" then
      (show(sourceColor.r as real * m) + " + " + show(1.0 - m) + " * var(" + v + "_r)",
       show(sourceColor.g as real * m) + " + " + show(1.0 - m) + " * var(" + v + "_g)",
       show(sourceColor.b as real * m) + " + " + show(1.0 - m) + " * var(" + v + "_b)")
    else
      ("var(" + v + "_r) + " + show(deltaColor.r as real * m),
       "var(" + v + "_g) + " + show(deltaColor.g as real * m),
       "var(" + v + "_b) + " + show(deltaColor.b as real * m))
  }

  /** The blend declaration as main.js writes it: no `;` after it. */
  function BlendAsWritten(axis: Axis, e: (string, string, string)): (d: string)
    ensures StartsWith(d, AxisName(axis) + ":") && d[|d| - 1] == ')'
  {
    var d := AxisName(axis) + ":" + BlendValue(e.0, e.1, e.2);
    assert d[..|AxisName(axis)| + 1] == AxisName(axis) + ":";
    d
  }

  /** The blend declaration with its `;`. */
  function Blend(axis: Axis, e: (string, string, string)): (d: string)
    ensures StartsWith(d, AxisName(axis) + ":") && d[|d| - 1] == ';'
  {
    DeclOf(axis, BlendValue(e.0, e.1, e.2))
  }

  /** The as-written declaration ends in `)`, so whatever declaration
      follows is glued to it; the corrected one is it plus the `;`. */
  lemma BlendUnterminated(axis: Axis, e: (string, string, string))
    ensures var w := BlendAsWritten(axis, e);
      |w| > 0 && w[|w| - 1] == ')' && Blend(axis, e) == w + ";"
  {
  }

  /** `parseFloat(params.get('mix-multiplier') || '0')` when it is truthy:
      `None` for 0 and NaN. */
  function MixMultiplier(params: StringMap): (m: Option<real>)
    ensures m.Some? ==> m.value != 0.0
    ensures !IsSet(params, "mix-multiplier") ==> m.None?
    ensures IsSet(params, "mix-multiplier") ==>
      var x := ParseFloat(Get(params, "mix-multiplier").value);
      && (x.Some? && x.value != 0.0 ==> m == x)
      && (x.None? || x.value == 0.0 ==> m.None?)
  {
    var text := if IsSet(params, "mix-multiplier") then Get(params, "mix-multiplier").value else "0";
    ZeroParses();
    match ParseFloat(text)
    case Some(m) => if m != 0.0 then Some(m) else None
    case None => None
  }

  /** The default `'0'` parses to zero. */
  lemma ZeroParses()
    ensures ParseFloat("0") == Some(0.0)
  {
    ZerosRead("0");
  }

  /** `!params.contains('original-colors')`: the nearest-match fallback is
      allowed. */
  predicate FindsClosest(tokens: seq<string>) {
    "original-colors" !in tokens
  }

  /** One axis's declaration and the `additionalTag` after it. */
  datatype Decl = Decl(text: string, keep: string)

  /** `additionalTag` is the old one or a class some token names. */
  predicate KeepFrom(tokens: seq<string>, keep: string, r: string) {
    r == keep || exists i :: 0 <= i < |tokens| && KeepClass(tokens[i]) == Some(r)
  }

  /** The token loop on a resolved variable, from `additionalTag` `keep`. */
  function Themed(tokens: seq<string>, kind: Kind, variable: string, keep: string): (st: Styled)
    ensures KeepFrom(tokens, keep, st.keep)
    ensures st.variable == Iterate(Utils.InvertColorName, InvertCount(tokens, kind), variable)
  {
    LastKeep(tokens, kind, Styled(variable, keep), Utils.InvertColorName);
    ApplyTokens(tokens, kind, Styled(variable, keep), Utils.InvertColorName)
  }

  /** src/processors.ts: `axis:var(V);` for a resolved paint, the literal
      otherwise. */
  function SourceDecl(t: Tables, axis: Axis, paint: string, tokens: seq<string>, keep: string): (r: Decl)
    ensures StartsWith(r.text, AxisName(axis) + ":") && r.text[|r.text| - 1] == ';'
    ensures KeepFrom(tokens, keep, r.keep)
  {
    var resolved := MapColor(t, paint, FindsClosest(tokens));
    if Falsy(resolved.variable) then Decl(DeclOf(axis, paint), keep)
    else
      var st := Themed(tokens, resolved.kind, resolved.variable.value, keep);
      Decl(DeclOf(axis, "var(" + st.variable + ")"), st.keep)
  }

  /** The bundle's blend branch is taken: the paint resolved, the
      multiplier is truthy and the match was at a non-zero distance. */
  predicate Blends(t: Tables, params: StringMap, paint: string, tokens: seq<string>) {
    var mapped := BundleColors.MapColor(t, paint, FindsClosest(tokens));
    !Falsy(mapped.variable) && MixMultiplier(params).Some? && BundleColors.Truthy(mapped.delta)
  }

  /** main.js: as src/processors.ts, except that a truthy `mix-multiplier`
      and a nearest-match hit at a non-zero distance give the blend, which
      ends in `)` as written and in `;` when `semicolon` is set. */
  function BundleDecl(show: real -> string, semicolon: bool, t: Tables, params: StringMap, axis: Axis, paint: string,
                      tokens: seq<string>, keep: string): (r: Decl)
    ensures StartsWith(r.text, AxisName(axis) + ":")
    ensures r.text[|r.text| - 1] == ';' <==> semicolon || !Blends(t, params, paint, tokens)
    ensures !semicolon && Blends(t, params, paint, tokens) ==> r.text[|r.text| - 1] == ')'
    ensures KeepFrom(tokens, keep, r.keep)
  {
    var mapped := BundleColors.MapColor(t, paint, FindsClosest(tokens));
    if Falsy(mapped.variable) then Decl(DeclOf(axis, paint), keep)
    else
      var st := Themed(tokens, mapped.kind, mapped.variable.value, keep);
      var mode := Get(params, "mix-mode").GetOr("");
      match MixMultiplier(params)
      case Some(m) =>
        if BundleColors.Truthy(mapped.delta) then
          var e := BlendExprs(show, mode, st.variable, m, mapped.sourceColor.value, mapped.deltaColor.value);
          Decl(if semicolon then Blend(axis, e) else BlendAsWritten(axis, e), st.keep)
        else Decl(DeclOf(axis, "var(" + st.variable + ")"), st.keep)
      case None => Decl(DeclOf(axis, "var(" + st.variable + ")"), st.keep)
  }

  /** An unresolved paint is declared literally with the class unchanged; a
      resolved one as `var(V)`, where V is the variable inverted once per
      inverting token, so for a variable with one marker V is the variable
      or its inverse by the parity of the inverting tokens. */
  lemma SourceResolves(t: Tables, axis: Axis, paint: string, tokens: seq<string>, keep: string)
    ensures var resolved := MapColor(t, paint, FindsClosest(tokens));
      Falsy(resolved.variable) ==> SourceDecl(t, axis, paint, tokens, keep) == Decl(DeclOf(axis, paint), keep)
    ensures var resolved := MapColor(t, paint, FindsClosest(tokens));
      !Falsy(resolved.variable) ==>
        SourceDecl(t, axis, paint, tokens, keep).text ==
          DeclOf(axis, "var(" + Iterate(Utils.InvertColorName, InvertCount(tokens, resolved.kind), resolved.variable.value) + ")")
    ensures var resolved := MapColor(t, paint, FindsClosest(tokens));
      !Falsy(resolved.variable) && SingleMarker(resolved.variable.value) ==>
        SourceDecl(t, axis, paint, tokens, keep).text ==
          DeclOf(axis, "var(" + (if InvertCount(tokens, resolved.kind) % 2 == 0 then resolved.variable.value
                                 else Utils.InvertColorName(resolved.variable.value)) + ")")
  {
    var resolved := MapColor(t, paint, FindsClosest(tokens));
    if !Falsy(resolved.variable) && SingleMarker(resolved.variable.value) {
      InvertParity(InvertCount(tokens, resolved.kind), resolved.variable.value);
    }
  }

  /** The bundle's declaration next to the source's: the same class always;
      the same declaration unless `mix-multiplier` is truthy and the paint
      was matched at a non-zero distance, which only the nearest-match
      fallback gives, so an exact hit never blends; and in the blend, the
      variable is the one the source declares, in main.js's template with
      no `;` as written, or with one when `semicolon` is set. */
  lemma BundleBlend(show: real -> string, semicolon: bool, t: Tables, params: StringMap, axis: Axis, paint: string,
                    tokens: seq<string>, keep: string)
    ensures var mapped := BundleColors.MapColor(t, paint, FindsClosest(tokens));
      var r := BundleDecl(show, semicolon, t, params, axis, paint, tokens, keep);
      var s := SourceDecl(t, axis, paint, tokens, keep);
      && r.keep == s.keep
      && (!Blends(t, params, paint, tokens) ==> r == s)
      && (HasKey(t.colorToVar, paint) || HasKey(t.shadeToVar, paint) ==> r == s)
      && (Blends(t, params, paint, tokens) ==>
            exists v :: s.text == DeclOf(axis, "var(" + v + ")")
              && var e := BlendExprs(show, Get(params, "mix-mode").GetOr(""), v, MixMultiplier(params).value,
                                     mapped.sourceColor.value, mapped.deltaColor.value);
                 r.text == if semicolon then Blend(axis, e) else BlendAsWritten(axis, e))
  {
    BundleKeep(show, semicolon, t, params, axis, paint, tokens, keep);
    if Blends(t, params, paint, tokens) {
      BlendCase(show, semicolon, t, params, axis, paint, tokens, keep);
    } else {
      PlainCase(show, semicolon, t, params, axis, paint, tokens, keep);
    }
  }

  /** Both flavours keep the same class. */
  lemma BundleKeep(show: real -> string, semicolon: bool, t: Tables, params: StringMap, axis: Axis, paint: string,
                   tokens: seq<string>, keep: string)
    ensures BundleDecl(show, semicolon, t, params, axis, paint, tokens, keep).keep == SourceDecl(t, axis, paint, tokens, keep).keep
  {
    var mapped := BundleColors.MapColor(t, paint, FindsClosest(tokens));
    assert Resolved(mapped.variable, mapped.kind) == MapColor(t, paint, FindsClosest(tokens));
  }

  /** Without the blend, the bundle declares what the source does; an exact
      table hit never blends. */
  lemma PlainCase(show: real -> string, semicolon: bool, t: Tables, params: StringMap, axis: Axis, paint: string,
                  tokens: seq<string>, keep: string)
    ensures !Blends(t, params, paint, tokens) ==>
      BundleDecl(show, semicolon, t, params, axis, paint, tokens, keep) == SourceDecl(t, axis, paint, tokens, keep)
    ensures HasKey(t.colorToVar, paint) || HasKey(t.shadeToVar, paint) ==> !Blends(t, params, paint, tokens)
  {
    var mapped := BundleColors.MapColor(t, paint, FindsClosest(tokens));
    assert Resolved(mapped.variable, mapped.kind) == MapColor(t, paint, FindsClosest(tokens));
  }

  /** The blend case of `BundleBlend`: the source's variable, blended. */
  lemma BlendCase(show: real -> string, semicolon: bool, t: Tables, params: StringMap, axis: Axis, paint: string,
                  tokens: seq<string>, keep: string)
    requires Blends(t, params, paint, tokens)
    ensures var mapped := BundleColors.MapColor(t, paint, FindsClosest(tokens));
      var r := BundleDecl(show, semicolon, t, params, axis, paint, tokens, keep);
      var s := SourceDecl(t, axis, paint, tokens, keep);
      exists v :: s.text == DeclOf(axis, "var(" + v + ")")
        && var e := BlendExprs(show, Get(params, "mix-mode").GetOr(""), v, MixMultiplier(params).value,
                               mapped.sourceColor.value, mapped.deltaColor.value);
           r.text == if semicolon then Blend(axis, e) else BlendAsWritten(axis, e)
  {
    var mapped := BundleColors.MapColor(t, paint, FindsClosest(tokens));
    assert Resolved(mapped.variable, mapped.kind) == MapColor(t, paint, FindsClosest(tokens));
    var st := Themed(tokens, mapped.kind, mapped.variable.value, keep);
    var s := SourceDecl(t, axis, paint, tokens, keep);
    var r := BundleDecl(show, semicolon, t, params, axis, paint, tokens, keep);
    assert s == Decl(DeclOf(axis, "var(" + st.variable + ")"), st.keep);
    var e := BlendExprs(show, Get(params, "mix-mode").GetOr(""), st.variable, MixMultiplier(params).value,
                        mapped.sourceColor.value, mapped.deltaColor.value);
    assert r.text == if semicolon then Blend(axis, e) else BlendAsWritten(axis, e);
  }

  /** main.js as written leaves this axis's declaration without its `;`:
      the paint is there, not skipped, and blended. */
  predicate Unterminated(f: Flavor, t: Tables, params: StringMap, tag: string, axis: Axis, style: string) {
    && f.Bundled? && !f.semicolon
    && Paint(style, tag, axis, params).Some?
    && "skip" !in Tokens(params, tag, axis)
    && Blends(t, params, Paint(style, tag, axis, params).value, Tokens(params, tag, axis))
  }

  /** One pass of the `svgStyleTags` loop: nothing for a skipped stroke,
      the literal paint under `skip`, else the flavour's declaration. */
  function AxisDecl(f: Flavor, t: Tables, params: StringMap, tag: string, axis: Axis,
                    style: string, keep: string): (r: Decl)
    ensures r.text == "" <==> Paint(style, tag, axis, params).None?
    ensures r.text != "" ==> StartsWith(r.text, AxisName(axis) + ":")
    ensures KeepFrom(Tokens(params, tag, axis), keep, r.keep)
    ensures Paint(style, tag, axis, params).Some? && "skip" in Tokens(params, tag, axis) ==>
      r == Decl(DeclOf(axis, Paint(style, tag, axis, params).value), keep)
  {
    match Paint(style, tag, axis, params)
    case None => Decl("", keep)
    case Some(paint) =>
      var tokens := Tokens(params, tag, axis);
      if "skip" in tokens then Decl(DeclOf(axis, paint), keep)
      else match f
        case Source => SourceDecl(t, axis, paint, tokens, keep)
        case Bundled(show, semicolon) => BundleDecl(show, semicolon, t, params, axis, paint, tokens, keep)
  }

  /** Every declaration ends in `;` except main.js's blend as written,
      which ends in `)`. */
  lemma DeclEnd(f: Flavor, t: Tables, params: StringMap, tag: string, axis: Axis, style: string, keep: string)
    ensures var r := AxisDecl(f, t, params, tag, axis, style, keep);
      r.text != "" ==> (r.text[|r.text| - 1] == ';' <==> !Unterminated(f, t, params, tag, axis, style))
    ensures var r := AxisDecl(f, t, params, tag, axis, style, keep);
      Unterminated(f, t, params, tag, axis, style) ==> r.text != "" && r.text[|r.text| - 1] == ')'
  {
    if Paint(style, tag, axis, params).Some? {
      if "skip" in Tokens(params, tag, axis) || f.Source? {
        PlainEnds(f, t, params, tag, axis, style, keep);
      } else {
        BundledEnds(f, t, params, tag, axis, style, keep);
      }
    }
  }

  /** Under `skip`, and always in src/processors.ts, the declaration ends
      in `;`. */
  lemma PlainEnds(f: Flavor, t: Tables, params: StringMap, tag: string, axis: Axis, style: string, keep: string)
    requires Paint(style, tag, axis, params).Some?
    requires "skip" in Tokens(params, tag, axis) || f.Source?
    ensures var r := AxisDecl(f, t, params, tag, axis, style, keep);
      r.text != "" && r.text[|r.text| - 1] == ';' && !Unterminated(f, t, params, tag, axis, style)
  {
  }

  /** Otherwise the bundle declares what `BundleDecl` gives, and leaves the
      `;` out exactly when it blends as written. */
  lemma BundledEnds(f: Flavor, t: Tables, params: StringMap, tag: string, axis: Axis, style: string, keep: string)
    requires Paint(style, tag, axis, params).Some?
    requires "skip" !in Tokens(params, tag, axis) && f.Bundled?
    ensures AxisDecl(f, t, params, tag, axis, style, keep) ==
      BundleDecl(f.show, f.semicolon, t, params, axis, Paint(style, tag, axis, params).value, Tokens(params, tag, axis), keep)
    ensures Unterminated(f, t, params, tag, axis, style) <==>
      !f.semicolon && Blends(t, params, Paint(style, tag, axis, params).value, Tokens(params, tag, axis))
  {
  }

  /** Without a truthy `mix-multiplier` the bundle declares exactly what
      src/processors.ts declares. */
  lemma DeclAgree(show: real -> string, semicolon: bool, t: Tables, params: StringMap, tag: string, axis: Axis,
                  style: string, keep: string)
    requires MixMultiplier(params).None?
    ensures AxisDecl(Bundled(show, semicolon), t, params, tag, axis, style, keep)
         == AxisDecl(Source, t, params, tag, axis, style, keep)
  {
    match Paint(style, tag, axis, params)
    case None =>
    case Some(paint) =>
      var tokens := Tokens(params, tag, axis);
      if "skip" !in tokens {
        BundleAsSource(show, semicolon, t, params, axis, paint, tokens, keep);
      }
  }

  /** Without a truthy `mix-multiplier` the bundle's declaration is the
      source's: its extra `mapColor` results go unused. */
  lemma BundleAsSource(show: real -> string, semicolon: bool, t: Tables, params: StringMap, axis: Axis, paint: string,
                       tokens: seq<string>, keep: string)
    requires MixMultiplier(params).None?
    ensures BundleDecl(show, semicolon, t, params, axis, paint, tokens, keep) == SourceDecl(t, axis, paint, tokens, keep)
  {
    var mapped := BundleColors.MapColor(t, paint, FindsClosest(tokens));
    assert Resolved(mapped.variable, mapped.kind) == MapColor(t, paint, FindsClosest(tokens));
  }

  /** `newStyle`: `style="`, the fill and stroke declarations, `" `, the
      class (shared by both axes, the later one winning) and a space. */
  function ElementStyle(f: Flavor, t: Tables, params: StringMap, tag: string, style: string): (piece: string)
    ensures StartsWith(piece, "style=\"") && piece[|piece| - 1] == ' '
  {
    var fill := AxisDecl(f, t, params, tag, Fill, style, "");
    var stroke := AxisDecl(f, t, params, tag, Stroke, style, fill.keep);
    NewStyle(fill.text, stroke.text, stroke.keep)
  }

  /** `'style="' + fill + stroke + '" ' + additionalTag + ' '`. */
  function NewStyle(fill: string, stroke: string, keep: string): (piece: string)
    ensures StartsWith(piece, "style=\"") && piece[|piece| - 1] == ' '
  {
    var piece := "style=\"" + fill + stroke + "\" " + keep + " ";
    assert piece[..7] == "style=\"";
    piece
  }

  /** `styleSubstring`: from `ci` to the next `>`; with no `>` left,
      `substring(ci, -1)` is everything before `ci`. */
  function StyleText(s: string, ci: nat): string {
    Substring(s, ci, IndexValue(IndexOf(s, ">", ci)))
  }

  /** The piece for an element of kind `tag`: its `newStyle`, made from the
      attribute text that starts at `ci`. */
  function PieceOf(f: Flavor, t: Tables, params: StringMap, tag: string): (string, nat) -> string {
    (s: string, ci: nat) => ElementStyle(f, t, params, tag, StyleText(s, ci))
  }

  /** The `while (true)` loop for one tag, corrected to resume after the
      piece it inserted. */
  function ScanTag(f: Flavor, t: Tables, params: StringMap, tag: string, s: string, from: nat): Scanner.Scanned {
    Scanner.Scan(PieceOf(f, t, params, tag), "<" + tag, s, from)
  }

  /** The `for (const svgTag of svgTags)` loop: one scan per tag, each from
      `start` on the text the previous one left. */
  function ScanTags(f: Flavor, t: Tables, params: StringMap, tags: seq<string>, s: string, start: nat): Scanner.Scanned
    decreases |tags|
  {
    if |tags| == 0 then Scanner.Scanned(s, [])
    else
      var a := ScanTag(f, t, params, tags[0], s, start);
      var b := ScanTags(f, t, params, tags[1..], a.svg, start);
      Scanner.Scanned(b.svg, a.trace + b.trace)
  }

  /** Deleting every inserted piece, the latest first, gives back the text
      the tag loop started on. */
  lemma {:induction false} ScanTagsUndo(f: Flavor, t: Tables, params: StringMap, tags: seq<string>, s: string, start: nat)
    ensures var r := ScanTags(f, t, params, tags, s, start); Scanner.Undo(r.svg, r.trace) == s
    decreases |tags|
  {
    if |tags| > 0 {
      var a := ScanTag(f, t, params, tags[0], s, start);
      var b := ScanTags(f, t, params, tags[1..], a.svg, start);
      Scanner.ScanUndo(PieceOf(f, t, params, tags[0]), "<" + tags[0], s, start);
      ScanTagsUndo(f, t, params, tags[1..], a.svg, start);
      Scanner.UndoAppend(b.svg, a.trace, b.trace);
    }
  }

  /** The tag loop only inserts: the text grows and keeps everything before
      `start`. */
  lemma {:induction false} ScanTagsKeeps(f: Flavor, t: Tables, params: StringMap, tags: seq<string>, s: string, start: nat)
    ensures var r := ScanTags(f, t, params, tags, s, start);
      && |r.svg| >= |s|
      && (start <= |s| ==> r.svg[..start] == s[..start])
    decreases |tags|
  {
    if |tags| > 0 {
      var a := ScanTag(f, t, params, tags[0], s, start);
      Scanner.ScanKeeps(PieceOf(f, t, params, tags[0]), "<" + tags[0], s, start);
      ScanTagsKeeps(f, t, params, tags[1..], a.svg, start);
    }
  }

  /** Without a truthy `mix-multiplier` both snapshots make the same piece. */
  lemma ElementAgree(show: real -> string, semicolon: bool, t: Tables, params: StringMap, tag: string, style: string)
    requires MixMultiplier(params).None?
    ensures ElementStyle(Bundled(show, semicolon), t, params, tag, style) == ElementStyle(Source, t, params, tag, style)
  {
    var fill := AxisDecl(Source, t, params, tag, Fill, style, "");
    DeclAgree(show, semicolon, t, params, tag, Fill, style, "");
    DeclAgree(show, semicolon, t, params, tag, Stroke, style, fill.keep);
  }

  /** ... and so the same scan of every tag. */
  lemma ScanTagAgree(show: real -> string, semicolon: bool, t: Tables, params: StringMap, tag: string, s: string, from: nat)
    requires MixMultiplier(params).None?
    ensures ScanTag(Bundled(show, semicolon), t, params, tag, s, from) == ScanTag(Source, t, params, tag, s, from)
  {
    var p1 := PieceOf(Bundled(show, semicolon), t, params, tag);
    var p2 := PieceOf(Source, t, params, tag);
    forall x, n ensures p1(x, n) == p2(x, n) {
      ElementAgree(show, semicolon, t, params, tag, StyleText(x, n));
    }
    Scanner.ScanSame(p1, p2, "<" + tag, s, from);
  }

  lemma {:induction false} ScanTagsAgree(show: real -> string, semicolon: bool, t: Tables, params: StringMap, tags: seq<string>,
                                         s: string, start: nat)
    requires MixMultiplier(params).None?
    ensures ScanTags(Bundled(show, semicolon), t, params, tags, s, start) == ScanTags(Source, t, params, tags, s, start)
    decreases |tags|
  {
    if |tags| > 0 {
      ScanTagAgree(show, semicolon, t, params, tags[0], s, start);
      var a := ScanTag(Source, t, params, tags[0], s, start);
      ScanTagsAgree(show, semicolon, t, params, tags[1..], a.svg, start);
    }
  }

  /** An element `<linearGradient` starts with `<line`, so the `line` scan
      styles it too. */
  lemma LinePrefix(f: Flavor, t: Tables, params: StringMap, s: string, from: nat, i: nat)
    requires from <= i && OccursAt(s, "<linearGradient", i)
    ensures |ScanTag(f, t, params, "line", s, from).trace| > 0
  {
    var open := "<" + "line";
    var p := PieceOf(f, t, params, "line");
    assert s[i..i + 5] == "<linearGradient"[..5];
    assert OccursAt(s, open, i);
    Scanner.FindIsIndexOf(s, open, from);
    var j := Scanner.Find(s, open, from).value;
    var st := Scanner.NextStep(p, open, s, j);
    var rest := Scanner.Scan(p, open, st.next, st.at + |st.piece|);
    Scanner.ScanUnfold(p, open, s, from, j, st, rest);
  }

  /** The `width` directive: `<svg` becomes `<svg style="width: W" `, the
      first occurrence only. */
  function Widened(params: StringMap, svg: string): (r: string)
    ensures !IsSet(params, "width") || !Contains(svg, "<svg") ==> r == svg
    ensures IsSet(params, "width") && Contains(svg, "<svg") && '$' !in Get(params, "width").value ==>
      var i := IndexOf(svg, "<svg", 0).value;
      r == svg[..i] + "<svg style=\"width: " + Get(params, "width").value + "\" " + svg[i + 4..]
  {
    if IsSet(params, "width") then
      var w := Get(params, "width").value;
      assert '$' !in w ==> '$' !in "<svg style=\"width: " + w + "\" ";
      Replace(svg, "<svg", "<svg style=\"width: " + w + "\" ")
    else svg
  }

  /** `svgSource.indexOf('<svg') + 4`: just past `<svg`, or 3 when there is
      none. */
  function SvgStart(svg: string): (n: nat)
    ensures Contains(svg, "<svg") ==> OccursAt(svg, "<svg", n - 4)
    ensures !Contains(svg, "<svg") ==> n == 3
  {
    IndexValue(IndexOf(svg, "<svg", 0)) + 4
  }

  /** The text with every element's `style` inserted, before the quoted
      paints are deleted. */
  function Restyled(f: Flavor, t: Tables, params: StringMap, svg: string): Scanner.Scanned {
    var w := Widened(params, svg);
    ScanTags(f, t, params, SvgTags, w, SvgStart(w))
  }

  /** `makeDynamicSvg(svgSource, conversionParams).svgData`, with the
      corrected loop: the widened input with `style` pieces inserted and then
      the quoted paints deleted. Deleting the pieces before that last step
      gives back the widened input, and nothing before the first element's
      insertion point changes until the paints are deleted. */
  function MakeDynamicSvg(f: Flavor, t: Tables, params: StringMap, svg: string): (r: string)
    ensures var x := Restyled(f, t, params, svg);
      var w := Widened(params, svg);
      && r == StripStyleAttrs(x.svg)
      && Scanner.Undo(x.svg, x.trace) == w
      && |x.svg| >= |w|
      && (SvgStart(w) <= |w| ==> x.svg[..SvgStart(w)] == w[..SvgStart(w)])
  {
    var w := Widened(params, svg);
    ScanTagsUndo(f, t, params, SvgTags, w, SvgStart(w));
    ScanTagsKeeps(f, t, params, SvgTags, w, SvgStart(w));
    StripStyleAttrs(Restyled(f, t, params, svg).svg)
  }

  /** Where the fill declaration meets the stroke's in a piece: its last
      character, `)` when the two are glued together and `;` otherwise,
      then `stroke:`. */
  lemma Junction(fill: string, stroke: string, keep: string, glued: bool) returns (i: nat)
    requires |fill| > 0 && fill[|fill| - 1] == (if glued then ')' else ';')
    requires |stroke| >= 7 && stroke[..7] == "stroke:"
    ensures var piece := NewStyle(fill, stroke, keep);
      i + 8 <= |piece| && piece[i..i + 8] == if glued then ")stroke:" else ";stroke:"
  {
    var piece := NewStyle(fill, stroke, keep);
    var tail := "\" " + keep + " ";
    assert piece == "style=\"" + fill + stroke + tail;
    i := 6 + |fill|;
    var seg, want := piece[i..i + 8], [fill[|fill| - 1]] + stroke[..7];
    assert forall k :: 0 <= k < 8 ==> seg[k] == want[k];
  }

  /** A stroke declaration starts with `stroke:`. */
  lemma StrokeStart(d: string)
    requires StartsWith(d, AxisName(Stroke) + ":")
    ensures |d| >= 7 && d[..7] == "stroke:"
  {
    assert AxisName(Stroke) + ":" == "stroke:";
  }

  /** The fill declaration is never empty, and ends in `)` exactly when it
      is main.js's blend as written. */
  lemma FillPart(f: Flavor, t: Tables, params: StringMap, tag: string, style: string) returns (d: Decl)
    ensures d == AxisDecl(f, t, params, tag, Fill, style, "")
    ensures |d.text| > 0 && (d.text[|d.text| - 1] == ';' <==> !Unterminated(f, t, params, tag, Fill, style))
    ensures Unterminated(f, t, params, tag, Fill, style) ==> d.text[|d.text| - 1] == ')'
  {
    d := AxisDecl(f, t, params, tag, Fill, style, "");
    DeclEnd(f, t, params, tag, Fill, style, "");
  }

  /** A present stroke's declaration starts with `stroke:`. */
  lemma StrokePart(f: Flavor, t: Tables, params: StringMap, tag: string, style: string, keep: string) returns (d: Decl)
    requires Paint(style, tag, Stroke, params).Some?
    ensures d == AxisDecl(f, t, params, tag, Stroke, style, keep)
    ensures |d.text| >= 7 && d.text[..7] == "stroke:"
  {
    d := AxisDecl(f, t, params, tag, Stroke, style, keep);
    StrokeStart(d.text);
  }

  /** An element's piece with a stroke: the fill declaration, then one
      starting `stroke:`. */
  lemma Parts(f: Flavor, t: Tables, params: StringMap, tag: string, style: string) returns (fill: string, stroke: string, keep: string)
    requires Paint(style, tag, Stroke, params).Some?
    ensures ElementStyle(f, t, params, tag, style) == NewStyle(fill, stroke, keep)
    ensures |fill| > 0 && (fill[|fill| - 1] == ';' <==> !Unterminated(f, t, params, tag, Fill, style))
    ensures Unterminated(f, t, params, tag, Fill, style) ==> fill[|fill| - 1] == ')'
    ensures |stroke| >= 7 && stroke[..7] == "stroke:"
  {
    var a := FillPart(f, t, params, tag, style);
    var b := StrokePart(f, t, params, tag, style, a.keep);
    fill, stroke, keep := a.text, b.text, b.keep;
  }

  /** In main.js as written a blended fill runs into the stroke declaration
      after it: the piece holds `)stroke:`, one malformed declaration. */
  lemma GluedStroke(show: real -> string, t: Tables, params: StringMap, tag: string, style: string) returns (i: nat)
    requires Unterminated(Bundled(show, false), t, params, tag, Fill, style)
    requires Paint(style, tag, Stroke, params).Some?
    ensures var piece := ElementStyle(Bundled(show, false), t, params, tag, style);
      i + 8 <= |piece| && piece[i..i + 8] == ")stroke:"
  {
    var fill, stroke, keep := Parts(Bundled(show, false), t, params, tag, style);
    i := Junction(fill, stroke, keep, true);
  }

  /** In src/processors.ts, and in the bundle once its blend ends in `;`,
      the fill declaration is closed before the stroke's begins: the piece
      holds `;stroke:`. */
  lemma SeparatedStroke(f: Flavor, t: Tables, params: StringMap, tag: string, style: string) returns (i: nat)
    requires f.Source? || f.semicolon
    requires Paint(style, tag, Stroke, params).Some?
    ensures var piece := ElementStyle(f, t, params, tag, style);
      i + 8 <= |piece| && piece[i..i + 8] == ";stroke:"
  {
    var fill, stroke, keep := Parts(f, t, params, tag, style);
    i := Junction(fill, stroke, keep, false);
  }

  /** Without a truthy `mix-multiplier` the bundle's `makeDynamicSvg`
      produces exactly what src/processors.ts produces. */
  lemma MakeDynamicSvgAgree(show: real -> string, semicolon: bool, t: Tables, params: StringMap, svg: string)
    requires MixMultiplier(params).None?
    ensures MakeDynamicSvg(Bundled(show, semicolon), t, params, svg) == MakeDynamicSvg(Source, t, params, svg)
  {
    var w := Widened(params, svg);
    ScanTagsAgree(show, semicolon, t, params, SvgTags, w, SvgStart(w));
  }

  /** No element of a kind. */
  predicate NoElement(s: string, tag: string, from: nat) {
    forall j :: from <= j <= |s| ==> !OccursAt(s, "<" + tag, j)
  }

  lemma {:induction false} ScanTagsNone(f: Flavor, t: Tables, params: StringMap, tags: seq<string>, s: string, start: nat)
    requires forall k :: 0 <= k < |tags| ==> NoElement(s, tags[k], start)
    ensures ScanTags(f, t, params, tags, s, start) == Scanner.Scanned(s, [])
    decreases |tags|
  {
    if |tags| > 0 {
      assert NoElement(s, tags[0], start);
      Scanner.FindIsIndexOf(s, "<" + tags[0], start);
      assert IndexOf(s, "<" + tags[0], start).None?;
      ScanTagsNone(f, t, params, tags[1..], s, start);
    }
  }

  /** A document without any of the eight kinds of element after `<svg`
      only loses its quoted paints (and gains the width). */
  lemma NoElements(f: Flavor, t: Tables, params: StringMap, svg: string)
    requires var w := Widened(params, svg);
      forall k :: 0 <= k < |SvgTags| ==> NoElement(w, SvgTags[k], SvgStart(w))
    ensures MakeDynamicSvg(f, t, params, svg) == StripStyleAttrs(Widened(params, svg))
  {
    var w := Widened(params, svg);
    ScanTagsNone(f, t, params, SvgTags, w, SvgStart(w));
  }

  /** The tag loop as written: each tag's loop resumes inside the piece it
      just inserted (`Scanner.ScanAsWritten`); `None` when some tag's loop
      has not finished after `fuel` turns. */
  function ScanTagsAsWritten(fuel: nat, f: Flavor, t: Tables, params: StringMap, tags: seq<string>,
                             s: string, start: nat): Option<string>
    decreases |tags|
  {
    if |tags| == 0 then Some(s)
    else match Scanner.ScanAsWritten(fuel, PieceOf(f, t, params, tags[0]), "<" + tags[0], s, start)
      case None => None
      case Some(a) => ScanTagsAsWritten(fuel, f, t, params, tags[1..], a, start)
  }

  /** `makeDynamicSvg` as written; `None` when some tag's loop has not
      finished after `fuel` turns. When no inserted piece holds a `<` and
      the fuel covers the output, it gives what the corrected loop gives. */
  function MakeDynamicSvgAsWritten(fuel: nat, f: Flavor, t: Tables, params: StringMap, svg: string): (r: Option<string>)
    ensures Scanner.Clean(Restyled(f, t, params, svg).trace, '<') && fuel > |Restyled(f, t, params, svg).svg| ==>
      r == Some(MakeDynamicSvg(f, t, params, svg))
  {
    var w := Widened(params, svg);
    ScanTagsAsWrittenAgree(fuel, f, t, params, SvgTags, w, SvgStart(w));
    match ScanTagsAsWritten(fuel, f, t, params, SvgTags, w, SvgStart(w))
    case None => None
    case Some(x) => Some(StripStyleAttrs(x))
  }

  /** When no piece holds a `<`, the loop as written never finds an element
      inside a piece, and does what the corrected loop does. */
  lemma {:induction false} ScanTagsAsWrittenAgree(fuel: nat, f: Flavor, t: Tables, params: StringMap, tags: seq<string>,
                                                  s: string, start: nat)
    ensures (Scanner.Clean(ScanTags(f, t, params, tags, s, start).trace, '<')
             && fuel > |ScanTags(f, t, params, tags, s, start).svg|) ==>
      ScanTagsAsWritten(fuel, f, t, params, tags, s, start) == Some(ScanTags(f, t, params, tags, s, start).svg)
    decreases |tags|
  {
    if |tags| > 0 && Scanner.Clean(ScanTags(f, t, params, tags, s, start).trace, '<')
       && fuel > |ScanTags(f, t, params, tags, s, start).svg| {
      var open := "<" + tags[0];
      var p := PieceOf(f, t, params, tags[0]);
      var a := ScanTag(f, t, params, tags[0], s, start);
      var b := ScanTags(f, t, params, tags[1..], a.svg, start);
      Scanner.CleanAppend(a.trace, b.trace, '<');
      ScanTagsKeeps(f, t, params, tags[1..], a.svg, start);
      Scanner.ScanKeeps(p, open, s, start);
      Scanner.AgreeFrom(fuel, p, open, s, start, start, a);
      ScanTagsAsWrittenAgree(fuel, f, t, params, tags[1..], a.svg, start);
    }
  }

}
