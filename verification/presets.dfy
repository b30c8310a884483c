/** The named parameter sets a front matter can pull in with `preset: X`:
    src/processors.ts knows only `math-graph`; the bundled main.js adds a
    `default-{type}` set per renderer, which `preprocessSource` loads before
    anything else. */
module Presets {
  import opened Optional
  import opened OrderedMap

  /** A preset's entries in iteration order. */
  type Entries = seq<(string, string)>

  /** `presets`: preset names and their entries. */
  type PresetTable = seq<(string, Entries)>

  /** `math-graph`: ellipses and text keep the shade class on their fill. */
  const MathGraph: Entries := [("ellipse-fill", "keep-shade"), ("text-fill", "keep-shade")]

  /** src/processors.ts `presets`. */
  const SrcPresets: PresetTable := [("math-graph", MathGraph)]

  /** main.js `presets`. */
  const BundlePresets: PresetTable := [
    ("math-graph", MathGraph),
    ("default-latex", [("inverted", "true"), ("width", "100%"),
                       ("doc-start", "\\documentclass[preview,class=article]{standalone}"),
                       ("doc-end", "\\end{document}")]),
    ("default-tikz", [("inverted", "true"), ("width", "100%"),
                      ("doc-start", "\\documentclass[tikz]{standalone}\\usepackage{tikz}\\begin{document}"),
                      ("doc-end", "\\end{document}")]),
    ("default-plantuml", [("inverted", "true"), ("width", "100%"),
                          ("doc-start", "@startuml"), ("doc-end", "@enduml")])
  ]

  /** `presets.get(name)`: the entries of the first preset so named. */
  function FindPreset(table: PresetTable, name: string): (r: Option<Entries>)
    ensures r.None? <==> forall i :: 0 <= i < |table| ==> table[i].0 != name
    ensures r.Some? ==> exists i :: (0 <= i < |table| && table[i] == (name, r.value)
      && forall j :: 0 <= j < i ==> table[j].0 != name)
    decreases |table|
  {
    if |table| == 0 then None
    else if table[0].0 == name then Some(table[0].1)
    else
      var r := FindPreset(table[1..], name);
      assert forall i :: 1 <= i < |table| ==> table[i] == table[1..][i - 1];
      r
  }

  /** `loadPreset(name, params)` (and the `preset` case of src's
      `parseFrontMatter`): a known preset's entries are set in order, an
      unknown name changes nothing. */
  function LoadPreset(table: PresetTable, params: StringMap, name: string): (r: StringMap)
    ensures FindPreset(table, name).None? ==> r == params
    ensures FindPreset(table, name).Some? ==> forall k :: (Get(r, k) ==
      match LastWrite(FindPreset(table, name).value, k)
      case Some(v) => Some(v)
      case None => Get(params, k))
  {
    match FindPreset(table, name)
    case None => params
    case Some(entries) =>
      forall k ensures Get(SetAll(params, entries), k) ==
        match LastWrite(entries, k) case Some(v) => Some(v) case None => Get(params, k)
      {
        SetAllLastWrite(params, entries, k);
      }
      SetAll(params, entries)
  }

  /** `math-graph` sets `ellipse-fill` and `text-fill` to `keep-shade` in
      both snapshots and leaves every other parameter alone. */
  lemma MathGraphKeepsShade(table: PresetTable, params: StringMap)
    requires table == SrcPresets || table == BundlePresets
    ensures var r := LoadPreset(table, params, "math-graph");
      && Get(r, "ellipse-fill") == Some("keep-shade")
      && Get(r, "text-fill") == Some("keep-shade")
      && forall k :: k != "ellipse-fill" && k != "text-fill" ==> Get(r, k) == Get(params, k)
  {
    assert FindPreset(table, "math-graph") == Some(MathGraph);
  }

  /** The names main.js knows. */
  predicate BundleKnows(name: string) {
    name == "math-graph" || name == "default-latex" || name == "default-tikz" || name == "default-plantuml"
  }

  /** An unknown preset name changes nothing; in the bundle that includes
      `default-{type}` for every type but latex, tikz and plantuml. */
  lemma UnknownPreset(params: StringMap, name: string)
    requires !BundleKnows(name)
    ensures LoadPreset(BundlePresets, params, name) == params
    ensures name != "math-graph" ==> LoadPreset(SrcPresets, params, name) == params
  {
  }

  /** The three `default-{type}` presets turn inversion on, set the width to
      `100%`, and wrap the source in a document start and end. */
  lemma DefaultPresets(type_: string)
    requires type_ == "latex" || type_ == "tikz" || type_ == "plantuml"
    ensures var r := LoadPreset(BundlePresets, Empty, "default-" + type_);
      && Get(r, "inverted") == Some("true")
      && Get(r, "width") == Some("100%")
      && Get(r, "doc-start").Some? && Get(r, "doc-end").Some?
  {
    var e := FindDefault(type_);
    DefaultWrites(e);
  }

  /** The entries main.js finds for `default-{type}`. */
  lemma FindDefault(type_: string) returns (e: Entries)
    requires type_ == "latex" || type_ == "tikz" || type_ == "plantuml"
    ensures FindPreset(BundlePresets, "default-" + type_) == Some(e) && DefaultShape(e)
  {
    var name := "default-" + type_;
    var i := if type_ == "latex" then 1 else if type_ == "tikz" then 2 else 3;
    assert name == BundlePresets[i].0;
    assert BundlePresets[0].0 != name by {
      assert "math-graph"[0] != name[0];
    }
    assert i > 1 ==> BundlePresets[1].0 != name by {
      assert |"default-latex"| != |"default-tikz"| && |"default-latex"| != |"default-plantuml"|;
    }
    assert i > 2 ==> BundlePresets[2].0 != name by {
      assert |"default-tikz"| != |"default-plantuml"|;
    }
    e := BundlePresets[i].1;
  }

  /** Inversion on, full width, then a document start and end. */
  predicate DefaultShape(e: Entries) {
    && |e| == 4 && e[0] == ("inverted", "true") && e[1] == ("width", "100%")
    && e[2].0 == "doc-start" && e[3].0 == "doc-end"
  }

  lemma DefaultWrites(e: Entries)
    requires DefaultShape(e)
    ensures LastWrite(e, "inverted") == Some("true") && LastWrite(e, "width") == Some("100%")
    ensures LastWrite(e, "doc-start").Some? && LastWrite(e, "doc-end").Some?
  {
    assert "inverted"[0] != "width"[0] && "inverted"[0] != "doc-start"[0] && "width"[0] != "doc-start"[0];
    assert "doc-start"[4] != "doc-end"[4];
    LastWriteAt(e, 0, "inverted");
    LastWriteAt(e, 1, "width");
    LastWriteAt(e, 2, "doc-start");
    LastWriteAt(e, 3, "doc-end");
  }
}
