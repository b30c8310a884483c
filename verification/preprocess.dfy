/** The bundled main.js `preprocessSource(type, source, outputFile)`: the
    `default-{type}` preset is loaded first, then the front matter's lines in
    order, where a line without a colon is a flag with value `1` and
    `preset: X` loads X; naming keys stay parameters. Afterwards the final
    parameters are walked in order: each naming key registers the graph,
    `doc-start` goes before the source and `doc-end` after it, each joined
    by a newline. Unlike src/processors.ts nothing throws and no newline is
    trimmed. */
module Preprocess {
  import opened Optional
  import opened JsString
  import opened OrderedMap
  import opened Presets
  import FrontMatter

  /** One parameter line: `split(':')`, with `"1"` pushed when there is no
      colon, then items 0 and 1 trimmed. */
  function BundleLine(line: string): (kv: (string, string))
    ensures ':' !in line ==> kv == (Trim(line), "1")
    ensures ':' in line ==> kv == FrontMatter.SrcLine(line).value
  {
    FrontMatter.SplitFields(line);
    OneTrimmed();
    var parts := Split(line, ':');
    var parts' := if |parts| == 1 then parts + ["1"] else parts;
    (Trim(parts'[0]), Trim(parts'[1]))
  }

  lemma OneTrimmed()
    ensures Trim("1") == "1"
  {
    assert !IsSpace('1');
    TrimKeeps("1");
  }

  /** `preset` loads a preset, any other key is set. */
  function BundleApply(m: StringMap, key: string, value: string): StringMap {
    if key == "preset" then LoadPreset(BundlePresets, m, value) else Set(m, key, value)
  }

  /** The loop over the front matter's lines. */
  function BundleLines(m: StringMap, lines: seq<string>): StringMap
    decreases |lines|
  {
    if |lines| == 0 then m
    else
      var kv := BundleLine(lines[0]);
      BundleLines(BundleApply(m, kv.0, kv.1), lines[1..])
  }

  /** The writes the lines make, in order: a `preset` line writes the
      preset's entries (none for an unknown name), any other line its
      pair. */
  function BundleWrites(lines: seq<string>): seq<(string, string)>
    decreases |lines|
  {
    if |lines| == 0 then []
    else
      var kv := BundleLine(lines[0]);
      var w := if kv.0 == "preset" then FindPreset(BundlePresets, kv.1).GetOr([]) else [kv];
      w + BundleWrites(lines[1..])
  }

  /** The loop makes exactly the flattened writes. */
  lemma {:induction false} BundleLinesWrites(m: StringMap, lines: seq<string>)
    ensures BundleLines(m, lines) == SetAll(m, BundleWrites(lines))
    decreases |lines|
  {
    if |lines| > 0 {
      var kv := BundleLine(lines[0]);
      var w := if kv.0 == "preset" then FindPreset(BundlePresets, kv.1).GetOr([]) else [kv];
      BundleLinesWrites(BundleApply(m, kv.0, kv.1), lines[1..]);
      SetAllAppend(m, w, BundleWrites(lines[1..]));
      if kv.0 == "preset" && FindPreset(BundlePresets, kv.1).Some? {
        FrontMatter.SetAllLoadPreset(m, FindPreset(BundlePresets, kv.1).value, BundlePresets, kv.1);
      }
    }
  }

  /** The source so far and the names registered so far. */
  datatype Wrapped = Wrapped(source: string, references: seq<string>)

  /** The `for (const [param_key, param_value] of conversionParams)` loop. */
  function WrapFrom(entries: seq<(string, string)>, w: Wrapped): Wrapped
    decreases |entries|
  {
    if |entries| == 0 then w
    else
      var (k, v) := entries[0];
      var w' :=
        if FrontMatter.IsNameKey(k) then w.(references := w.references + [v])
        else if k == "doc-start" then w.(source := v + "\n" + w.source)
        else if k == "doc-end" then w.(source := w.source + "\n" + v)
        else w;
      WrapFrom(entries[1..], w')
  }

  /** What `preprocessSource` returns, and the names it registers the graph
      under, in order. */
  datatype Preprocessed = Preprocessed(source: string, extras: StringMap, references: seq<string>)

  /** The parameters `default-{type}` starts from. */
  function Defaults(type_: string): StringMap {
    LoadPreset(BundlePresets, Empty, "default-" + type_)
  }

  /** `preprocessSource(type, source, outputFile)`: the source is the text
      after the front matter (or all of it), with `doc-start` and a newline
      before it and a newline and `doc-end` after it when those parameters
      are set; the names registered are the values of the naming keys, in
      the parameters' order; without front matter the parameters are the
      type's defaults. */
  function PreprocessSource(type_: string, source: string): (r: Preprocessed)
    ensures var body := match FrontMatter.SplitBlock(source) case None => source case Some(b) => b.rest;
      r.source == Before(r.extras) + body + After(r.extras)
    ensures r.references == NamedValues(r.extras)
    ensures FrontMatter.SplitBlock(source).None? ==> r.extras == Defaults(type_)
  {
    var m0 := Defaults(type_);
    var (m, body) := match FrontMatter.SplitBlock(source)
      case None => (m0, source)
      case Some(b) => (BundleLines(m0, FrontMatter.Lines(b.body)), b.rest);
    WrapSource(m, body, []);
    WrapReferences(m, body, []);
    var w := WrapFrom(m, Wrapped(body, []));
    assert [] + NamedValues(m) == NamedValues(m);
    Preprocessed(w.source, m, w.references)
  }

  /** The values of the naming keys, in the parameters' order: the names
      the graph is registered under. */
  function NamedValues(m: StringMap): seq<string>
    decreases |m|
  {
    if |m| == 0 then []
    else (if FrontMatter.IsNameKey(m[0].0) then [m[0].1] else []) + NamedValues(m[1..])
  }

  // ---------------------------------------------------------------------
  // Properties

  /** `doc-start` and a newline, or nothing. */
  function Before(m: StringMap): string {
    match Get(m, "doc-start")
    case Some(v) => v + "\n"
    case None => ""
  }

  /** A newline and `doc-end`, or nothing. */
  function After(m: StringMap): string {
    match Get(m, "doc-end")
    case Some(v) => "\n" + v
    case None => ""
  }

  /** The first entry's key is nowhere else; every other key has the same
      value in the rest. */
  lemma GetTail(m: StringMap, key: string)
    requires |m| > 0
    ensures KeysUnique(m[1..])
    ensures key != m[0].0 ==> Get(m, key) == Get(m[1..], key)
    ensures key == m[0].0 ==> Get(m, key) == Some(m[0].1) && Get(m[1..], key).None?
  {
    var tail := m[1..];
    assert forall i :: 0 <= i < |tail| ==> tail[i] == m[i + 1];
  }

  /** Every key occurs once, so the walk prepends `doc-start` and appends
      `doc-end` at most once each, whatever their order. */
  lemma {:induction false} WrapSource(m: StringMap, x: string, refs: seq<string>)
    ensures WrapFrom(m, Wrapped(x, refs)).source == Before(m) + x + After(m)
    decreases |m|
  {
    if |m| > 0 {
      var (k, v) := m[0];
      GetTail(m, "doc-start");
      GetTail(m, "doc-end");
      var tail: StringMap := m[1..];
      var w' :=
        if FrontMatter.IsNameKey(k) then Wrapped(x, refs + [v])
        else if k == "doc-start" then Wrapped(v + "\n" + x, refs)
        else if k == "doc-end" then Wrapped(x + "\n" + v, refs)
        else Wrapped(x, refs);
      assert WrapFrom(m, Wrapped(x, refs)) == WrapFrom(tail, w');
      WrapSource(tail, w'.source, w'.references);
    }
  }

  /** The walk registers, after the names before it, the value of each
      naming key, every one of them and in the parameters' order. */
  lemma {:induction false} WrapReferences(m: StringMap, x: string, refs: seq<string>)
    ensures WrapFrom(m, Wrapped(x, refs)).references == refs + NamedValues(m)
    decreases |m|
  {
    if |m| > 0 {
      var (k, v) := m[0];
      var tail: StringMap := m[1..];
      GetTail(m, k);
      var w' :=
        if FrontMatter.IsNameKey(k) then Wrapped(x, refs + [v])
        else if k == "doc-start" then Wrapped(v + "\n" + x, refs)
        else if k == "doc-end" then Wrapped(x + "\n" + v, refs)
        else Wrapped(x, refs);
      assert WrapFrom(m, Wrapped(x, refs)) == WrapFrom(tail, w');
      WrapReferences(tail, w'.source, w'.references);
      if FrontMatter.IsNameKey(k) {
        assert refs + [v] + NamedValues(tail) == refs + NamedValues(m);
      } else {
        assert NamedValues(m) == NamedValues(tail);
      }
    } else {
      assert refs + NamedValues(m) == refs;
    }
  }

  /** Every name registered is the value of a naming key. */
  lemma {:induction false} NamedValuesNamed(m: StringMap)
    ensures forall j :: 0 <= j < |NamedValues(m)| ==>
      exists k :: FrontMatter.IsNameKey(k) && Get(m, k) == Some(NamedValues(m)[j])
    decreases |m|
  {
    if |m| > 0 {
      var (k, v) := m[0];
      var tail: StringMap := m[1..];
      var head: seq<string> := if FrontMatter.IsNameKey(k) then [v] else [];
      assert NamedValues(m) == head + NamedValues(tail);
      NamedValuesNamed(tail);
      forall j | 0 <= j < |NamedValues(m)|
        ensures exists key :: FrontMatter.IsNameKey(key) && Get(m, key) == Some(NamedValues(m)[j])
      {
        if j < |head| {
          GetTail(m, k);
          assert Get(m, k) == Some(NamedValues(m)[j]);
        } else {
          assert NamedValues(m)[j] == NamedValues(tail)[j - |head|];
          var key :| FrontMatter.IsNameKey(key) && Get(tail, key) == Some(NamedValues(tail)[j - |head|]);
          GetTail(m, key);
        }
      }
    } else {
      assert NamedValues(m) == [];
    }
  }

  /** Parameters: the default preset's entries first, then the front
      matter's writes in line order; the last write of a key wins. */
  lemma PreprocessParams(type_: string, source: string, k: string)
    requires StartsWith(source, "---")
    ensures var lines := FrontMatter.Lines(FrontMatter.SplitBlock(source).value.body);
      var defaults := FindPreset(BundlePresets, "default-" + type_).GetOr([]);
      Get(PreprocessSource(type_, source).extras, k) == LastWrite(defaults + BundleWrites(lines), k)
  {
    var lines := FrontMatter.Lines(FrontMatter.SplitBlock(source).value.body);
    var defaults := FindPreset(BundlePresets, "default-" + type_).GetOr([]);
    var writes := BundleWrites(lines);
    assert PreprocessSource(type_, source).extras == SetAll(Defaults(type_), writes) by {
      BundleLinesWrites(Defaults(type_), lines);
    }
    assert Get(SetAll(Defaults(type_), writes), k) ==
      match LastWrite(writes, k) case Some(v) => Some(v) case None => Get(Defaults(type_), k) by {
      SetAllLastWrite(Defaults(type_), writes, k);
    }
    assert Get(Defaults(type_), k) == LastWrite(defaults, k) by {
      DefaultsLastWrite(type_, k);
    }
    LastWriteAppend(defaults, writes, k);
  }

  /** The defaults hold the last write of each key in the default preset. */
  lemma DefaultsLastWrite(type_: string, k: string)
    ensures Get(Defaults(type_), k) == LastWrite(FindPreset(BundlePresets, "default-" + type_).GetOr([]), k)
  {
    if FindPreset(BundlePresets, "default-" + type_).None? {
      assert LastWrite([], k).None?;
    }
  }

  /** `default-latex` sets the standalone preamble and `\end{document}`. */
  lemma LatexDefaults()
    ensures Get(Defaults("latex"), "doc-start") == Some("\\documentclass[preview,class=article]{standalone}")
    ensures Get(Defaults("latex"), "doc-end") == Some("\\end{document}")
  {
    var e := BundlePresets[1].1;
    assert "default-" + "latex" == BundlePresets[1].0;
    assert FindPreset(BundlePresets, "default-latex") == Some(e);
    LastWriteAt(e, 2, "doc-start");
    LastWriteAt(e, 3, "doc-end");
  }

  /** A latex block without front matter is wrapped in the standalone
      preamble and `\end{document}`. */
  lemma LatexWrap(source: string)
    requires !StartsWith(source, "---")
    ensures PreprocessSource("latex", source).source ==
      "\\documentclass[preview,class=article]{standalone}" + "\n" + source + "\n" + "\\end{document}"
  {
    var r := PreprocessSource("latex", source);
    assert r.extras == Defaults("latex");
    assert r.source == Before(r.extras) + source + After(r.extras);
    assert Before(r.extras) == "\\documentclass[preview,class=article]{standalone}" + "\n"
        && After(r.extras) == "\n" + "\\end{document}" by {
      LatexDefaults();
    }
    Regroup("\\documentclass[preview,class=article]{standalone}", "\n", source, "\n", "\\end{document}");
  }

  lemma Regroup(a: string, b: string, c: string, d: string, e: string)
    ensures (a + b) + c + (d + e) == a + b + c + d + e
  {
  }

  /** A type without a default preset and a block without front matter:
      nothing is set and the source passes through unchanged. */
  lemma NoDefaults(type_: string, source: string)
    requires !BundleKnows("default-" + type_) && !StartsWith(source, "---")
    ensures PreprocessSource(type_, source) == Preprocessed(source, Empty, [])
  {
    UnknownPreset(Empty, "default-" + type_);
  }

  /** Without a closing `---` the body is `---`: one colon-less line. */
  lemma UnclosedLines(source: string)
    requires StartsWith(source, "---") && IndexOf(source, "---", 3).None?
    ensures FrontMatter.Lines(FrontMatter.SplitBlock(source).value.body) == ["---"]
    ensures BundleLine("---") == ("---", "1")
  {
    assert FrontMatter.SplitBlock(source).value.body == "---";
    DashLines();
  }

  /** The dashes are one line without a colon. */
  lemma DashLines()
    ensures FrontMatter.Lines("---") == ["---"]
    ensures BundleLine("---") == ("---", "1")
  {
    FrontMatter.DashesTrimmed();
    assert FindChar("---", '\n').None?;
  }

  /** Without a closing `---` the bundle does not throw: the key `---` is
      set to `1` as a flag. */
  lemma UnclosedFlag(type_: string, source: string)
    requires StartsWith(source, "---") && IndexOf(source, "---", 3).None?
    ensures Get(PreprocessSource(type_, source).extras, "---") == Some("1")
  {
    UnclosedLines(source);
    assert PreprocessSource(type_, source).extras == BundleLines(Defaults(type_), ["---"]);
    assert BundleLines(Defaults(type_), ["---"]) == BundleLines(Set(Defaults(type_), "---", "1"), []);
  }
}
