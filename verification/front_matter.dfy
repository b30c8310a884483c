/** The front matter of a code block, as src/processors.ts `parseFrontMatter`
    reads it: a block opened by `---` at the very start and closed by the
    next `---`, one `key: value` per line. Keys set conversion parameters
    (later lines win), `preset` copies a preset's entries in, and `name`,
    `ref-name` and `graph-name` name the graph for later reference instead.
    One leading and one trailing newline are trimmed from what remains. */
module FrontMatter {
  import opened Optional
  import opened JsString
  import opened OrderedMap
  import opened Presets

  /** The text between the opening `---` and the closing one, and the text
      after the closing one. */
  datatype Block = Block(body: string, rest: string)

  /** `source.startsWith('---')`, `lastIndex = source.indexOf('---', 3)`,
      `source.substring(3, lastIndex)` and `source.substring(lastIndex + 3)`.
      Without a closing `---`, `lastIndex` is -1: the body is then
      `substring(3, -1)`, the first three characters, and the rest starts
      at index 2. */
  function SplitBlock(source: string): (b: Option<Block>)
    ensures b.None? <==> !StartsWith(source, "---")
    ensures b.Some? && IndexOf(source, "---", 3).Some? ==>
      && source == "---" + b.value.body + "---" + b.value.rest
      && forall j :: 0 <= j <= |b.value.body| ==> !OccursAt(b.value.body, "---", j)
    ensures b.Some? && IndexOf(source, "---", 3).None? ==> b.value == Block("---", source[2..])
  {
    if StartsWith(source, "---") then
      var last := IndexValue(IndexOf(source, "---", 3));
      var b := Block(Substring(source, 3, last), Substring(source, last + 3, |source|));
      if last >= 0 then ClosedBlock(source); Some(b) else Some(b)
    else None
  }

  /** A closed block: the opening mark, the body, the closing mark and the
      rest make up the source, and the body holds no `---`. */
  lemma ClosedBlock(source: string)
    requires StartsWith(source, "---") && IndexOf(source, "---", 3).Some?
    ensures var e := IndexOf(source, "---", 3).value;
      && source == "---" + source[3..e] + "---" + source[e + 3..]
      && forall j :: 0 <= j <= |source[3..e]| ==> !OccursAt(source[3..e], "---", j)
  {
    var e := IndexOf(source, "---", 3).value;
    var body := source[3..e];
    forall j | 0 <= j <= |body| ensures !OccursAt(body, "---", j) {
      if OccursAt(body, "---", j) {
        assert source[3 + j..3 + j + 3] == body[j..j + 3];
        assert OccursAt(source, "---", 3 + j);
      }
    }
    assert source == source[..3] + source[3..e] + source[e..e + 3] + source[e + 3..];
  }

  /** `frontMatter.trim().split('\n')`. */
  function Lines(body: string): seq<string> {
    Split(Trim(body), '\n')
  }

  /** The text before the first `:`, or all of it. */
  function Field(s: string): (f: string)
    ensures |f| <= |s| && ':' !in f && f == s[..|f|]
    ensures |f| < |s| <==> ':' in s
    ensures |f| < |s| ==> s[|f|] == ':'
  {
    match FindChar(s, ':')
    case None => s
    case Some(i) => s[..i]
  }

  /** `parameter.split(':')` has a second item exactly when the line has a
      colon; the first two items are the fields before and after it. */
  lemma SplitFields(line: string)
    ensures var parts := Split(line, ':');
      && parts[0] == Field(line)
      && (|parts| >= 2 <==> ':' in line)
      && (':' in line ==> parts[1] == Field(line[|Field(line)| + 1..]))
  {
    var i := FindChar(line, ':');
    if i.Some? {
      var tail := Split(line[i.value + 1..], ':');
      assert tail[0] == Field(line[i.value + 1..]) by {
        if FindChar(line[i.value + 1..], ':').Some? {
        }
      }
    }
  }

  /** One parameter line: `split(':')`, then items 0 and 1 trimmed. A line
      without a colon has no item 1, and reading `.trim()` of `undefined`
      throws. A second colon ends the value (`url: http://x` gives
      `http`). */
  function SrcLine(line: string): (r: Result<(string, string)>)
    ensures r.Failure? <==> ':' !in line
    ensures r.Success? ==>
      var key := Field(line);
      r.value == (Trim(key), Trim(Field(line[|key| + 1..])))
  {
    SplitFields(line);
    var parts := Split(line, ':');
    if |parts| < 2 then Failure("Cannot read properties of undefined (reading 'trim')")
    else Success((Trim(parts[0]), Trim(parts[1])))
  }

  /** The keys that name the graph. */
  predicate IsNameKey(key: string) {
    key == "ref-name" || key == "graph-name" || key == "name"
  }

  /** The parameters so far and `referenceName`. */
  datatype State = State(params: StringMap, name: string)

  /** The `switch (parameter_name)`. */
  function SrcApply(st: State, key: string, value: string): State {
    if IsNameKey(key) then st.(name := value)
    else if key == "preset" then st.(params := LoadPreset(SrcPresets, st.params, value))
    else st.(params := Set(st.params, key, value))
  }

  /** The loop over the lines; the first line without a colon throws. */
  function SrcLines(st: State, lines: seq<string>): Result<State>
    decreases |lines|
  {
    if |lines| == 0 then Success(st)
    else match SrcLine(lines[0])
      case Failure(e) => Failure(e)
      case Success(kv) => SrcLines(SrcApply(st, kv.0, kv.1), lines[1..])
  }

  /** The first line throws when it has no colon, and otherwise the loop
      goes on from the state it makes. */
  lemma SrcLinesHead(st: State, lines: seq<string>)
    requires |lines| > 0
    ensures ':' !in lines[0] ==> SrcLines(st, lines).Failure?
    ensures ':' in lines[0] ==>
      var kv := SrcLine(lines[0]).value;
      SrcLines(st, lines) == SrcLines(SrcApply(st, kv.0, kv.1), lines[1..])
  {
  }

  /** Some line has no colon. */
  predicate BareLine(lines: seq<string>) {
    exists i :: 0 <= i < |lines| && ':' !in lines[i]
  }

  /** A bare line is the first one or a bare line of the rest. */
  lemma BareLineCons(lines: seq<string>)
    requires |lines| > 0
    ensures BareLine(lines) <==> ':' !in lines[0] || BareLine(lines[1..])
  {
    var tail := lines[1..];
    if BareLine(tail) {
      var i :| 0 <= i < |tail| && ':' !in tail[i];
      assert lines[i + 1] == tail[i];
    }
    if BareLine(lines) && ':' in lines[0] {
      var i :| 0 <= i < |lines| && ':' !in lines[i];
      assert tail[i - 1] == lines[i];
    }
  }

  /** The loop throws exactly when some line has no colon. */
  lemma {:induction false} SrcLinesFail(st: State, lines: seq<string>)
    ensures SrcLines(st, lines).Failure? <==> BareLine(lines)
    decreases |lines|
  {
    if |lines| > 0 {
      SrcLinesHead(st, lines);
      BareLineCons(lines);
      if ':' in lines[0] {
        var kv := SrcLine(lines[0]).value;
        SrcLinesFail(SrcApply(st, kv.0, kv.1), lines[1..]);
      }
    }
  }

  /** `source.replace(/^\n|\n$/g, '')`: one newline off the front and one
      off the back, where the same newline is not taken twice. At each end
      the text loses its `\n` if it has one and nothing otherwise. */
  function StripOuterNewlines(s: string): (r: string)
    ensures exists a, b :: 0 <= a <= 1 && |s| - 1 <= b <= |s| && a <= b && r == s[a..b]
    ensures |s| > 0 && s[0] == '\n' ==> StartsWith(s[1..], r)
    ensures |s| > 0 && s[0] != '\n' ==> StartsWith(s, r)
    ensures |s| > 1 && s[|s| - 1] == '\n' ==> EndsWith(s[..|s| - 1], r)
    ensures |s| > 0 && s[|s| - 1] != '\n' ==> EndsWith(s, r)
  {
    var a := if |s| > 0 && s[0] == '\n' then 1 else 0;
    var b := if |s| > a && s[|s| - 1] == '\n' then |s| - 1 else |s|;
    s[a..b]
  }

  /** What `parseFrontMatter` returns, and the name it registers the graph
      under, if any (the registration pairs it with the output file and the
      parameters). */
  datatype Parsed = Parsed(cleanedSource: string, extras: StringMap, reference: Option<string>)

  /** `parseFrontMatter(source, outputFile)`: it throws exactly when there
      is front matter and one of its lines has no colon; without a leading
      `---` nothing is set and only the outer newlines go; otherwise the
      cleaned source is the text after the closing `---`, its outer
      newlines trimmed. */
  function ParseFrontMatter(source: string): (r: Result<Parsed>)
    ensures r.Failure? <==> StartsWith(source, "---") && BareLine(Lines(SplitBlock(source).value.body))
    ensures !StartsWith(source, "---") ==> r == Success(Parsed(StripOuterNewlines(source), Empty, None))
    ensures r.Success? && StartsWith(source, "---") ==>
      r.value.cleanedSource == StripOuterNewlines(SplitBlock(source).value.rest)
  {
    match SplitBlock(source)
    case None => Success(Parsed(StripOuterNewlines(source), Empty, None))
    case Some(b) =>
      SrcLinesFail(State(Empty, ""), Lines(b.body));
      match SrcLines(State(Empty, ""), Lines(b.body))
      case Failure(e) => Failure(e)
      case Success(st) =>
        Success(Parsed(StripOuterNewlines(b.rest), st.params, if |st.name| > 0 then Some(st.name) else None))
  }

  // ---------------------------------------------------------------------
  // Properties

  /** Stripping undoes wrapping in newlines, and leaves alone a text that
      neither starts nor ends with one. */
  lemma StripOuterInverse(t: string)
    ensures StripOuterNewlines("\n" + t + "\n") == t
    ensures (|t| == 0 || (t[0] != '\n' && t[|t| - 1] != '\n')) ==> StripOuterNewlines(t) == t
  {
    var s := "\n" + t + "\n";
    assert s[1..|s| - 1] == t;
  }

  /** A front matter without any colon throws: the empty one (`---` then
      `---`) and the unclosed one (whose body is `---`) among them. */
  lemma NoColonThrows(source: string)
    requires StartsWith(source, "---") && ':' !in Trim(SplitBlock(source).value.body)
    ensures ParseFrontMatter(source).Failure?
  {
    var x := Trim(SplitBlock(source).value.body);
    var first := Split(x, '\n')[0];
    assert first == x || first == x[..FindChar(x, '\n').value];
    assert ':' !in first;
    SrcLinesFail(State(Empty, ""), Lines(SplitBlock(source).value.body));
  }

  /** The unclosed front matter throws. */
  lemma UnclosedThrows(source: string)
    requires StartsWith(source, "---") && IndexOf(source, "---", 3).None?
    ensures ParseFrontMatter(source).Failure?
  {
    assert SplitBlock(source).value.body == "---";
    DashesTrimmed();
    NoColonThrows(source);
  }

  lemma DashesTrimmed()
    ensures Trim("---") == "---" && ':' !in "---"
  {
    assert !IsSpace('-');
    TrimKeeps("---");
  }

  /** The writes the lines make, in order: a parameter line writes its
      pair, a `preset` line writes the preset's entries (none for an
      unknown name), a naming line writes nothing. */
  function SrcWrites(lines: seq<string>): seq<(string, string)>
    decreases |lines|
  {
    if |lines| == 0 then []
    else
      var w := match SrcLine(lines[0])
        case Failure(_) => []
        case Success(kv) =>
          if IsNameKey(kv.0) then []
          else if kv.0 == "preset" then FindPreset(SrcPresets, kv.1).GetOr([])
          else [kv];
      w + SrcWrites(lines[1..])
  }

  /** The value of the last naming line, if any. */
  function LastName(lines: seq<string>): Option<string>
    decreases |lines|
  {
    if |lines| == 0 then None
    else match SrcLine(lines[|lines| - 1])
      case Success(kv) =>
        if IsNameKey(kv.0) then Some(kv.1) else LastName(lines[..|lines| - 1])
      case Failure(_) => LastName(lines[..|lines| - 1])
  }

  /** The loop sets the parameters the flattened writes set, in the same
      order, and keeps the last name. */
  lemma {:induction false} SrcLinesWrites(st: State, lines: seq<string>)
    requires SrcLines(st, lines).Success?
    ensures SrcLines(st, lines).value.params == SetAll(st.params, SrcWrites(lines))
    ensures SrcLines(st, lines).value.name == LastName(lines).GetOr(st.name)
    decreases |lines|
  {
    if |lines| > 0 {
      var kv := SrcLine(lines[0]).value;
      var st' := SrcApply(st, kv.0, kv.1);
      SrcLinesWrites(st', lines[1..]);
      var w := if IsNameKey(kv.0) then [] else if kv.0 == "preset" then FindPreset(SrcPresets, kv.1).GetOr([]) else [kv];
      assert SrcWrites(lines) == w + SrcWrites(lines[1..]);
      SetAllAppend(st.params, w, SrcWrites(lines[1..]));
      if kv.0 == "preset" && !IsNameKey(kv.0) && FindPreset(SrcPresets, kv.1).Some? {
        SetAllLoadPreset(st.params, FindPreset(SrcPresets, kv.1).value, SrcPresets, kv.1);
      }
      LastNameCons(lines);
    }
  }

  /** `LoadPreset` of a known preset is its run of writes. */
  lemma SetAllLoadPreset(m: StringMap, e: Entries, table: PresetTable, name: string)
    requires FindPreset(table, name) == Some(e)
    ensures LoadPreset(table, m, name) == SetAll(m, e)
  {
  }

  /** The last name of a sequence is the last name of its tail, or else the
      head's name. */
  lemma {:induction false} LastNameCons(lines: seq<string>)
    requires |lines| > 0
    ensures LastName(lines) ==
      match LastName(lines[1..])
      case Some(v) => Some(v)
      case None =>
        if SrcLine(lines[0]).Success? && IsNameKey(SrcLine(lines[0]).value.0)
        then Some(SrcLine(lines[0]).value.1) else None
    decreases |lines|
  {
    if |lines| > 1 {
      var init := lines[..|lines| - 1];
      assert lines[1..][..|lines[1..]| - 1] == init[1..];
      assert lines[1..][|lines[1..]| - 1] == lines[|lines| - 1];
      assert init[0] == lines[0];
      LastNameCons(init);
    }
  }

  /** A successful parse of a front matter returns the loop's parameters
      and its name, when that is not empty. */
  lemma ParsedValue(source: string)
    requires StartsWith(source, "---") && ParseFrontMatter(source).Success?
    ensures var b := SplitBlock(source).value;
      var r := SrcLines(State(Empty, ""), Lines(b.body));
      && r.Success?
      && ParseFrontMatter(source).value ==
           Parsed(StripOuterNewlines(b.rest), r.value.params, if |r.value.name| > 0 then Some(r.value.name) else None)
  {
  }

  /** After a successful parse, every parameter holds the value of its last
      write in line order: later lines overwrite earlier ones, and a
      preset's entries count where its line stands. */
  lemma ParsedParams(source: string, k: string)
    requires StartsWith(source, "---") && ParseFrontMatter(source).Success?
    ensures Get(ParseFrontMatter(source).value.extras, k) == LastWrite(SrcWrites(Lines(SplitBlock(source).value.body)), k)
  {
    var lines := Lines(SplitBlock(source).value.body);
    ParsedValue(source);
    SrcLinesWrites(State(Empty, ""), lines);
    SetAllLastWrite(Empty, SrcWrites(lines), k);
  }

  /** After a successful parse the graph is registered under the last
      naming line's value, when there is one and it is not empty. */
  lemma ParsedReference(source: string)
    requires StartsWith(source, "---") && ParseFrontMatter(source).Success?
    ensures var lines := Lines(SplitBlock(source).value.body);
      ParseFrontMatter(source).value.reference == (if LastName(lines).GetOr("") != "" then LastName(lines) else None)
  {
    var lines := Lines(SplitBlock(source).value.body);
    var r := SrcLines(State(Empty, ""), lines);
    assert r.Success? && ParseFrontMatter(source).value.reference ==
      if |r.value.name| > 0 then Some(r.value.name) else None by {
      ParsedValue(source);
    }
    assert r.value.name == LastName(lines).GetOr("") by {
      SrcLinesWrites(State(Empty, ""), lines);
    }
    NonEmptyName(r.value.name, LastName(lines));
  }

  /** The name is registered when it is not empty. */
  lemma NonEmptyName(name: string, o: Option<string>)
    requires name == o.GetOr("")
    ensures (if |name| > 0 then Some(name) else None) == (if o.GetOr("") != "" then o else None)
  {
  }
}
