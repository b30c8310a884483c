/** The colour taxonomy of src/processors.ts: the two alias tables that sort
    SVG colour keywords and hex codes into theme slots, and
    `transformColorMap`, which flattens a table into a name-to-variable map
    and an RGB-to-variable list. */
module Palette {
  import opened Optional
  import opened JsString
  import opened OrderedMap
  import opened Utils

  /** One row of a table: groups of aliases (keywords and `#` hex codes) and
      the theme variable they all stand for. */
  datatype Entry = Entry(aliases: seq<seq<string>>, variable: string)

  /** `svgColors`: hues, dark, neutral and light. `magenta` is listed twice,
      under purple and under light purple. */
  const SvgColors: seq<Entry> := [
    Entry([["darkred", "#8B0000"], ["firebrick", "#B22222"], ["maroon", "#800000"], ["brown", "#A52A2A"]],
      "--g-color-dark-red"),
    Entry([["darkmagenta", "#8B008B"], ["darkviolet", "#9400D3"], ["darkorchid", "#9932CC"],
      ["blueviolet", "#8A2BE2"], ["indigo", "#4B0082"]], "--g-color-dark-purple"),
    Entry([["darkgreen", "#006400"]], "--g-color-dark-green"),
    Entry([["darkblue", "#00008B"], ["midnightblue", "#191970"], ["navy", "#000080"]], "--g-color-dark-blue"),
    Entry([["chocolate", "#D2691E"]], "--g-color-dark-orange"),
    Entry([["goldenrod", "#DAA520"], ["darkgoldenrod", "#B8860B"]], "--g-color-dark-yellow"),
    Entry([["darkcyan", "#008B8B"], ["lightseagreen", "#20B2AA"], ["teal", "#008080"]], "--g-color-dark-cyan"),
    Entry([["red", "#FF0000"], ["tomato", "#FF6347"]], "--g-color-red"),
    Entry([["purple", "#800080"], ["mediumpurple", "#9370DB"], ["magenta", "#FF00FF"]], "--g-color-purple"),
    Entry([["green", "#008000"]], "--g-color-green"),
    Entry([["blue", "#0000FF"]], "--g-color-blue"),
    Entry([["darkorange", "#FF8C00"]], "--g-color-orange"),
    Entry([["yellow", "#FFFF00"]], "--g-color-yellow"),
    Entry([["cyan", "aqua", "#00FFFF"]], "--g-color-cyan"),
    Entry([["lightcoral", "#F08080"], ["salmon", "#FA8072"], ["pink", "#FFC0CB"], ["lightsalmon", "#FFA07A"],
      ["indianred", "#CD5C5C"]], "--g-color-light-red"),
    Entry([["plum", "#DDA0DD"], ["violet", "#EE82EE"], ["magenta", "#DA70D6"], ["mediumorchid", "#BA55D3"]],
      "--g-color-light-purple"),
    Entry([["lightgreen", "#90EE90"], ["palegreen", "#98FB98"]], "--g-color-light-green"),
    Entry([["powderblue", "#B0E0E6"], ["lightblue", "#ADD8E6"], ["skyblue", "#87CEEB"],
      ["lightskyblue", "#87CEFA"]], "--g-color-light-blue"),
    Entry([["orange", "#FFA500"], ["coral", "#FF7F50"]], "--g-color-light-orange"),
    Entry([["gold", "#FFD700"]], "--g-color-light-yellow"),
    Entry([["paleturquoise", "#AFEEEE"], ["aquamarine", "#7FFFD4"]], "--g-color-light-cyan")
  ]

  /** `svgShades`: the grey ramp from the lightest to the darkest slot. */
  const SvgShades: seq<Entry> := [
    Entry([["ghostwhite", "#F8F8FF"]], "--g-color-light100-hard"),
    Entry([["white", "#FFFFFF"]], "--g-color-light100"),
    Entry([["seashell", "#FFF5EE"]], "--g-color-light100-soft"),
    Entry([["snow", "#FFFAFA"]], "--g-color-light90"),
    Entry([["whitesmoke", "#F5F5F5"]], "--g-color-light80"),
    Entry([["lightgray", "lightgrey", "#D3D3D3"]], "--g-color-light70"),
    Entry([["silver", "#C0C0C0"]], "--g-color-light60"),
    Entry([["black", "#000000"]], "--g-color-dark100"),
    Entry([["dimgray", "dimgrey", "#696969"]], "--g-color-dark100-soft"),
    Entry([["darkslategray", "darkslategrey", "#2F4F4F"]], "--g-color-dark90"),
    Entry([["slategray", "slategrey", "#708090"]], "--g-color-dark80"),
    Entry([["lightslategray", "lightslategrey", "#778899"]], "--g-color-dark70"),
    Entry([["gray", "grey", "#808080"]], "--g-color-dark60"),
    Entry([["darkgray", "darkgrey", "#A9A9A9"]], "--g-color-gray")
  ]

  /** Every alias of a group that starts with `#` is a six-digit hex code
      (the source asserts this with `hexToRgb(color)!`). */
  predicate GroupParses(group: seq<string>) {
    forall k :: 0 <= k < |group| && StartsWith(group[k], "#") ==> IsHexColor(group[k])
  }

  predicate EntryParses(entry: Entry) {
    forall j :: 0 <= j < |entry.aliases| ==> GroupParses(entry.aliases[j])
  }

  predicate HexAliasesParse(list: seq<Entry>) {
    forall i :: 0 <= i < |list| ==> EntryParses(list[i])
  }

  /** The aliases of one group, each paired with `variable`. */
  function Pairs(group: seq<string>, variable: string): seq<(string, string)>
    decreases |group|
  {
    if |group| == 0 then [] else Pairs(group[..|group| - 1], variable) + [(group[|group| - 1], variable)]
  }

  /** The aliases of several groups in order, each paired with `variable`. */
  function GroupPairs(groups: seq<seq<string>>, variable: string): seq<(string, string)>
    decreases |groups|
  {
    if |groups| == 0 then []
    else GroupPairs(groups[..|groups| - 1], variable) + Pairs(groups[|groups| - 1], variable)
  }

  /** Every alias of a table paired with its row's variable, in the order the
      nested loops of `transformColorMap` visit them. */
  function Flatten(list: seq<Entry>): seq<(string, string)>
    decreases |list|
  {
    if |list| == 0 then []
    else Flatten(list[..|list| - 1]) + GroupPairs(list[|list| - 1].aliases, list[|list| - 1].variable)
  }

  /** The writes to the name map: each alias lower-cased, with its variable. */
  function NameWrites(flat: seq<(string, string)>): (ws: seq<(string, string)>)
    ensures |ws| == |flat|
    ensures forall i :: 0 <= i < |flat| ==> ws[i] == (Lower(flat[i].0), flat[i].1)
  {
    seq(|flat|, i requires 0 <= i < |flat| => (Lower(flat[i].0), flat[i].1))
  }

  /** The RGB-to-variable pairs: one for each `#` alias that parses, in order. */
  function HexPairs(flat: seq<(string, string)>): ColorTable
    decreases |flat|
  {
    if |flat| == 0 then []
    else
      var last := flat[|flat| - 1];
      var init := HexPairs(flat[..|flat| - 1]);
      if StartsWith(last.0, "#") && HexToRgb(last.0).Some? then init + [(HexToRgb(last.0).value, last.1)]
      else init
  }

  /** The name map `transformColorMap` builds: `set` of every lower-cased alias
      in order, so a repeated alias keeps the variable of its last row. */
  function NameMap(list: seq<Entry>): StringMap {
    SetAll(Empty, NameWrites(Flatten(list)))
  }

  /** One more alias: `set` its lower-cased form, and append its RGB pair
      when it is a `#` alias that parses. */
  lemma AliasStep(flat: seq<(string, string)>, color: string, colorVar: string)
    ensures SetAll(Empty, NameWrites(flat + [(color, colorVar)]))
      == Set(SetAll(Empty, NameWrites(flat)), Lower(color), colorVar)
    ensures HexPairs(flat + [(color, colorVar)])
      == if StartsWith(color, "#") && HexToRgb(color).Some? then HexPairs(flat) + [(HexToRgb(color).value, colorVar)]
         else HexPairs(flat)
  {
    var next := flat + [(color, colorVar)];
    assert next[..|flat|] == flat;
    assert NameWrites(next) == NameWrites(flat) + [(Lower(color), colorVar)];
    SetAllSnoc(Empty, NameWrites(flat), Lower(color), colorVar);
  }

  /** The state of the alias loop after `k` aliases of `group`. */
  ghost predicate GroupState(names: StringMap, hexes: ColorTable, before: seq<(string, string)>,
                             group: seq<string>, k: nat, colorVar: string) {
    k <= |group|
    && names == SetAll(Empty, NameWrites(before + Pairs(group[..k], colorVar)))
    && hexes == HexPairs(before + Pairs(group[..k], colorVar))
  }

  lemma GroupStep(names: StringMap, hexes: ColorTable, before: seq<(string, string)>,
                  group: seq<string>, k: nat, colorVar: string)
    requires GroupState(names, hexes, before, group, k, colorVar) && k < |group| && GroupParses(group)
    ensures GroupState(Set(names, Lower(group[k]), colorVar),
      if StartsWith(group[k], "#") then hexes + [(HexToRgb(group[k]).value, colorVar)] else hexes,
      before, group, k + 1, colorVar)
  {
    assert group[..k + 1][..k] == group[..k];
    assert before + Pairs(group[..k + 1], colorVar) == before + Pairs(group[..k], colorVar) + [(group[k], colorVar)];
    AliasStep(before + Pairs(group[..k], colorVar), group[k], colorVar);
  }

  /** The inner loop of `transformColorMap` over the aliases of one group. */
  method AddGroup(colorToVar0: StringMap, hexToVar0: ColorTable, ghost before: seq<(string, string)>,
                  group: seq<string>, colorVar: string)
    returns (colorToVar: StringMap, hexToVar: ColorTable)
    requires colorToVar0 == SetAll(Empty, NameWrites(before))
    requires hexToVar0 == HexPairs(before)
    requires GroupParses(group)
    ensures colorToVar == SetAll(Empty, NameWrites(before + Pairs(group, colorVar)))
    ensures hexToVar == HexPairs(before + Pairs(group, colorVar))
  {
    colorToVar, hexToVar := colorToVar0, hexToVar0;
    var k := 0;
    assert before + Pairs(group[..0], colorVar) == before;
    while k < |group|
      invariant GroupState(colorToVar, hexToVar, before, group, k, colorVar)
    {
      var color := group[k];
      GroupStep(colorToVar, hexToVar, before, group, k, colorVar);
      if StartsWith(color, "#") {
        hexToVar := hexToVar + [(HexToRgb(color).value, colorVar)];
      }
      colorToVar := Set(colorToVar, Lower(color), colorVar);
      k := k + 1;
    }
    assert group[..|group|] == group;
  }

  /** The state of the group loop after `j` groups of `entry`. */
  ghost predicate EntryState(names: StringMap, hexes: ColorTable, before: seq<(string, string)>,
                             entry: Entry, j: nat) {
    j <= |entry.aliases|
    && names == SetAll(Empty, NameWrites(before + GroupPairs(entry.aliases[..j], entry.variable)))
    && hexes == HexPairs(before + GroupPairs(entry.aliases[..j], entry.variable))
  }

  lemma EntryStep(before: seq<(string, string)>, entry: Entry, j: nat)
    requires j < |entry.aliases|
    ensures before + GroupPairs(entry.aliases[..j + 1], entry.variable)
      == before + GroupPairs(entry.aliases[..j], entry.variable) + Pairs(entry.aliases[j], entry.variable)
  {
    assert entry.aliases[..j + 1][..j] == entry.aliases[..j];
  }

  /** The middle loop of `transformColorMap` over the groups of one row. */
  method AddEntry(colorToVar0: StringMap, hexToVar0: ColorTable, ghost before: seq<(string, string)>, entry: Entry)
    returns (colorToVar: StringMap, hexToVar: ColorTable)
    requires colorToVar0 == SetAll(Empty, NameWrites(before))
    requires hexToVar0 == HexPairs(before)
    requires EntryParses(entry)
    ensures colorToVar == SetAll(Empty, NameWrites(before + GroupPairs(entry.aliases, entry.variable)))
    ensures hexToVar == HexPairs(before + GroupPairs(entry.aliases, entry.variable))
  {
    colorToVar, hexToVar := colorToVar0, hexToVar0;
    var j := 0;
    assert before + GroupPairs(entry.aliases[..0], entry.variable) == before;
    while j < |entry.aliases|
      invariant EntryState(colorToVar, hexToVar, before, entry, j)
    {
      EntryStep(before, entry, j);
      colorToVar, hexToVar := AddGroup(colorToVar, hexToVar, before + GroupPairs(entry.aliases[..j], entry.variable),
        entry.aliases[j], entry.variable);
      j := j + 1;
    }
    assert entry.aliases[..|entry.aliases|] == entry.aliases;
  }

  /** `transformColorMap(colorList)`: walks rows, groups and aliases in order,
      `set`ting every lower-cased alias to the row's variable and appending an
      RGB pair for every `#` alias. The results are the name map and the RGB
      list of the flattened table. */
  method TransformColorMap(colorList: seq<Entry>) returns (colorToVar: StringMap, hexToVar: ColorTable)
    requires HexAliasesParse(colorList)
    ensures colorToVar == NameMap(colorList)
    ensures hexToVar == HexPairs(Flatten(colorList))
  {
    colorToVar := Empty;
    hexToVar := [];
    var i := 0;
    while i < |colorList|
      invariant 0 <= i <= |colorList|
      invariant colorToVar == SetAll(Empty, NameWrites(Flatten(colorList[..i])))
      invariant hexToVar == HexPairs(Flatten(colorList[..i]))
    {
      colorToVar, hexToVar := AddEntry(colorToVar, hexToVar, Flatten(colorList[..i]), colorList[i]);
      FlattenSnoc(colorList, i);
      i := i + 1;
    }
    assert colorList[..|colorList|] == colorList;
  }

  /** One more row appends its pairs. */
  lemma FlattenSnoc(list: seq<Entry>, i: nat)
    requires i < |list|
    ensures Flatten(list[..i + 1]) == Flatten(list[..i]) + GroupPairs(list[i].aliases, list[i].variable)
  {
    assert list[..i + 1][..i] == list[..i];
  }

  /** A name maps to the variable of the last row that lists it (in any
      case), and a name no row lists is absent. */
  lemma TransformLastWins(list: seq<Entry>, name: string)
    ensures Get(NameMap(list), name) == LastWrite(NameWrites(Flatten(list)), name)
  {
    SetAllLastWrite(Empty, NameWrites(Flatten(list)), name);
  }

  /** Every alias of the table, lower-cased, is a key of the name map, and
      every key is such an alias, so no key has an upper-case letter. */
  lemma NameMapKeys(list: seq<Entry>, name: string)
    ensures HasKey(NameMap(list), name) <==>
      exists i :: 0 <= i < |Flatten(list)| && Lower(Flatten(list)[i].0) == name
    ensures HasUpper(name) ==> !HasKey(NameMap(list), name)
  {
    var ws := NameWrites(Flatten(list));
    TransformLastWins(list, name);
    LastWriteSome(ws, name);
    if exists i :: 0 <= i < |ws| && ws[i].0 == name {
      var i :| 0 <= i < |ws| && ws[i].0 == name;
      assert Lower(Flatten(list)[i].0) == name;
    }
  }

  lemma NameWritesAppend(a: seq<(string, string)>, b: seq<(string, string)>)
    ensures NameWrites(a + b) == NameWrites(a) + NameWrites(b)
  {
  }

  /** What the last row of a table writes for `name`, if anything, is what
      the whole table writes last for it. */
  lemma LastRowWrite(list: seq<Entry>, name: string, v: string)
    requires |list| > 0
    requires LastWrite(NameWrites(GroupPairs(list[|list| - 1].aliases, list[|list| - 1].variable)), name) == Some(v)
    ensures LastWrite(NameWrites(Flatten(list)), name) == Some(v)
  {
    var init := Flatten(list[..|list| - 1]);
    var last := GroupPairs(list[|list| - 1].aliases, list[|list| - 1].variable);
    NameWritesAppend(init, last);
    LastWriteAppend(NameWrites(init), NameWrites(last), name);
  }

  /** Rows from `n` on that avoid the first letter of `name` leave its last
      write alone. */
  lemma AvoidingRows(list: seq<Entry>, n: nat, name: string)
    requires n <= |list| && |name| > 0
    requires forall i :: n <= i < |list| ==> EntryAvoids(list[i], name[0])
    ensures LastWrite(NameWrites(Flatten(list)), name) == LastWrite(NameWrites(Flatten(list[..n])), name)
  {
    var head := list[..n];
    var tail := list[n..];
    assert list == head + tail;
    forall i | 0 <= i < |tail| ensures EntryAvoids(tail[i], name[0]) {
      assert tail[i] == list[n + i];
    }
    FlattenAppend(head, tail);
    NameWritesAppend(Flatten(head), Flatten(tail));
    LastWriteAppend(NameWrites(Flatten(head)), NameWrites(Flatten(tail)), name);
    NoKeyAvoided(tail, name);
  }

  /** When row `n` writes `name` and no later row has an alias starting with
      its first letter, the name map sends `name` to what row `n` wrote. */
  lemma LaterRowsAvoid(list: seq<Entry>, n: nat, name: string, v: string)
    requires n < |list| && |name| > 0
    requires LastWrite(NameWrites(GroupPairs(list[n].aliases, list[n].variable)), name) == Some(v)
    requires forall i :: n < i < |list| ==> EntryAvoids(list[i], name[0])
    ensures Get(NameMap(list), name) == Some(v)
  {
    TransformLastWins(list, name);
    AvoidingRows(list, n + 1, name);
    assert list[..n + 1][n] == list[n];
    LastRowWrite(list[..n + 1], name, v);
  }

  /** `magenta` is listed under purple first and under light purple later;
      the later row wins. */
  lemma MagentaIsLightPurple()
    ensures Get(NameMap(SvgColors), "magenta") == Some("--g-color-light-purple")
  {
    MagentaInLightPurple();
    MagentaNotAfter();
    LaterRowsAvoid(SvgColors, 15, "magenta", "--g-color-light-purple");
  }

  lemma {:induction false} FlattenAppend(a: seq<Entry>, b: seq<Entry>)
    ensures Flatten(a + b) == Flatten(a) + Flatten(b)
    decreases |b|
  {
    if |b| == 0 {
      assert a + b == a;
    } else {
      var init := b[..|b| - 1];
      var e := b[|b| - 1];
      assert (a + b)[..|a + b| - 1] == a + init && (a + b)[|a + b| - 1] == e;
      FlattenAppend(a, init);
      var g := GroupPairs(e.aliases, e.variable);
      assert Flatten(b) == Flatten(init) + g;
      assert Flatten(a + b) == Flatten(a + init) + g;
      assert Flatten(a) + Flatten(init) + g == Flatten(a) + (Flatten(init) + g);
    }
  }

  lemma LastWriteSame(writes: seq<(string, string)>, k: string, v: string, i: nat)
    requires i < |writes| && writes[i].0 == k
    requires forall j :: 0 <= j < |writes| ==> writes[j].1 == v
    ensures LastWrite(writes, k) == Some(v)
    decreases |writes|
  {
    if writes[|writes| - 1].0 != k {
      LastWriteSame(writes[..|writes| - 1], k, v, i);
    }
  }

  lemma PairsValues(group: seq<string>, v: string)
    ensures forall j :: 0 <= j < |Pairs(group, v)| ==> Pairs(group, v)[j].1 == v
  {
  }

  lemma GroupPairsValues(groups: seq<seq<string>>, v: string)
    ensures forall j :: 0 <= j < |GroupPairs(groups, v)| ==> GroupPairs(groups, v)[j].1 == v
  {
    if |groups| > 0 {
      GroupPairsValues(groups[..|groups| - 1], v);
      PairsValues(groups[|groups| - 1], v);
    }
  }

  lemma PairsLength(group: seq<string>, v: string)
    ensures |Pairs(group, v)| == |group|
  {
  }

  lemma LowerOfLower(s: string)
    requires forall i :: 0 <= i < |s| ==> !('A' <= s[i] <= 'Z')
    ensures Lower(s) == s
  {
  }

  lemma MagentaInLightPurple()
    ensures LastWrite(NameWrites(GroupPairs(SvgColors[15].aliases, "--g-color-light-purple")), "magenta")
      == Some("--g-color-light-purple")
  {
    var gs := SvgColors[15].aliases;
    var v := "--g-color-light-purple";
    var ws := NameWrites(GroupPairs(gs, v));
    assert gs[..2] == [["plum", "#DDA0DD"], ["violet", "#EE82EE"]];
    assert gs[..3][..2] == gs[..2];
    assert GroupPairs(gs[..3], v) == GroupPairs(gs[..2], v) + Pairs(["magenta", "#DA70D6"], v);
    assert Pairs(["magenta", "#DA70D6"], v)[0] == ("magenta", v);
    assert gs[..2][..1] == gs[..1] && gs[..1][..0] == [];
    PairsLength(gs[0], v);
    PairsLength(gs[1], v);
    assert GroupPairs(gs[..1], v) == Pairs(gs[0], v);
    assert GroupPairs(gs[..2], v) == GroupPairs(gs[..1], v) + Pairs(gs[1], v);
    assert |GroupPairs(gs[..2], v)| == 4;
    assert gs[..4] == gs;
    assert GroupPairs(gs, v) == GroupPairs(gs[..3], v) + Pairs(gs[3], v);
    assert GroupPairs(gs, v)[4] == ("magenta", v);
    LowerOfLower("magenta");
    assert ws[4].0 == "magenta";
    GroupPairsValues(gs, v);
    LastWriteSame(ws, "magenta", v, 4);
  }

  /** No write's key starts with `c`, whatever its case. */
  predicate FlatAvoids(flat: seq<(string, string)>, c: char) {
    forall j :: 0 <= j < |flat| ==> |flat[j].0| == 0 || LowerChar(flat[j].0[0]) != c
  }

  predicate GroupAvoids(group: seq<string>, c: char) {
    forall k :: 0 <= k < |group| ==> |group[k]| == 0 || LowerChar(group[k][0]) != c
  }

  predicate EntryAvoids(entry: Entry, c: char) {
    forall g :: 0 <= g < |entry.aliases| ==> GroupAvoids(entry.aliases[g], c)
  }

  lemma {:induction false} PairsAvoid(group: seq<string>, v: string, c: char)
    requires GroupAvoids(group, c)
    ensures FlatAvoids(Pairs(group, v), c)
    decreases |group|
  {
    if |group| > 0 {
      PairsAvoid(group[..|group| - 1], v, c);
    }
  }

  lemma {:induction false} GroupPairsAvoid(groups: seq<seq<string>>, v: string, c: char)
    requires forall g :: 0 <= g < |groups| ==> GroupAvoids(groups[g], c)
    ensures FlatAvoids(GroupPairs(groups, v), c)
    decreases |groups|
  {
    if |groups| > 0 {
      GroupPairsAvoid(groups[..|groups| - 1], v, c);
      PairsAvoid(groups[|groups| - 1], v, c);
    }
  }

  lemma {:induction false} FlattenAvoids(list: seq<Entry>, c: char)
    requires forall i :: 0 <= i < |list| ==> EntryAvoids(list[i], c)
    ensures FlatAvoids(Flatten(list), c)
    decreases |list|
  {
    if |list| > 0 {
      FlattenAvoids(list[..|list| - 1], c);
      GroupPairsAvoid(list[|list| - 1].aliases, list[|list| - 1].variable, c);
    }
  }

  lemma NoKeyAvoided(list: seq<Entry>, name: string)
    requires |name| > 0 && forall i :: 0 <= i < |list| ==> EntryAvoids(list[i], name[0])
    ensures LastWrite(NameWrites(Flatten(list)), name).None?
  {
    FlattenAvoids(list, name[0]);
    var ws := NameWrites(Flatten(list));
    LastWriteSome(ws, name);
    forall i | 0 <= i < |ws| ensures ws[i].0 != name {
      var a := Flatten(list)[i].0;
      if |a| > 0 {
        assert Lower(a)[0] == LowerChar(a[0]);
      }
    }
  }

  lemma MagentaNotAfter()
    ensures forall i :: 15 < i < |SvgColors| ==> EntryAvoids(SvgColors[i], 'm')
  {
    forall i | 15 < i < |SvgColors| ensures EntryAvoids(SvgColors[i], 'm') {
      RowAvoidsM(i);
    }
  }

  /** No alias of the light rows after the purple one starts with `m`. */
  lemma RowAvoidsM(i: nat)
    requires 15 < i < |SvgColors|
    ensures EntryAvoids(SvgColors[i], 'm')
  {
  }
}
