/** The colour helpers of src/utils.ts: hex and `rgb()` percentage parsing,
    Manhattan distance, the signed per-channel delta, the nearest-colour
    search and the light/dark name inversion. */
module Utils {
  import opened Optional
  import opened JsString
  import opened JsNumber

  /** `RgbColor`: channels are `int` because deltas between colours reuse the
      record and can be negative. */
  datatype Rgb = Rgb(r: int, g: int, b: int)

  predicate IsByte(n: int) {
    0 <= n < 256
  }

  predicate IsByteColor(c: Rgb) {
    IsByte(c.r) && IsByte(c.g) && IsByte(c.b)
  }

  /** The strings `/^#?([a-f\d]{2})([a-f\d]{2})([a-f\d]{2})$/i` accepts:
      exactly six hex digits in either case, optionally after one `#`. */
  predicate IsHexColor(s: string) {
    || (|s| == 6 && AllHexDigits(s))
    || (|s| == 7 && s[0] == '#' && AllHexDigits(s[1..]))
  }

  /** The six digits of a string `IsHexColor` accepts. */
  function HexBody(s: string): (ds: string)
    requires IsHexColor(s)
    ensures |ds| == 6 && AllHexDigits(ds)
  {
    if |s| == 6 then s else s[1..]
  }

  function ByteOf(hi: char, lo: char): (n: nat)
    requires IsHexDigit(hi) && IsHexDigit(lo)
    ensures IsByte(n)
  {
    16 * HexDigitValue(hi) + HexDigitValue(lo)
  }

  /** Two lower-case hex digits for a byte. */
  function Byte2(n: int): (s: string)
    requires IsByte(n)
    ensures |s| == 2 && AllHexDigits(s) && !HasUpper(s)
  {
    HexDigitCharValue(n / 16);
    HexDigitCharValue(n % 16);
    [HexDigitChar(n / 16), HexDigitChar(n % 16)]
  }

  /** `#rrggbb` in lower case. */
  function FormatHex(c: Rgb): string
    requires IsByteColor(c)
  {
    "#" + Byte2(c.r) + Byte2(c.g) + Byte2(c.b)
  }

  lemma Byte2Reads(hi: char, lo: char)
    requires IsHexDigit(hi) && IsHexDigit(lo)
    ensures Byte2(ByteOf(hi, lo)) == [LowerChar(hi), LowerChar(lo)]
  {
    var n := ByteOf(hi, lo);
    assert n / 16 == HexDigitValue(hi) && n % 16 == HexDigitValue(lo);
  }

  /** The colour six hex digits spell, two digits per channel. */
  function ParseBody(ds: string): (c: Rgb)
    requires |ds| == 6 && AllHexDigits(ds)
    ensures IsByteColor(c) && FormatHex(c) == "#" + Lower(ds)
  {
    var c := Rgb(ByteOf(ds[0], ds[1]), ByteOf(ds[2], ds[3]), ByteOf(ds[4], ds[5]));
    LowerPairs(ds);
    c
  }

  lemma LowerPairs(ds: string)
    requires |ds| == 6 && AllHexDigits(ds)
    ensures Lower(ds) == Byte2(ByteOf(ds[0], ds[1])) + Byte2(ByteOf(ds[2], ds[3])) + Byte2(ByteOf(ds[4], ds[5]))
  {
    Byte2Reads(ds[0], ds[1]);
    Byte2Reads(ds[2], ds[3]);
    Byte2Reads(ds[4], ds[5]);
    var l := Lower(ds);
    assert l == [l[0], l[1]] + [l[2], l[3]] + [l[4], l[5]];
  }

  /** `hexToRgb(color)`: a colour exactly when `color` is six hex digits,
      optionally after `#`, in either case; every channel is a byte, and
      printing the colour back gives `#` and the same digits in lower case. */
  function HexToRgb(color: string): (c: Option<Rgb>)
    ensures c.Some? <==> IsHexColor(color)
    ensures c.Some? ==> IsByteColor(c.value) && FormatHex(c.value) == "#" + Lower(HexBody(color))
  {
    if IsHexColor(color) then Some(ParseBody(HexBody(color))) else None
  }

  /** Parsing the lower-case hex form of a byte colour gives the colour. */
  lemma HexRoundTrip(c: Rgb)
    requires IsByteColor(c)
    ensures HexToRgb(FormatHex(c)) == Some(c)
  {
    var s := FormatHex(c);
    assert IsHexColor(s);
    var ds := s[1..];
    HexDigitCharValue(c.r / 16);
    HexDigitCharValue(c.r % 16);
    HexDigitCharValue(c.g / 16);
    HexDigitCharValue(c.g % 16);
    HexDigitCharValue(c.b / 16);
    HexDigitCharValue(c.b % 16);
    assert ByteOf(ds[0], ds[1]) == c.r;
    assert ByteOf(ds[2], ds[3]) == c.g;
    assert ByteOf(ds[4], ds[5]) == c.b;
  }

  /** One component of `rgb100ToHex`: `Math.floor(p / 100 * 255)` printed in
      base 16, padded to two digits when it has one; NaN prints as `NaN`. */
  function Rgb100Component(percent: Option<int>): string {
    match percent
    case None => "NaN"
    case Some(p) =>
      var h := NumberToHex(p * 255 / 100);
      if |h| == 1 then "0" + h else h
  }

  function Rgb100Components(colors: seq<string>): string
    decreases |colors|
  {
    if |colors| == 0 then "" else Rgb100Component(ParseInt(colors[0])) + Rgb100Components(colors[1..])
  }

  /** `rgb100ToHex(colors)`: `#` followed by one component per entry, every
      entry read as a percentage. */
  function Rgb100ToHex(colors: seq<string>): (s: string)
    ensures StartsWith(s, "#")
  {
    "#" + Rgb100Components(colors)
  }

  /** A byte prints as its two lower-case hex digits. */
  lemma ByteComponent(n: int)
    requires IsByte(n)
    ensures (var h := NumberToHex(n); if |h| == 1 then "0" + h else h) == Byte2(n)
  {
    if n >= 16 {
      var init := HexDigits(n / 16);
      assert init == [HexDigitChar(n / 16)];
    }
  }

  /** A percentage in 0..100 scales to a byte. */
  lemma PercentIsByte(p: int)
    requires 0 <= p <= 100
    ensures IsByte(p * 255 / 100)
  {
  }

  /** A whole percentage written in decimal becomes the two hex digits of
      `floor(p * 255 / 100)`. */
  lemma ComponentOfPercent(p: nat)
    requires p <= 100
    ensures IsByte(p * 255 / 100)
    ensures Rgb100Component(ParseInt(DecimalString(p))) == Byte2(p * 255 / 100)
  {
    PercentIsByte(p);
    ParseIntDecimal(p);
    ByteComponent(p * 255 / 100);
  }

  lemma ComponentsCons(x: string, rest: seq<string>)
    ensures Rgb100Components([x] + rest) == Rgb100Component(ParseInt(x)) + Rgb100Components(rest)
  {
    assert ([x] + rest)[1..] == rest;
  }

  lemma Components3(x: string, y: string, z: string)
    ensures Rgb100Components([x, y, z])
      == Rgb100Component(ParseInt(x)) + Rgb100Component(ParseInt(y)) + Rgb100Component(ParseInt(z))
  {
    var cx := Rgb100Component(ParseInt(x));
    var cy := Rgb100Component(ParseInt(y));
    var cz := Rgb100Component(ParseInt(z));
    assert [x, y, z][1..] == [y, z];
    assert [y, z][1..] == [z];
    assert [z][1..] == [];
    assert Rgb100Components([z]) == cz;
    assert Rgb100Components([y, z]) == cy + cz;
  }

  /** For whole percentages 0..100, `rgb100ToHex` gives `#` and two lower-case
      hex digits per channel of `floor(p * 255 / 100)`, and `hexToRgb` reads
      exactly those bytes back. */
  lemma {:induction false} Rgb100RoundTrip(pr: nat, pg: nat, pb: nat)
    requires pr <= 100 && pg <= 100 && pb <= 100
    ensures var c := Rgb(pr * 255 / 100, pg * 255 / 100, pb * 255 / 100);
      && IsByteColor(c)
      && Rgb100ToHex([DecimalString(pr), DecimalString(pg), DecimalString(pb)]) == FormatHex(c)
      && HexToRgb(Rgb100ToHex([DecimalString(pr), DecimalString(pg), DecimalString(pb)])) == Some(c)
  {
    ComponentOfPercent(pr);
    ComponentOfPercent(pg);
    ComponentOfPercent(pb);
    HexOfComponents(DecimalString(pr), DecimalString(pg), DecimalString(pb),
      Rgb(pr * 255 / 100, pg * 255 / 100, pb * 255 / 100));
  }

  lemma HexOfComponents(x: string, y: string, z: string, c: Rgb)
    requires IsByteColor(c)
    requires Rgb100Component(ParseInt(x)) == Byte2(c.r)
    requires Rgb100Component(ParseInt(y)) == Byte2(c.g)
    requires Rgb100Component(ParseInt(z)) == Byte2(c.b)
    ensures Rgb100ToHex([x, y, z]) == FormatHex(c)
    ensures HexToRgb(Rgb100ToHex([x, y, z])) == Some(c)
  {
    Components3(x, y, z);
    Grouped("#", Byte2(c.r), Byte2(c.g), Byte2(c.b));
    HexRoundTrip(c);
  }

  lemma Grouped(p: string, a: string, b: string, c: string)
    ensures p + a + b + c == p + (a + b + c)
  {
  }

  function Abs(x: int): nat {
    if x < 0 then -x else x
  }

  /** `getMagnitudeColorDelta`: the Manhattan distance between two colours;
      zero exactly when they are equal. */
  function GetMagnitudeColorDelta(color1: Rgb, color2: Rgb): (d: nat)
    ensures d == 0 <==> color1 == color2
  {
    Abs(color1.r - color2.r) + Abs(color1.g - color2.g) + Abs(color1.b - color2.b)
  }

  /** The distance does not depend on the order of its arguments. */
  lemma MagnitudeSymmetric(color1: Rgb, color2: Rgb)
    ensures GetMagnitudeColorDelta(color1, color2) == GetMagnitudeColorDelta(color2, color1)
  {
  }

  /** The distance is a metric: it obeys the triangle inequality. */
  lemma MagnitudeTriangle(a: Rgb, b: Rgb, c: Rgb)
    ensures GetMagnitudeColorDelta(a, c) <= GetMagnitudeColorDelta(a, b) + GetMagnitudeColorDelta(b, c)
  {
  }

  function Add(c: Rgb, d: Rgb): Rgb {
    Rgb(c.r + d.r, c.g + d.g, c.b + d.b)
  }

  function Negate(c: Rgb): Rgb {
    Rgb(-c.r, -c.g, -c.b)
  }

  /** The sum of the absolute channels. */
  function Norm1(c: Rgb): nat {
    Abs(c.r) + Abs(c.g) + Abs(c.b)
  }

  /** `getColorDelta` of src/utils.ts: the signed per-channel difference
      `color1 - color2`, the offset that carries `color2` onto `color1`. */
  function GetColorDelta(color1: Rgb, color2: Rgb): (d: Rgb)
    ensures Add(color2, d) == color1
  {
    Rgb(color1.r - color2.r, color1.g - color2.g, color1.b - color2.b)
  }

  /** Swapping the arguments negates the delta, and the delta's absolute
      channels add up to the Manhattan distance. */
  lemma ColorDeltaProperties(color1: Rgb, color2: Rgb)
    ensures GetColorDelta(color2, color1) == Negate(GetColorDelta(color1, color2))
    ensures Norm1(GetColorDelta(color1, color2)) == GetMagnitudeColorDelta(color1, color2)
  {
  }

  /** An RGB-keyed colour map as `transformColorMap` builds it: one entry per
      hex alias in table order (keys are fresh objects, so equal colours do not
      merge). */
  type ColorTable = seq<(Rgb, string)>

  /** A JavaScript number that is a whole Manhattan distance or `+Infinity`,
      the start value of the nearest-colour search. */
  datatype Distance = Infinite | Finite(n: nat)

  /** `d < bound` in JavaScript. */
  predicate Below(d: nat, bound: Distance) {
    bound.Infinite? || d < bound.n
  }

  /** What `findClosestColorVar` returns. */
  datatype Closest = Closest(variable: string, foundColor: Rgb, delta: Distance)

  function DistanceTo(target: Rgb, table: ColorTable, i: nat): nat
    requires i < |table|
  {
    GetMagnitudeColorDelta(target, table[i].0)
  }

  /** Entry `k` is the first of the entries `0..n` at the least distance from
      `target`. */
  predicate EarliestNearest(target: Rgb, table: ColorTable, n: nat, k: nat) {
    && k < n <= |table|
    && (forall j :: 0 <= j < n ==> DistanceTo(target, table, k) <= DistanceTo(target, table, j))
    && (forall j :: 0 <= j < k ==> DistanceTo(target, table, j) > DistanceTo(target, table, k))
  }

  function ClosestAt(target: Rgb, table: ColorTable, k: nat): Closest
    requires k < |table|
  {
    Closest(table[k].1, table[k].0, Finite(DistanceTo(target, table, k)))
  }

  /** The search state after looking at the first `i` entries. */
  ghost predicate SearchState(target: Rgb, table: ColorTable, i: nat, best: Closest) {
    && i <= |table|
    && (i == 0 ==> best == Closest("", target, Infinite))
    && (i > 0 ==> exists k :: EarliestNearest(target, table, i, k) && best == ClosestAt(target, table, k))
  }

  /** One iteration of the search keeps its state: a strictly nearer entry
      replaces the best one, a tie does not. */
  lemma SearchStep(target: Rgb, table: ColorTable, i: nat, best: Closest)
    requires i < |table| && SearchState(target, table, i, best)
    ensures SearchState(target, table, i + 1,
      if Below(DistanceTo(target, table, i), best.delta) then ClosestAt(target, table, i) else best)
  {
    var d := DistanceTo(target, table, i);
    if i == 0 {
      assert EarliestNearest(target, table, 1, 0);
    } else {
      var k :| EarliestNearest(target, table, i, k) && best == ClosestAt(target, table, k);
      if Below(d, best.delta) {
        assert EarliestNearest(target, table, i + 1, i);
      } else {
        assert EarliestNearest(target, table, i + 1, k);
      }
    }
  }

  /** The loop of `findClosestColorVar` from entry `i` on. */
  function SearchFrom(target: Rgb, table: ColorTable, i: nat, best: Closest): (r: Closest)
    requires SearchState(target, table, i, best)
    ensures SearchState(target, table, |table|, r)
    decreases |table| - i
  {
    if i == |table| then best
    else
      var next := if Below(DistanceTo(target, table, i), best.delta) then ClosestAt(target, table, i) else best;
      SearchStep(target, table, i, best);
      SearchFrom(target, table, i + 1, next)
  }

  /** `findClosestColorVar(target, table)`: on an empty table, variable `''`,
      the target itself and distance `+Infinity`; otherwise the entry at the
      least Manhattan distance, the earliest one on a tie (the loop compares
      with a strict `<`), with that distance. */
  function FindClosestColorVar(target: Rgb, table: ColorTable): (r: Closest)
    ensures |table| == 0 ==> r == Closest("", target, Infinite)
    ensures |table| > 0 ==> exists k :: EarliestNearest(target, table, |table|, k) && r == ClosestAt(target, table, k)
  {
    SearchFrom(target, table, 0, Closest("", target, Infinite))
  }

  /** The number of occurrences of `t` in `s` at index `i` or later. */
  function CountFrom(s: string, t: string, i: nat): nat
    decreases |s| - i
  {
    if i >= |s| then 0 else (if OccursAt(s, t, i) then 1 else 0) + CountFrom(s, t, i + 1)
  }

  function Count(s: string, t: string): nat {
    CountFrom(s, t, 0)
  }

  lemma {:induction false} CountFromZero(s: string, t: string, i: nat)
    requires |t| > 0
    ensures CountFrom(s, t, i) == 0 <==> forall j :: i <= j ==> !OccursAt(s, t, j)
    decreases |s| - i
  {
    if i < |s| {
      CountFromZero(s, t, i + 1);
    }
  }

  lemma {:induction false} CountFromOne(s: string, t: string, i: nat, p: nat)
    requires |t| > 0 && i <= p && OccursAt(s, t, p)
    ensures CountFrom(s, t, i) == 1 <==> forall j :: i <= j && j != p ==> !OccursAt(s, t, j)
    decreases |s| - i
  {
    if i < p {
      CountFromOne(s, t, i + 1, p);
      CountFromZero(s, t, i + 1);
    } else {
      CountFromZero(s, t, i + 1);
    }
  }

  /** A marker that occurs exactly once, at `p`. */
  ghost predicate OnlyAt(s: string, t: string, p: int) {
    OccursAt(s, t, p) && forall j :: j != p ==> !OccursAt(s, t, j)
  }

  ghost predicate Absent(s: string, t: string) {
    forall j :: !OccursAt(s, t, j)
  }

  lemma CountOne(s: string, t: string)
    requires |t| > 0 && Count(s, t) == 1
    ensures exists p :: OnlyAt(s, t, p)
  {
    CountFromZero(s, t, 0);
    var p :| 0 <= p && OccursAt(s, t, p);
    CountFromOne(s, t, 0, p);
    assert OnlyAt(s, t, p);
  }

  lemma CountOfOnly(s: string, t: string, p: nat)
    requires |t| > 0 && OnlyAt(s, t, p)
    ensures Count(s, t) == 1
  {
    CountFromOne(s, t, 0, p);
  }

  lemma CountOfAbsent(s: string, t: string)
    requires |t| > 0
    ensures Count(s, t) == 0 <==> Absent(s, t)
  {
    CountFromZero(s, t, 0);
  }

  /** No two characters of `a` and `b` are equal. */
  predicate NoCommonChar(a: string, b: string) {
    forall x, y :: 0 <= x < |a| && 0 <= y < |b| ==> a[x] != b[y]
  }

  /** `t` has no proper prefix that is also a suffix, so two occurrences of
      it never overlap. */
  predicate Unbordered(t: string) {
    forall d :: 0 < d < |t| ==> t[d..] != t[..|t| - d]
  }

  /** Two overlapping occurrences of `b` make a proper prefix of `b` equal
      to a suffix of it. */
  lemma OverlapBorder(s: string, b: string, i: int, k: int)
    requires i < k < i + |b| && OccursAt(s, b, i) && OccursAt(s, b, k)
    ensures b[k - i..] == b[..|b| - (k - i)]
  {
    var d := k - i;
    forall x | 0 <= x < |b| - d ensures b[d..][x] == b[..|b| - d][x] {
      assert s[i..i + |b|][d + x] == s[k + x];
      assert s[k..k + |b|][x] == s[k + x];
    }
  }

  /** An unbordered string cannot occur twice at overlapping positions. */
  lemma NoSelfOverlap(s: string, b: string, i: int, k: int)
    requires Unbordered(b) && i < k < i + |b|
    ensures !(OccursAt(s, b, i) && OccursAt(s, b, k))
  {
    if OccursAt(s, b, i) && OccursAt(s, b, k) {
      OverlapBorder(s, b, i, k);
    }
  }

  /** Replacing the only occurrence of marker `a` by marker `b` leaves `b` as
      the only marker, provided `b` did not occur, the two share no character
      and `b` cannot overlap itself. */
  lemma SwapMarker(s: string, a: string, b: string, p: nat)
    requires |a| > 0 && |b| > 0 && NoCommonChar(a, b) && Unbordered(b)
    requires OnlyAt(s, a, p) && Absent(s, b)
    ensures OnlyAt(s[..p] + b + s[p + |a|..], b, p) && Absent(s[..p] + b + s[p + |a|..], a)
  {
    var s1 := s[..p] + b + s[p + |a|..];
    assert |s1| == |s| - |a| + |b|;
    assert OccursAt(s1, b, p) by { assert s1[p..p + |b|] == b; }
    forall j | 0 <= j && j != p && j + |b| <= |s1| ensures !OccursAt(s1, b, j) {
      if j + |b| <= p {
        assert s1[j..j + |b|] == s[j..j + |b|];
        assert !OccursAt(s, b, j);
      } else if j >= p + |b| {
        var j0 := j - |b| + |a|;
        assert s1[j..j + |b|] == s[j0..j0 + |b|];
        assert !OccursAt(s, b, j0);
      } else if j < p {
        NoSelfOverlap(s1, b, j, p);
      } else {
        NoSelfOverlap(s1, b, p, j);
      }
    }
    forall j | 0 <= j && j + |a| <= |s1| ensures !OccursAt(s1, a, j) {
      if j + |a| <= p {
        assert s1[j..j + |a|] == s[j..j + |a|];
        assert !OccursAt(s, a, j);
      } else if j >= p + |b| {
        var j0 := j - |b| + |a|;
        assert s1[j..j + |a|] == s[j0..j0 + |a|];
        assert !OccursAt(s, a, j0);
      } else {
        var x := if j < p then p else j;
        assert s1[j..j + |a|][x - j] == s1[x];
        assert s1[x] == b[x - p];
        assert a[x - j] != b[x - p];
      }
    }
  }

  /** `invertColorName(color)`: when `light` occurs, its first occurrence
      becomes `dark`; otherwise the first `dark` becomes `light`; a name with
      neither marker is returned unchanged. */
  function InvertColorName(color: string): (r: string)
    ensures Contains(color, "light") ==>
      exists p :: OccursAt(color, "light", p) && !Contains(color[..p + 4], "light")
        && r == color[..p] + "dark" + color[p + 5..]
    ensures !Contains(color, "light") && Contains(color, "dark") ==>
      exists p :: OccursAt(color, "dark", p) && !Contains(color[..p + 3], "dark")
        && r == color[..p] + "light" + color[p + 4..]
    ensures !Contains(color, "light") && !Contains(color, "dark") ==> r == color
  {
    if Contains(color, "light") then
      FirstOccurrence(color, "light", IndexOf(color, "light", 0).value);
      Replace(color, "light", "dark")
    else if Contains(color, "dark") then
      FirstOccurrence(color, "dark", IndexOf(color, "dark", 0).value);
      Replace(color, "dark", "light")
    else color
  }

  /** The first occurrence of `t` is the only one that ends by its own end. */
  lemma FirstOccurrence(s: string, t: string, p: nat)
    requires |t| > 0 && IndexOf(s, t, 0) == Some(p)
    ensures !Contains(s[..p + |t| - 1], t)
  {
    var prefix := s[..p + |t| - 1];
    forall j | 0 <= j && j + |t| <= |prefix| ensures !OccursAt(prefix, t, j) {
      assert prefix[j..j + |t|] == s[j..j + |t|];
      assert !OccursAt(s, t, j);
    }
  }

  /** A name whose only marker is one `light` at `p` turns it into `dark`. */
  lemma InvertLight(s: string, p: nat)
    requires OnlyAt(s, "light", p) && Absent(s, "dark")
    ensures InvertColorName(s) == s[..p] + "dark" + s[p + 5..]
  {
    assert IndexOf(s, "light", 0) == Some(p);
  }

  /** A name whose only marker is one `dark` at `p` turns it into `light`. */
  lemma InvertDark(s: string, p: nat)
    requires OnlyAt(s, "dark", p) && Absent(s, "light")
    ensures InvertColorName(s) == s[..p] + "light" + s[p + 4..]
  {
    assert IndexOf(s, "dark", 0) == Some(p);
  }

  /** A name carrying exactly one theme-polarity marker. */
  predicate SingleMarker(s: string) {
    || (Count(s, "light") == 1 && Count(s, "dark") == 0)
    || (Count(s, "light") == 0 && Count(s, "dark") == 1)
  }

  lemma MarkerFacts()
    ensures NoCommonChar("light", "dark") && NoCommonChar("dark", "light")
    ensures Unbordered("light") && Unbordered("dark")
  {
    forall d | 0 < d < 5 ensures "light"[d..] != "light"[..5 - d] {
      assert "light"[d..][0] != "light"[..5 - d][0];
    }
    forall d | 0 < d < 4 ensures "dark"[d..] != "dark"[..4 - d] {
      assert "dark"[d..][0] != "dark"[..4 - d][0];
    }
  }

  lemma {:induction false} InvolutionLight(s: string)
    requires Count(s, "light") == 1 && Count(s, "dark") == 0
    ensures SingleMarker(InvertColorName(s))
    ensures InvertColorName(InvertColorName(s)) == s
  {
    var p := LightStep(s);
    var s1 := s[..p] + "dark" + s[p + 5..];
    DarkBack(s, s1, p);
  }

  lemma LightStep(s: string) returns (p: nat)
    requires Count(s, "light") == 1 && Count(s, "dark") == 0
    ensures p + 5 <= |s| && s[p..p + 5] == "light"
    ensures OnlyAt(s[..p] + "dark" + s[p + 5..], "dark", p) && Absent(s[..p] + "dark" + s[p + 5..], "light")
    ensures InvertColorName(s) == s[..p] + "dark" + s[p + 5..]
  {
    MarkerFacts();
    CountOfAbsent(s, "dark");
    CountOne(s, "light");
    p :| OnlyAt(s, "light", p);
    SwapMarker(s, "light", "dark", p);
    InvertLight(s, p);
  }

  lemma DarkBack(s: string, s1: string, p: nat)
    requires p + 5 <= |s| && s[p..p + 5] == "light"
    requires s1 == s[..p] + "dark" + s[p + 5..]
    requires OnlyAt(s1, "dark", p) && Absent(s1, "light")
    ensures Count(s1, "light") == 0 && Count(s1, "dark") == 1
    ensures InvertColorName(s1) == s
  {
    CountOfOnly(s1, "dark", p);
    CountOfAbsent(s1, "light");
    InvertDark(s1, p);
    assert s1[..p] + "light" + s1[p + 4..] == s;
  }

  lemma {:induction false} InvolutionDark(s: string)
    requires Count(s, "light") == 0 && Count(s, "dark") == 1
    ensures SingleMarker(InvertColorName(s))
    ensures InvertColorName(InvertColorName(s)) == s
  {
    var p := DarkStep(s);
    var s1 := s[..p] + "light" + s[p + 4..];
    LightBack(s, s1, p);
  }

  lemma DarkStep(s: string) returns (p: nat)
    requires Count(s, "light") == 0 && Count(s, "dark") == 1
    ensures p + 4 <= |s| && s[p..p + 4] == "dark"
    ensures OnlyAt(s[..p] + "light" + s[p + 4..], "light", p) && Absent(s[..p] + "light" + s[p + 4..], "dark")
    ensures InvertColorName(s) == s[..p] + "light" + s[p + 4..]
  {
    MarkerFacts();
    CountOfAbsent(s, "light");
    CountOne(s, "dark");
    p :| OnlyAt(s, "dark", p);
    SwapMarker(s, "dark", "light", p);
    InvertDark(s, p);
  }

  lemma LightBack(s: string, s1: string, p: nat)
    requires p + 4 <= |s| && s[p..p + 4] == "dark"
    requires s1 == s[..p] + "light" + s[p + 4..]
    requires OnlyAt(s1, "light", p) && Absent(s1, "dark")
    ensures Count(s1, "light") == 1 && Count(s1, "dark") == 0
    ensures InvertColorName(s1) == s
  {
    CountOfOnly(s1, "light", p);
    CountOfAbsent(s1, "dark");
    InvertLight(s1, p);
    assert s1[..p] + "dark" + s1[p + 5..] == s;
  }

  /** Inverting twice gives back a name with exactly one marker (every theme
      variable of the colour tables is such a name), and the inverted name has
      exactly one marker too. */
  lemma InvertInvolution(s: string)
    requires SingleMarker(s)
    ensures SingleMarker(InvertColorName(s))
    ensures InvertColorName(InvertColorName(s)) == s
  {
    if Count(s, "light") == 1 {
      InvolutionLight(s);
    } else {
      InvolutionDark(s);
    }
  }
}
