/** The three regular expressions the rewriter uses on attribute text,
    written out as scanners:
    - `(fill|stroke)=(?:"|').*?(?:"|')`, a quoted attribute: an opening
      quote of either kind, then the shortest run up to a quote of either
      kind, where `.` matches no line terminator;
    - `/.*=|"|'/g` with `replaceAll(…, '')`, which leaves the value;
    - `/rgb\(|\)| |%/g` with `replaceAll(…, '')`, which leaves the numbers of
      an `rgb(…)` paint. */
module Attributes {
  import opened Optional
  import opened JsString

  /** The characters `.` does not match (section 22.2.2.8 of ECMAScript
      2023, LineTerminator). */
  predicate IsLineTerminator(c: char) {
    c == '\n' || c == '\r' || c == '\U{2028}' || c == '\U{2029}'
  }

  predicate IsQuote(c: char) {
    c == '"' || c == '\''
  }

  /** A run the lazy `.*?` can cross: no quote, no line terminator. */
  predicate Plain(s: string) {
    forall j :: 0 <= j < |s| ==> !IsQuote(s[j]) && !IsLineTerminator(s[j])
  }

  /** The index of the closing quote that `.*?(?:"|')` stops at, at the start
      of `s`; `None` when a line terminator or the end comes first. */
  function CloseQuote(s: string): (r: Option<nat>)
    ensures r.Some? ==> r.value < |s| && IsQuote(s[r.value]) && Plain(s[..r.value])
    ensures r.None? ==> forall k :: 0 <= k < |s| && IsQuote(s[k]) ==> !Plain(s[..k])
  {
    if |s| == 0 then None
    else if IsQuote(s[0]) then Some(0)
    else if IsLineTerminator(s[0]) then None
    else match CloseQuote(s[1..])
      case Some(k) =>
        assert s[..k + 1] == [s[0]] + s[1..][..k];
        Some(k + 1)
      case None =>
        forall k | 0 <= k < |s| && IsQuote(s[k]) ensures !Plain(s[..k]) {
          assert k > 0 && s[1..][k - 1] == s[k];
          assert !Plain(s[1..][..k - 1]);
          assert s[..k] == [s[0]] + s[1..][..k - 1];
        }
        None
  }

  /** The length of the match of `name=(?:"|').*?(?:"|')` at the start of
      `s`, if there is one: the name, `=`, a quote, a plain run and a quote. */
  function AttrLen(s: string, name: string): (r: Option<nat>)
    ensures r.Some? ==>
      && |name| + 3 <= r.value <= |s| && StartsWith(s, name + "=")
      && IsQuote(s[|name| + 1]) && IsQuote(s[r.value - 1])
      && Plain(s[|name| + 2..r.value - 1])
  {
    if StartsWith(s, name + "=") && |s| > |name| + 1 && IsQuote(s[|name| + 1]) then
      var rest := s[|name| + 2..];
      match CloseQuote(rest)
      case Some(k) =>
        assert rest[..k] == s[|name| + 2..|name| + 2 + k];
        Some(|name| + 3 + k)
      case None => None
    else None
  }

  /** A match exists exactly when `name=` and a quote start the text and a
      closing quote follows with nothing but a plain run in between. */
  lemma AttrLenExists(s: string, name: string)
    ensures AttrLen(s, name).Some? <==>
      && StartsWith(s, name + "=") && |s| > |name| + 1 && IsQuote(s[|name| + 1])
      && exists k :: |name| + 2 <= k < |s| && IsQuote(s[k]) && Plain(s[|name| + 2..k])
  {
    if StartsWith(s, name + "=") && |s| > |name| + 1 && IsQuote(s[|name| + 1]) {
      var rest := s[|name| + 2..];
      if CloseQuote(rest).None? {
        forall k | |name| + 2 <= k < |s| && IsQuote(s[k]) ensures !Plain(s[|name| + 2..k]) {
          assert rest[k - (|name| + 2)] == s[k];
          assert rest[..k - (|name| + 2)] == s[|name| + 2..k];
        }
      } else {
        var k := CloseQuote(rest).value;
        assert rest[..k] == s[|name| + 2..|name| + 2 + k];
      }
    }
  }

  /** `s.match(name=(?:"|').*?(?:"|'))`: the leftmost match at or after
      `from`, as its start and length. */
  function FirstAttr(s: string, name: string, from: nat): (r: Option<(nat, nat)>)
    ensures r.Some? ==> from <= r.value.0 <= |s| && AttrLen(s[r.value.0..], name) == Some(r.value.1)
    ensures r.Some? ==> forall i :: from <= i < r.value.0 ==> AttrLen(s[i..], name).None?
    ensures r.None? ==> forall i :: from <= i <= |s| ==> AttrLen(s[i..], name).None?
    decreases |s| - from
  {
    if from > |s| then None
    else match AttrLen(s[from..], name)
      case Some(n) => Some((from, n))
      case None =>
        var r := FirstAttr(s, name, from + 1);
        assert r.Some? ==> forall i :: from <= i < r.value.0 ==> AttrLen(s[i..], name).None? by {
          if r.Some? {
            assert forall i :: from < i < r.value.0 ==> AttrLen(s[i..], name).None?;
          }
        }
        r
  }

  /** The matched text, `tagStyle[0]`. */
  function MatchedAttr(s: string, name: string): (m: Option<string>)
    ensures m.Some? ==> exists i :: (0 <= i <= |s| && AttrLen(s[i..], name) == Some(|m.value|)
      && m.value == s[i..i + |m.value|])
    ensures m.None? ==> forall i :: 0 <= i <= |s| ==> AttrLen(s[i..], name).None?
  {
    match FirstAttr(s, name, 0)
    case Some((i, n)) => Some(s[i..i + n])
    case None => None
  }

  /** No match can start where the name's first letter is not: the search
      passes over such a stretch. */
  lemma {:induction false} FirstAttrSkip(s: string, name: string, x: nat, y: nat)
    requires |name| > 0 && x <= y <= |s|
    requires forall j :: x <= j < y ==> s[j] != name[0]
    ensures FirstAttr(s, name, x) == FirstAttr(s, name, y)
    decreases y - x
  {
    if x < y {
      assert s[x..][0] != (name + "=")[0];
      FirstAttrSkip(s, name, x + 1, y);
    }
  }

  /** Text without the name's first letter has no match. */
  lemma NoAttr(s: string, name: string)
    requires |name| > 0 && forall j :: 0 <= j < |s| ==> s[j] != name[0]
    ensures MatchedAttr(s, name).None?
  {
    FirstAttrSkip(s, name, 0, |s|);
    assert AttrLen(s[|s|..], name).None?;
  }

  /** Every character of `s` that is not a quote, in order. */
  function RemoveQuotes(s: string): (r: string)
    ensures forall j :: 0 <= j < |r| ==> !IsQuote(r[j])
    ensures (forall j :: 0 <= j < |s| ==> !IsQuote(s[j])) ==> r == s
  {
    if |s| == 0 then ""
    else if IsQuote(s[0]) then RemoveQuotes(s[1..])
    else [s[0]] + RemoveQuotes(s[1..])
  }

  /** The length of the leading part of `s` without a line terminator. */
  function LineLen(s: string): (n: nat)
    ensures n <= |s| && (n < |s| ==> IsLineTerminator(s[n]))
    ensures forall j :: 0 <= j < n ==> !IsLineTerminator(s[j])
  {
    if |s| == 0 || IsLineTerminator(s[0]) then 0 else 1 + LineLen(s[1..])
  }

  /** The index of the last `=` in `s`. */
  function LastEq(s: string): (r: Option<nat>)
    ensures r.Some? ==> r.value < |s| && s[r.value] == '=' && '=' !in s[r.value + 1..]
    ensures r.None? <==> '=' !in s
    decreases |s|
  {
    if |s| == 0 then None
    else if s[|s| - 1] == '=' then Some(|s| - 1)
    else
      var r := LastEq(s[..|s| - 1]);
      assert r.None? ==> forall j :: 0 <= j < |s| - 1 ==> s[j] == s[..|s| - 1][j];
      assert r.Some? ==> s[r.value + 1..] == s[..|s| - 1][r.value + 1..] + [s[|s| - 1]];
      r
  }

  /** `m.replaceAll(/.*=|"|'/g, '')`: from the left, either the greedy
      `.*=` (everything up to the last `=` of the line) or a single quote
      is deleted, and any other character is kept. */
  function PropertyStrip(m: string): string
    decreases |m|
  {
    if |m| == 0 then ""
    else match LastEq(m[..LineLen(m)])
      case Some(k) => PropertyStrip(m[k + 1..])
      case None => if IsQuote(m[0]) then PropertyStrip(m[1..]) else [m[0]] + PropertyStrip(m[1..])
  }

  /** Without any `=` left, only the quotes go. */
  lemma {:induction false} StripWithoutEq(m: string)
    requires '=' !in m
    ensures PropertyStrip(m) == RemoveQuotes(m)
    decreases |m|
  {
    if |m| > 0 {
      assert '=' !in m[..LineLen(m)];
      StripWithoutEq(m[1..]);
    }
  }

  /** What follows the last `=` of `s`, or all of `s` when it has none. */
  function AfterLastEq(s: string): (r: string)
    ensures '=' !in r
  {
    match LastEq(s)
    case Some(k) => s[k + 1..]
    case None => s
  }

  /** The names the rewriter matches: no `=`, quote or line terminator. */
  predicate PlainName(name: string) {
    '=' !in name && forall j :: 0 <= j < |name| ==> !IsQuote(name[j]) && !IsLineTerminator(name[j])
  }

  /** The value `replaceAll(propertyNameRegex, '')` leaves of a matched
      attribute is the text between its quotes after the last `=` in it, so
      it holds no `=` and no quote. */
  lemma MatchValue(m: string, name: string)
    requires PlainName(name) && AttrLen(m, name) == Some(|m|)
    ensures PropertyStrip(m) == AfterLastEq(m[|name| + 2..|m| - 1])
  {
    var body := m[|name| + 2..|m| - 1];
    MatchShape(m, name);
    ValueOfParts(name, m[|name| + 1], body, m[|m| - 1]);
  }

  /** A match is the name, `=`, a quote, a plain run and a quote. */
  lemma MatchShape(m: string, name: string)
    requires AttrLen(m, name) == Some(|m|)
    ensures m == name + "=" + [m[|name| + 1]] + m[|name| + 2..|m| - 1] + [m[|m| - 1]]
    ensures IsQuote(m[|name| + 1]) && IsQuote(m[|m| - 1]) && Plain(m[|name| + 2..|m| - 1])
  {
    assert m[..|name| + 1] == name + "=";
  }

  lemma ValueOfParts(name: string, q: char, body: string, q2: char)
    requires PlainName(name) && IsQuote(q) && IsQuote(q2) && Plain(body)
    ensures PropertyStrip(name + "=" + [q] + body + [q2]) == AfterLastEq(body)
  {
    NoTerminator(name, q, body, q2);
    if LastEq(body).Some? {
      ValueAfterEq(name, q, body, q2, LastEq(body).value);
    } else {
      ValueWithoutEq(name, q, body, q2);
    }
  }

  lemma ValueAfterEq(name: string, q: char, body: string, q2: char, k: nat)
    requires PlainName(name) && IsQuote(q) && IsQuote(q2) && Plain(body)
    requires LastEq(body) == Some(k)
    requires LineLen(name + "=" + [q] + body + [q2]) == |name + "=" + [q] + body + [q2]|
    ensures PropertyStrip(name + "=" + [q] + body + [q2]) == body[k + 1..]
  {
    var m := name + "=" + [q] + body + [q2];
    var e := |name| + 2 + k;
    assert m[e] == '=' && m[e + 1..] == body[k + 1..] + [q2] by {
      assert m == (name + "=" + [q]) + body + [q2];
    }
    StripAt(m, e);
    QuoteFree(body[k + 1..], q2);
  }

  lemma ValueWithoutEq(name: string, q: char, body: string, q2: char)
    requires PlainName(name) && IsQuote(q) && IsQuote(q2) && Plain(body)
    requires '=' !in body
    requires LineLen(name + "=" + [q] + body + [q2]) == |name + "=" + [q] + body + [q2]|
    ensures PropertyStrip(name + "=" + [q] + body + [q2]) == body
  {
    EqThenQuoted(name, q, body, q2);
    StripAt(name + "=" + [q] + body + [q2], |name|);
    Unquote(q, body, q2);
  }

  /** The `=` after the name is followed by the quoted body. */
  lemma EqThenQuoted(name: string, q: char, body: string, q2: char)
    requires '=' !in body && IsQuote(q) && IsQuote(q2)
    ensures var m := name + "=" + [q] + body + [q2];
      && m[|name|] == '=' && m[|name| + 1..] == [q] + (body + [q2])
      && '=' !in m[|name| + 1..]
  {
    var m := name + "=" + [q] + body + [q2];
    var after := [q] + (body + [q2]);
    assert m == name + "=" + after;
    assert forall j :: 0 < j < |after| - 1 ==> after[j] == body[j - 1];
  }

  lemma Unquote(q: char, body: string, q2: char)
    requires IsQuote(q) && IsQuote(q2) && Plain(body)
    ensures RemoveQuotes([q] + (body + [q2])) == body
  {
    DropQuote(q, body + [q2]);
    QuoteFree(body, q2);
  }

  /** On one line, everything up to the last `=` goes and then the quotes. */
  lemma StripAt(m: string, e: nat)
    requires LineLen(m) == |m| && e < |m| && m[e] == '=' && '=' !in m[e + 1..]
    ensures PropertyStrip(m) == RemoveQuotes(m[e + 1..])
  {
    LastEqOf(m, e);
    StripToEq(m, e);
    StripWithoutEq(m[e + 1..]);
  }

  /** On one line, the greedy `.*=` deletes up to the last `=`. */
  lemma StripToEq(m: string, e: nat)
    requires LineLen(m) == |m| && LastEq(m) == Some(e)
    ensures PropertyStrip(m) == PropertyStrip(m[e + 1..])
  {
    assert |m| > 0;
    assert LastEq(m[..LineLen(m)]) == Some(e) by {
      assert m[..LineLen(m)] == m;
    }
  }

  lemma DropQuote(q: char, t: string)
    requires IsQuote(q)
    ensures RemoveQuotes([q] + t) == RemoveQuotes(t)
  {
    assert ([q] + t)[1..] == t;
  }

  lemma NoTerminator(name: string, q: char, body: string, q2: char)
    requires PlainName(name) && IsQuote(q) && IsQuote(q2) && Plain(body)
    ensures LineLen(name + "=" + [q] + body + [q2]) == |name + "=" + [q] + body + [q2]|
  {
    var m := name + "=" + [q] + body + [q2];
    forall j | 0 <= j < |m| ensures !IsLineTerminator(m[j]) {
      if j < |name| { assert m[j] == name[j]; }
      else if |name| + 2 <= j < |m| - 1 { assert m[j] == body[j - |name| - 2]; }
    }
    LineLenAll(m);
  }

  lemma LineLenAll(m: string)
    requires forall j :: 0 <= j < |m| ==> !IsLineTerminator(m[j])
    ensures LineLen(m) == |m|
  {
  }

  lemma LastEqOf(m: string, e: nat)
    requires e < |m| && m[e] == '=' && '=' !in m[e + 1..]
    ensures LastEq(m) == Some(e)
  {
  }

  lemma NoEqSuffix(tail: string, q: char)
    requires '=' !in tail && IsQuote(q)
    ensures '=' !in tail + [q]
  {
  }

  /** Dropping the quotes of a plain run followed by its closing quote leaves
      the run. */
  lemma {:induction false} QuoteFree(run: string, q: char)
    requires forall j :: 0 <= j < |run| ==> !IsQuote(run[j])
    requires IsQuote(q)
    ensures RemoveQuotes(run + [q]) == run
    decreases |run|
  {
    if |run| > 0 {
      assert (run + [q])[1..] == run[1..] + [q];
      QuoteFree(run[1..], q);
    } else {
      assert run + [q] == [q];
    }
  }

  /** `c.replaceAll(/rgb\(|\)| |%/g, '')`: `rgb(`, `)`, spaces and `%`
      removed, scanning from the left. */
  function RgbStrip(s: string): (r: string)
    ensures forall j :: 0 <= j < |r| ==> r[j] != ')' && r[j] != ' ' && r[j] != '%'
    ensures |r| <= |s|
  {
    if |s| == 0 then ""
    else if StartsWith(s, "rgb(") then RgbStrip(s[4..])
    else if s[0] == ')' || s[0] == ' ' || s[0] == '%' then RgbStrip(s[1..])
    else [s[0]] + RgbStrip(s[1..])
  }

  /** Outside an `rgb(` the first character is kept unless it is `)`, a
      space or `%`. */
  lemma RgbStripKeeps(c: char, rest: string)
    requires c != 'r' && c != ')' && c != ' ' && c != '%'
    ensures RgbStrip([c] + rest) == [c] + RgbStrip(rest)
  {
    var s := [c] + rest;
    assert s[0] == c && s[1..] == rest;
    NotStartsWith(s, "rgb(");
  }

  /** The separator `%, ` between two percentages leaves a bare comma. */
  lemma RgbStripSeparator(x: string)
    ensures RgbStrip("%, " + x) == "," + RgbStrip(x)
  {
    var s := "%, " + x;
    var u := " " + x;
    assert s[0] == '%' && s[1..] == [','] + u;
    NotStartsWith(s, "rgb(");
    assert RgbStrip(s) == RgbStrip([','] + u);
    RgbStripKeeps(',', u);
    assert u[0] == ' ' && u[1..] == x;
    NotStartsWith(u, "rgb(");
    assert RgbStrip(u) == RgbStrip(x);
  }

  /** The closing `%)` leaves nothing. */
  lemma RgbStripClose()
    ensures RgbStrip("%)") == ""
  {
    var s := "%)";
    assert s[1..] == ")" && s[1..][1..] == "";
    NotStartsWith(s, "rgb(");
    NotStartsWith(s[1..], "rgb(");
  }

  /** A channel and its separator leave the channel and a comma. */
  lemma RgbStripChannel(d: string, rest: string)
    requires forall j :: 0 <= j < |d| ==> '0' <= d[j] <= '9'
    ensures RgbStrip(d + ("%, " + rest)) == d + "," + RgbStrip(rest)
  {
    RgbStripDigits(d, "%, " + rest);
    RgbStripSeparator(rest);
  }

  /** The percentage form, grouped from the right. */
  lemma PercentGrouped(a: string, b: string, c: string)
    ensures "rgb(" + a + "%, " + b + "%, " + c + "%)" == "rgb(" + (a + ("%, " + (b + ("%, " + (c + "%)")))))
  {
  }

  /** The channels, grouped from the right. */
  lemma ChannelsGrouped(a: string, b: string, c: string)
    ensures a + "," + (b + "," + (c + "")) == a + "," + b + "," + c
  {
  }

  /** The percentage form Chrome serialises: `rgb(` goes, the `%`s, the
      spaces and the `)` go, and the three channels stay, in order,
      between commas. */
  lemma RgbStripPercent(a: string, b: string, c: string)
    requires forall j :: 0 <= j < |a| ==> '0' <= a[j] <= '9'
    requires forall j :: 0 <= j < |b| ==> '0' <= b[j] <= '9'
    requires forall j :: 0 <= j < |c| ==> '0' <= c[j] <= '9'
    ensures RgbStrip("rgb(" + a + "%, " + b + "%, " + c + "%)") == a + "," + b + "," + c
  {
    var third := c + "%)";
    var second := b + ("%, " + third);
    var first := a + ("%, " + second);
    PercentGrouped(a, b, c);
    var s := "rgb(" + first;
    assert s[..4] == "rgb(" && s[4..] == first;
    assert RgbStrip(s) == RgbStrip(first);
    RgbStripChannel(a, second);
    RgbStripChannel(b, third);
    RgbStripDigits(c, "%)");
    RgbStripClose();
    ChannelsGrouped(a, b, c);
  }

  /** The paint text of an `rgb(…)` attribute after `RgbStrip` and
      `split(',')`: digits pass through untouched. */
  lemma {:induction false} RgbStripDigits(ds: string, rest: string)
    requires forall j :: 0 <= j < |ds| ==> '0' <= ds[j] <= '9'
    ensures RgbStrip(ds + rest) == ds + RgbStrip(rest)
    decreases |ds|
  {
    if |ds| == 0 {
      assert ds + rest == rest;
    } else {
      var s := ds + rest;
      assert s[0] == ds[0] && s[1..] == ds[1..] + rest;
      assert !StartsWith(s, "rgb(") by {
        assert "rgb("[0] == 'r';
        NotStartsWith(s, "rgb(");
      }
      assert RgbStrip(s) == [ds[0]] + RgbStrip(ds[1..] + rest);
      RgbStripDigits(ds[1..], rest);
      assert [ds[0]] + (ds[1..] + RgbStrip(rest)) == ds + RgbStrip(rest);
    }
  }

  /** `(fill|stroke)=…` at the start of `s`. */
  function StyleAttrLen(s: string): (r: Option<nat>)
    ensures r.Some? ==> 0 < r.value <= |s|
    ensures r.None? <==> AttrLen(s, "fill").None? && AttrLen(s, "stroke").None?
  {
    match AttrLen(s, "fill")
    case Some(n) => Some(n)
    case None => AttrLen(s, "stroke")
  }

  /** `s.replaceAll(svgStyleRegex, '')`: every quoted `fill`/`stroke`
      attribute found scanning from the left is deleted. */
  function StripStyleAttrs(s: string): (r: string)
    ensures |r| <= |s|
    decreases |s|
  {
    if |s| == 0 then ""
    else match StyleAttrLen(s)
      case Some(n) => StripStyleAttrs(s[n..])
      case None => [s[0]] + StripStyleAttrs(s[1..])
  }

  /** `s` has a quoted `fill`/`stroke` attribute somewhere. */
  predicate HasStyleAttr(s: string) {
    exists i :: 0 <= i <= |s| && StyleAttrLen(s[i..]).Some?
  }

  /** Stripping changes nothing exactly when there is nothing to strip. */
  lemma {:induction false} StripIdentity(s: string)
    ensures StripStyleAttrs(s) == s <==> !HasStyleAttr(s)
    decreases |s|
  {
    if |s| == 0 {
      assert !HasStyleAttr(s) by {
        forall i | 0 <= i <= |s| ensures StyleAttrLen(s[i..]).None? {
          assert s[i..] == "";
        }
      }
    } else {
      StripIdentity(s[1..]);
      assert forall i :: 1 <= i <= |s| ==> s[1..][i - 1..] == s[i..];
      match StyleAttrLen(s)
      case Some(n) =>
        assert s[0..] == s;
        assert |StripStyleAttrs(s)| < |s|;
      case None =>
        assert HasStyleAttr(s) <==> HasStyleAttr(s[1..]) by {
          if HasStyleAttr(s) {
            var i :| 0 <= i <= |s| && StyleAttrLen(s[i..]).Some?;
            assert i != 0;
            assert StyleAttrLen(s[1..][i - 1..]).Some?;
          }
          if HasStyleAttr(s[1..]) {
            var i :| 0 <= i <= |s[1..]| && StyleAttrLen(s[1..][i..]).Some?;
            assert s[1..][i..] == s[i + 1..];
          }
        }
    }
  }

  /** The closing quote after a plain run is the one `.*?` stops at. */
  lemma {:induction false} CloseQuoteOf(body: string, q2: char, rest: string)
    requires Plain(body) && IsQuote(q2)
    ensures CloseQuote(body + [q2] + rest) == Some(|body|)
    decreases |body|
  {
    var s := body + [q2] + rest;
    if |body| > 0 {
      assert s[0] == body[0];
      assert s[1..] == body[1..] + [q2] + rest;
      CloseQuoteOf(body[1..], q2, rest);
    }
  }

  /** A quoted attribute at the start of a text matches up to its closing
      quote. */
  lemma AttrLenOf(name: string, q: char, body: string, q2: char, rest: string)
    requires IsQuote(q) && IsQuote(q2) && Plain(body)
    ensures AttrLen(name + "=" + [q] + body + [q2] + rest, name) == Some(|name| + 3 + |body|)
  {
    var s := name + "=" + [q] + body + [q2] + rest;
    assert s[..|name| + 1] == name + "=";
    assert s[|name| + 1] == q;
    assert s[|name| + 2..] == body + [q2] + rest;
    CloseQuoteOf(body, q2, rest);
  }

  /** A text that differs from `name=` at some position does not match. */
  lemma Mismatch(s: string, name: string, j: nat)
    requires j <= |name| && j < |s| && (name + "=")[j] != s[j]
    ensures AttrLen(s, name).None?
  {
  }

  /** Text without an `f` or an `s` has nothing to strip. */
  lemma {:induction false} StripPlainText(s: string)
    requires forall j :: 0 <= j < |s| ==> s[j] != 'f' && s[j] != 's'
    ensures StripStyleAttrs(s) == s
    decreases |s|
  {
    if |s| > 0 {
      Mismatch(s, "fill", 0);
      Mismatch(s, "stroke", 0);
      StripPlainText(s[1..]);
    }
  }

  lemma StripKeep(s: string)
    requires |s| > 0 && StyleAttrLen(s).None?
    ensures StripStyleAttrs(s) == [s[0]] + StripStyleAttrs(s[1..])
  {
  }

  lemma StripSkip(s: string, n: nat)
    requires |s| > 0 && StyleAttrLen(s) == Some(n)
    ensures StripStyleAttrs(s) == StripStyleAttrs(s[n..])
  {
  }

  /** A text that starts with neither `fill=` nor `s` keeps its first
      character. */
  lemma KeepFirst(s: string)
    requires |s| > 2 && (s[0] != 'f' || s[1] != 'i' || s[2] != 'l') && s[0] != 's'
    ensures StripStyleAttrs(s) == [s[0]] + StripStyleAttrs(s[1..])
  {
    if s[0] != 'f' {
      Mismatch(s, "fill", 0);
    } else if s[1] != 'i' {
      Mismatch(s, "fill", 1);
    } else {
      Mismatch(s, "fill", 2);
    }
    Mismatch(s, "stroke", 0);
    StripKeep(s);
  }

  /** `fi` before an `f` is not the start of an attribute. */
  lemma StripFi(a: string)
    requires |a| > 1 && a[0] == 'f'
    ensures StripStyleAttrs("fi" + a) == "fi" + StripStyleAttrs(a)
  {
    var s := "fi" + a;
    var t := s[1..];
    assert s[0] == 'f' && s[1] == 'i' && s[2] == 'f';
    KeepFirst(s);
    assert t[1..] == a;
    KeepFirst(t);
    ConsTwo(StripStyleAttrs(a));
  }

  lemma ConsTwo(x: string)
    ensures ['f'] + (['i'] + x) == "fi" + x
  {
  }

  /** `name="v"`. */
  function Quoted(name: string, v: string): string {
    name + "=" + ['"'] + v + ['"']
  }

  /** Deleting an attribute behind `fi` and in front of text without `f` or
      `s` leaves `fi` joined to that text. */
  lemma StripJoins(body: string, tail: string)
    requires Plain(body)
    requires forall j :: 0 <= j < |tail| ==> tail[j] != 'f' && tail[j] != 's'
    ensures StripStyleAttrs("fi" + (Quoted("fill", body) + tail)) == "fi" + tail
  {
    var a := Quoted("fill", body) + tail;
    assert a == "fill" + "=" + ['"'] + body + ['"'] + tail;
    StripFi(a);
    AttrLenOf("fill", '"', body, '"', tail);
    StripSkip(a, |body| + 7);
    assert a[|body| + 7..] == tail;
    StripPlainText(tail);
  }

  lemma FillPresent(body: string)
    requires Plain(body)
    ensures HasStyleAttr(Quoted("fill", body))
  {
    var t := Quoted("fill", body);
    AttrLenOf("fill", '"', body, '"', "");
    assert t + "" == t;
    assert t[0..] == t;
  }

  lemma TailWithoutFS(b: string)
    requires forall j :: 0 <= j < |b| ==> b[j] != 'f' && b[j] != 's'
    ensures forall j :: 0 <= j < |Quoted("ll", b)| ==> Quoted("ll", b)[j] != 'f' && Quoted("ll", b)[j] != 's'
  {
    var tail := Quoted("ll", b);
    forall j | 0 <= j < |tail| ensures tail[j] != 'f' && tail[j] != 's' {
      if 4 <= j < |tail| - 1 { assert tail[j] == b[j - 4]; }
    }
  }

  lemma JoinedName(b: string)
    ensures "fi" + Quoted("ll", b) == Quoted("fill", b)
  {
  }

  /** One pass does not always leave an attribute-free text: deleting an
      attribute can join the text around it into a new one, as in
      `fifill="a"ll="b"`, which strips to `fill="b"`. */
  lemma StripNotIdempotent(a: string, b: string)
    requires Plain(a) && Plain(b)
    requires forall j :: 0 <= j < |b| ==> b[j] != 'f' && b[j] != 's'
    ensures StripStyleAttrs("fi" + (Quoted("fill", a) + Quoted("ll", b))) == Quoted("fill", b)
    ensures HasStyleAttr(Quoted("fill", b))
  {
    TailWithoutFS(b);
    StripJoins(a, Quoted("ll", b));
    JoinedName(b);
    FillPresent(b);
  }
}
