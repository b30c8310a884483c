/** A JavaScript `Map<string, string>` as the engine uses it for conversion
    parameters and presets: entries in insertion order, each key at most
    once; `set` on a key already present replaces its value in place and
    keeps its position, `set` on a new key appends. */
module OrderedMap {
  import opened Optional

  predicate KeysUnique(entries: seq<(string, string)>) {
    forall i, j :: 0 <= i < j < |entries| ==> entries[i].0 != entries[j].0
  }

  type StringMap = entries: seq<(string, string)> | KeysUnique(entries) witness []

  const Empty: StringMap := []

  predicate HasKey(m: StringMap, k: string) {
    exists i :: 0 <= i < |m| && m[i].0 == k
  }

  /** `m.get(k)`. */
  function Get(m: StringMap, k: string): (r: Option<string>)
    ensures r.Some? <==> HasKey(m, k)
    ensures forall i :: 0 <= i < |m| && m[i].0 == k ==> r == Some(m[i].1)
    decreases |m|
  {
    if |m| == 0 then None
    else if m[0].0 == k then Some(m[0].1)
    else Get(m[1..], k)
  }

  /** The keys of `m` in iteration order. */
  function Keys(m: StringMap): (ks: seq<string>)
    ensures |ks| == |m| && forall i :: 0 <= i < |m| ==> ks[i] == m[i].0
  {
    seq(|m|, i requires 0 <= i < |m| => m[i].0)
  }

  /** The position of `k` in `m`. */
  function KeyIndex(m: StringMap, k: string): (r: Option<nat>)
    ensures r.Some? ==> r.value < |m| && m[r.value].0 == k
    ensures r.None? <==> !HasKey(m, k)
  {
    if exists i :: 0 <= i < |m| && m[i].0 == k then
      var i :| 0 <= i < |m| && m[i].0 == k;
      Some(i)
    else None
  }

  /** `m.set(k, v)`: afterwards `k` maps to `v`, every other key keeps its
      value, an existing key keeps its position and a new key goes last. */
  function Set(m: StringMap, k: string, v: string): (r: StringMap)
    ensures Get(r, k) == Some(v)
    ensures forall k' :: k' != k ==> Get(r, k') == Get(m, k')
    ensures HasKey(m, k) ==> Keys(r) == Keys(m)
    ensures !HasKey(m, k) ==> Keys(r) == Keys(m) + [k]
  {
    match KeyIndex(m, k)
    case Some(i) =>
      var r := m[i := (k, v)];
      assert Keys(r) == Keys(m);
      r
    case None =>
      var r := m + [(k, v)];
      assert Keys(r) == Keys(m) + [k];
      assert r[|m|] == (k, v);
      assert forall k' :: k' != k ==> Get(r, k') == Get(m, k') by {
        forall k' | k' != k ensures Get(r, k') == Get(m, k') {
          if HasKey(m, k') {
            var i :| 0 <= i < |m| && m[i].0 == k';
            assert r[i] == m[i];
          }
        }
      }
      r
  }

  /** The value the last write of `k` in `writes` stored, if any. */
  function LastWrite(writes: seq<(string, string)>, k: string): Option<string>
    decreases |writes|
  {
    if |writes| == 0 then None
    else if writes[|writes| - 1].0 == k then Some(writes[|writes| - 1].1)
    else LastWrite(writes[..|writes| - 1], k)
  }

  /** `m.set(k, v)` for every pair of `writes` in order. */
  function SetAll(m: StringMap, writes: seq<(string, string)>): StringMap
    decreases |writes|
  {
    if |writes| == 0 then m else SetAll(Set(m, writes[0].0, writes[0].1), writes[1..])
  }

  /** After a run of writes, a key holds the value of its last write, and a
      key never written keeps its old value: later writes win. */
  lemma {:induction false} SetAllLastWrite(m: StringMap, writes: seq<(string, string)>, k: string)
    ensures Get(SetAll(m, writes), k) ==
      match LastWrite(writes, k)
      case Some(v) => Some(v)
      case None => Get(m, k)
    decreases |writes|
  {
    if |writes| > 0 {
      var m' := Set(m, writes[0].0, writes[0].1);
      SetAllLastWrite(m', writes[1..], k);
      LastWriteCons(writes, k);
    }
  }

  /** The last write of a sequence is the last write of its tail, or else its
      head. */
  lemma {:induction false} LastWriteCons(writes: seq<(string, string)>, k: string)
    requires |writes| > 0
    ensures LastWrite(writes, k) ==
      match LastWrite(writes[1..], k)
      case Some(v) => Some(v)
      case None => if writes[0].0 == k then Some(writes[0].1) else None
    decreases |writes|
  {
    if |writes| > 1 {
      var init := writes[..|writes| - 1];
      assert writes[1..][..|writes[1..]| - 1] == init[1..];
      LastWriteCons(init, k);
    }
  }

  /** A run of writes followed by one more write. */
  lemma {:induction false} SetAllSnoc(m: StringMap, writes: seq<(string, string)>, k: string, v: string)
    ensures SetAll(m, writes + [(k, v)]) == Set(SetAll(m, writes), k, v)
    decreases |writes|
  {
    if |writes| == 0 {
      assert writes + [(k, v)] == [(k, v)];
    } else {
      assert (writes + [(k, v)])[1..] == writes[1..] + [(k, v)];
      SetAllSnoc(Set(m, writes[0].0, writes[0].1), writes[1..], k, v);
    }
  }

  /** The last write of `k` is the one at its last position. */
  lemma {:induction false} LastWriteAt(writes: seq<(string, string)>, i: nat, k: string)
    requires i < |writes| && writes[i].0 == k
    requires forall j :: i < j < |writes| ==> writes[j].0 != k
    ensures LastWrite(writes, k) == Some(writes[i].1)
    decreases |writes|
  {
    if i < |writes| - 1 {
      var init := writes[..|writes| - 1];
      assert init[i] == writes[i];
      LastWriteAt(init, i, k);
    }
  }

  /** Two runs of writes are the first run, then the second. */
  lemma {:induction false} SetAllAppend(m: StringMap, a: seq<(string, string)>, b: seq<(string, string)>)
    ensures SetAll(m, a + b) == SetAll(SetAll(m, a), b)
    decreases |a|
  {
    if |a| > 0 {
      assert (a + b)[0] == a[0] && (a + b)[1..] == a[1..] + b;
      SetAllAppend(Set(m, a[0].0, a[0].1), a[1..], b);
    } else {
      assert a + b == b;
    }
  }

  /** The last write of `k` in two runs of writes is its last write in the
      second run, or else in the first. */
  lemma {:induction false} LastWriteAppend(a: seq<(string, string)>, b: seq<(string, string)>, k: string)
    ensures LastWrite(a + b, k) == if LastWrite(b, k).Some? then LastWrite(b, k) else LastWrite(a, k)
    decreases |b|
  {
    if |b| == 0 {
      assert a + b == a;
    } else {
      assert (a + b)[..|a + b| - 1] == a + b[..|b| - 1];
      LastWriteAppend(a, b[..|b| - 1], k);
    }
  }

  /** A key has a last write exactly when some write stores it. */
  lemma {:induction false} LastWriteSome(writes: seq<(string, string)>, k: string)
    ensures LastWrite(writes, k).Some? <==> exists i :: 0 <= i < |writes| && writes[i].0 == k
    decreases |writes|
  {
    if |writes| > 0 {
      var init := writes[..|writes| - 1];
      LastWriteSome(init, k);
      if writes[|writes| - 1].0 != k {
        assert forall i :: 0 <= i < |init| ==> init[i] == writes[i];
      }
    }
  }
}
