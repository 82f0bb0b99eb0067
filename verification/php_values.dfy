/**
 The PHP-side values the Informix driver handles: SQL NULL, string and
 integer row values, ASCII case folding (strtolower and
 array_change_key_case), the default rtrim, and ordered associative
 arrays (a PHP array with string keys, kept as a sequence of entries).
 */
module PhpValues {

  datatype Option<+T> = None | Some(value: T)

  /** A value in a fetched row: SQL NULL, a string, or an integer. */
  datatype Value = Null | Str(s: string) | Int(i: int)

  predicate IsUpper(c: char) {
    'A' <= c <= 'Z'
  }

  /** ASCII lower-casing of one character; every other character is kept. */
  function LowerChar(c: char): char {
    if IsUpper(c) then (c as int + 32) as char else c
  }

  /** Lower-cases a string character by character. */
  function Lower(s: string): (r: string)
    ensures |r| == |s|
    ensures forall i :: 0 <= i < |s| ==> r[i] == LowerChar(s[i])
  {
    if |s| == 0 then "" else [LowerChar(s[0])] + Lower(s[1..])
  }

  /** The characters PHP's rtrim strips by default: space, tab, newline,
      carriage return, NUL and vertical tab. */
  predicate IsTrimmable(c: char) {
    c == ' ' || c == '\t' || c == '\n' || c == '\r' || c as int == 0 || c as int == 11
  }

  /** rtrim: the longest prefix of `s` that does not end in a trimmable
      character; everything cut off is trimmable. */
  function RTrim(s: string): (r: string)
    ensures |r| <= |s| && r == s[..|r|]
    ensures |r| == 0 || !IsTrimmable(r[|r| - 1])
    ensures forall i :: |r| <= i < |s| ==> IsTrimmable(s[i])
  {
    if |s| == 0 || !IsTrimmable(s[|s| - 1]) then s else RTrim(s[..|s| - 1])
  }

  /** Trimming twice trims nothing more. */
  lemma RTrimIdempotent(s: string)
    ensures RTrim(RTrim(s)) == RTrim(s)
  {
    var r := RTrim(s);
    assert |r| == 0 || !IsTrimmable(r[|r| - 1]);
  }

  /** rtrim applied to one row value: only strings change. */
  function RTrimValue(v: Value): Value {
    if v.Str? then Str(RTrim(v.s)) else v
  }

  /** NULL becomes the empty string; every other value is kept. */
  function NullToEmpty(v: Value): Value {
    if v.Null? then Str("") else v
  }

  // ---------------------------------------------------------------
  // Ordered associative arrays
  // ---------------------------------------------------------------

  /** The keys of an associative array, in order. */
  function Keys<V>(a: seq<(string, V)>): (ks: seq<string>)
    ensures |ks| == |a|
    ensures forall i :: 0 <= i < |a| ==> ks[i] == a[i].0
  {
    seq(|a|, i requires 0 <= i < |a| => a[i].0)
  }

  /** The values of an associative array, in order (array_values). */
  function Values<V>(a: seq<(string, V)>): (vs: seq<V>)
    ensures |vs| == |a|
    ensures forall i :: 0 <= i < |a| ==> vs[i] == a[i].1
  {
    seq(|a|, i requires 0 <= i < |a| => a[i].1)
  }

  predicate Distinct(ks: seq<string>) {
    forall i, j :: 0 <= i < j < |ks| ==> ks[i] != ks[j]
  }

  /** The keys of an array with one more entry in front. */
  lemma KeysCons<V>(x: (string, V), a: seq<(string, V)>)
    ensures Keys([x] + a) == [x.0] + Keys(a)
  {
  }

  /** Looks a key up: the value of its first entry, if any. */
  function Get<V>(a: seq<(string, V)>, k: string): (r: Option<V>)
    ensures r.None? <==> k !in Keys(a)
    ensures r.Some? ==> (k, r.value) in a
  {
    if |a| == 0 then None
    else
      KeysCons(a[0], a[1..]);
      assert a == [a[0]] + a[1..];
      if a[0].0 == k then Some(a[0].1) else Get(a[1..], k)
  }

  /** `$a[$k] = $v`: an existing key keeps its position and takes the new
      value; a new key is appended. */
  function Put<V>(a: seq<(string, V)>, k: string, v: V): seq<(string, V)> {
    if |a| == 0 then [(k, v)]
    else if a[0].0 == k then [(k, v)] + a[1..]
    else [a[0]] + Put(a[1..], k, v)
  }

  /** Put keeps the keys, appending the key when it is new. */
  lemma {:induction false} PutKeys<V>(a: seq<(string, V)>, k: string, v: V)
    ensures Keys(Put(a, k, v)) == if k in Keys(a) then Keys(a) else Keys(a) + [k]
  {
    if |a| > 0 {
      KeysCons(a[0], a[1..]);
      assert a == [a[0]] + a[1..];
      if a[0].0 == k {
        KeysCons((k, v), a[1..]);
      } else {
        PutKeys(a[1..], k, v);
        KeysCons(a[0], Put(a[1..], k, v));
      }
    }
  }

  /** After Put, the key holds the new value and every other key its old one. */
  lemma {:induction false} PutGet<V>(a: seq<(string, V)>, k: string, v: V, k': string)
    ensures Get(Put(a, k, v), k') == if k' == k then Some(v) else Get(a, k')
  {
    if |a| > 0 {
      var r := Put(a, k, v);
      if a[0].0 == k {
        assert r[1..] == a[1..];
      } else {
        PutGet(a[1..], k, v, k');
        assert r[1..] == Put(a[1..], k, v);
      }
    }
  }

  /** Putting a key into an array with distinct keys keeps them distinct. */
  lemma PutKeepsDistinct<V>(a: seq<(string, V)>, k: string, v: V)
    requires Distinct(Keys(a))
    ensures Distinct(Keys(Put(a, k, v)))
  {
    PutKeys(a, k, v);
  }

  /** The position of the last occurrence of `n` in `names`. */
  function LastIndex(names: seq<string>, n: string): (r: Option<nat>)
    ensures r.None? <==> n !in names
    ensures r.Some? ==> r.value < |names| && names[r.value] == n
    ensures r.Some? ==> forall j :: r.value < j < |names| ==> names[j] != n
  {
    if |names| == 0 then None
    else if names[|names| - 1] == n then Some(|names| - 1)
    else
      assert names == names[..|names| - 1] + [names[|names| - 1]];
      LastIndex(names[..|names| - 1], n)
  }

  /** The value of the last entry of `a` whose lower-cased key is `k`: what
      an array built by inserting the lower-cased keys in order holds at `k`. */
  function LastLowered<V>(a: seq<(string, V)>, k: string): Option<V> {
    match LastIndex(LoweredKeys(a), k)
    case None => None
    case Some(i) => Some(a[i].1)
  }

  /** Dropping the last entry drops the last lowered key. */
  lemma LoweredKeysInit<V>(a: seq<(string, V)>)
    requires |a| > 0
    ensures LoweredKeys(a)[..|a| - 1] == LoweredKeys(a[..|a| - 1])
  {
  }

  /** array_change_key_case($a, CASE_LOWER): every key lower-cased; when two
      keys collide, the last one's value wins. */
  function LowerKeys<V>(a: seq<(string, V)>): (r: seq<(string, V)>)
    ensures Distinct(Keys(r))
    ensures forall k :: Get(r, k) == LastLowered(a, k)
  {
    if |a| == 0 then []
    else
      var prefix := LowerKeys(a[..|a| - 1]);
      var k := Lower(a[|a| - 1].0);
      var v := a[|a| - 1].1;
      PutKeepsDistinct(prefix, k, v);
      LoweredKeysInit(a);
      assert forall k' :: Get(Put(prefix, k, v), k') == LastLowered(a, k') by {
        forall k' ensures Get(Put(prefix, k, v), k') == LastLowered(a, k') {
          PutGet(prefix, k, v, k');
        }
      }
      Put(prefix, k, v)
  }

  /** The keys of `a`, each lower-cased. */
  function LoweredKeys<V>(a: seq<(string, V)>): (ks: seq<string>)
    ensures |ks| == |a|
    ensures forall i :: 0 <= i < |a| ==> ks[i] == Lower(a[i].0)
  {
    seq(|a|, i requires 0 <= i < |a| => Lower(a[i].0))
  }

  /** Every key lower-cased, values and order kept. */
  function LoweredPairs<V>(a: seq<(string, V)>): (r: seq<(string, V)>)
    ensures |r| == |a|
    ensures forall i :: 0 <= i < |a| ==> r[i] == (Lower(a[i].0), a[i].1)
  {
    seq(|a|, i requires 0 <= i < |a| => (Lower(a[i].0), a[i].1))
  }

  /** When no two keys collide after lower-casing, array_change_key_case
      keeps every entry in place and only lower-cases its key. */
  lemma {:induction false} LowerKeysWithoutCollision<V>(a: seq<(string, V)>)
    requires Distinct(LoweredKeys(a))
    ensures LowerKeys(a) == LoweredPairs(a)
  {
    if |a| > 0 {
      var p := a[..|a| - 1];
      var k := Lower(a[|a| - 1].0);
      var v := a[|a| - 1].1;
      LoweredKeysPrefix(a);
      LowerKeysWithoutCollision(p);
      var lp := LoweredPairs(p);
      NewKeyAfterPrefix(a);
      PutAppends(lp, k, v);
      assert LowerKeys(a) == Put(LowerKeys(p), k, v);
      LoweredPairsSnoc(a);
    }
  }

  lemma LoweredPairsSnoc<V>(a: seq<(string, V)>)
    requires |a| > 0
    ensures LoweredPairs(a) == LoweredPairs(a[..|a| - 1]) + [(Lower(a[|a| - 1].0), a[|a| - 1].1)]
  {
  }

  lemma LoweredKeysPrefix<V>(a: seq<(string, V)>)
    requires |a| > 0 && Distinct(LoweredKeys(a))
    ensures Distinct(LoweredKeys(a[..|a| - 1]))
  {
    var p := a[..|a| - 1];
    assert forall i :: 0 <= i < |p| ==> LoweredKeys(p)[i] == LoweredKeys(a)[i];
  }

  lemma NewKeyAfterPrefix<V>(a: seq<(string, V)>)
    requires |a| > 0 && Distinct(LoweredKeys(a))
    ensures Lower(a[|a| - 1].0) !in Keys(LoweredPairs(a[..|a| - 1]))
  {
  }

  /** Putting a new key appends exactly one entry. */
  lemma {:induction false} PutAppends<V>(a: seq<(string, V)>, k: string, v: V)
    requires k !in Keys(a)
    ensures Put(a, k, v) == a + [(k, v)]
  {
    if |a| > 0 {
      KeysCons(a[0], a[1..]);
      assert a == [a[0]] + a[1..];
      PutAppends(a[1..], k, v);
    }
  }

  /** Applies `f` to every value, keeping keys and order. */
  function MapValues<V>(a: seq<(string, V)>, f: V -> V): (r: seq<(string, V)>)
    ensures |r| == |a|
    ensures forall i :: 0 <= i < |a| ==> r[i] == (a[i].0, f(a[i].1))
  {
    seq(|a|, i requires 0 <= i < |a| => (a[i].0, f(a[i].1)))
  }
}
