/**
 Fetching one row of a result: `fetchInto`. The caller's 0-based row
 number (or null, for "the next row") is turned into the native 1-based
 address or 'NEXT'; the row the native layer returns for that address is
 an input. The row is then reshaped: positional unless the caller asked
 for an associative row, keys lower-cased when asked for, and then values
 right-trimmed and NULLs turned into empty strings, in that order.
 */
module Fetch {
  import opened PhpValues

  /** DB_FETCHMODE_*. Only ASSOC keeps the field names. */
  datatype FetchMode = Ordered | Assoc | Object | Flipped

  /** The portability options that act on fetched rows:
      DB_PORTABILITY_LOWERCASE, DB_PORTABILITY_RTRIM and
      DB_PORTABILITY_NULL_TO_EMPTY. */
  datatype Portability = Portability(lowercase: bool, rtrim: bool, nullToEmpty: bool)

  /** The row argument of ifx_fetch_row: 'NEXT' or a 1-based row number. */
  datatype NativeAddress = Next | Absolute(row: int)

  /** A row as ifx_fetch_row returns it: field names and values, in column order. */
  type Row = seq<(string, Value)>

  /** A row handed to the caller: a list indexed 0..n-1, or field name to value. */
  datatype Shaped = Positional(values: seq<Value>) | Named(entries: Row)

  /** What fetchInto reports: null (end of results or failure) or DB_OK with the row. */
  datatype Fetched = EndOfResults | Fetched(row: Shaped)

  /** The native address for the caller's row number; None for a negative
      number, which is never sent to the native layer. */
  function NativeAddressFor(rownum: Option<int>): (a: Option<NativeAddress>)
    ensures a.None? <==> rownum.Some? && rownum.value < 0
    ensures a == Some(Next) <==> rownum.None?
    ensures a.Some? && a.value.Absolute? ==> a.value.row >= 1
    ensures rownum.Some? && rownum.value >= 0 ==> a == Some(Absolute(rownum.value + 1))
  {
    match rownum
    case None => Some(Next)
    case Some(k) => if k < 0 then None else Some(Absolute(k + 1))
  }

  /** The caller's row number an address stands for. */
  function CallerRow(a: NativeAddress): Option<int> {
    match a
    case Next => None
    case Absolute(n) => Some(n - 1)
  }

  /** Every row number the caller may pass is addressed natively and can
      be read back from its address: 'NEXT' for null, k + 1 for k. */
  lemma AddressRoundTrip(rownum: Option<int>)
    requires rownum.None? || rownum.value >= 0
    ensures NativeAddressFor(rownum).Some?
    ensures CallerRow(NativeAddressFor(rownum).value) == rownum
  {
  }

  /** The value normalisations, in the driver's order: rtrim, then
      null-to-empty, each only when its option is set. */
  function Normalize(port: Portability, v: Value): (r: Value)
    ensures v.Int? ==> r == v
    ensures v.Str? ==> r.Str? && |r.s| <= |v.s| && r.s == v.s[..|r.s|]
    ensures v.Str? && !port.rtrim ==> r == v
    ensures v.Str? ==> forall i :: |r.s| <= i < |v.s| ==> IsTrimmable(v.s[i])
    ensures v.Str? && port.rtrim ==> r == Str(RTrim(v.s))
    ensures v.Null? ==> r == (if port.nullToEmpty then Str("") else Null)
    ensures port.rtrim && r.Str? ==> |r.s| == 0 || !IsTrimmable(r.s[|r.s| - 1])
  {
    var trimmed := if port.rtrim then RTrimValue(v) else v;
    if port.nullToEmpty then NullToEmpty(trimmed) else trimmed
  }

  /** The two value normalisations do not depend on each other: applying
      null-to-empty first gives the same value. */
  lemma NormalizationOrderIrrelevant(port: Portability, v: Value)
    ensures Normalize(port, v) ==
              var nulled := if port.nullToEmpty then NullToEmpty(v) else v;
              if port.rtrim then RTrimValue(nulled) else nulled
  {
  }

  /** Normalising an already normalised value changes nothing. */
  lemma NormalizeIdempotent(port: Portability, v: Value)
    ensures Normalize(port, Normalize(port, v)) == Normalize(port, v)
  {
    if v.Str? && port.rtrim {
      RTrimIdempotent(v.s);
    }
  }

  function NormalizeOption(port: Portability, o: Option<Value>): Option<Value> {
    match o
    case None => None
    case Some(v) => Some(Normalize(port, v))
  }

  /** Applies `f` to every value of a shaped row, keeping its shape and keys. */
  function MapShaped(s: Shaped, f: Value -> Value): (r: Shaped)
    ensures r.Positional? == s.Positional?
    ensures s.Positional? ==> |r.values| == |s.values| &&
                              forall i :: 0 <= i < |s.values| ==> r.values[i] == f(s.values[i])
    ensures s.Named? ==> |r.entries| == |s.entries| &&
                         forall i :: 0 <= i < |s.entries| ==> r.entries[i] == (s.entries[i].0, f(s.entries[i].1))
  {
    match s
    case Positional(vs) => Positional(seq(|vs|, i requires 0 <= i < |vs| => f(vs[i])))
    case Named(es) => Named(MapValues(es, f))
  }

  /** The first shaping step: positional unless ASSOC, keys lower-cased
      only for ASSOC with the LOWERCASE option. */
  function KeyStage(row: Row, mode: FetchMode, port: Portability): Shaped {
    if mode != Assoc then Positional(Values(row))
    else if port.lowercase then Named(LowerKeys(row))
    else Named(row)
  }

  /** The later shaping steps: rtrim over every value, then null-to-empty. */
  function ValueStage(s: Shaped, port: Portability): (r: Shaped)
    ensures r.Positional? == s.Positional?
    ensures s.Positional? ==> |r.values| == |s.values| &&
                              forall i :: 0 <= i < |s.values| ==> r.values[i] == Normalize(port, s.values[i])
    ensures s.Named? ==> |r.entries| == |s.entries| &&
                         forall i :: 0 <= i < |s.entries| ==> r.entries[i] == (s.entries[i].0, Normalize(port, s.entries[i].1))
  {
    var trimmed := if port.rtrim then MapShaped(s, RTrimValue) else s;
    if port.nullToEmpty then MapShaped(trimmed, NullToEmpty) else trimmed
  }

  /** Looking a key up in a row with normalised values finds the
      normalised value. */
  lemma {:induction false} GetNormalized(a: Row, b: Row, port: Portability, k: string)
    requires |b| == |a|
    requires forall i :: 0 <= i < |a| ==> b[i] == (a[i].0, Normalize(port, a[i].1))
    ensures Get(b, k) == NormalizeOption(port, Get(a, k))
  {
    if |a| > 0 && a[0].0 != k {
      GetNormalized(a[1..], b[1..], port, k);
    }
  }

  /** The shaping part of fetchInto. */
  function Shape(row: Row, mode: FetchMode, port: Portability): (r: Shaped)
    // every mode but ASSOC: the values alone, in column order, indexed 0..n-1
    ensures mode != Assoc ==> && r.Positional?
                              && |r.values| == |row|
                              && forall i :: 0 <= i < |row| ==> r.values[i] == Normalize(port, row[i].1)
    // ASSOC: the native keys as they are ...
    ensures mode == Assoc && !port.lowercase ==> && r.Named?
                                                 && |r.entries| == |row|
                                                 && forall i :: 0 <= i < |row| ==>
                                                      r.entries[i] == (row[i].0, Normalize(port, row[i].1))
    // ... or lower-cased, the last value winning when two keys collide
    ensures mode == Assoc && port.lowercase ==> && r.Named?
                                                && Distinct(Keys(r.entries))
                                                && forall k :: Get(r.entries, k) == NormalizeOption(port, LastLowered(row, k))
  {
    var keyed := KeyStage(row, mode, port);
    var r := ValueStage(keyed, port);
    if mode == Assoc && port.lowercase then
      assert Keys(r.entries) == Keys(keyed.entries);
      assert forall k :: Get(r.entries, k) == NormalizeOption(port, LastLowered(row, k)) by {
        forall k
          ensures Get(r.entries, k) == NormalizeOption(port, LastLowered(row, k))
        {
          GetNormalized(keyed.entries, r.entries, port, k);
        }
      }
      r
    else
      r
  }

  /** When no two field names collide after lower-casing, the lower-cased
      row keeps every field in place. */
  lemma LowercaseShapeKeepsColumns(row: Row, port: Portability)
    requires port.lowercase && Distinct(LoweredKeys(row))
    ensures var r := Shape(row, Assoc, port);
            && r.Named?
            && |r.entries| == |row|
            && forall i :: 0 <= i < |row| ==> r.entries[i] == (Lower(row[i].0), Normalize(port, row[i].1))
  {
    LowerKeysWithoutCollision(row);
  }

  /** `fetchInto($result, $arr, $fetchmode, $rownum)`. `native` gives the
      row ifx_fetch_row returns for an address (None when it fails or the
      rows are exhausted). An empty row counts as a failed fetch, as an
      empty PHP array is false. */
  function FetchInto(rownum: Option<int>, mode: FetchMode, port: Portability,
                     native: NativeAddress -> Option<Row>): (r: Fetched)
    ensures rownum.Some? && rownum.value < 0 ==> r == EndOfResults
    ensures rownum.None? ==>
              r == (if native(Next).None? || native(Next).value == [] then EndOfResults
                    else Fetched(Shape(native(Next).value, mode, port)))
    ensures rownum.Some? && rownum.value >= 0 ==>
              var a := Absolute(rownum.value + 1);
              r == (if native(a).None? || native(a).value == [] then EndOfResults
                    else Fetched(Shape(native(a).value, mode, port)))
  {
    match NativeAddressFor(rownum)
    case None => EndOfResults
    case Some(a) =>
      match native(a)
      case None => EndOfResults
      case Some(row) => if row == [] then EndOfResults else Fetched(Shape(row, mode, port))
  }

  /** A negative row number never reaches the native layer: the result is
      the same whatever the native layer would answer. */
  lemma NegativeRowIgnoresNative(k: int, mode: FetchMode, port: Portability,
                                 native1: NativeAddress -> Option<Row>, native2: NativeAddress -> Option<Row>)
    requires k < 0
    ensures FetchInto(Some(k), mode, port, native1) == FetchInto(Some(k), mode, port, native2) == EndOfResults
  {
  }

  /** The example row {"Name": "Bob  ", "Age": NULL}, fetched associatively
      with all three options, comes back as {"name": "Bob", "age": ""}. */
  lemma PortabilityExample(row: Row, port: Portability)
    requires row == [("Name", Str("Bob  ")), ("Age", Null)]
    requires port == Portability(true, true, true)
    ensures Shape(row, Assoc, port) == Named([("name", Str("Bob")), ("age", Str(""))])
  {
    LowerExample();
    assert LoweredKeys(row) == ["name", "age"];
    LowercaseShapeKeepsColumns(row, port);
    TrimExample();
    var r := Shape(row, Assoc, port);
    assert r.entries[0] == ("name", Str("Bob"));
    assert r.entries[1] == ("age", Str(""));
    PairOfEntries(r.entries);
  }

  lemma PairOfEntries(e: Row)
    requires |e| == 2
    ensures e == [e[0], e[1]]
  {
  }

  lemma LowerExample()
    ensures Lower("Name") == "name" && Lower("Age") == "age"
  {
    assert LowerChar('N') == 'n';
    assert LowerChar('A') == 'a';
  }

  lemma TrimExample()
    ensures RTrim("Bob  ") == "Bob"
  {
    assert RTrim("Bob") == "Bob";
    assert RTrim("Bob ") == "Bob";
  }
}
