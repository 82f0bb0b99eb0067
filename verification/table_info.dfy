/**
 Column metadata: `tableInfo`. Given a table name the driver runs a probe
 query that returns no rows; given a result it uses that result. The
 native layer reports each field's properties as a `;`-separated string
 (type;length;...;nullability at position 4) and, separately, the number
 of columns. When both counts differ, two fields had the same name and the
 driver refuses to describe them.
 */
module TableInfo {
  import opened PhpValues
  import opened ErrorCodes
  import opened Native

  /** What tableInfo is asked about: a table name, a result resource, or
      something that is neither. */
  datatype Subject = TableName(name: string) | Resource(handle: Handle) | NotResource

  /** A falsy mode gives the flat list; any other mode gives the full
      description, with the DB_TABLEINFO_ORDER and DB_TABLEINFO_ORDERTABLE
      indices when their bits are set. */
  datatype InfoMode = Flat | Full(order: bool, orderTable: bool)

  /** One field: owning table ('' unless a table name was given), name,
      native type, length (null when the property string has no second
      part) and flags ('not_null' or ''). */
  datatype Descriptor = Descriptor(table: string, name: string, typ: string, len: Option<string>, flags: string)

  /** The description: the fields in column order and, in full mode, the
      column count and the requested name-to-position indices. */
  datatype Info = Info(fields: seq<Descriptor>,
                       numFields: Option<int>,
                       order: Option<map<string, nat>>,
                       orderTable: Option<map<string, map<string, nat>>>)

  /** The description, null (the flat list of no fields is never created),
      or an error. */
  datatype InfoReply = Described(info: Info) | Nothing | Failure(kind: ErrorKind)

  datatype InfoStep = InfoStep(reply: InfoReply, calls: seq<NativeCall>)

  /** `implode($sep, $parts)`. */
  function Join(parts: seq<string>, sep: char): string
    requires |parts| >= 1
  {
    if |parts| == 1 then parts[0] else parts[0] + [sep] + Join(parts[1..], sep)
  }

  /** `explode($sep, $s)`: the pieces between separators, at least one. */
  function Split(s: string, sep: char): (parts: seq<string>)
    ensures |parts| >= 1
    ensures forall i :: 0 <= i < |parts| ==> sep !in parts[i]
    ensures Join(parts, sep) == s
  {
    if |s| == 0 then [""]
    else
      var rest := Split(s[1..], sep);
      if s[0] == sep then
        var parts := [""] + rest;
        assert parts[1..] == rest;
        parts
      else
        var parts := [[s[0]] + rest[0]] + rest[1..];
        assert |rest| > 1 ==> parts[1..] == rest[1..] && Join(rest, sep) == rest[0] + [sep] + Join(rest[1..], sep);
        assert s == [s[0]] + s[1..];
        parts
  }

  /** Pieces without separators are determined by their joined text. */
  lemma {:induction false} JoinInjective(p: seq<string>, q: seq<string>, sep: char)
    requires |p| >= 1 && |q| >= 1
    requires forall i :: 0 <= i < |p| ==> sep !in p[i]
    requires forall i :: 0 <= i < |q| ==> sep !in q[i]
    requires Join(p, sep) == Join(q, sep)
    ensures p == q
    decreases |p|
  {
    JoinedHasSeparator(p, sep);
    JoinedHasSeparator(q, sep);
    if |p| == 1 {
      assert p == [p[0]] && q == [q[0]];
    } else {
      var a := p[0];
      var b := q[0];
      SeparatedPrefix(a, b, Join(p[1..], sep), Join(q[1..], sep), sep);
      JoinInjective(p[1..], q[1..], sep);
      assert p == [a] + p[1..];
      assert q == [b] + q[1..];
    }
  }

  /** Joined separator-free pieces contain a separator iff there are at
      least two pieces. */
  lemma JoinedHasSeparator(parts: seq<string>, sep: char)
    requires |parts| >= 1
    requires forall i :: 0 <= i < |parts| ==> sep !in parts[i]
    ensures sep in Join(parts, sep) <==> |parts| > 1
  {
    if |parts| > 1 {
      assert Join(parts, sep)[|parts[0]|] == sep;
    }
  }

  /** Two texts that each start with a separator-free piece followed by a
      separator have equal first pieces and equal remainders. */
  lemma SeparatedPrefix(a: string, b: string, ra: string, rb: string, sep: char)
    requires sep !in a && sep !in b
    requires a + [sep] + ra == b + [sep] + rb
    ensures a == b && ra == rb
  {
    var s := a + [sep] + ra;
    forall k | 0 <= k < |a|
      ensures s[k] != sep
    {
      assert s[k] == a[k];
    }
    forall k | 0 <= k < |b|
      ensures s[k] != sep
    {
      assert s[k] == b[k];
    }
    assert s[|a|] == sep && s[|b|] == sep;
    assert |a| == |b|;
    assert a == s[..|a|] == b;
    assert ra == s[|a| + 1..] == rb;
  }

  /** explode undoes implode for pieces without separators. */
  lemma SplitJoin(parts: seq<string>, sep: char)
    requires |parts| >= 1
    requires forall i :: 0 <= i < |parts| ==> sep !in parts[i]
    ensures Split(Join(parts, sep), sep) == parts
  {
    JoinInjective(Split(Join(parts, sep), sep), parts, sep);
  }

  /** `$props[$i]`: null when the property string has fewer parts. */
  function Part(props: seq<string>, i: nat): Option<string> {
    if i < |props| then Some(props[i]) else None
  }

  /** The field is declared NOT NULL: its fifth property is 'N'. */
  predicate NotNullProperty(properties: string) {
    Part(Split(properties, ';'), 4) == Some("N")
  }

  /** strtolower under the LOWERCASE option, strval otherwise. */
  function CaseOf(lowercase: bool, s: string): string {
    if lowercase then Lower(s) else s
  }

  /** The zero-row query run against a table name. */
  function ProbeQuery(table: string): string {
    "SELECT * FROM " + table + " WHERE 1=0"
  }

  /** One descriptor: the type is the text before the first `;`, the
      length is absent exactly when there is no `;` at all. */
  function Describe(table: string, name: string, properties: string): (d: Descriptor)
    ensures d.table == table && d.name == name
    ensures |d.typ| <= |properties| && d.typ == properties[..|d.typ|] && ';' !in d.typ
    ensures |d.typ| < |properties| ==> properties[|d.typ|] == ';'
    ensures d.len.None? <==> ';' !in properties
    ensures d.flags == (if NotNullProperty(properties) then "not_null" else "")
  {
    var props := Split(properties, ';');
    assert |props| == 1 ==> properties == props[0];
    assert |props| > 1 ==> properties == props[0] + [';'] + Join(props[1..], ';');
    Descriptor(table, name, props[0], Part(props, 1), if Part(props, 4) == Some("N") then "not_null" else "")
  }

  /** A property string assembled from its parts is read back part by
      part: the type is the first part, the length the second and the
      nullability the fifth. */
  lemma DescribeJoined(table: string, name: string, parts: seq<string>)
    requires |parts| >= 1
    requires forall i :: 0 <= i < |parts| ==> ';' !in parts[i]
    ensures var d := Describe(table, name, Join(parts, ';'));
            && d.typ == parts[0]
            && d.len == Part(parts, 1)
            && (d.flags == "not_null" <==> Part(parts, 4) == Some("N"))
  {
    SplitJoin(parts, ';');
  }

  /** Field name to position, the last position winning for a repeated
      name, as `$res['order'][$name] = $i` in a loop does. */
  function OrderMap(names: seq<string>): (m: map<string, nat>)
    ensures forall i :: 0 <= i < |names| ==> names[i] in m
    ensures forall n :: n in m ==> m[n] < |names| && names[m[n]] == n
    ensures forall n :: n in m ==> forall j :: m[n] < j < |names| ==> names[j] != n
  {
    map n | n in names :: LastIndex(names, n).value
  }

  /** The names of a list of descriptors. */
  function Names(fields: seq<Descriptor>): (ns: seq<string>)
    ensures |ns| == |fields|
    ensures forall i :: 0 <= i < |fields| ==> ns[i] == fields[i].name
  {
    seq(|fields|, i requires 0 <= i < |fields| => fields[i].name)
  }

  /** The owning table put into every descriptor: the (case-adjusted)
      table name when one was given, '' otherwise. */
  function TableOf(subject: Subject, lowercase: bool): string {
    if subject.TableName? then CaseOf(lowercase, subject.name) else ""
  }

  /** One descriptor per field, in column order. */
  function DescribeFields(table: string, lowercase: bool, flds: seq<(string, string)>): (fields: seq<Descriptor>)
    ensures |fields| == |flds|
    ensures forall i :: 0 <= i < |flds| ==> fields[i] == Describe(table, CaseOf(lowercase, flds[i].0), flds[i].1)
  {
    seq(|flds|, i requires 0 <= i < |flds| => Describe(table, CaseOf(lowercase, flds[i].0), flds[i].1))
  }

  /** The description for a mode: the flat list, or the full one with the
      column count and the requested indices. The indices only come into
      being when there is at least one field. */
  function Assemble(mode: InfoMode, table: string, fields: seq<Descriptor>, count: int): (info: Info)
    ensures info.fields == fields
    ensures mode.Flat? ==> info.numFields.None? && info.order.None? && info.orderTable.None?
    ensures mode.Full? ==> info.numFields == Some(count)
    ensures info.order.Some? <==> mode.Full? && mode.order && |fields| > 0
    ensures info.orderTable.Some? <==> mode.Full? && mode.orderTable && |fields| > 0
    ensures info.order.Some? ==> info.order.value == OrderMap(Names(fields))
    ensures info.orderTable.Some? ==> info.orderTable.value == map[table := OrderMap(Names(fields))]
  {
    match mode
    case Flat => Info(fields, None, None, None)
    case Full(o, ot) =>
      var order := OrderMap(Names(fields));
      Info(fields, Some(count),
           if o && |fields| > 0 then Some(order) else None,
           if ot && |fields| > 0 then Some(map[table := order]) else None)
  }

  /** `tableInfo($result, $mode)`. `probe` is what the probe query gives
      back for a table name; `flds` is what ifx_fieldproperties reports
      (field name and property string, in column order) and `count` what
      ifx_num_fields reports. */
  function DescribeSubject(subject: Subject, mode: InfoMode, lowercase: bool, probe: Option<Handle>,
                     flds: seq<(string, string)>, count: int): (r: InfoStep)
    // no result resource to look at
    ensures subject.NotResource? || (subject.TableName? && probe.None?) ==> r.reply == Failure(NeedMoreData)
    // the two native counts disagree
    ensures (subject.Resource? || (subject.TableName? && probe.Some?)) && |flds| != count ==>
              r.reply == Failure(DuplicateFieldNames)
    // otherwise one descriptor per field, in order, assembled for the mode;
    // the flat list of no fields is null
    ensures r.reply.Nothing? <==> (subject.Resource? || (subject.TableName? && probe.Some?)) && |flds| == count
                                  && mode.Flat? && |flds| == 0
    ensures r.reply.Described? <==> (subject.Resource? || (subject.TableName? && probe.Some?)) && |flds| == count
                                    && (mode.Full? || |flds| > 0)
    ensures r.reply.Described? ==>
              r.reply.info == Assemble(mode, TableOf(subject, lowercase),
                                       DescribeFields(TableOf(subject, lowercase), lowercase, flds), count)
    // the probe is run for a table name only, and freed only when the
    // counts agree
    ensures subject.TableName? ==> |r.calls| >= 1 && r.calls[0] == Exec(ProbeQuery(subject.name), false)
    ensures !subject.TableName? ==> r.calls == []
    ensures r.calls == (if subject.TableName? then [Exec(ProbeQuery(subject.name), false)] else [])
                       + (if subject.TableName? && !r.reply.Failure? then [Free(probe.value)] else [])
    ensures forall h :: Free(h) in r.calls <==> subject.TableName? && !r.reply.Failure? && probe == Some(h)
  {
    var probeCalls := if subject.TableName? then [Exec(ProbeQuery(subject.name), false)] else [];
    var id := match subject
      case TableName(_) => probe
      case Resource(h) => Some(h)
      case NotResource => None;
    if id.None? then InfoStep(Failure(NeedMoreData), probeCalls)
    else if |flds| != count then InfoStep(Failure(DuplicateFieldNames), probeCalls)
    else
      var table := TableOf(subject, lowercase);
      var info := Assemble(mode, table, DescribeFields(table, lowercase, flds), count);
      var reply := if mode.Flat? && |flds| == 0 then Nothing else Described(info);
      InfoStep(reply, probeCalls + (if subject.TableName? then [Free(id.value)] else []))
  }

  /** In full mode with DB_TABLEINFO_ORDER, each name maps to the position
      of its last field, and every field's name is indexed. */
  lemma OrderIndexesFields(subject: Subject, mode: InfoMode, lowercase: bool, probe: Option<Handle>,
                           flds: seq<(string, string)>, count: int)
    requires var r := DescribeSubject(subject, mode, lowercase, probe, flds, count);
             r.reply.Described? && r.reply.info.order.Some?
    ensures var info := DescribeSubject(subject, mode, lowercase, probe, flds, count).reply.info;
            && info.numFields == Some(|info.fields|)
            && (forall i :: 0 <= i < |info.fields| ==> info.fields[i].name in info.order.value)
            && (forall n :: n in info.order.value ==>
                  && info.order.value[n] < |info.fields|
                  && info.fields[info.order.value[n]].name == n
                  && forall j :: info.order.value[n] < j < |info.fields| ==> info.fields[j].name != n)
  {
  }
}
