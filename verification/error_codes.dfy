/**
 Translation of Informix diagnostics into DB's portable error kinds.

 ifx_error() yields a diagnostic such as `E [SQLSTATE=42000 SQLCODE=-201]`.
 The driver matches it against the POSIX extended expression
 `SQLCODE=(.*)]`, takes the captured text as the native code and looks it
 up in a fixed table; anything it cannot find is the generic DB_ERROR.
 POSIX matching picks the leftmost match and, from there, the longest one,
 so the capture runs from the first usable `SQLCODE=` to the LAST `]` of
 the diagnostic. The matcher reads its subject as a C string, so nothing
 after a NUL is seen.
 */
module ErrorCodes {
  import opened PhpValues

  /** The portable DB_ERROR_* kinds this driver can report. */
  datatype ErrorKind =
    | Generic             // DB_ERROR: no better kind is known
    | Syntax              // DB_ERROR_SYNTAX
    | NoSuchTable         // DB_ERROR_NOSUCHTABLE
    | NoSuchField         // DB_ERROR_NOSUCHFIELD
    | Constraint          // DB_ERROR_CONSTRAINT
    | ConstraintNotNull   // DB_ERROR_CONSTRAINT_NOT_NULL
    | AlreadyExists       // DB_ERROR_ALREADY_EXISTS
    | NoDbSelected        // DB_ERROR_NODBSELECTED
    | InvalidDate         // DB_ERROR_INVALID_DATE
    | InvalidNumber       // DB_ERROR_INVALID_NUMBER
    | NeedMoreData        // DB_ERROR_NEED_MORE_DATA: tableInfo got no result resource
    | DuplicateFieldNames // tableInfo: "can't distinguish duplicate field names"

  /** Informix SQLCODE values and the portable kind each one stands for. */
  const ErrorCodeMap: map<string, ErrorKind> := map[
    "-201" := Syntax,
    "-206" := NoSuchTable,
    "-217" := NoSuchField,
    "-239" := Constraint,
    "-253" := Syntax,
    "-292" := ConstraintNotNull,
    "-310" := AlreadyExists,
    "-329" := NoDbSelected,
    "-346" := Constraint,
    "-386" := ConstraintNotNull,
    "-391" := ConstraintNotNull,
    "-554" := Syntax,
    "-691" := Constraint,
    "-703" := ConstraintNotNull,
    "-1204" := InvalidDate,
    "-1205" := InvalidDate,
    "-1206" := InvalidDate,
    "-1209" := InvalidDate,
    "-1210" := InvalidDate,
    "-1212" := InvalidDate,
    "-1213" := InvalidNumber
  ]

  const Marker: string := "SQLCODE="

  predicate MarkerAt(s: string, i: int) {
    0 <= i && i + |Marker| <= |s| && s[i..i + |Marker|] == Marker
  }

  /** `SQLCODE=(.*)]` matches `s[i..j + 1]`: the marker starts at `i` and
      the closing bracket sits at `j`. */
  ghost predicate IsMatch(s: string, i: int, j: int) {
    MarkerAt(s, i) && i + |Marker| <= j < |s| && s[j] == ']'
  }

  /** The match a POSIX matcher reports: the leftmost start and, among the
      matches from that start, the longest. */
  ghost predicate IsChosenMatch(s: string, i: int, j: int) {
    && IsMatch(s, i, j)
    && forall i', j' :: IsMatch(s, i', j') ==> i < i' || (i == i' && j' <= j)
  }

  /** The text the group `(.*)` captures for a match. */
  ghost function Captured(s: string, i: int, j: int): string
    requires IsMatch(s, i, j)
  {
    s[i + |Marker|..j]
  }

  /** The first position at or after `from` where the marker starts. */
  function FirstMarker(s: string, from: nat): (r: Option<nat>)
    ensures r.Some? ==> from <= r.value && MarkerAt(s, r.value)
    ensures r.Some? ==> forall k :: from <= k < r.value ==> !MarkerAt(s, k)
    ensures r.None? ==> forall k :: from <= k ==> !MarkerAt(s, k)
    decreases |s| - from
  {
    if from + |Marker| > |s| then None
    else if MarkerAt(s, from) then Some(from)
    else FirstMarker(s, from + 1)
  }

  /** The position of the last `]` in `s`. */
  function LastBracket(s: string): (r: Option<nat>)
    ensures r.Some? ==> r.value < |s| && s[r.value] == ']'
    ensures r.Some? ==> forall k :: r.value < k < |s| ==> s[k] != ']'
    ensures r.None? ==> forall k :: 0 <= k < |s| ==> s[k] != ']'
  {
    if |s| == 0 then None
    else if s[|s| - 1] == ']' then Some(|s| - 1)
    else LastBracket(s[..|s| - 1])
  }

  const Nul: char := 0 as char

  /** The text before the first NUL of `s`: `ereg` hands its subject to the
      C matcher as a NUL-terminated string, so this is all it reads. */
  function CString(s: string): (r: string)
    ensures r <= s
    ensures Nul !in r
    ensures |r| < |s| ==> s[|r|] == Nul
    ensures forall k :: 0 <= k < |s| && s[k] == Nul ==> |r| <= k
    ensures Nul !in s ==> r == s
  {
    if |s| == 0 || s[0] == Nul then [] else [s[0]] + CString(s[1..])
  }

  /** `ereg('SQLCODE=(.*)]', $s, $match)` and `$match[1]` on a subject
      without NUL: the capture of the chosen match, or None when the
      pattern does not match at all. */
  function ExtractSqlCode(s: string): (r: Option<string>)
    ensures r.None? <==> forall i, j :: !IsMatch(s, i, j)
    ensures r.Some? ==> exists i, j :: IsChosenMatch(s, i, j) && r.value == Captured(s, i, j)
  {
    var first := FirstMarker(s, 0);
    var last := LastBracket(s);
    if first.Some? && last.Some? && first.value + |Marker| <= last.value then
      assert IsChosenMatch(s, first.value, last.value);
      Some(s[first.value + |Marker|..last.value])
    else
      None
  }

  /** There is at most one chosen match. */
  lemma ChosenMatchUnique(s: string, i: int, j: int, i': int, j': int)
    requires IsChosenMatch(s, i, j) && IsChosenMatch(s, i', j')
    ensures i == i' && j == j'
  {
  }

  /** The capture of the chosen match is what is extracted. */
  lemma ChosenMatchExtracted(s: string, i: int, j: int)
    requires IsChosenMatch(s, i, j)
    ensures ExtractSqlCode(s) == Some(Captured(s, i, j))
  {
    var i', j' :| IsChosenMatch(s, i', j') && ExtractSqlCode(s).value == Captured(s, i', j');
    ChosenMatchUnique(s, i, j, i', j');
  }

  /** `errorCode($nativecode)`: the mapped kind of the code captured from
      the diagnostic up to its first NUL, or the generic kind when the
      pattern does not match there or the code is not in the table. */
  function ErrorCode(diagnostic: string): (k: ErrorKind)
    ensures var s := CString(diagnostic);
            forall i, j :: IsChosenMatch(s, i, j) && Captured(s, i, j) in ErrorCodeMap ==>
                             k == ErrorCodeMap[Captured(s, i, j)]
    ensures var s := CString(diagnostic);
            (forall i, j :: IsChosenMatch(s, i, j) ==> Captured(s, i, j) !in ErrorCodeMap) ==>
              k == Generic
    ensures k in ErrorCodeMap.Values || k == Generic
  {
    var subject := CString(diagnostic);
    var code := ExtractSqlCode(subject);
    assert forall i, j :: IsChosenMatch(subject, i, j) ==> code == Some(Captured(subject, i, j)) by {
      forall i, j | IsChosenMatch(subject, i, j)
        ensures code == Some(Captured(subject, i, j))
      {
        ChosenMatchExtracted(subject, i, j);
      }
    }
    if code.Some? && code.value in ErrorCodeMap then
      ErrorCodeMap[code.value]
    else
      Generic
  }

  /** No code in the table contains a `]` or a NUL. */
  lemma MappedCodesAreBare()
    ensures forall c :: c in ErrorCodeMap ==> ']' !in c && Nul !in c
  {
  }

  /** A diagnostic that ends in `SQLCODE=<code>]`, with no earlier marker
      and no `]` inside the code, translates to the mapped kind of `code`
      when the table has it and to the generic kind otherwise, unless a
      NUL cuts the marker or the bracket off, which leaves the generic
      kind. */
  lemma {:induction false} TranslateDiagnostic(prefix: string, code: string)
    requires ']' !in code
    requires forall k :: 0 <= k < |prefix| ==> !MarkerAt(prefix + Marker + code + "]", k)
    ensures ErrorCode(prefix + Marker + code + "]") ==
              if Nul in prefix + code then Generic
              else if code in ErrorCodeMap then ErrorCodeMap[code] else Generic
  {
    var s := prefix + Marker + code + "]";
    if Nul in prefix + code {
      NulHidesMatch(prefix, code);
    } else {
      assert Nul !in s by {
        assert s == (prefix + code)[..|prefix|] + Marker + (prefix + code)[|prefix|..] + "]";
      }
      var i := |prefix|;
      var j := |s| - 1;
      assert s[i..i + |Marker|] == Marker;
      assert IsMatch(s, i, j);
      assert s[i + |Marker|..j] == code;
      assert IsChosenMatch(s, i, j);
    }
  }

  /** A NUL at `m` hides every match of the text after it: with no marker
      before `p` and no `]` from `p + |Marker|` up to `m`, the text `ereg`
      reads holds no match at all. */
  lemma NoMatchBeforeNul(s: string, p: nat, m: nat)
    requires m < |s| && s[m] == Nul
    requires forall k :: 0 <= k < p ==> !MarkerAt(s, k)
    requires forall k :: p + |Marker| <= k < m ==> s[k] != ']'
    ensures forall i, j :: !IsMatch(CString(s), i, j)
  {
    var c := CString(s);
    forall i | MarkerAt(c, i)
      ensures MarkerAt(s, i)
    {
      assert c[i..i + |Marker|] == s[i..i + |Marker|];
    }
  }

  /** With a NUL in the prefix or the code, the text `ereg` reads of such a
      diagnostic holds no match at all. */
  lemma NulHidesMatch(prefix: string, code: string)
    requires ']' !in code
    requires forall k :: 0 <= k < |prefix| ==> !MarkerAt(prefix + Marker + code + "]", k)
    requires Nul in prefix + code
    ensures forall i, j :: !IsMatch(CString(prefix + Marker + code + "]"), i, j)
  {
    var m := NulPosition(prefix, code);
    NoMatchBeforeNul(prefix + Marker + code + "]", |prefix|, m);
  }

  /** Where a NUL of the prefix or the code sits in the diagnostic; no `]`
      lies between the marker and it. */
  lemma NulPosition(prefix: string, code: string) returns (m: nat)
    requires ']' !in code
    requires Nul in prefix + code
    ensures var s := prefix + Marker + code + "]";
            m < |s| && s[m] == Nul && forall k :: |prefix| + |Marker| <= k < m ==> s[k] != ']'
  {
    var s := prefix + Marker + code + "]";
    var n :| 0 <= n < |prefix + code| && (prefix + code)[n] == Nul;
    m := if n < |prefix| then n else n + |Marker|;
    if n < |prefix| {
      assert s[n] == prefix[n];
    } else {
      assert s[m] == code[n - |prefix|];
    }
    forall k | |prefix| + |Marker| <= k < m
      ensures s[k] != ']'
    {
      assert s[k] == code[k - |prefix| - |Marker|];
    }
  }

  /** Every code of the table, in a diagnostic of the usual Informix shape,
      translates to its mapped kind. */
  lemma MappedCodeTranslates(code: string)
    requires code in ErrorCodeMap
    ensures ErrorCode("E [SQLSTATE=IX000 " + Marker + code + "]") == ErrorCodeMap[code]
  {
    MappedCodesAreBare();
    var prefix := "E [SQLSTATE=IX000 ";
    var s := prefix + Marker + code + "]";
    // the fourth character of a marker is a 'C', and none occurs that early
    var early := prefix + Marker[..3];
    assert 'C' !in early;
    forall k | 0 <= k < |prefix|
      ensures !MarkerAt(s, k)
    {
      assert s[k + 3] == early[k + 3] && early[k + 3] in early;
      assert s[k..k + |Marker|][3] == s[k + 3] != Marker[3];
    }
    assert Nul !in prefix + code by {
      assert Nul !in early;
      forall k | 0 <= k < |prefix| ensures prefix[k] != Nul {
        assert prefix[k] == early[k] && early[k] in early;
      }
    }
    TranslateDiagnostic(prefix, code);
  }

  /** The capture is greedy: a second `]` later in the diagnostic is
      swallowed into the code, which then is not found in the table, even
      when the code before the first `]` is. */
  lemma GreedyCaptureMissesCode(code: string)
    requires Nul !in code
    ensures ErrorCode(Marker + code + "] near ]") == Generic
  {
    var tail := "] near ]";
    var s := Marker + code + tail;
    assert Nul !in Marker && Nul !in tail;
    assert CString(s) == s;
    assert s[..|Marker|] == Marker;
    var j := |s| - 1;
    ChosenMatchFromStart(s);
    var cap := Captured(s, 0, j);
    assert cap[|code|] == tail[0] == ']';
    BracketedCodeUnmapped(cap);
    forall i, j' | IsChosenMatch(s, i, j')
      ensures Captured(s, i, j') !in ErrorCodeMap
    {
      ChosenMatchUnique(s, i, j', 0, j);
    }
  }

  /** A code holding a `]` is not in the table. */
  lemma BracketedCodeUnmapped(c: string)
    requires ']' in c
    ensures c !in ErrorCodeMap
  {
    MappedCodesAreBare();
  }

  /** A diagnostic that starts with the marker and ends in `]` is matched
      whole. */
  lemma ChosenMatchFromStart(s: string)
    requires MarkerAt(s, 0) && |Marker| < |s| && s[|s| - 1] == ']'
    ensures IsChosenMatch(s, 0, |s| - 1)
  {
  }

  /** A NUL ahead of the marker hides it from the matcher: the code after
      it is never looked up. */
  lemma NulBeforeMarkerIsGeneric()
    ensures ErrorCode([Nul] + Marker + "-201]") == Generic
  {
    assert CString([Nul] + Marker + "-201]") == [];
  }
}
