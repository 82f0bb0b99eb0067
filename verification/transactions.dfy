/**
 The driver's query and transaction bookkeeping: simpleQuery, affectedRows,
 autoCommit, commit and rollback. The connection's mutable fields form an
 immutable Adapter record; each operation takes the record and the native
 outcomes it would see and returns the new record, its reply and the
 native calls it made.

 DB::isManip (whether a statement manipulates data) is not part of this
 model; it is passed in as a predicate on statement texts.
 */
module Transactions {
  import opened PhpValues
  import opened ErrorCodes
  import opened Native

  /** The per-connection state: the autocommit flag, the number of data
      manipulation statements run in the open transaction, the affected-row
      count of the last query (`null` is None) and the last query text. */
  datatype Adapter = Adapter(autocommit: bool, opcount: nat, affected: Option<int>, lastQuery: string)

  /** A new driver object: autocommit on, no transaction, `affected` 0. */
  const Fresh: Adapter := Adapter(true, 0, Some(0), "")

  /** What an operation hands back: DB_OK, a live result resource, or a DB error. */
  datatype Reply = Ok | Live(handle: Handle) | Error(kind: ErrorKind)

  datatype Step = Step(state: Adapter, reply: Reply, calls: seq<NativeCall>)

  const SelectWord: string := "select"

  /** "select", in any mix of letter case, starts at position `i` of `q`. */
  predicate SelectAt(q: string, i: int) {
    0 <= i && i + |SelectWord| <= |q| && Lower(q[i..i + |SelectWord|]) == SelectWord
  }

  /** `preg_match('/(SELECT)/i', $q)`: the word occurs somewhere in `q`. */
  ghost predicate MentionsSelect(q: string) {
    exists i :: SelectAt(q, i)
  }

  function ContainsSelectFrom(q: string, from: nat): (b: bool)
    ensures b <==> exists i :: from <= i && SelectAt(q, i)
    decreases |q| - from
  {
    if from + |SelectWord| > |q| then false
    else if SelectAt(q, from) then true
    else ContainsSelectFrom(q, from + 1)
  }

  /** The driver's read/manipulation split: a query is run as a read iff it
      mentions SELECT. */
  function IsSelect(q: string): (b: bool)
    ensures b <==> MentionsSelect(q)
  {
    ContainsSelectFrom(q, 0)
  }

  /** The query takes part in transaction bookkeeping: it is not a read, it
      manipulates data, and autocommit is off. */
  predicate CountsInTransaction(st: Adapter, query: string, isManip: string -> bool) {
    !IsSelect(query) && !st.autocommit && isManip(query)
  }

  /** The query needs a BEGIN WORK before it. */
  predicate NeedsBegin(st: Adapter, query: string, isManip: string -> bool) {
    CountsInTransaction(st, query, isManip) && st.opcount == 0
  }

  /** `simpleQuery($query)`. `begin` is what BEGIN WORK would give back and
      `exec` what running the query gives back; each is only consulted when
      the driver makes that call. */
  function SimpleQuery(st: Adapter, query: string, isManip: string -> bool,
                       begin: NativeResult, exec: NativeResult): (r: Step)
    // always recorded, never touched
    ensures r.state.lastQuery == query && r.state.autocommit == st.autocommit
    // reads: run with scrolling, handed back live, no bookkeeping
    ensures IsSelect(query) ==> r.state.opcount == st.opcount && r.calls == [Exec(query, true)]
    ensures IsSelect(query) && exec.Succeeded? ==>
              r.reply == Live(exec.handle) && r.state.affected == Some(exec.affectedRows)
    // BEGIN WORK is issued exactly when the counter is 0 and the query counts
    ensures BeginWork in r.calls <==> NeedsBegin(st, query, isManip)
    ensures forall c :: c in r.calls && IsControl(c) ==> c == BeginWork
    ensures NeedsBegin(st, query, isManip) && begin.Failed? ==>
              && r.reply == Error(ErrorCode(begin.diagnostic))
              && r.state.opcount == st.opcount
              && r.calls == [BeginWork]
    ensures CountsInTransaction(st, query, isManip) && !(NeedsBegin(st, query, isManip) && begin.Failed?) ==>
              r.state.opcount == st.opcount + 1
    ensures !CountsInTransaction(st, query, isManip) ==> r.state.opcount == st.opcount
    // everything else: run without scrolling, freed on success, never handed back
    ensures !IsSelect(query) ==> !r.reply.Live?
    ensures !IsSelect(query) && !(NeedsBegin(st, query, isManip) && begin.Failed?) ==>
              && Exec(query, false) in r.calls
              && (exec.Succeeded? ==> r.reply == Ok && r.state.affected == Some(exec.affectedRows))
    ensures !IsSelect(query) && !(NeedsBegin(st, query, isManip) && begin.Failed?) ==>
              r.calls == (if NeedsBegin(st, query, isManip) then [BeginWork] else []) + [Exec(query, false)]
                         + (if exec.Succeeded? then [Free(exec.handle)] else [])
    ensures forall h :: Free(h) in r.calls <==> !IsSelect(query) && r.reply == Ok && exec.Succeeded? && h == exec.handle
    // failures are translated, and leave `affected` null
    ensures exec.Failed? && !(NeedsBegin(st, query, isManip) && begin.Failed?) ==>
              r.reply == Error(ErrorCode(exec.diagnostic))
    ensures r.reply.Error? ==> r.state.affected == None
  {
    var st1 := st.(lastQuery := query, affected := None);
    if IsSelect(query) then
      match exec
      case Failed(d) => Step(st1, Error(ErrorCode(d)), [Exec(query, true)])
      case Succeeded(h, n) => Step(st1.(affected := Some(n)), Live(h), [Exec(query, true)])
    else if NeedsBegin(st, query, isManip) && begin.Failed? then
      Step(st1, Error(ErrorCode(begin.diagnostic)), [BeginWork])
    else
      var prelude := if NeedsBegin(st, query, isManip) then [BeginWork] else [];
      var st2 := if CountsInTransaction(st, query, isManip) then st1.(opcount := st.opcount + 1) else st1;
      match exec
      case Failed(d) => Step(st2, Error(ErrorCode(d)), prelude + [Exec(query, false)])
      case Succeeded(h, n) => Step(st2.(affected := Some(n)), Ok, prelude + [Exec(query, false), Free(h)])
  }

  /** `affectedRows()`: the recorded count when the last query manipulates
      data, 0 otherwise. */
  function AffectedRows(st: Adapter, isManip: string -> bool): (n: Option<int>)
    ensures !isManip(st.lastQuery) ==> n == Some(0)
    ensures isManip(st.lastQuery) ==> n == st.affected
  {
    if isManip(st.lastQuery) then st.affected else Some(0)
  }

  /** `autoCommit($onoff)`: flips the flag and nothing else; an open
      transaction stays open. */
  function AutoCommit(st: Adapter, on: bool): (r: Step)
    ensures r.state.autocommit == on
    ensures r.state.opcount == st.opcount
    ensures r.state == st.(autocommit := on)
    ensures r.reply == Ok && r.calls == []
  {
    Step(st.(autocommit := on), Ok, [])
  }

  /** commit and rollback: nothing to do without counted statements;
      otherwise issue `control`, forget the transaction whatever the
      outcome, and report a failure as a DB error. */
  function EndTransaction(st: Adapter, control: NativeCall, outcome: NativeResult): (r: Step)
    requires control.CommitWork? || control.RollbackWork?
    ensures st.opcount == 0 ==> r == Step(st, Ok, [])
    ensures st.opcount > 0 ==> r.state == st.(opcount := 0) && r.calls == [control]
    ensures st.opcount > 0 ==> (r.reply.Error? <==> outcome.Failed?)
    ensures st.opcount > 0 && outcome.Succeeded? ==> r.reply == Ok
    ensures st.opcount > 0 && outcome.Failed? ==> r.reply == Error(ErrorCode(outcome.diagnostic))
    ensures r.state.opcount == 0
  {
    if st.opcount == 0 then Step(st, Ok, [])
    else
      match outcome
      case Failed(d) => Step(st.(opcount := 0), Error(ErrorCode(d)), [control])
      case Succeeded(_, _) => Step(st.(opcount := 0), Ok, [control])
  }

  /** `commit()`. */
  function Commit(st: Adapter, outcome: NativeResult): (r: Step)
    ensures st.opcount == 0 ==> r == Step(st, Ok, [])
    ensures st.opcount > 0 ==> r.state == st.(opcount := 0) && r.calls == [CommitWork]
    ensures st.opcount > 0 ==> (r.reply.Error? <==> outcome.Failed?)
    ensures st.opcount > 0 && outcome.Succeeded? ==> r.reply == Ok
    ensures st.opcount > 0 && outcome.Failed? ==> r.reply == Error(ErrorCode(outcome.diagnostic))
  {
    EndTransaction(st, CommitWork, outcome)
  }

  /** `rollback()`. */
  function Rollback(st: Adapter, outcome: NativeResult): (r: Step)
    ensures st.opcount == 0 ==> r == Step(st, Ok, [])
    ensures st.opcount > 0 ==> r.state == st.(opcount := 0) && r.calls == [RollbackWork]
    ensures st.opcount > 0 ==> (r.reply.Error? <==> outcome.Failed?)
    ensures st.opcount > 0 && outcome.Succeeded? ==> r.reply == Ok
    ensures st.opcount > 0 && outcome.Failed? ==> r.reply == Error(ErrorCode(outcome.diagnostic))
  {
    EndTransaction(st, RollbackWork, outcome)
  }

  /** affectedRows after simpleQuery: the native count for a successful
      manipulation (also one run as a read because its text mentions
      SELECT), null after a failed one, 0 for anything else. */
  lemma AffectedRowsAfterQuery(st: Adapter, query: string, isManip: string -> bool,
                               begin: NativeResult, exec: NativeResult)
    ensures var r := SimpleQuery(st, query, isManip, begin, exec);
            && (!isManip(query) ==> AffectedRows(r.state, isManip) == Some(0))
            && (isManip(query) && r.reply.Error? ==> AffectedRows(r.state, isManip) == None)
            && (isManip(query) && !r.reply.Error? ==> AffectedRows(r.state, isManip) == Some(exec.affectedRows))
  {
  }

  /** A second commit right after a first one does nothing at all. */
  lemma CommitTwiceIsNoOp(st: Adapter, first: NativeResult, second: NativeResult)
    ensures Commit(Commit(st, first).state, second) == Step(Commit(st, first).state, Ok, [])
  {
  }

  /** Commit resets the counter even when COMMIT WORK fails, so a failed
      commit leaves no transaction on the driver's side. */
  lemma FailedCommitForgetsTransaction(st: Adapter, diagnostic: string)
    requires st.opcount > 0
    ensures var r := Commit(st, Failed(diagnostic));
            r.reply.Error? && r.state.opcount == 0 && r.calls == [CommitWork]
  {
  }

  /** "select" starts at `i` when each of the six characters there is the
      letter of the word in either case. */
  lemma SelectAtChars(q: string, i: nat)
    requires i + |SelectWord| <= |q|
    requires (q[i] == 's' || q[i] == 'S') && (q[i + 1] == 'e' || q[i + 1] == 'E')
    requires (q[i + 2] == 'l' || q[i + 2] == 'L') && (q[i + 3] == 'e' || q[i + 3] == 'E')
    requires (q[i + 4] == 'c' || q[i + 4] == 'C') && (q[i + 5] == 't' || q[i + 5] == 'T')
    ensures SelectAt(q, i)
  {
    var w := Lower(q[i..i + |SelectWord|]);
    assert w[0] == 's' && w[1] == 'e' && w[2] == 'l' && w[3] == 'e' && w[4] == 'c' && w[5] == 't';
  }

  /** A text without the letter c, in either case, never mentions SELECT. */
  lemma NoLetterCMeansNoSelect(q: string)
    requires 'c' !in q && 'C' !in q
    ensures !IsSelect(q)
  {
    forall i | 0 <= i && i + |SelectWord| <= |q|
      ensures !SelectAt(q, i)
    {
      assert q[i + 4] in q;
      assert Lower(q[i..i + |SelectWord|])[4] == LowerChar(q[i + 4]) != SelectWord[4];
    }
  }

  /** Reads are recognised by the word alone, whatever its case and position. */
  lemma ReadExamples(q1: string, q2: string)
    requires q1 == "select * from t" && q2 == "  SELECT id FROM t"
    ensures IsSelect(q1) && IsSelect(q2)
  {
    assert q1[0] == 's' && q1[1] == 'e' && q1[2] == 'l' && q1[3] == 'e' && q1[4] == 'c' && q1[5] == 't';
    SelectAtChars(q1, 0);
    assert q2[2] == 'S' && q2[3] == 'E' && q2[4] == 'L' && q2[5] == 'E' && q2[6] == 'C' && q2[7] == 'T';
    SelectAtChars(q2, 2);
  }

  /** Statements without the word are not reads. */
  lemma ManipulationExamples(q3: string, q4: string)
    requires q3 == "insert into t values (1)" && q4 == "update t set x=1"
    ensures !IsSelect(q3) && !IsSelect(q4)
  {
    NoLetterCMeansNoSelect(q3);
    NoLetterCMeansNoSelect(q4);
  }

  /** The test is a substring test: a manipulation statement whose text
      merely contains the word, here inside a table name, is run as a read
      and never counted in the transaction. */
  lemma SubstringMisclassifies(st: Adapter, q: string, isManip: string -> bool, begin: NativeResult, exec: NativeResult)
    requires q == "insert into selections values (1)"
    ensures IsSelect(q)
    ensures SimpleQuery(st, q, isManip, begin, exec).state.opcount == st.opcount
  {
    SelectAtChars(q, 12);
  }
}
