/**
 Sequences of driver calls on one connection, replayed from a starting
 state, and the properties that only show across several calls: the
 counter of a run of manipulation statements, the single BEGIN WORK that
 opens it, and the agreement between the counter and the transaction
 statements actually sent.
 */
module Sessions {
  import opened PhpValues
  import opened Native
  import opened Transactions

  /** One call on the connection, with the native outcomes it meets. */
  datatype Op =
    | Query(query: string, begin: NativeResult, exec: NativeResult)
    | SetAutoCommit(on: bool)
    | CommitOp(outcome: NativeResult)
    | RollbackOp(outcome: NativeResult)

  function Apply(st: Adapter, op: Op, isManip: string -> bool): Step {
    match op
    case Query(q, b, e) => SimpleQuery(st, q, isManip, b, e)
    case SetAutoCommit(on) => AutoCommit(st, on)
    case CommitOp(o) => Commit(st, o)
    case RollbackOp(o) => Rollback(st, o)
  }

  /** Runs `ops` in order from `st`: the final state, the last reply and
      every native call made, in order. */
  function Replay(st: Adapter, ops: seq<Op>, isManip: string -> bool): Step
    decreases |ops|
  {
    if |ops| == 0 then Step(st, Ok, [])
    else
      var prev := Replay(st, ops[..|ops| - 1], isManip);
      var last := Apply(prev.state, ops[|ops| - 1], isManip);
      Step(last.state, last.reply, prev.calls + last.calls)
  }

  /** The last transaction statement sent, if any. */
  function LastControl(calls: seq<NativeCall>): (r: Option<NativeCall>)
    ensures r.Some? ==> IsControl(r.value) && r.value in calls
    ensures r.None? <==> forall i :: 0 <= i < |calls| ==> !IsControl(calls[i])
  {
    if |calls| == 0 then None
    else if IsControl(calls[|calls| - 1]) then Some(calls[|calls| - 1])
    else LastControl(calls[..|calls| - 1])
  }

  lemma {:induction false} LastControlConcat(a: seq<NativeCall>, b: seq<NativeCall>)
    ensures LastControl(a + b) == if LastControl(b).Some? then LastControl(b) else LastControl(a)
  {
    if |b| > 0 {
      assert (a + b)[..|a + b| - 1] == a + b[..|b| - 1];
      LastControlConcat(a, b[..|b| - 1]);
    } else {
      assert a + b == a;
    }
  }

  /** The counter is positive only while the last transaction statement
      the driver issued itself (BEGIN, COMMIT or ROLLBACK WORK) was a BEGIN
      WORK. The same words sent as query text are ordinary statements and
      do not count. */
  ghost predicate CounterMatchesCalls(st: Adapter, calls: seq<NativeCall>) {
    st.opcount > 0 ==> LastControl(calls) == Some(BeginWork)
  }

  lemma ApplyKeepsCounterMatching(st: Adapter, op: Op, isManip: string -> bool, calls: seq<NativeCall>)
    requires CounterMatchesCalls(st, calls)
    ensures var r := Apply(st, op, isManip);
            CounterMatchesCalls(r.state, calls + r.calls)
  {
    var r := Apply(st, op, isManip);
    LastControlConcat(calls, r.calls);
    if op.Query? && NeedsBegin(st, op.query, isManip) && op.begin.Succeeded? {
      assert BeginWork in r.calls;
      assert LastControl(r.calls) == Some(BeginWork);
    }
  }

  /** Whatever the driver is asked to do and whatever the native layer
      answers, the counter never claims a transaction that no BEGIN WORK of
      the driver's opened, or that the driver's own commit or rollback
      already closed. */
  lemma {:induction false} ReplayKeepsCounterMatching(st: Adapter, ops: seq<Op>, isManip: string -> bool,
                                                      calls: seq<NativeCall>)
    requires CounterMatchesCalls(st, calls)
    ensures var r := Replay(st, ops, isManip);
            CounterMatchesCalls(r.state, calls + r.calls)
    decreases |ops|
  {
    if |ops| > 0 {
      var prev := Replay(st, ops[..|ops| - 1], isManip);
      ReplayKeepsCounterMatching(st, ops[..|ops| - 1], isManip, calls);
      var last := Apply(prev.state, ops[|ops| - 1], isManip);
      ApplyKeepsCounterMatching(prev.state, ops[|ops| - 1], isManip, calls + prev.calls);
      var r := Replay(st, ops, isManip);
      assert r.state == last.state && r.calls == prev.calls + last.calls;
      AppendAssoc(calls, prev.calls, last.calls);
    } else {
      assert calls + Replay(st, ops, isManip).calls == calls;
    }
  }

  lemma AppendAssoc<T>(a: seq<T>, b: seq<T>, c: seq<T>)
    ensures a + (b + c) == a + b + c
  {
  }

  /** From a fresh connection the counter always matches the calls made. */
  lemma FreshSessionCounterMatches(ops: seq<Op>, isManip: string -> bool)
    ensures var r := Replay(Fresh, ops, isManip);
            r.state.opcount > 0 ==> LastControl(r.calls) == Some(BeginWork)
  {
    ReplayKeepsCounterMatching(Fresh, ops, isManip, []);
    assert [] + Replay(Fresh, ops, isManip).calls == Replay(Fresh, ops, isManip).calls;
  }

  /** The number of BEGIN WORK statements in `calls`. */
  function CountBegins(calls: seq<NativeCall>): nat {
    if |calls| == 0 then 0
    else CountBegins(calls[..|calls| - 1]) + (if calls[|calls| - 1] == BeginWork then 1 else 0)
  }

  lemma {:induction false} CountBeginsConcat(a: seq<NativeCall>, b: seq<NativeCall>)
    ensures CountBegins(a + b) == CountBegins(a) + CountBegins(b)
  {
    if |b| > 0 {
      assert (a + b)[..|a + b| - 1] == a + b[..|b| - 1];
      CountBeginsConcat(a, b[..|b| - 1]);
    } else {
      assert a + b == a;
    }
  }

  lemma {:induction false} CountBeginsAbsent(calls: seq<NativeCall>)
    requires BeginWork !in calls
    ensures CountBegins(calls) == 0
  {
    if |calls| > 0 {
      CountBeginsAbsent(calls[..|calls| - 1]);
    }
  }

  /** Every op is a successful-to-open query that manipulates data and is
      not a read. */
  ghost predicate ManipulationRun(ops: seq<Op>, isManip: string -> bool) {
    forall i :: 0 <= i < |ops| ==>
      && ops[i].Query?
      && !IsSelect(ops[i].query)
      && isManip(ops[i].query)
      && ops[i].begin.Succeeded?
  }

  /** One manipulation statement with autocommit off: the counter goes up
      by one, and BEGIN WORK is sent first exactly when it was 0. */
  lemma ManipulationStep(st: Adapter, op: Op, isManip: string -> bool)
    requires !st.autocommit
    requires op.Query? && !IsSelect(op.query) && isManip(op.query) && op.begin.Succeeded?
    ensures var r := SimpleQuery(st, op.query, isManip, op.begin, op.exec);
            && !r.state.autocommit
            && r.state.opcount == st.opcount + 1
            && CountBegins(r.calls) == (if st.opcount == 0 then 1 else 0)
            && (st.opcount == 0 ==> |r.calls| > 0 && r.calls[0] == BeginWork)
  {
    var r := SimpleQuery(st, op.query, isManip, op.begin, op.exec);
    if st.opcount == 0 {
      var tail := r.calls[1..];
      assert r.calls == [BeginWork] + tail;
      assert BeginWork !in tail;
      CountBeginsAbsent(tail);
      CountBeginsConcat([BeginWork], tail);
    } else {
      CountBeginsAbsent(r.calls);
    }
  }

  /** With autocommit off, N manipulation statements in a row raise the
      counter by N, and only the first of them, and only when no
      transaction was open, is preceded by a BEGIN WORK. */
  lemma {:induction false} ManipulationRunCounts(st: Adapter, ops: seq<Op>, isManip: string -> bool)
    requires !st.autocommit
    requires ManipulationRun(ops, isManip)
    ensures var r := Replay(st, ops, isManip);
            && !r.state.autocommit
            && r.state.opcount == st.opcount + |ops|
            && CountBegins(r.calls) == (if st.opcount == 0 && |ops| > 0 then 1 else 0)
            && (st.opcount == 0 && |ops| > 0 ==> |r.calls| > 0 && r.calls[0] == BeginWork)
    decreases |ops|
  {
    if |ops| > 0 {
      var init := ops[..|ops| - 1];
      assert ManipulationRun(init, isManip);
      ManipulationRunCounts(st, init, isManip);
      var prev := Replay(st, init, isManip);
      var op := ops[|ops| - 1];
      ManipulationStep(prev.state, op, isManip);
      var last := SimpleQuery(prev.state, op.query, isManip, op.begin, op.exec);
      assert Replay(st, ops, isManip) == Step(last.state, last.reply, prev.calls + last.calls);
      CountBeginsConcat(prev.calls, last.calls);
    }
  }
}
