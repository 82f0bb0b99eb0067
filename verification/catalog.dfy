/**
 `getSpecialQuery`: the catalog query behind a named request. Only the
 list of user tables is known; Informix numbers system tables below 100.
 */
module Catalog {
  import opened PhpValues
  import opened Native
  import opened Transactions

  /** select tabname from systables where tabid >= 100 */
  const TablesQuery: string := "select tabname " + "from systables " + "where tabid >= 100"

  /** `getSpecialQuery($type)`: the query for 'tables', null for anything else. */
  function SpecialQuery(kind: string): (r: Option<string>)
    ensures r.Some? <==> kind == "tables"
    ensures r.Some? ==> r.value == TablesQuery
  {
    if kind == "tables" then Some(TablesQuery) else None
  }

  /** The catalog query is a read: run through simpleQuery it is scrolled,
      handed back live on success and leaves the transaction counter alone. */
  lemma TablesQueryIsRead(st: Adapter, isManip: string -> bool, begin: NativeResult, h: Handle, n: int)
    ensures IsSelect(SpecialQuery("tables").value)
    ensures var r := SimpleQuery(st, TablesQuery, isManip, begin, Succeeded(h, n));
            r.reply == Live(h) && r.state.opcount == st.opcount && r.calls == [Exec(TablesQuery, true)]
  {
    SelectAtChars(TablesQuery, 0);
  }
}
