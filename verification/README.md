# DB_ifx, modelled in Dafny

This project models the core of `DB_ifx`, the Informix driver of PEAR DB. It covers:

- turning Informix diagnostics into portable DB error kinds (`errorcode_map`, `errorCode`);
- running a query with the driver's transaction bookkeeping (`simpleQuery`, `affectedRows`, `autoCommit`, `commit`, `rollback`);
- fetching one row and reshaping it under the portability options (`fetchInto`);
- describing the columns of a table or result (`tableInfo`);
- the catalog query behind `getSpecialQuery('tables')`.

The connection's mutable fields (`autocommit`, `transaction_opcount`, `affected`, `last_query`) form an immutable `Adapter` record. The native `ifx_*` functions are not modelled: what they would answer is passed in as parameters.

- `simpleQuery`, `autoCommit`, `commit` and `rollback` take the record and return a `Step`. A step holds the new record, the reply (DB_OK, a live result or a DB error) and the statements sent, in order. Statements are sent through `ifx_query`, and results released through `ifx_free_result`. These two are the only native calls recorded. `ifx_affected_rows` and `ifx_error` appear only as parts of a query's outcome.
- `affectedRows` reads the record and changes nothing.
- `fetchInto` takes the row `ifx_fetch_row` would return for an address and returns the shaped row. It does not touch the record and records no calls.
- `tableInfo` takes what `ifx_fieldproperties` and `ifx_num_fields` would report. It returns the description together with the probe query it runs and the release of that result. It does not touch the record.
- `getSpecialQuery` is a plain function of its argument.

Modules:

| file | module | what it holds |
|---|---|---|
| `php_values.dfy` | `PhpValues` | PHP values, ordered associative arrays as lists of pairs, `strtolower`, `rtrim`, `array_change_key_case` |
| `error_codes.dfy` | `ErrorCodes` | the SQLCODE table, the POSIX leftmost-longest reading of `SQLCODE=(.*)]`, `errorCode` |
| `native.dfy` | `Native` | result handles, native outcomes, the native calls the driver makes |
| `transactions.dfy` | `Transactions` | `simpleQuery`, `affectedRows`, `autoCommit`, `commit`, `rollback` |
| `sessions.dfy` | `Sessions` | sequences of those calls replayed from a state, and the invariants that hold across them |
| `fetch.dfy` | `Fetch` | `fetchInto`: row addressing and row shaping |
| `table_info.dfy` | `TableInfo` | `explode`/`implode`, field descriptors, `tableInfo` |
| `catalog.dfy` | `Catalog` | `getSpecialQuery` |

## Model

| member | source | states |
|---|---|---|
| ErrorCodes.ErrorCode | DB/ifx.php:484-493 | matching reads the diagnostic only up to its first NUL; the kind is the table's kind for the code the chosen match there captures; it is DB_ERROR when there is no match or the code is not in the table; it is always a table value or DB_ERROR |
| ErrorCodes.CString | DB/ifx.php:486 | the subject `ereg` reads is the longest NUL-free prefix of the string: the whole string when it holds no NUL, and otherwise everything before its first NUL |
| ErrorCodes.ExtractSqlCode | DB/ifx.php:486-487 | for the subject the matcher reads, there is no capture exactly when `SQLCODE=` is never followed by a `]`; otherwise the capture is that of the leftmost-longest match |
| ErrorCodes.ChosenMatchUnique | DB/ifx.php:486 | the leftmost-longest match of the pattern is unique, so the captured code is well defined |
| ErrorCodes.ChosenMatchExtracted | DB/ifx.php:486-487 | whenever the pattern matches, the code handed to the table lookup is the capture of the leftmost-longest match |
| ErrorCodes.MappedCodesAreBare | DB/ifx.php:92-114 | no SQLCODE in the table contains a `]` or a NUL |
| ErrorCodes.TranslateDiagnostic | DB/ifx.php:484-493 | a diagnostic that ends in `SQLCODE=<code>]`, with no earlier marker and no `]` in the code, yields the table's kind for that code, or DB_ERROR if the code is not in the table; a NUL in the prefix or the code hides the match and yields DB_ERROR |
| ErrorCodes.NoMatchBeforeNul | DB/ifx.php:486 | a match whose marker or bracket lies beyond the first NUL is not seen at all |
| ErrorCodes.NulBeforeMarkerIsGeneric | DB/ifx.php:486-493 | a NUL ahead of `SQLCODE=-201]` yields DB_ERROR, not the syntax error |
| ErrorCodes.MappedCodeTranslates | DB/ifx.php:92-114 | every one of the 21 table entries, in a diagnostic of the usual `E [SQLSTATE=IX000 SQLCODE=<code>]` shape, yields its mapped kind |
| ErrorCodes.GreedyCaptureMissesCode | DB/ifx.php:486-487 | the capture runs to the last `]`, so `SQLCODE=<code>] near ]` yields DB_ERROR for every NUL-free code, even one the table maps |
| Transactions.IsSelect | DB/ifx.php:227 | a query is run as a read exactly when the six letters of SELECT occur together in it, in any letter case and anywhere, word boundaries or not |
| Transactions.SimpleQuery | DB/ifx.php:222-259 | a read is run with scrolling, handed back live, and never counted. A counted statement (autocommit off, manipulating, not a read) is preceded by BEGIN WORK exactly when the counter is 0. A failed BEGIN WORK stops the query without counting it. Otherwise the counter goes up by one even if the query then fails. Unless BEGIN WORK failed, a non-read sends exactly: BEGIN WORK when needed, then the statement once, then the release of its result when it succeeded; that success is reported as DB_OK. Every failure is the translated diagnostic and leaves `affected` null |
| Transactions.AffectedRows | DB/ifx.php:287-294 | the recorded count when the last query manipulates data, 0 otherwise |
| Transactions.AffectedRowsAfterQuery | DB/ifx.php:287-294 | after a query, affectedRows is the native count for a successful manipulation, including one run as a read because its text mentions SELECT; it is null after a failed one, and 0 for a statement that does not manipulate data |
| Transactions.AutoCommit | DB/ifx.php:403-409 | only the flag changes; an open transaction and its counter survive; no native call is made |
| Transactions.EndTransaction | DB/ifx.php:417-427 | with nothing counted, nothing is sent and DB_OK is returned. Otherwise exactly the one statement is sent and the counter becomes 0, whatever the outcome. The reply is DB_OK when the statement succeeds, and the translated diagnostic when it fails |
| Transactions.Commit | DB/ifx.php:417-427 | COMMIT WORK is sent only when statements were counted; the counter is 0 afterwards; the reply is DB_OK when the statement succeeds and the translated diagnostic when it fails |
| Transactions.Rollback | DB/ifx.php:435-445 | ROLLBACK WORK is sent only when statements were counted; the counter is 0 afterwards; the reply is DB_OK when the statement succeeds and the translated diagnostic when it fails |
| Transactions.CommitTwiceIsNoOp | DB/ifx.php:417-427 | a commit right after a commit sends nothing and changes nothing |
| Transactions.FailedCommitForgetsTransaction | DB/ifx.php:419-425 | a failed COMMIT WORK still resets the counter |
| Transactions.NoLetterCMeansNoSelect | DB/ifx.php:227 | a text without the letter c is never taken for a read |
| Transactions.ReadExamples | DB/ifx.php:227 | `select * from t` and `  SELECT id FROM t` are both reads |
| Transactions.ManipulationExamples | DB/ifx.php:227 | `insert into t values (1)` and `update t set x=1` are not reads |
| Transactions.SubstringMisclassifies | DB/ifx.php:227-239 | `insert into selections ...` is taken for a read, so autocommit-off bookkeeping never counts it |
| Sessions.ManipulationStep | DB/ifx.php:232-239 | with autocommit off, one manipulation raises the counter by one; BEGIN WORK is sent first exactly when the counter was 0 |
| Sessions.ManipulationRunCounts | DB/ifx.php:232-239 | with autocommit off, N manipulations in a row raise the counter by N; they send one BEGIN WORK, first, when no transaction was open, and none otherwise |
| Sessions.ReplayKeepsCounterMatching | DB/ifx.php:232-239 | over any sequence of queries, autocommit changes, commits and rollbacks, with any native outcomes, a positive counter means the last BEGIN, COMMIT or ROLLBACK WORK the driver issued itself was a BEGIN WORK |
| Sessions.FreshSessionCounterMatches | DB/ifx.php:132-144 | from a new connection (autocommit on, counter 0, `affected` 0), a positive counter always means the last BEGIN, COMMIT or ROLLBACK WORK the driver issued itself was a BEGIN WORK |
| Fetch.NativeAddressFor | DB/ifx.php:319-331 | a negative row number is never sent to the native layer; null becomes 'NEXT'; row k becomes the 1-based address k + 1 |
| Fetch.AddressRoundTrip | DB/ifx.php:324-331 | every row number the caller may pass can be recovered from its native address |
| Fetch.NegativeRowIgnoresNative | DB/ifx.php:319-321 | a negative row number yields null whatever the native layer would answer |
| Fetch.FetchInto | DB/ifx.php:317-354 | null for a negative row number, a failed fetch or an empty row. Otherwise DB_OK with the native row for the computed address, shaped |
| Fetch.Shape | DB/ifx.php:335-352 | every mode but ASSOC gives the values in column order. ASSOC keeps the native keys, or lower-cases them with distinct keys and the last value winning a collision. Every value is normalised |
| Fetch.LowercaseShapeKeepsColumns | DB/ifx.php:342-346 | without lower-case collisions, lower-casing keeps every field in place with its lower-cased name |
| Fetch.Normalize | DB/ifx.php:347-352 | integers are untouched. Under RTRIM a string becomes exactly its PHP `rtrim`, losing only a trimmable tail; without RTRIM it is untouched. Null becomes '' only under NULL_TO_EMPTY |
| Fetch.NormalizationOrderIrrelevant | DB/ifx.php:347-352 | rtrim and null-to-empty commute |
| Fetch.NormalizeIdempotent | DB/ifx.php:347-352 | normalising twice is normalising once |
| Fetch.PortabilityExample | DB/ifx.php:342-352 | `{Name: "Bob  ", Age: NULL}` fetched as ASSOC with all three options is `{name: "Bob", age: ""}` |
| PhpValues.Lower | DB/ifx.php:586-587 | same length; each ASCII capital is lowered and every other character kept |
| PhpValues.RTrim | DB/ifx.php:347-349 | the result is a prefix, everything cut is whitespace or NUL, and the result does not end in such a character |
| PhpValues.RTrimIdempotent | DB/ifx.php:347-349 | trimming twice is trimming once |
| PhpValues.LowerKeys | DB/ifx.php:345 | the keys are distinct, and each lower-cased key holds the value of the last field whose name lower-cases to it |
| PhpValues.LowerKeysWithoutCollision | DB/ifx.php:345 | without collisions, `array_change_key_case` just lower-cases each key in place |
| TableInfo.Split | DB/ifx.php:596 | `explode` gives at least one piece, no piece holds the separator, and `implode` of the pieces is the input |
| TableInfo.SplitJoin | DB/ifx.php:610 | `explode` undoes `implode` for separator-free pieces |
| TableInfo.Describe | DB/ifx.php:596-602 | the type is the text before the first `;`; the length is null exactly when there is no `;`; the flags are 'not_null' exactly when the fifth property is 'N' |
| TableInfo.DescribeJoined | DB/ifx.php:610-616 | a property string made of parts is read back as type = part 1, length = part 2, nullability = part 5 |
| TableInfo.OrderMap | DB/ifx.php:618-620 | every name is indexed; each index points at a field of that name; no later field has that name (last wins) |
| TableInfo.Assemble | DB/ifx.php:594-626 | flat mode has no count and no indices. Full mode has the native column count. The order and ordertable indices exist only when requested and when there is at least one field |
| TableInfo.DescribeSubject | DB/ifx.php:549-633 | no resource gives NEED_MORE_DATA. Disagreeing counts give the duplicate-field-names error. Otherwise one descriptor per field, in order, and null for an empty flat list. The only native calls are the probe query, sent only for a table name, and its release, made only when the counts agree |
| TableInfo.OrderIndexesFields | DB/ifx.php:607-625 | the order index covers every field name, maps each name to its last position, and comes with a count equal to the number of fields |
| Catalog.SpecialQuery | DB/ifx.php:517-525 | a query exists only for 'tables', and it lists the tables numbered 100 and up |
| Catalog.TablesQueryIsRead | DB/ifx.php:517-525 | the catalog query is run as a read: scrolled, handed back live, and not counted |

## Left out

- `connect` (checks for the extension, picks `ifx_connect` or `ifx_pconnect`, builds the connection from the DSN) and `disconnect`: they manage the connection itself, which the model takes as given.
- `numRows` always answers DB_ERROR_NOT_CAPABLE, and `nextResult` always answers false; neither touches any state.
- `errorNative` joins `ifx_error()` and `ifx_errormsg()` with a space; `numCols` returns `ifx_num_fields`, or a translated error when that is 0 or false; only `freeResult` passes straight through, to `ifx_free_result`. None of the three touches the connection's state, so they are not modelled.
- The `ifx_*` functions are not modelled; their answers are parameters. Only the statements sent through `ifx_query` and the results released through `ifx_free_result` are recorded as calls.
- `DB::isManip` is not part of this model. It is a predicate parameter.
- `raiseError` and its PEAR error object are not modelled. A failure is reported as a portable kind alone. The one exception is `tableInfo`'s count mismatch: the driver raises it with the message "can't distinguish duplicate field names" rather than a DB_ERROR_* code, and `ErrorKind.DuplicateFieldNames` stands for that message.
- DB/common.php is not part of this model. `_rtrimArrayValues` is taken to be PHP's default `rtrim`, which strips space, tab, newline, carriage return, NUL and vertical tab. `_convertNullArrayValuesToEmpty` is taken to turn null into ''.
- PhpValues.Lower: covers ASCII letters only, like `strtolower` in the C locale.
- Fetch.FetchInto: DB_FETCHMODE_OBJECT and DB_FETCHMODE_FLIPPED are shaped like ORDERED, as the driver does; turning rows into objects happens outside the driver.
- TableInfo.DescribeSubject: a result object and a bare result resource are one case, because both yield the same resource. What `ifx_fieldproperties` returns on failure (false, counted as 1 by PHP) is not modelled. Field names come as a list of pairs, so a list with a repeated name, which a PHP array cannot hold, is also covered.
- Native result resources have no lifetime: a handle stays usable after it is freed.
- The SQLCODE pattern is modelled only for the pattern the driver uses; there is no general regular-expression engine.

Places where the code behaves differently from what its comments and documentation suggest, modelled as the code does it:

- Transaction statements sent as query text (`simpleQuery('ROLLBACK WORK')`, say) are ordinary statements to the driver: its bookkeeping (DB/ifx.php:224-240) looks only at `isManip` and the SELECT test, so they neither open nor close the counted transaction.
- `simpleQuery` increments the counter before it runs the statement, so a failed manipulation is still counted.
- `commit` and `rollback` reset the counter before they check the outcome, so a failed COMMIT WORK leaves the driver believing no transaction is open.
- `tableInfo` does not free the probe result when the two field counts disagree.
