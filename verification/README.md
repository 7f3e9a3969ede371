# Verified model of the Sybase/FreeTDS driver core

A Dafny model of the logic in the Qore `sybase`/`freetds` DBI driver, with proofs.
`dafny verify dfyconfig.toml` checks everything.

| files | what they model |
|---|---|
| `Replies`, `Commands`, `ResultFactory` | one command reading its reply stream through ct-lib: the sticky result state, the column cache, fetching, both result layouts, the accumulator |
| `Replay`, `ReplayLaws`, `AnswerLaws`, `Selects` | the meaning of a reply stream as a fold, that meaning reply by reply and in terms of the rows alone, and the `select`, `selectRow` and `selectRows` answers |
| `Statements`, `CursorRows` | the statement cursor with its one row in hand |
| `Protocol`, `Connections`, `RetryLaws`, `Sessions` | one active query per connection, over any interleaving of statements; the send, reconnect and destroy paths; which attempts are made and how the last one ends; operations one after the other |
| `Tokens`, `TokenLaws`, `Query`, `QueryLaws`, `RewriteLaws` | the placeholder language, the in-place rewriter, what every token turns into, and the binding loop |
| `Conversions`, `ConversionLaws`, `Machine` | date and time conversions with 32- and 64-bit wrap-around |
| `NumberText`, `NumberTextLaws`, `Decimal` | numeric text trimming and classification |
| `Columns`, `ColumnLaws`, `Values` | unique column keys, row and column layouts, insertion-ordered hashes |

The server is arbitrary: a command is given any finite list of replies, any
outcome of `ct_send` and any outcome of `ct_cancel`. A reply is a result set
(rows, parameters or status, ending normally or with a fetch error), a DONE, a
SUCCEED or a failure; the end of the list is CS_END_RESULTS. The types of the
errors keep those of `ct_fetch` and those of `ct_results` apart. `Server.Fetch` may
be called only while a result set is open and `Server.Results` only while none
is, so that verifying `Command` shows that the driver keeps to this order.
A fetch stores a row only into buffers bound for that result set.

Errors thrown as `ss::Error` and errors raised on the exception sink are both
the `Err` of a `Result`. Doubles are reals. A cell is its raw bytes together with
the type code it was decoded under.

## Findings

These are places where the code departs from what it or its documentation
promises. The model follows the code; each comes with an input on which the
promise fails and the exact condition under which it holds.

- In "optimal-numbers" mode the documentation promises an integer whenever
  possible. The comparison for 19-digit negative numbers has the wrong direction:
  those that fit 64 bits stay numbers, those that do not become -2^63
  (`NumberTextLaws.OptimalFails`, `OptimalCorrectIff`, `NineteenDigitNegatives`).
- An active statement is documented to be cancelled before anything else is
  executed. Displacing a statement without a command throws instead, and leaves
  a new statement usable but unregistered; from there a command can be sent while
  another has unread results. A statement has no command until it is executed
  (`Protocol.UnexecutedStatementBreaksProtocol`), and when the last text it was
  given was rejected (`RejectedStatementBreaksProtocol`). A step leaves the connection
  safe, whatever is executed, read and closed on it afterwards, exactly if it is
  `Good` (`StepSafeIff`).
- Executing a statement when the connection is lost and made anew on the way
  displaces that very statement. If it has no command yet the reconnection is
  given up with an error; otherwise the new command is sent, but the statement
  cannot be used, and what is left of its results is unread with nothing
  registered (`Protocol.LostConnectionBreaksProtocol`; `Good`, and in terms of
  the replies `Connections.LossLeaves` in `Connection.ExecStatement`).
- Parameter names written for `%v` can stay without a binding: all of them when
  there is no argument list (`QueryLaws.NullListLeavesNameUnbound`), and those
  after a bound value of explicit type "date"
  (`ExplicitDateLeavesNameUnbound`). Every name is bound iff none of this and no
  refused value occurs (`AllNamesBoundIff`).
- The name written for a `%v` marker runs together with identifier characters
  (letters, digits, _, @, #, $) that stand next to it in the output: "%v0" becomes
  "@par10" and "%v%v" becomes "@par1@par2" (`QueryLaws.CharRunsIntoName`,
  `NamesRunTogether`, `NameIsWholeWordIff`).
- A placeholder can get the name of a parameter: ":par1,%v" becomes
  "@par1,@par1" (`QueryLaws.PlaceholderNameClashes`, `NamesDisjointIff`).
- The time field of an encoded DATETIME is no time of day in the last 1667
  microseconds of a day from 1970 on, where it is a full day, and at nearly all
  times before 1970, where it is negative (`ConversionLaws.NoTimeOfDay`,
  `EncodedTimeField`).
- DATETIME and TIME values are documented to be rounded to microseconds. They are
  rounded to milliseconds, which is the nearest microsecond for every third tick
  only (`ConversionLaws.FirstTickRounded`, `MicrosecondsIffThirdTick`).
- A row set that follows another row or parameter set with no DONE or status in
  between is shown under the earlier description, with the earlier set's last
  row in place of each of its own (`ReplayLaws.UnseparatedRowsMisread`,
  `RefreshedIffDescribed`, `StaleRows`).
- A row count is meant to be added when no result was added since the previous
  DONE. It is also added when the last set since then has no rows although an
  earlier one has (`ReplayLaws.CountAfterRows`, `CountRuleIff`); it is one more
  result, not the documented `rowcount` key.
- A statement's cursor never leaves a status result, nor a set whose fetching
  failed, and reads nothing after CS_FAIL: rows behind one of these are not
  delivered (`CursorRows.RowBehindStatusLost`, `RowBehindFailureLost`,
  `CursorReachesAllIff`).
- `selectRows` returns a list also for a single row, where the documentation
  mentions a hash (`Selects.SelectRowsReturnsAllRows`).

## Model

| member | source | states |
|---|---|---|
| ReplayLaws.ReadOutputMeans | src/command.cpp:418-468 | for every reply stream, reading fails exactly when some reply fails, with the first failure's error, and otherwise yields all parameter values and results in order, every set as it is shown under the description in force |
| AnswerLaws.ReadingStopsIff | src/command.cpp:423-466 | if the replies before it can be read, a reply stops the reading iff it is a failure, a DONE without a count, or a set that has no columns to describe, a second row for a single-row read, or a failing fetch; each with its error |
| AnswerLaws.ReplyAdds | src/command.cpp:432-459 | what every other reply adds: a row set its value at the end of the results, a parameter set its rows at the end of the parameters, a DONE at most its positive count, a status nothing |
| AnswerLaws.ColumnsShown | src/command.cpp:514-544 | the column layout from any cache, cell by cell: the keys of the described columns, a list for each with one cell for every row; an empty hash without rows unless columns were asked for |
| AnswerLaws.RowsShown | src/command.cpp:554-579 | the row layout from any cache, cell by cell |
| AnswerLaws.CountReturned | src/resultfactory.h:50-62 | a command without sets yields its row count if that is positive |
| ReplayLaws.SeparatedShowsOwn | src/command.h:47-67 | when every row set is separated by a DONE or status from the set before it, every set is shown under its own description |
| Replay.FoldSplits | src/command.cpp:418-468 | the whole read is the read of the first k replies followed by that of the rest |
| Commands.Command.ReadOutput | src/command.cpp:418-468 | from any state, the loop returns the fold over what is still to be read, keeps driver and server in step, and ends in the END state; the connection is to be closed iff the server failed and cannot be cancelled |
| Replay.QueryKeysDistinct | src/resultfactory.h:11-15 | the generated keys of different results differ |
| ReplayLaws.QueryHashHolds | src/utils.h:113-124 | several results are found under query0, query1, ... in order, none overwritten |
| ReplayLaws.ShapeOfBoth | src/resultfactory.h:64-79 | results and parameters together are found under the keys query and params |
| AnswerLaws.ShapeIs | src/resultfactory.h:64-79 | no result, one, several, with and without parameters: the value itself, query0, query1, ... in order, or query and params |
| ReplayLaws.RefreshedIffDescribed | src/command.h:47-67 | in the reading of any stream, a row set that is reached is read with a description and buffers of its own iff a DONE or status separates it from the set before, otherwise with the description and last row of the set last described |
| ReplayLaws.DescribedIff | src/command.cpp:454-459 | a row set is described iff a DONE or a status comes after every row or parameter set before it |
| ReplayLaws.DescriberIs | src/command.cpp:440-443 | otherwise the description in use is that of the last set read under its own, and nothing has ended its use |
| ReplayLaws.StaleRows | src/command.cpp:440-443 | a row set read with the cache of another set shows that set's last row, once for every row of its own |
| ReplayLaws.UnseparatedRowsMisread | src/command.cpp:440-443 | two row sets without a DONE or status between them: the second is decoded as the first |
| ReplayLaws.ReadingContinues | src/command.cpp:532-542 | a reader that stopped after n rows goes on with exactly the rows after them, with the same description |
| Commands.Command.ReadNextResult1 | src/command.cpp:330-416 | one `ct_results` call only when no result set is open; what every reply does to the driver, including when the connection must be closed |
| Commands.Command.ReadNextResult | src/command.h:83-92 | SUCCEED replies are skipped, every other result is sticky: END, ERROR, CANCELED and undrained sets are returned again without touching the server; CS_FAIL leaves ERROR, any other failure a state in which what comes behind the failed reply can be read |
| Commands.Command.FetchRowIntoBuffers | src/command.cpp:90-111 | one `ct_fetch` of an open set: a row into the bound buffers, or the end of the set, or an error |
| Commands.Command.RetrColinfo | src/command.cpp:470-481 | describes the open set and binds one fresh buffer per column; fails without columns |
| Commands.Command.EnsureColinfo | src/command.h:168-172 | refetches the description only if it is dirty or empty |
| Commands.Command.FetchRow | src/command.cpp:546-552 | the next row of the open set as a hash, nothing at its end |
| Commands.Command.ReadRows | src/command.cpp:554-579 | no row is nothing, one is its hash, more are a list; a second row is an error for a single-row read |
| Commands.Command.ReadCols | src/command.cpp:514-544 | with a positive count the columns of exactly that many rows, the rest left for the next call; otherwise the columns of all rows, as `AnswerLaws.ColumnsShown` and `Selects.SelectReturnsColumns` spell out |
| Commands.Command.ReadSet | src/command.cpp:581-591 | chooses the layout of a row set |
| Commands.Command.Absorb | src/command.cpp:428-464 | each branch of the reading loop leaves what the whole read comes to unchanged |
| Commands.Command.CancelDisconnect | src/command.h:94-100 | cancels and drops a handle that has not been dropped |
| Commands.Command.Cancel | src/command.h:104-110 | a command read to its end is left alone, any other is cancelled and marked |
| Commands.Command.Clear | src/command.cpp:62-72 | destroying a command cancels it iff it still has its handle and is neither finished nor cancelled nor the connection gone, and drops the handle unless that cancel fails |
| Commands.SkipSucceedKeeps | src/command.cpp:397-400 | replies without output change nothing of what is read |
| CursorRows.SkipSucceedIs | src/command.h:83-92 | the replies looked at are those from the first one with output on |
| ResultFactory.RefHolderVector.ReleaseToHash | src/utils.h:113-124 | the loop that fills the hash, one entry per value |
| ResultFactory.RefHolderVector.ReleaseSmart | src/utils.h:126-135 | nothing, the only value, or the hash |
| ResultFactory.SetNewKey | src/utils.h:120 | setting a new key adds an entry at the end |
| ResultFactory.Factory.Add | src/resultfactory.h:43-47 | a result is appended and remembered |
| ResultFactory.Factory.AddParams | src/resultfactory.h:37-41 | a parameter set is appended and remembered |
| ResultFactory.Factory.Done | src/resultfactory.h:50-62 | a positive count is added when nothing is remembered; nothing is remembered afterwards |
| ReplayLaws.CountRuleIff | src/resultfactory.h:50-62 | a positive count is added iff nothing was returned since the previous DONE, except exactly when the last set since then has no rows and an earlier one has |
| ReplayLaws.CountAfterRows | src/resultfactory.h:56-59 | a row, a status, an empty row set and a DONE: the count is added after the row |
| ResultFactory.Factory.Res | src/resultfactory.h:64-79 | the final shape of results and parameters |
| Selects.SelectRow | src/sybase.cpp:198-212 | passes a hash or nothing on and rejects anything else |
| Selects.SelectRows | src/sybase.cpp:214-227 | wraps a single hash in a list |
| Selects.SelectRowsReturnsAllRows | src/sybase.cpp:214-227 | the list of exactly the server's rows in order, for every number of rows |
| Selects.SelectRowReturnsOnlyRow | src/command.cpp:569-572 | the only row, nothing without rows, an error for two or more |
| Selects.SelectReturnsColumns | src/command.cpp:514-544 | `select` of any query: under the key of every column the list of its cells, one for each of the server's rows in order; an empty hash, or empty lists if columns were asked for, without rows |
| Selects.SelectOfUpdate | src/sybase.cpp:198-227 | a command that only counts rows: an error for `selectRow` if it counts any, its count for `selectRows` |
| Statements.Statement.Next | src/statement.cpp:27-46 | fails for an invalidated statement without touching anything; otherwise, by the state and the next reply: exactly when it is true, false or an error, and which error; conserves the rows still to come, also when it fails; opens the next set but does not step over the end of one; stays at a status set; the connection is to be closed iff the server failed and cannot be cancelled |
| Statements.Statement.MetIs | src/statement.cpp:33-45 | what a call of next meets in every state: sticky states, the set being read, or the next reply with output |
| Statements.Statement.FetchRow | src/statement.h:94-96 | hands out the row in hand and conserves the rows |
| Statements.Statement.FetchRows | src/statement.h:102-127 | returns the front of the rows still to come, and says for every state how many or which error: of a set all its rows for n <= 0, otherwise n or all, and one more if a row is in hand, an error if the fetching meets one; no row is lost or repeated but those of a list dropped with an error |
| Statements.Statement.Begin | src/statement.cpp:17-24 | fails iff the first reply with output is a failure or a DONE without a count, with that error; a set that comes first is open; the statement then conserves exactly the row in hand and the rows of the new command |
| CursorRows.DecodedAsDescribed | src/statement.cpp:39-43 | when the sets the cursor gets to are separated by DONEs that have their row count, it hands out the front of the server's rows, each decoded under its own description |
| CursorRows.CursorReachesAllIff | src/command.cpp:334-357 | from any stream, separated or not and however often reads fail, the cursor gets at most as many rows as the server has, and as many iff none comes after the first status set, set that cannot be fetched or CS_FAIL |
| CursorRows.RowBehindStatusLost | src/command.cpp:334-342 | a row after a status and a DONE that the cursor never delivers |
| CursorRows.RowBehindFailureLost | src/command.cpp:90-111 | the same for a row after CS_FAIL, and after a set whose fetching fails |
| CursorRows.FirstRow | src/command.cpp:546-552 | fetching takes the first of the rows still to come and leaves the rest |
| Protocol.StepKeepsInvIff | src/connection.h:200-226 | from a state where a statement is usable iff registered and only its command is unread, an operation keeps this iff the cancels it needs succeed and it displaces no statement without a command, and no lost connection leaves results |
| Protocol.GoodRunsAreClean | src/connection.cpp:153-158 | in every such run no command is sent while another has unread results |
| Protocol.StepSafeIff | src/connection.h:200-226 | a step from such a state leaves every later run without creations, losses and failing cancels free of sends over unread results iff the step is good |
| Protocol.UnexecutedDisplacementUnsafe | src/dbmodulewrap.h:115-127 | from every such state, a new statement displacing one without a command allows a send over unread results |
| Protocol.UnexecutedStatementBreaksProtocol | src/dbmodulewrap.h:115-127 | a run of two prepared statements, all cancels and sends succeeding, that sends over unread results, if the error of the second preparation is survived |
| Protocol.RejectedStatementBreaksProtocol | src/statement.cpp:17-19 | the same with a statement that was executed, and whose next text was rejected |
| Protocol.LostConnectionBreaksProtocol | src/connection.cpp:180-184 | a run with one lost connection, all cancels succeeding, that sends over unread results |
| Connections.Connection.Invalidate | src/statement.h:79-84 | throws for a statement without a command, otherwise cancels, drops and marks it |
| Connections.Connection.InvalidateStatement | src/connection.h:200-205 | displaces the registered statement |
| Connections.Connection.RegisterStatement | src/connection.h:211-216 | displaces the registered statement by the new one, or throws and registers nothing |
| Connections.Connection.CreateStatement | src/dbmodulewrap.h:115-127 | throws iff it displaces a statement without a command; is the Create step, and keeps the protocol's invariant unless it displaces a statement that has no command or cannot be cancelled |
| Connections.Connection.Close | src/dbmodulewrap.h:166-179 | is the Close step, and keeps the protocol's invariant when the statement's command can be cancelled |
| Connections.Connection.Deregister | src/connection.h:218-226 | forgets the registered statement |
| Connections.Connection.CloseAndReconnect | src/connection.cpp:180-230 | drops the command at once and displaces the registered statement, or throws; allows a resend only after a successful reconnection outside a transaction |
| Connections.Connection.SetupCommand | src/connection.cpp:126-151 | the attempts made are the prefix up to the first that need not be retried (`RetryLaws.LastAttempt` says which that is and how it ends); a loss in the first displaces the registered statement or ends them; all commands but the one returned have been dropped |
| Connections.Connection.KeepTrying | src/connection.cpp:126-151 | the same for the rounds in which no statement is registered |
| Connections.Connection.ExecReadOutput | src/connection.cpp:153-178 | is the Direct step, yields the fold over the replies or its error, and, when cancels succeed, leaves no handle undropped and nothing unread and keeps the protocol's invariant; closes and remakes the connection iff the server fails and cannot be cancelled, and says when the connection is marked as aborted |
| Connections.Connection.ExecStatement | src/statement.cpp:11-25 | once its command is sent, fails iff the first reply with output is a failure or a DONE without a count, with that error; is the Execute step, also when the connection is lost on the way, with what is left unread told by the replies; keeps the protocol's invariant when the old command is cancelled and no lost connection leaves results; the statement then conserves the row in hand followed by the new command's rows; says when the connection is marked as aborted |
| Connections.Connection.RejectStatement | src/statement.cpp:17-19 | is the Reject step: the old command is cancelled and destroyed, the statement is left without one, and the protocol's invariant holds |
| Connections.Connection.Next | src/statement.cpp:27-46 | is the Read step, keeps the protocol's invariant, conserves the statement's rows and answers by what is met |
| Connections.Connection.FetchRows | src/statement.h:102-127 | is the Read step, keeps the protocol's invariant and conserves the statement's rows; what it returns is the front of them |
| Sessions.ExecThenFetch | src/dbmodulewrap.h:218-243 | executing and then fetching returns the front of the rows of the replies, from a set that comes first as many as asked for or its error, and keeps the protocol's invariant |
| Sessions.PlainQueryRows | src/statement.h:102-127 | for any query, the rows of the replies are exactly the server's rows in order, cell by cell under their columns' keys |
| Sessions.ExecFetchCreate | src/dbmodulewrap.h:115-127 | after that a new statement is registered and the invariant still holds |
| Sessions.DirectTwice | src/connection.cpp:153-178 | direct executions follow one another with the invariant kept, as long as the connection is not left aborted |
| Connections.ResentOnlyAfterReconnection | src/connection.cpp:141-148 | over any sequence of failures a command is sent again only right after a successful reconnection outside a transaction |
| RetryLaws.LastAttempt | src/connection.cpp:128-150 | the first attempt that is sent, or not followed by a remade connection outside a transaction, is the last: its command, or which error; what is observed of all attempts; when the connection is marked as aborted |
| RetryLaws.AllTried | src/connection.cpp:144-146 | if every attempt is lost and remade, all are made and none is the last |
| RetryLaws.SentIff | src/connection.cpp:126-151 | the command gets through iff some send succeeds and every attempt before it lost the connection and remade it outside a transaction |
| RetryLaws.ResentAfterReconnection | src/connection.cpp:144-146 | after a successful reconnection outside a transaction the command is sent again, unless no attempt is left |
| Connections.SentOnce | src/connection.cpp:126-151 | a send succeeds at most once, as the last attempt |
| Connections.NotSentIsStep | src/connection.cpp:141-148 | a failed execution is a step of the transition system as well |
| Tokens.LexCutsText | src/sybase_query.cpp:43-135 | lexing cuts a text into well-formed tokens without losing or adding a character |
| Tokens.LexIsUnique | src/sybase_query.cpp:43-135 | there is only one way to cut a text into well-formed tokens |
| TokenLaws.ReadsPlain | src/sybase_query.cpp:43-46 | any character but quotes, percent signs and colons is read as itself |
| TokenLaws.ReadsMarker | src/sybase_query.cpp:73-107 | a percent sign and one of v, d, s is a marker |
| TokenLaws.ReadsBadMarker | src/sybase_query.cpp:107-111 | a percent sign with anything else behind it, or nothing, ends the reading |
| TokenLaws.ReadsName | src/sybase_query.cpp:112-131 | a colon and all letters, digits and underscores behind it are one placeholder |
| TokenLaws.ReadsNoName | src/sybase_query.cpp:118-121 | a colon without any ends the reading |
| TokenLaws.ClosesIff | src/sybase_query.cpp:46-71 | a quote is closed by the first equal one that no backslash hides, and only by that |
| TokenLaws.ReadsQuoted | src/sybase_query.cpp:46-71 | a quoted string is one token, whatever is inside |
| TokenLaws.ReadsOpenQuote | src/sybase_query.cpp:48-57 | without such a quote it is never closed |
| Query.SybaseQuery.Init | src/sybase_query.cpp:35-141 | the in-place scan accepts, rejects and rewrites exactly as the one-pass meaning says, which `RewriteLaws.TokenOutput`, `AcceptedIff` and `RejectedWith` spell out token by token |
| Query.SybaseQuery.ScanQuoted | src/sybase_query.cpp:46-71 | a quoted string is skipped and left as it is |
| Query.SybaseQuery.ScanMarker | src/sybase_query.cpp:73-111 | a marker is replaced in the buffer and the replacement is not scanned again; by which text, `RewriteLaws.TokenOutput` says |
| Query.SybaseQuery.ScanName | src/sybase_query.cpp:112-132 | a placeholder is recorded and its colon replaced |
| Query.SetParams | src/command.cpp:126-324 | names and order of the bindings made, early exits included |
| Query.BindQuery | src/command.cpp:956-964 | binds what the loop binds, and nothing without an argument list |
| QueryLaws.RewriteMeans | src/sybase_query.cpp:41-135 | a text is accepted iff each of its tokens renders, and the output is their images in order |
| RewriteLaws.TokenOutput | src/sybase_query.cpp:73-132 | the output grows token by token: @par and its number for %v, the numeric text or the text of the argument with the marker's number for %d and %s, the absent one beyond the list, @ and the name for a placeholder, everything else as it is |
| RewriteLaws.TokensRecorded | src/sybase_query.cpp:77-131 | every marker is recorded at its number, as v iff a value is to be bound for it, and every placeholder by its name, in order |
| RewriteLaws.AcceptedIff | src/sybase_query.cpp:95-121 | a text is accepted iff every percent sign is a marker, every colon has a name, every quote is closed and every %s has an argument with a text |
| RewriteLaws.RejectedWith | src/sybase_query.cpp:95-121 | the error is that of the first token at fault; only a %s whose argument has no text fails to render |
| QueryLaws.PlainTextUnchanged | src/sybase_query.cpp:46-71 | a text without markers and placeholders outside quotes is unchanged |
| QueryLaws.NamesAgree | src/sybase_query.cpp:76-84 | the parameter names written are, in order, the names of the bindings due to the text |
| QueryLaws.NameIsWholeWordIff | src/sybase_query.cpp:76-84 | a name stands in the output as an identifier of its own iff no identifier character stands next to it there, before or behind |
| QueryLaws.CharRunsIntoName | src/sybase_query.cpp:76-84 | a marker and an identifier character: the name written is not the identifier that stands there |
| QueryLaws.NamesRunTogether | src/sybase_query.cpp:76-84 | two markers side by side: the names written run together |
| QueryLaws.NamesDisjointIff | src/sybase_query.cpp:112-132 | no name is written for a placeholder and for a marker iff no placeholder is called par and the number of a %v marker |
| QueryLaws.PlaceholderNameClashes | src/sybase_query.cpp:112-132 | a placeholder and a marker for which the same name is written |
| QueryLaws.BoundAtOwnPosition | src/command.cpp:129-139 | every binding has the argument at the position its name states, and every bound marker has one |
| QueryLaws.ParNamesDistinct | src/command.cpp:139 | names of different positions differ |
| QueryLaws.AllNamesBoundIff | src/command.cpp:956-964 | from text to bindings: what is bound is the front of what is written, and all of it iff nothing is written, or there is an argument list, no explicit date precedes another bound value and no value is refused |
| QueryLaws.LoopBindsAllIff | src/command.cpp:299-304 | the same for the loop alone |
| QueryLaws.LoopFailsIff | src/command.cpp:299-316 | the binding fails iff a refused value comes before any explicit date |
| QueryLaws.LoopBindsUpToStop | src/command.cpp:299-304 | otherwise exactly the markers up to the first explicit date are bound |
| QueryLaws.NullListLeavesNameUnbound | src/command.cpp:961 | a text whose only name is never bound without an argument list |
| QueryLaws.ExplicitDateLeavesNameUnbound | src/command.cpp:299-304 | a text and arguments whose second name is never bound |
| Conversions.CheckEpoch | src/conversions.cpp:98-114 | accepts exactly the range between its two bounds and tells which one is missed |
| ConversionLaws.EpochIsYears | src/conversions.cpp:98-114 | that range is the years 1753 to 9999 of the Gregorian calendar |
| ConversionLaws.OffsetsAreCalendar | src/conversions.cpp:45-52 | the three offsets are the calendar's distances from 1900 and from the year zero to 1970 |
| Conversions.DateTimeToDatetime | src/conversions.cpp:116-140 | fills the structure with the exact encoding despite the 32-bit product, or leaves it alone and reports the right error |
| Conversions.TicksExact | src/conversions.cpp:132 | the constant 3333.3333333 rounds as 10000/3 over all microseconds |
| Conversions.TicksOfMillisExact | src/conversions.cpp:135 | the constant 3.3333333 rounds as 10/3 over all milliseconds |
| Conversions.MillisExact | src/conversions.cpp:67 | the constant 3.3333333 rounds as 10/3 over all ticks of a second, also negative ones |
| ConversionLaws.EncodingIsExact | src/conversions.cpp:127-137 | for every accepted date, days and time field make up exactly 300 ticks per second from 1900 plus the rounded sub-second |
| ConversionLaws.DayProductWraps | src/conversions.cpp:137 | the 32-bit product is right iff the date is within 24855 days of 1970 |
| ConversionLaws.EncodedTimeField | src/conversions.cpp:137 | when the time field is a full day, when it is negative, and when it is a time of day |
| ConversionLaws.NoTimeOfDay | src/conversions.cpp:137 | two dates whose encoded time field is no time of day |
| ConversionLaws.DecodingSeesOnlyTheInstant | src/conversions.cpp:64-71 | the decoded instant is a function of the instant in ticks alone, for all wire values |
| ConversionLaws.MicrosecondsIffThirdTick | src/conversions.cpp:55-71 | a DATETIME or TIME is decoded to the nearest microsecond iff it is a whole number of milliseconds, every third tick |
| ConversionLaws.NearestMicrosIs | src/conversions.cpp:64-71 | the microsecond meant there is at most a third of one away from the instant |
| ConversionLaws.FirstTickRounded | src/conversions.cpp:54-62 | one tick is decoded to 3000 microseconds |
| ConversionLaws.WireRoundTrip | src/conversions.cpp:64-71 | reading and binding again keeps the instant; the fields are equal iff not before 1970 or in the first second of a day, shifted by one day otherwise |
| ConversionLaws.RereadInstantSettles | src/conversions.cpp:64-71 | any wire value's date in normal form is bound to the same instant again |
| ConversionLaws.QoreRoundTrip | src/conversions.cpp:116-140 | binding and reading moves a date by at most 2000 microseconds |
| ConversionLaws.QoreRoundTripMonotone | src/conversions.cpp:116-140 | binding and reading never reorders two dates |
| ConversionLaws.BigDatetimeRecombines | src/conversions.cpp:73-82 | splitting a BIGDATETIME loses nothing, for every 64-bit value |
| ConversionLaws.BigTimeRecombines | src/conversions.cpp:84-91 | splitting a BIGTIME loses nothing |
| ConversionLaws.DateDecoding | src/conversions.cpp:93-96 | a DATE is decoded right modulo 2^32 always, and right iff its day is 25567 to 75277; it has no sub-second part |
| ConversionLaws.SmallAndTimeDecoding | src/conversions.cpp:142-145 | SMALLDATETIME days and minutes, with no sub-second part, and times of day are recovered |
| NumberText.TrimZeros | src/command.cpp:783-786 | the loop cuts the zeros off the end in the buffer |
| NumberText.TrimBuffer | src/command.cpp:779-793 | the trimmed text is left NUL-terminated in the buffer |
| NumberText.GetNumber | src/command.cpp:773-809 | classifies the trimmed text and leaves it in the buffer |
| NumberTextLaws.TrimmingKeepsValue | src/command.cpp:779-793 | trimming keeps the denoted number |
| NumberTextLaws.TrimmedIs | src/command.cpp:779-793 | nothing is cut without a point, otherwise all zeros at the end, and the point iff only zeros came after it |
| NumberTextLaws.PointFreeIffIntegral | src/command.cpp:788-796 | after trimming a text is free of a point iff it denotes an integer |
| NumberTextLaws.StrcmpIsNumericOrder | src/command.cpp:803-804 | equal-length digit strings compare as their numbers |
| NumberTextLaws.IntegerRule | src/command.cpp:796-806 | which texts become integers, and which integers, saturation included |
| NumberTextLaws.OptimalCorrectIff | src/command.cpp:796-806 | without leading zeros: an integer is returned iff the number is one and fits, with its value, for all texts but the 19-digit negative integers other than -2^63 |
| NumberTextLaws.NineteenDigitNegatives | src/command.cpp:804 | what happens to the 19-digit negatives |
| NumberTextLaws.OptimalFails | src/command.cpp:804 | -1000000000000000000 fits but is not returned as an integer |
| NumberTextLaws.NumericModeKeeps | src/command.cpp:808 | numeric mode keeps the trimmed text and its number |
| Columns.UniqueKey | src/command.cpp:496-509 | an unused key: the base name, or the least unused suffix |
| Columns.TakenBounded | src/command.cpp:500-508 | pigeonhole: no more suffixes are taken than there are keys |
| Columns.FindKey | src/command.cpp:726-739 | the probing loop terminates with the unique key |
| Columns.ColumnKeys | src/command.cpp:483-512 | one key per column, all distinct |
| Columns.ColumnKeyIs | src/command.cpp:486-509 | a column keeps its name unless an earlier one took it, and otherwise gets the least suffix unused by earlier ones |
| ColumnLaws.KeyFromName | src/command.cpp:486-509 | the key is the column's name, character by character in lower case, or the caller's name for an unnamed column, or its number; if an earlier column has it, with an underscore and the least free number |
| ColumnLaws.OwnNameKept | src/command.cpp:489-495 | a name in lower case that no earlier column took is the key |
| ColumnLaws.RowHashHolds | src/command.cpp:707-745 | every cell of a row lies under its column's key |
| Decimal.DigitsUnique | src/command.cpp:501 | the number in a name is written in decimal without leading zeros |
| Columns.SetupColumns | src/command.cpp:483-512 | one empty list per column under the unique keys, which `ColumnLaws.KeyFromName` derives from the names |
| Columns.OutputBuffersToHash | src/command.cpp:707-745 | the buffered row under the unique keys, which `ColumnLaws.KeyFromName` derives from the names |
| Columns.AppendBuffersToList | src/command.cpp:688-705 | appends the buffered row's cells to the right lists |
| Columns.LayoutsTranspose | src/command.cpp:514-579 | row and column layout have the same keys and element j of a column is that key of row j |
| ReplayLaws.SliceCallsJoin | src/command.cpp:539-541 | however many calls with positive counts read a set, all slices have the same keys and the slices of a column join to that column of all rows read |

## Left out

- Commands.Command.ReadRows: called by the driver only while a result set is open, and modelled only then; `get_output` and `fetch_columns` on a statement without an open set call `ct_fetch` out of order, and what ct-lib answers is not part of this model.
- Commands.Command.ReadCols: the counter is unbounded, so its 32-bit underflow after 2^31 rows is not modelled; same condition on the open set as for ReadRows.
- Connections.Connection.SetupCommand: an endless sequence of lost connections is represented by its finite prefixes.
- Connections.Connection.ExecStatement: a failing first read that asks for the connection to be closed is reported to its caller, as in Next; closing it cancels and drops the statement's command a second time, when its handle is gone.
- Connections.Connection.CloseAndReconnect: closing the connection discards all unread results at the server; the model keeps those whose cancel failed.
- Statements.Statement.Next: called only when a statement that may be used has a command; without one the code dereferences null. The same holds for FetchRows, and for both on the connection.
- Query.SybaseQuery.Init: texts on which the scan runs off an unclosed quote are excluded, because the code then reads past its buffer; NUL characters inside the text are excluded.
- Query.SetParams: payloads and type codes of bindings, and a failing `ct_param` in the explicit date branch, whose result the code ignores.
- NumberText.GetNumber: only decimal texts (sign, digits, one point), which is what numeric columns deliver; string mode never gets here.
- Statements.Statement.FetchRows: rows taken by a call that fails are counted as taken, although the code drops them with the list.
- `affected_rows`: returns the count `ReadNextResult` stores.
- Cell decoding (`get_value`), encodings, time zones and Qore values other than hashes, lists and counts: foreign types or single casts.
- A server that goes on after a failed fetch: the set's rows before the failure are all it has, and every further fetch fails the same way.
- Bodies and messages of ct-lib, login, options and error texts; `ct_describe` and `ct_bind` always succeed on an open set.
- The exception sink as a state of its own: an operation that raises ends like one that throws.
- `connection_reset` is never set by the code, so the second round of the loop in `execReadOutput` is not modelled.
- `commit`, `rollback` and `direct_execute`: they cancel everything on the connection without telling the statement.
- Closing the connection when a read by a registered statement can be neither continued nor cancelled: `Next` and `FetchRows` report it to their caller.
- Rewriting and sending are modelled apart: `Query` says which texts are rejected, `RejectStatement` what that does to a statement; a rejected direct execution goes on with a command that was never made, which is not modelled.
- The split between the wrapper and the statement in src/dbmodulewrap.h: one object here.
