# Verification of the desktop toolbox's Go cores

The repository is a desktop application with a Go backend: a git client (octohub), a database client (talpadb), an HTTP
client (vulpes) and a terminal (ferretshell). This project models the algorithms between its input and output layers and
proves what they promise.

| files | what they model |
|---|---|
| `text_lines`, `patch_format`, `partial_patch*` | Building, from a file's diff and the picked lines, the patch that stages or discards the selection. A diff is read as hunks over lines; applying a patch is its strict reading, every hunk at the position its header names. |
| `sql_*` | Splitting a script into statements for four dialects: lexemes, statement ends with trigger and PL/SQL blocks, parenthesis depth, recognising a single table. Strings are sequences of bytes. |
| `cookies`, `cookie_laws`, `cookie_matching` | The cookie jar with its change log (storing and sending as in sections 5.1 to 5.4 of RFC 6265). Times are nanoseconds passed in. |
| `table_edit`, `table_refusal`, `table_meaning`, `table_save`, `table_counting`, `editable_table` | Matching a result with its table, building the statements for edited rows, what they do to a table, and saving them in a transaction. |
| `table_text`, `table_text_meaning` | The texts of these statements, as the tokenizer of the database's dialect reads them. |
| `query_session` | Runs, cancellations and closings that share a query session, as a state machine with one atomic step per critical section. |
| `session_output`, `session_registry` | Terminal output that is held back while its session moves to another window, and the map of sessions by window. |
| `collection_tree`, `collection_moves`, `collection_restore`, `collection_ids`, `collection_auth` | The tree of a request collection: locating, moving and importing items, and inherited authorization. |
| `reorder` | Choosing the base and the picks of the rebase that reorders the latest commits. |

Code that changes state is a class or a method with loops, proved against a specification function; the laws are lemmas
about these functions.

Results where the code and what one would expect of it differ:

- A text whose hunk stands at line zero but deletes something gives a patch with a negative line, which the code itself
  rejects when it reads the patch again (`NegativeStartExample`; it is an artificial text that `git diff` never prints).
  The patch is a normal form exactly when no emitted new start is negative (`PatchTextIsNormalForm`). That holds whenever
  the hunks of the diff stand in order and do not overlap (`PatchOfOrderedDiffIsNormalForm`), and for every diff that
  applies (`StagingPatchOfValidDiffIsNormalForm`).
- An Oracle script that ends in `q'` as a separate word makes the tokenizer fail: it goes back to the start of the script.
  `StuckExactly` says for which scripts.
- The single table of a SELECT is `Y` of schema `T` for `SELECT .. FROM T "." Y`: an alias that is a quoted dot is taken for
  the dot between schema and name whenever a name or a word follows it, even WHERE (`QuotedDotExample`). `SingleExactly`
  says exactly what is returned for every SELECT.
- MySQL connections report the rows that an update changes (`src/talpadb/functions/connection_string.go:87-106` leaves the
  driver's default), not the rows that it matches. An update to what is stored already is reported as a row that was not
  found, and nothing is saved (`StoredValueIsRefused`). `GoesThroughExactly` says exactly which change goes through on
  such a connection. Of the saves that go through where matched rows are counted, `SavesByCounting` says which go through
  there too, and `SavesByMatching` the converse; only an update whose key is that of several rows goes through there alone
  (`SharedKeyIsApplied`).
- Reordering refuses merges only when the rebase does not start at the root. At the root git stops at a picked merge
  (`RootMergeExample`); `RebaseIsRightAndMinimal` and `MergesAreRefusedExceptAtTheRoot` say what becomes of every request.
- With repeated ids, removing an item and locating it can mean different items, and an item can be put back under another
  parent (`DuplicateIdsAreNotRestored`). `RestoredExactly` says for which trees removing and inserting restores the tree.
- A move to another collection is refused as a move into itself when the target folder's id happens to occur in the moved
  item (`MoveBetween`; `SharedFolderIdIsRefused` is an example).
- Two windows may use the same session id. Moving the sessions of one window then drops a session from the map when it
  stands under the key that a moved one gets (`SharedIdExample`). `MoveWindowSessions` says what the map is after any
  move, and that every session is kept exactly when no such key is taken (`MovedExactly`).

## Model

| member | source | states |
|---|---|---|
| PatchFormat.HeaderRoundTrip | src/octohub/handlers/git_partial_patch.go:12-131 | A printed hunk header with non-negative numbers is read back as the same four numbers. |
| PatchFormat.NegativeHeaderIsRejected | src/octohub/handlers/git_partial_patch.go:12 | A printed header with a negative new start does not match the header pattern. |
| PatchFormat.ReverseUndoes | src/octohub/handlers/git_commits_handler.go:230-236 | If hunks turn one file into another, the reversed hunks turn it back. |
| PatchFormat.HeaderIsRead | src/octohub/handlers/git_partial_patch.go:12 | Which numbers a header names, written out: old start and count behind a minus, new ones behind a plus, a count of one left out or not, and any text behind. |
| PartialPatch.PatchScan.Keep | src/octohub/handlers/git_partial_patch.go:47-59 | Keeping a line appends it to the current hunk, adds to its old and new counts the sides the line is on, and marks changes. |
| PartialPatch.PatchScan.AddedLine | src/octohub/handlers/git_partial_patch.go:85-95 | What happens to a `+` line in both modes, picked or not. |
| PartialPatch.PatchScan.DeletedLine | src/octohub/handlers/git_partial_patch.go:96-108 | What happens to a `-` line in both modes, and which deletions are counted. |
| PartialPatch.PatchScan.Line | src/octohub/handlers/git_partial_patch.go:61-116 | One line of the diff makes the specified step or one of the two errors. |
| PartialPatch.PatchBody | src/octohub/handlers/git_partial_patch.go:118-134 | The second loop prints exactly the changed hunks, with the headers that the running delta gives. |
| PartialPatch.KeepDeletedFileAsModified | src/octohub/handlers/git_partial_patch.go:148-175 | The header of a partly staged deletion names the file as modified; other headers stay. |
| PartialPatch.DiscardHeader | src/octohub/handlers/git_partial_patch.go:177-197 | The header of a discarding patch, with a deleted file coming back as a new one. |
| PartialPatch.BuildSelectionPatch | src/octohub/handlers/git_partial_patch.go:35-146 | The imperative builder computes the specified patch for every diff, selection and mode. |
| PartialPatchScan.ScanHunks | src/octohub/handlers/git_partial_patch.go:61-116 | Scanning the lines of parsed hunks has the effect of the hunks, one after the other. |
| PartialPatchScan.AfterHunksIsGather | src/octohub/handlers/git_partial_patch.go:61-116 | The hunks of a scan are, one for one, the diff's hunks reduced to the selection, with the deletions counted. |
| PartialPatchText.ScanKeepsGood | src/octohub/handlers/git_partial_patch.go:47-59 | For every diff, valid or not, the counts of every scanned hunk are the real numbers of old-side and new-side lines. |
| PartialPatchText.FinalHeaderIsHeader | src/octohub/handlers/git_partial_patch.go:139-143 | No line of the emitted file header can be taken for a hunk. |
| PartialPatchText.ParseOfRender | src/octohub/handlers/git_partial_patch.go:131-132 | Printed hunks are parsed back as the same hunks. |
| PartialPatchContent.StagedHunksApply | src/octohub/handlers/git_partial_patch.go:61-134 | The emitted hunks apply, one after the other at their own positions, and make exactly the selected changes, also after skipped hunks. |
| PartialPatchContent.DiscardIsStageOfReverse | src/octohub/handlers/git_partial_patch.go:85-108 | Discarding from a diff is staging from the reversed diff with the same selection. |
| PartialPatchTheorems.PrintedPatchApplies | src/octohub/handlers/git_partial_patch.go:135-145 | The text of a patch applies exactly like its hunks, whatever header it got. |
| PartialPatchTheorems.StagingTakesSelection | src/octohub/handlers/git_partial_patch.go:85-146 | For every diff without markers that applies to the old file and every selection, the staging patch applies to it and gives the old file with `-` lines dropped and `+` lines added exactly when selected. |
| PartialPatchTheorems.DiscardingLeavesTheRest | src/octohub/handlers/git_partial_patch.go:85-146 | The discarding patch applies to the new file and leaves exactly the changes that were not selected. |
| PartialPatchTheorems.StageAndDiscardAreComplementary | src/octohub/handlers/git_partial_patch.go:85-110 | Staging a selection on the old file and discarding the others from the new file give the same file. |
| PartialPatchTheorems.ExtremeSelections | src/octohub/handlers/git_partial_patch.go:85-110 | All selected gives the new file, nothing selected the old one. |
| PartialPatchNormal.EmptyExactlyWhenNothingPicked | src/octohub/handlers/git_partial_patch.go:118-137 | The patch is empty exactly when no changed line of a hunk is selected. |
| PartialPatchNormal.NewStartsAreTruePositions | src/octohub/handlers/git_partial_patch.go:119-133 | Every emitted new position is the old one moved by what the hunks emitted before it added, empty sides included. |
| PartialPatchNormal.MarkerFollowsItsLine | src/octohub/handlers/git_partial_patch.go:111-114 | In the lines emitted for a hunk, a marker behind a content line is there exactly when that line is. |
| PartialPatchNormal.MarkersFollowTheirLines | src/octohub/handlers/git_partial_patch.go:61-146 | For every diff text whose hunks can be read, markers and other lines included, the same holds of the hunk the builder makes, and a hunk with a change is printed with exactly these lines. |
| PartialPatchNormalForm.PatchTextIsNormalForm | src/octohub/handlers/git_partial_patch.go:61-146 | Building a patch from a non-empty patch with all its changes selected gives the same text exactly when no emitted new start is negative. |
| PartialPatchNormalForm.StagingPatchOfValidDiffIsNormalForm | src/octohub/handlers/git_partial_patch.go:61-146 | For every diff that applies, the staging patch is such a normal form. |
| PartialPatchNormalForm.DiscardingPatchOfValidDiffIsNormalForm | src/octohub/handlers/git_partial_patch.go:61-146 | The discarding patch of such a diff is one as well. |
| PartialPatchNormalForm.PatchOfOrderedDiffIsNormalForm | src/octohub/handlers/git_partial_patch.go:61-146 | For every diff whose hunks stand in order and without overlap on the side that the patch is for, markers included and whatever the file, the patch of either mode is one. |
| PartialPatchNormalForm.EmittedSideIsWhole | src/octohub/handlers/git_partial_patch.go:85-114 | Whatever is selected, an emitted hunk has as many old lines as the diff's hunk has on the old side when staging, on the new side when discarding. |
| PartialPatchNormalForm.NegativeStartExample | src/octohub/handlers/git_partial_patch.go:124-130 | An artificial text, out of order, gives a patch that is not. |
| PartialPatchNormalForm.DeletedFileStaysDeleted | src/octohub/handlers/git_partial_patch.go:139-175 | The non-empty staging patch of a deleted file's diff keeps `/dev/null` as its target exactly when every deletion is selected. |
| PartialPatchHeaders.DiscardedHeaderIs | src/octohub/handlers/git_partial_patch.go:177-197 | For every diff the literal lines in front of the hunks of a discarding patch, with the last old path, new path and mode of the diff's header. |
| PartialPatchHeaders.DiscardingADeletionBringsTheFileBack | src/octohub/handlers/git_partial_patch.go:191-194 | With `--- a/p` and `+++ /dev/null` they are a new file's with the diff's mode, `--- /dev/null` and `+++ b/p`. |
| PartialPatchHeaders.DiscardingKeepsTheNewName | src/octohub/handlers/git_partial_patch.go:195-196 | With `+++ b/p` they are a change of `a/p` to `b/p`. |
| PartialPatchHeaders.StagedHeaderIs | src/octohub/handlers/git_partial_patch.go:139-175 | Which lines stand in front of the hunks of a staging patch, line by line: a partly staged deletion loses its mode and names `+++ b/p`. |
| PartialPatchHeaders.StagingADeletion | src/octohub/handlers/git_partial_patch.go:139-175 | The same lines in order for the header that `git diff` prints for a deleted file. |
| PartialPatchHeaders.ReplacedExactly | src/octohub/handlers/git_partial_patch.go:169-196 | The first occurrence of a prefix is replaced, and nothing else. |
| PartialPatchHeaders.RefusedExactly | src/octohub/handlers/git_partial_patch.go:61-84 | A diff is refused exactly for its first line, from the first hunk on, that starts another file or is no readable header. |
| SqlLexer.ClosingQuote | src/talpadb/engines/statements.go:137-149 | The search for the closing quote ends where the recursive reading of doubled quotes ends. |
| SqlLexer.TokenizeScript | src/talpadb/engines/statements.go:175-244 | The tokenizer terminates and computes the specified tokens, or stops at an unfinished `q'`. |
| SqlPartition.TokensPartitionTheScript | src/talpadb/engines/statements.go:175-244 | Tokens fit their kind and are in bounds: words and numbers are as long as they can be, strings and quoted names run to the first quote left over when all earlier ones are doubled (bracket, or `q'` terminator) or to the end. A symbol is a byte that nothing else starts with. Between tokens only blanks and comments stand. |
| SqlPartition.PartitionIsOrdered | src/talpadb/engines/statements.go:175-244 | Any two tokens are non-empty, disjoint and in order. |
| SqlPartition.StuckExactly | src/talpadb/engines/statements.go:151-154 | The tokenizer fails exactly on Oracle scripts that end in `q'` after a `q` that is a word of its own. |
| SqlPartition.StuckExample | src/talpadb/engines/statements.go:200-203 | The shortest script on which it fails. |
| SqlUniqueness.TokenizedExactly | src/talpadb/engines/statements.go:175-244 | The tokens are the only ones that partition the script so: kinds, bounds, texts and gaps are what the bytes say, for every script and dialect. |
| SqlStrings.LexString | src/talpadb/engines/statements.go:204-207 | Any text between apostrophes, its own doubled, is read as one string literal. |
| SqlStrings.StringIsOneToken | src/talpadb/engines/statements.go:204-207 | That holds wherever a lexeme starts, and the literal never separates statements. |
| SqlStrings.SelectedStringIsOneStatement | src/talpadb/engines/statements.go:294-346 | Selecting any text as a literal is one statement. |
| SqlDialects.LexemesByDialect | src/talpadb/engines/statements.go:71-110 | What number signs, back quotes, brackets and `q'` start in each dialect. |
| SqlDialects.SlashesByDialect | src/talpadb/engines/statements.go:124-135 | A slash alone on its line is a separator in Oracle only. |
| SqlDialects.BlocksByDialect | src/talpadb/engines/statements.go:302-340 | In which dialects semicolons stay in triggers and in PL/SQL blocks. |
| SqlDialects.RowsByDialect | src/talpadb/engines/statements.go:71-110 | Which statements return rows in each dialect. |
| SqlLocality.LexLocal | src/talpadb/engines/statements.go:178-242 | A lexeme is read the same wherever its bytes stand, in front of the same byte, a semicolon or the end. |
| SqlLocality.RangeLocal | src/talpadb/engines/statements.go:175-244 | A stretch between lexeme ends has the same tokens, moved, wherever it stands. |
| SqlStatements.AnalyzeTokens | src/talpadb/engines/statements.go:349-360 | The loop that gives tokens their parenthesis depth computes the specified depths. |
| SqlStatements.BuildStatement | src/talpadb/engines/statements.go:348-383 | The statement of a run of tokens, with its slice, whose trimmed form is the text. |
| SqlStatements.SplitStatements | src/talpadb/engines/statements.go:294-346 | The splitter's loop over tokens, with its current tokens and block state, gives the specified statements. |
| SqlStatements.TopLevelTokens | src/talpadb/engines/statements.go:404-409 | The tokens outside all parentheses, in order. |
| SqlStatements.FindFrom | src/talpadb/engines/statements.go:414-422 | The first FROM, unless a word forbids a single table. |
| SqlStatements.SingleTable | src/talpadb/engines/statements.go:402-455 | The table named after FROM, as far as it is recognised, and whether it is the only one. |
| SqlConservation.BlocksStayBlocks | src/talpadb/engines/statements.go:260-292 | What is recognised as a block stays one however it goes on. |
| SqlConservation.SplitConserves | src/talpadb/engines/statements.go:294-346 | Every token but slash lines and separating semicolons is in exactly one statement, in order; no statement is empty; a semicolon survives only in a block. |
| SqlConservation.SplitIsClosed | src/talpadb/engines/statements.go:294-346 | Every statement is a run without a separator and ends at one or at the end of the script. |
| SqlConservation.DepthIsEnclosingParens | src/talpadb/engines/statements.go:349-360 | A token's depth is the number of open parentheses around it. |
| SqlBlocks.SeparatesExactly | src/talpadb/engines/statements.go:247-341 | Where a statement ends, told by the words of its head and the BEGIN and CASE words that no END has closed. |
| SqlBlocks.NestingIsOpenBlocks | src/talpadb/engines/statements.go:316-328 | The splitter's depth is the number of open blocks, its flag whether a BEGIN has come. |
| SqlBlocks.TriggerHeadExactly | src/talpadb/engines/statements.go:281-292 | The heads of triggers, written out. |
| SqlBlocks.PlsqlHeadExactly | src/talpadb/engines/statements.go:260-279 | The heads of PL/SQL blocks, written out. |
| SqlBlocks.SplitsExactly | src/talpadb/engines/statements.go:294-346 | The statements are the only runs between separators that nothing ends before the token behind them. |
| SqlBlocks.TriggerIsOneStatement | src/talpadb/engines/statements.go:311-340 | A trigger with any well-nested body of BEGIN and CASE blocks, semicolons included, is one statement. |
| SqlBlocks.PlsqlBlockIsOneStatement | src/talpadb/engines/statements.go:329-334 | A PL/SQL block runs to its slash line. |
| SqlBlocks.StatementFlags | src/talpadb/engines/statements.go:363-382 | Keyword, block flag and row flag, with RETURNING outside parentheses. |
| SqlSingleTable.TopLevelExactly | src/talpadb/engines/statements.go:404-409 | The top level has the tokens at depth zero, as often and in order. |
| SqlSingleTable.SingleExactly | src/talpadb/engines/statements.go:402-455 | A table is returned exactly when nothing but its names, an AS and an alias stand between the first FROM and the clauses, and no word forbids it. |
| SqlSingleTable.ListedTablesAreNotSingle | src/talpadb/engines/statements.go:447-453 | A table with a comma behind it is never single. |
| SqlSingleTable.QuotedDotExample | src/talpadb/engines/statements.go:435-439 | A quoted dot as an alias is taken for the dot behind a schema. |
| SqlJoin.JoinedTokenize | src/talpadb/engines/statements.go:175-244 | Slices joined by semicolons have the tokens of the slices, moved, with one semicolon between them. |
| SqlJoin.JoinedSplit | src/talpadb/engines/statements.go:294-346 | The joined text is split at the joins and nowhere else. |
| SqlRoundTrip.SplitJoinRoundTrip | src/talpadb/engines/statements.go:294-346 | For every script outside Oracle, splitting, joining the slices by `;` and a newline, and splitting again gives the same statements with the same tokens, trigger blocks included. |
| SqlRoundTrip.JoinedTextIsNormalForm | src/talpadb/engines/statements.go:294-346 | Joining after splitting is idempotent on texts. |
| SqlRoundTrip.NeverStuck | src/talpadb/engines/statements.go:200-203 | Outside Oracle the tokenizer never fails. |
| SqlQuoting.UndoubleOfDoubled | src/talpadb/engines/statements.go:211 | Undoubling quotes undoes doubling them. |
| SqlQuoting.LexQuoted | src/talpadb/engines/statements.go:208-213 | A quoted identifier is read as one token that holds the name. |
| SqlQuoting.QuotedNamesAreReadBack | src/talpadb/engines/mysql_engine.go:328-330 | For every schema and table name, the query on the quoted names is one statement whose single table is exactly the one named. |
| Cookies.UpsertCookie | src/vulpes/functions/cookies.go:220-236 | The search loop replaces, removes or appends as specified. |
| Cookies.PruneExpiredCookies | src/vulpes/functions/cookies.go:238-246 | Exactly the unexpired cookies stay, in order. |
| Cookies.ApplyCookieChanges | src/vulpes/functions/cookies.go:99-105 | Changes are merged in order, then the expired cookies go. |
| Cookies.CookieJar.Cookies | src/vulpes/functions/cookies.go:40-63 | What the jar sends to a URL. |
| Cookies.CookieJar.SetCookies | src/vulpes/functions/cookies.go:65-78 | Accepted cookies are merged one by one and logged in the same order. |
| CookieLaws.UpsertLooksUp | src/vulpes/functions/cookies.go:220-236 | After an upsert a key finds the new cookie or nothing if it has expired, and every other key what it found before; keys stay unique. |
| CookieLaws.PruneLooksUp | src/vulpes/functions/cookies.go:238-246 | Pruning removes exactly the expired cookies from what keys find. |
| CookieLaws.RunIsReplay | src/vulpes/functions/cookies.go:65-78 | Any run of the jar is the replay of its log at the times of the entries. |
| CookieLaws.JarInvariant | src/vulpes/functions/cookies.go:65-78 | At any moment there is at most one cookie per name, path and case-folded domain, and none had expired at the last accepted update. |
| CookieLaws.LogIsOrdered | src/vulpes/functions/cookies.go:69-77 | With a clock that never goes back, the log is ordered in time. |
| CookieLaws.ChangesMergeToTheJar | src/vulpes/functions/cookies.go:65-105 | Merging the log into the initial cookies at any later time gives the same cookies as the jar pruned then. |
| CookieLaws.ChangesMergeToTheSameList | src/vulpes/functions/cookies.go:65-105 | At a constant clock, with no expired initial cookie, it gives the same list. |
| CookieLaws.SendingOrder | src/vulpes/functions/cookies.go:56 | Cookies are sent by decreasing path length, equal lengths in jar order. |
| CookieLaws.DefaultPathMatches | src/vulpes/functions/cookies.go:266-282 | The default path of a request path matches that request path. |
| CookieLaws.AcceptedCookieIsSentBack | src/vulpes/functions/cookies.go:186-206 | An accepted, unexpired cookie with a default path is sent back to the URL that set it exactly when its Secure flag allows it. |
| CookieMatching.HostMatchesByLabels | src/vulpes/functions/cookies.go:259-264 | A name belongs to a domain exactly when its labels end with those of the domain, an address to itself alone. |
| CookieMatching.PathMatchesBySegments | src/vulpes/functions/cookies.go:266-274 | A path lies under a cookie's path exactly when its segments begin with those of the other. |
| CookieMatching.KeysExactly | src/vulpes/functions/cookies.go:248-250 | Two cookies are the same exactly when name, path and, but for case, domain agree. |
| CookieMatching.SentExactly | src/vulpes/functions/cookies.go:49-55 | A cookie is sent exactly when it is in the jar, expires later, may go over the scheme, and host and path belong to it, told by labels and segments. |
| CookieMatching.PrunedExactly | src/vulpes/functions/cookies.go:238-246 | Every cookie stays as often unless its time has come. |
| CookieMatching.PrunedInOrder | src/vulpes/functions/cookies.go:238-246 | Pruning keeps the order. |
| CookieMatching.MatchingInOrder | src/vulpes/functions/cookies.go:48-55 | Cookies are matched in the order of the jar. |
| CookieMatching.AcceptedInOrder | src/vulpes/functions/cookies.go:70-77 | Cookies are accepted in the order of the response. |
| CookieMatching.ReplacedInPlace | src/vulpes/functions/cookies.go:222-231 | A cookie replaces the first one with its key at its place, an expired one removes it. |
| CookieMatching.AppendedWhenNew | src/vulpes/functions/cookies.go:232-235 | A new one goes to the end. |
| CookieMatching.TrimmedExactly | src/vulpes/functions/cookies.go:284-286 | Trimming takes off exactly the blanks around a text. |
| CookieMatching.DefaultPathExactly | src/vulpes/functions/cookies.go:276-282 | The default path is the request path up to its last slash, or a slash. |
| CookieMatching.AcceptedExactly | src/vulpes/functions/cookies.go:186-206 | A response's cookie is accepted exactly when it has a name, the host belongs to the domain, and that is no bare label; what is stored, field by field. |
| CookieMatching.ExpiryExactly | src/vulpes/functions/cookies.go:208-218 | Max-Age goes before Expires; whole seconds, 64-bit wrap-around and sessions. |
| TableEdits.WhereClause | src/talpadb/handlers/edit_handler.go:199-218 | The conditions and parameters for a row's key, exactly when the key is complete and not NULL. |
| TableEdits.Assignments | src/talpadb/handlers/edit_handler.go:220-237 | Names and values in order, or the error of the first unknown or repeated column. |
| TableEdits.ValidValuesHaveNoError | src/talpadb/handlers/edit_handler.go:224-232 | There is no such error exactly when all columns are known and different. |
| TableEdits.DeleteStatement | src/talpadb/handlers/edit_handler.go:239-245 | The statement and parameters of a delete, or its error. |
| TableEdits.UpdateStatement | src/talpadb/handlers/edit_handler.go:247-264 | The statement and parameters of an update, or the first of its errors. |
| TableEdits.InsertStatement | src/talpadb/handlers/edit_handler.go:266-283 | The statement and parameters of an insert, with default values when no column is given. |
| TableEdits.HolesOfStatement | src/talpadb/handlers/edit_handler.go:239-283 | The placeholders of a statement's text are those of its clauses, in the order of the text. |
| TableEdits.PlaceholdersMatchParameters | src/talpadb/handlers/edit_handler.go:199-283 | The placeholders of every statement are numbered 1, 2, ... in text order, one for every parameter, so numbered and `?` placeholders bind the same values. |
| TableEdits.ValuesStayOutOfTheText | src/talpadb/handlers/edit_handler.go:199-283 | Changes of the same columns have the same text, whatever the values. |
| TableRefusals.RefusedExactly | src/talpadb/handlers/edit_handler.go:199-283 | For which keys and cells each kind of change is refused, and with which error, the first wrong cell before a missing column before the key. |
| TableTexts.StatementIsRead | src/talpadb/handlers/edit_handler.go:199-283 | The text of every statement is read, in the dialect's own lexemes, as its words, the table, and for each column its name, `=` and placeholder, joined by AND or commas, whatever the names hold. |
| TableTexts.StatementIsOne | src/talpadb/handlers/edit_handler.go:239-283 | It is a single statement. |
| TableTexts.EnginesWriteDefaults | src/talpadb/engines/oracle_engine.go:148-150 | The three ways of the engines to write an insert without values. |
| TableTextMeanings.TextDeterminesColumns | src/talpadb/handlers/edit_handler.go:247-264 | Two updates of a table with the same text set the same columns in the same order. |
| TableMeanings.BuiltExactlyWhenValid | src/talpadb/handlers/edit_handler.go:199-283 | A statement is built exactly for a complete key, known different columns and, for an update, at least one column. |
| TableMeanings.EditedColumns | src/talpadb/handlers/edit_handler.go:247-264 | In an edited row the given columns have the given values and every other column is as it was. |
| TableMeanings.StatementMeansTheChange | src/talpadb/handlers/edit_handler.go:239-283 | Executing the statement of a change, bound to its parameters, does to any table what the change means; the affected rows are those that have its key and, for an update where changed rows are counted, are not already what it makes of them. |
| TableSaves.OneChosen | src/talpadb/handlers/edit_handler.go:309-311 | When one row is found, exactly this row is removed or changed and all others stay in place. |
| TableSaves.SavedCounts | src/talpadb/handlers/edit_handler.go:293-316 | A successful save changes the number of rows by inserts minus deletes. |
| TableSaves.SavedKeepsUntouchedRows | src/talpadb/handlers/edit_handler.go:293-316 | A row that no delete or update is about survives a save unchanged. |
| TableSaves.ApplyOperation | src/talpadb/handlers/edit_handler.go:299-314 | All changes of one kind are applied in order, or the first that does not affect one row, as the connection counts, or is invalid, is reported with its place. |
| TableSaves.AppliedByStatement | src/talpadb/handlers/edit_handler.go:301-311 | A change is applied exactly when its statement is built and, unless it inserts, affects one row as the connection counts. |
| TableSaves.ApplyTableChanges | src/talpadb/handlers/edit_handler.go:293-316 | Deletes, then updates, then inserts, with counters equal to the sizes of the request; a failure without the database's fault means that some change is invalid or does not affect one row as the connection counts. |
| TableSaves.SaveChanges | src/talpadb/handlers/generic_session.go:278-319 | A save in its own transaction is all or nothing, and in an open one commits nothing and leaves it open unless the connection is lost. |
| TableSaves.SaveTableChanges | src/talpadb/handlers/edit_handler.go:318-389 | The same through PostgreSQL, with its checks before the transaction. |
| TableSaves.DeletesThenUpdatesThenInserts | src/talpadb/handlers/edit_handler.go:293-298 | Saving a request is saving its deletes, then its updates, then its inserts. |
| TableSaves.SavedInOrder | src/talpadb/handlers/edit_handler.go:299-314 | The changes of each kind are made in the order of the request. |
| TableCounting.GoesThroughExactly | src/talpadb/handlers/edit_handler.go:309-311 | A built update or delete is applied exactly when one row and no other has its key and, for an update where changed rows are counted, differs from what the update makes of it. |
| TableCounting.StoredValueIsRefused | src/talpadb/functions/connection_string.go:87-106 | The update of a row to its stored value is applied where matched rows are counted and refused where changed ones are. |
| TableCounting.IdleUpdatesAreRefused | src/talpadb/handlers/edit_handler.go:309-311 | Where changed rows are counted, an update that would be applied goes through exactly when it does not leave the table as it is. |
| TableCounting.SavesByCounting | src/talpadb/handlers/edit_handler.go:293-316 | A save that goes through where matched rows are counted does where changed ones are exactly when none of its updates, at its turn, leaves the table as it is, and then does the same. |
| TableCounting.SavesByMatching | src/talpadb/handlers/edit_handler.go:293-316 | A save that goes through where changed rows are counted does where matched ones are exactly when every update, at its turn, has the key of one row alone, and then does the same. |
| TableCounting.SharedKeyIsApplied | src/talpadb/handlers/edit_handler.go:309-311 | Of two rows with the key of an update one is already as it should be: the update is applied only where changed rows are counted. |
| EditableTables.MapColumns | src/talpadb/handlers/generic_session.go:208-227 | Each result column gets the column spelled like it, else one that differs in case, unless an earlier result column has it. |
| EditableTables.MatchExactly | src/talpadb/handlers/generic_session.go:208-222 | Which column a result name stands for: the last one spelled alike, or else the last that differs in case. |
| EditableTables.KeysAreKeys | src/talpadb/handlers/generic_session.go:229-234 | The key columns are those with a positive key order. |
| EditableTables.MappedIsInjective | src/talpadb/handlers/generic_session.go:215-227 | No two result columns stand for the same column. |
| EditableTables.SortingKeeps | src/talpadb/handlers/generic_session.go:238 | Sorting the key columns keeps every column, as often. |
| EditableTables.SortingSorts | src/talpadb/handlers/generic_session.go:238 | They are in key order. |
| EditableTables.SortingIsStable | src/talpadb/handlers/generic_session.go:238 | Columns of the same key order keep their order. |
| EditableTables.KeyColumns | src/talpadb/handlers/generic_session.go:240-255 | Where the result shows each key column first, exactly when it shows all of them. |
| EditableTables.GenericSession.StartRun | src/talpadb/handlers/generic_session.go:169 | A run forgets the tables of earlier results, whose ids are never found again. |
| EditableTables.GenericSession.EditableTable | src/talpadb/handlers/generic_session.go:203-276 | A result is editable exactly when its table has a key that it shows completely; the new id then stands for the table's name, its columns and key, and how its placeholders and default inserts are written. |
| EditableTables.KeyFindsItsRow | src/talpadb/handlers/generic_session.go:240-268 | The key sent back for a shown row finds that row, and is refused exactly when a key column is NULL. |
| QuerySessions.QuerySession.Begin | src/talpadb/handlers/query_handler.go:101-109 | The cancel function is registered unless the session is closed. |
| QuerySessions.QuerySession.MarkClosed | src/talpadb/handlers/query_handler.go:126-130 | Closing sets the flag and sees the registered cancel function in one step. |
| QuerySessions.NextKeepsInv | src/talpadb/handlers/query_handler.go:100-148 | What every step of every thread keeps. |
| QuerySessions.RunKeepsInv | src/talpadb/handlers/query_handler.go:100-148 | The invariant holds after every interleaving of any number of operations. |
| QuerySessions.AtMostOneActiveRun | src/talpadb/handlers/query_handler.go:300-320 | At most one run is active, with the mutex and the registered cancel function. |
| QuerySessions.NoRunBeginsOnceClosed | src/talpadb/handlers/query_handler.go:104-106 | After `closed` is set no run begins. |
| QuerySessions.ClosingCancelsTheActiveRun | src/talpadb/handlers/query_handler.go:126-133 | A run active after a thread has set `closed` is the one this thread is about to cancel, or is cancelled. |
| QuerySessions.OnlyAskedForCancellations | src/talpadb/handlers/query_handler.go:111-133 | Active runs are cancelled only by a closing or a request to cancel, and begin uncancelled. |
| QuerySessions.RequestCancelsTheActiveRun | src/talpadb/handlers/query_handler.go:111-121 | A request to cancel cancels the run that is active when it reads the cancel function. |
| QuerySessions.BusySessionsRefuseRuns | src/talpadb/handlers/query_handler.go:300-303 | While a run is active every other one is refused at once and changes nothing. |
| QuerySessions.ConnectionClosesWithoutRuns | src/talpadb/handlers/query_handler.go:135-147 | When the connection is closed, no other operation holds the mutex. |
| QuerySessions.ClosedForGood | src/talpadb/handlers/query_handler.go:126-148 | Afterwards the connection stays closed and no run is active again. |
| QuerySessions.NoDeadlock | src/talpadb/handlers/query_handler.go:135-137 | While an operation is unfinished, some thread can take a step. |
| QuerySessions.StepsAreBounded | src/talpadb/handlers/query_handler.go:292-320 | No operation takes more than five steps. |
| SessionOutputs.SessionOutput.WriteChunk | src/ferretshell/handlers/session_output.go:37-48 | Output is emitted, or kept up to the limit while paused. |
| SessionOutputs.SessionOutput.MoveToWindow | src/ferretshell/handlers/session_output.go:54-59 | A move changes the owner and pauses. |
| SessionOutputs.SessionOutput.ResumeOutput | src/ferretshell/handlers/session_output.go:61-70 | Resuming emits what is pending, if anything. |
| SessionOutputs.PendingIsTheLastBytes | src/ferretshell/handlers/session_output.go:37-70 | Over every run, pending is exactly the last 1 MiB of what was written since the pause began. |
| SessionOutputs.EmissionsGoToTheOwner | src/ferretshell/handlers/session_output.go:37-70 | Nothing is emitted while paused, and every emission goes to the owner of that moment. |
| SessionOutputs.NothingAppears | src/ferretshell/handlers/session_output.go:37-70 | Emitted, pending and lost bytes add up to the written ones. |
| SessionOutputs.LossIsOverflow | src/ferretshell/handlers/session_output.go:45-47 | Bytes are lost exactly when some pause held more than the limit. |
| SessionOutputs.OutputIsConserved | src/ferretshell/handlers/session_output.go:37-70 | Emitted plus pending output is everything written, in order, exactly when no pause ever held more than the limit. |
| SessionRegistries.ScopeIsOwner | src/desktop/windows.go:71-77 | With window names free of slashes a key is scoped to a window exactly when it was made for it. |
| SessionRegistries.KeysDetermineIds | src/desktop/windows.go:71-73 | Such a key determines window and id. |
| SessionRegistries.SessionRegistry.Register | src/ferretshell/handlers/local_terminal_handler.go:104-130 | A new session replaces the one with its key, whatever ids other windows use. |
| SessionRegistries.SessionRegistry.ForgetSession | src/ferretshell/handlers/session_output.go:87-91 | A session that is in the map is found and removed, whatever moves it has made; another one changes nothing. |
| SessionRegistries.SessionRegistry.MoveSession | src/ferretshell/handlers/session_output.go:76-83 | One session goes from its key to the one of its new owner. |
| SessionRegistries.SessionRegistry.MoveWindowSessions | src/ferretshell/handlers/session_output.go:72-85 | The exact map and states after a move, in any order of visits and even if keys stored meanwhile are visited: no session stays scoped to the source, each of its sessions is paused under its new key, all others are where they were unless their key was taken. All are kept exactly when none was. |
| SessionRegistries.MovedExactly | src/ferretshell/handlers/session_output.go:72-85 | A move keeps every session exactly when no key that it gives is in the map. |
| SessionRegistries.TakenKeyLosesItsSession | src/ferretshell/handlers/session_output.go:82 | Under a key that is taken stands the moved session afterwards, in place of the other one. |
| SessionRegistries.SharedIdExample | src/ferretshell/handlers/session_output.go:72-85 | With one id in two windows, a move to a third window keeps both sessions and a move from one to the other drops one. |
| SessionRegistries.SessionRegistry.DistinctIdsAreFree | src/ferretshell/handlers/session_output.go:72-85 | With distinct ids no key is ever taken. |
| CollectionTrees.FindExactlyWhenThere | src/vulpes/functions/collection_tree.go:16-38 | An item is found, has ancestors and can be removed exactly when its id is in the tree. |
| CollectionTrees.LocatedExactlyWhenThere | src/vulpes/functions/collection_tree.go:40-57 | It is located exactly then. |
| CollectionTrees.RemoveConserves | src/vulpes/functions/collection_tree.go:74-87 | Removing takes out the found item with everything below it; every id is as often in the rest and the removed part as before. |
| CollectionTrees.RemovedIsGone | src/vulpes/functions/collection_tree.go:74-87 | With unique ids none of the removed ids remains. |
| CollectionTrees.InsertConserves | src/vulpes/functions/collection_tree.go:59-72 | Inserting adds the ids of the item and loses none. |
| CollectionMoves.InsertPlaces | src/vulpes/functions/collection_tree.go:59-141 | A new item is located where it was inserted, and removing it restores the tree. |
| CollectionMoves.RemoveThenInsertRestores | src/vulpes/functions/collection_tree.go:40-87 | With unique non-empty ids and children only under folders, removing an item and inserting it at its location restores the tree. |
| CollectionMoves.MovePlaces | src/vulpes/handlers/vulpes_handler.go:387-406 | In such a tree a moved item is at its target, the index counted before it was taken out; nothing else changes and no id is lost. |
| CollectionMoves.MoveBackRestores | src/vulpes/handlers/vulpes_handler.go:387-406 | In such a tree, moving an item back to its old location restores the tree. |
| CollectionMoves.OldParentIsOutside | src/vulpes/handlers/vulpes_handler.go:391-394 | An item's parent is not inside the item, so moving back is never refused. |
| CollectionMoves.MoveKeepsWellFormed | src/vulpes/handlers/vulpes_handler.go:387-406 | Moves keep ids unique and children under folders. |
| CollectionMoves.DuplicateIdsAreNotRestored | src/vulpes/functions/collection_tree.go:40-87 | An example: an item whose id also occurs inside an earlier sibling is not restored. |
| CollectionRestoring.FirstIsRemoved | src/vulpes/functions/collection_tree.go:16-87 | Finding and removing mean the item at the first path: it is returned, and the rest is the tree without that place. |
| CollectionRestoring.LocatedIsLocation | src/vulpes/functions/collection_tree.go:40-57 | The location is that of the item at the located path: the nearest non-empty id above it and its index. |
| CollectionRestoring.NearestIsParent | src/vulpes/functions/collection_tree.go:40-57 | That id is the parent's, unless the parent's id is empty, and empty at the top. |
| CollectionRestoring.SameItemExactly | src/vulpes/functions/collection_tree.go:40-87 | For every tree, locating and removing mean the same item exactly when, on the level where it is located, nothing in front of it holds its id. |
| CollectionRestoring.RestoredExactly | src/vulpes/functions/collection_tree.go:40-87 | For every tree, removing an item and inserting it where it was located restores the tree exactly when they mean the same item and, below the top, the item above it is a folder and the first with its own, non-empty id. |
| CollectionIds.CollectItemIDs | src/vulpes/functions/collection_tree.go:125-131 | Exactly the ids of the tree are added. |
| CollectionIds.EnsureUniqueIDs | src/vulpes/functions/collection_tree.go:115-123 | Afterwards all ids are unique, not empty and new; only ids change, and none if all could stay. |
| CollectionIds.InsertForeign | src/vulpes/handlers/vulpes_handler.go:400-406 | An item from elsewhere gets ids that keep the collection's ids unique and is put where asked for. |
| CollectionIds.MoveBetween | src/vulpes/handlers/vulpes_handler.go:387-406 | A move to another collection, with new ids where needed; it is refused as a move into itself exactly when the target folder's id occurs in the moved item. |
| CollectionIds.SharedFolderIdIsRefused | src/vulpes/handlers/vulpes_handler.go:391-394 | Two well-formed collections between which a move is refused, although the item could be inserted. |
| CollectionAuth.EffectiveAuth | src/vulpes/functions/auth.go:15-34 | The search upwards gives what a pass from the top of the tree hands down to the item. |
| CollectionAuth.ReachingIsHandedThrough | src/vulpes/functions/auth.go:23 | That pass hands the authorization through exactly the item's ancestors. |
| CollectionAuth.InheritedIsNeverInherit | src/vulpes/functions/auth.go:15-34 | The result is never "inherit". |
| CollectionAuth.NearestFolderDecides | src/vulpes/functions/auth.go:15-34 | A request inherits from the lowest of its ancestors that has an authorization of its own, or else from the collection. |
| CollectionAuth.AncestorsLeadToTheItem | src/vulpes/functions/collection_tree.go:25-38 | The ancestors are the chain of items from the top to the found item. |
| CommitReordering.SameCommits | src/octohub/handlers/git_commit_actions.go:265-279 | The counting loops decide whether two lists are equal as multisets. |
| CommitReordering.ReorderCommits | src/octohub/handlers/git_commit_actions.go:192-263 | The plan for a requested order or the first error: too few commits, an invalid hash, a running operation, a changed history, a merge in the way, a failed stash. |
| CommitReordering.LastDifferenceSplits | src/octohub/handlers/git_commit_actions.go:214-219 | Behind the last changed place the orders agree, and at it they do not. |
| CommitReordering.WritePicks | src/octohub/handlers/git_commit_actions.go:234-237 | The todo list has the requested commits up to the changed one, the oldest first. |
| CommitReordering.RebaseIsRightAndMinimal | src/octohub/handlers/git_commit_actions.go:205-237 | The picks are exactly the commits after the base. Replaying them gives the requested history exactly when none is a merge, which is so unless the rebase starts at the root; no later base gives it, whatever is picked. |
| CommitReordering.MergesAreRefusedExceptAtTheRoot | src/octohub/handlers/git_commit_actions.go:224-232 | For every request: without a merge to replay it gets the requested history; with one it is refused, or, at the root, git stops at a picked merge. |
| CommitReordering.RootMergeExample | src/octohub/handlers/git_commit_actions.go:222-237 | Swapping the root commit with a merge on top of it is planned, and stops. |
| CommitReordering.RefusedExactly | src/octohub/handlers/git_commit_actions.go:192-263 | Every check refuses exactly what it is there for, in their order; otherwise base and picks, written out. |

## Left out

- Integer widths: hunk numbers, counters and table ids are unbounded; a hunk start of 2^63 or more, which the code clamps, and wrap-around after 2^32 results are not modelled. The seconds of a cookie's Max-Age do wrap as in the code.
- Pointers into slices: the current hunk is the last element of a sequence, cookies and tree items are values; sharing of slices between callers is not modelled.
- Content of files without a final newline: the content theorems are about diffs without `\ No newline` markers; for markers only their place is proved.
- How git searches for a hunk that does not stand at its line: applying is strict.
- Quoted and renamed paths in patch headers, and the hash that detects a changed diff.
- Unicode: upper and lower case, case-insensitive comparison and blanks are those of ASCII.
- SqlRoundTrip.SplitJoinRoundTrip: does not include Oracle, where a slash line depends on the line it stands on and a joined PL/SQL block swallows what follows.
- Command tags and the tracking of transaction state from statements: case lists.
- Parsing of IP addresses is an abstract predicate; cookie times beyond the year 9999, the editor's validation and normalization of cookies, and same-site names are not modelled.
- Sorting is a stable insertion sort on values in place of the library's.
- PostgreSQL's catalogue queries that load a table: their result is an argument, assumed to name columns of the table differently and to list key columns among them.
- Conversions between texts and column types in the database, its constraints and its triggers: a database may refuse any statement, and texts that a column stores alike count as different. A column name that is given twice in a result by aliases is taken at its word.
- TableCounting.GoesThroughExactly: compares values as texts; a MySQL column that stores the new text as the value it has does not count as changed either.
- QuerySessions.ClosingCancelsTheActiveRun: does not say when a cancelled run ends, because that is up to the database driver; PostgreSQL's separate cancel request is not modelled.
- Mutexes of the cookie jar and of terminal outputs: each call is one step. The order in which a map is visited is arbitrary.
- UUIDs: a new id is assumed not to be known yet.
- CommitReordering.RebaseIsRightAndMinimal: takes a rebase as replaying its picks without conflicts, and commits by the hash they had. Merges are looked for on the first-parent history alone, through which every side branch of the range is joined. Failures of git before the rebase and of writing the todo list are not modelled.
- Running git, terminals, drivers, HTTP and OAuth; the frontend; catalogue queries; encryption; cloud sync and settings.
