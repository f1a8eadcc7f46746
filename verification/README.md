# Verification models of the orchestrator's data-handling cores

This project models the parts of the platform whose correctness is hard to see from one
function body, and proves what they promise. Each module follows one source file. Code that
changes state step by step is a class or a method with the same loops; every such method is
tied by its `ensures` to a function of its inputs or of the old state, and the promises are
lemmas about those functions.

`dafny verify dfyconfig.toml` checks the whole project.

- **JobQueue, JobQueueRuns** - the job table shared by many workers, its three atomic
  statements, and all their interleavings with enqueues, cancel requests and finishes. Rows
  locked by another transaction (`SKIP LOCKED`) are a parameter of each step.
- **Chunking, ChunkingSteps, ChunkingEnds, ChunkingTheorems, ChunkingCoverage, ChunkingPlacement** -
  the recursive text splitter and its overlap, fallback windows and page numbering, for all sizes and
  overlaps, on the texts on which it ends and on exactly which those are.
- **Csv, CsvRoundTrip, Markdown, MarkdownReading** - the CSV state machine, the printer of section 2
  of RFC 4180 as its inverse, the Markdown table, and what it gives when read back.
- **Sql, Dialects, PostgresBuilder, SqlServerBuilder, Upsert, UpsertAgreement, UpsertEffects** - the
  query builders as classes over conditions with placeholders, the three-valued value of those
  conditions on a row, what a chain of calls asks for, ON CONFLICT against MERGE on tables, and what
  an upsert of the caller's data does, row by row and column by column, in either dialect.
- **Walker, WalkerSpec, WalkerRules, JsonValues** - the presentation walker, a description of each
  stage's final state that does not walk, and what the words of a manifest mean for one event.
- **SectionPath** - the heading hierarchy and the nearest heading.
- **RankFusion, Mmr, VersionGroups, Sorting** - rank fusion, maximal marginal relevance and
  version grouping, over a stable sort.
- **CaseConverter** - deep conversion of keys between snake_case and camelCase.
- **TokenReplay** - the table of used tokens with pruning, and runs of verifies and prunes.
- **FeatureFlag** - the 32-bit rolling hash and the rollout decision.
- **A2A** - the printer of a task and the parser of another agent's answer.

## Where the code and an obvious promise part

- With the default separators a chunk size of at least one is a bound for every text exactly when the
  overlap is smaller and not 0 (`ChunkingTheorems.SizeBoundExactly`, which also settles sizes below
  one). With overlap 0, `slice(-0)` carries the whole chunk on.
- The fallback's loop ends exactly when the overlap is smaller than the size, one window is enough or
  the text is empty (`ChunkingEnds.FallbackEndsExactly`), whatever the comment beside its break says.
  Given a character foreign to the separators, every text's split ends exactly when the overlap is
  smaller than the size, or the size is at least one and the separator list ends in the empty
  separator, as the default does (`ChunkingEnds.EndsOnEveryTextExactly`).
- Nothing is lost exactly when the size is at least one and the overlap is not negative or the
  separators hold the empty one (`ChunkingCoverage.KeepsExactly`).
- The chunks need not stand in the text in the order in which they are returned: one restarted from
  an overlap and split again may leave a short piece before which the next one starts
  (`ChunkingPlacement.PlacesNeedNotAscend`).
- From every table, an upsert of the same data means the same in both dialects exactly when neither
  refuses it and no row has an array for an array column, which Postgres writes as an array and SQL
  Server as JSON text; when duplicates are ignored, such a row does no harm if an earlier row has its
  key (`UpsertAgreement.UpsertsMeanTheSameExactly`, with an input in
  `UpsertAgreement.ArrayColumnDiffers`). Postgres refuses when duplicates are not ignored and either
  no column is left to update or two rows have the same key; it carries out a statement whose data
  lacks a conflict column, since a null key matches nothing (`Upsert.PostgresRefusesExactly`). SQL
  Server refuses exactly when the data lacks a conflict column (`Upsert.SqlServerRefusesExactly`).
  Both refuse data without any column.
- `not(column, 'eq', null)` binds a null and accepts no row in either dialect, unlike
  `neq(column, null)` (`Dialects.NotEqNullAcceptsNothing`).
- The Markdown table is rectangular exactly when no record is longer than the header, no cell holds a
  carriage return, and, for a reader that counts the backslashes before a pipe as `marked` does, no
  cell holds a pipe after an odd number of them (`Markdown.TableIsRectangular`). Short records are
  padded, long ones are not cut. The cell escape replaces line feeds only, while CommonMark (section
  2.1) also ends a line at a carriage return; a quoted CRLF in the CSV is enough
  (`Markdown.ReturnBreaksTable`). It leaves backslashes alone, so that the cell `\|` is printed as
  two backslashes and a pipe, which hide each other (section 2.4) and leave the pipe bare
  (`Markdown.OddPipeBreaksTable`); a reader that takes a pipe as text after any backslash is not
  misled.
- A token can be let in twice exactly when its expiry is no whole second and, as recorded in whole
  milliseconds, not the last one of its second (`TokenReplay.LetInTwiceExactly`): its row is pruned by
  the millisecond, while the token library takes it for valid until the next full second
  (`TokenReplay.ReplayNeedsPrune`).
- Of any other token, one issuer's is let in a second time only when the issuer's caller has been
  given another id in between (`TokenReplay.ReplayNeedsNewCaller`).
- A field named `__proto__` does not survive the key-case round trip, because assigning that key
  sets the prototype of the new object; `_Proto__` is lost the other way round. Every other value
  with keys in the source case survives (`CaseConverter.RoundTripExactly`).
- The state of another agent's task is looked up in a table that has the properties of every object: a
  state named `toString` or `constructor` is not refused, and what is read is no state
  (`A2A.RefusedStateExactly`, `A2A.InheritedStateIsRead`).

## Model

| member | source | states |
|---|---|---|
| JobQueue.Service.ClaimNext | packages/planes/database/postgres-database-job-queue.service.ts:37-68 | the first queued, unlocked row in order of queueing is given to the worker with a lease and one more attempt, and no other row changes; nothing happens when none is eligible; each invalid argument is refused with its own error |
| JobQueue.Service.Heartbeat | packages/planes/database/postgres-database-job-queue.service.ts:70-88 | true exactly when the row is running or asked to cancel under that worker, and then only its lease moves |
| JobQueue.Service.ReclaimExpired | packages/planes/database/postgres-database-job-queue.service.ts:90-132 | the three lists hold exactly the overdue unlocked rows: requeued the running ones with attempts left, failed the running ones without, canceled those asked to cancel; each keeps all but the columns named, and all other rows keep their values |
| JobQueue.ClaimExactly | packages/planes/database/postgres-database-job-queue.service.ts:49-66 | a claim sets status, worker, lease, attempt, first start and stamp of the first waiting row, and changes nothing else; none happens when no row waits |
| JobQueue.ReclaimExactly | packages/planes/database/postgres-database-job-queue.service.ts:90-117 | what a reclaim makes of every row, column by column, from what the row was |
| JobQueue.IdentifierExactly | packages/planes/database/postgres-database-job-queue.service.ts:10 | a name is made of lower-case letters, digits and underscores and starts with no digit |
| JobQueue.QualifiedExactly | packages/planes/database/postgres-database-job-queue.service.ts:12-17 | a queue name is accepted exactly when both its schema and its table are such names |
| JobQueueRuns.InvStep | packages/planes/database/postgres-database-job-queue.service.ts:49-66 | every step of every worker and of the platform keeps the row invariant; a queued row always has attempts left |
| JobQueueRuns.InvRun | packages/planes/database/postgres-database-job-queue.service.ts:49-117 | the row invariant holds in every reachable table |
| JobQueueRuns.StepFrame | packages/planes/database/postgres-database-job-queue.service.ts:49-117 | no step loses a row, changes a terminal one, rewrites the first start, or changes a row without stamping it |
| JobQueueRuns.CancelExactly | apps/api/src/workflows/shared/runs/workflow-runs.repository.ts:198-218 | a cancel request ends a queued row at once, asks the holder of a running one to stop, and changes no other |
| JobQueueRuns.FinishExactly | apps/api/src/workflows/shared/runs/workflow-runs.repository.ts:123-188 | a row can be finished exactly by the worker that holds it: completed from running, canceled when asked to, failed from both; nothing else changes |
| JobQueueRuns.TerminalFrozen | packages/planes/database/postgres-database-job-queue.service.ts:49-117 | over any run a terminal row never changes again |
| JobQueueRuns.RequeuesExactly | packages/planes/database/postgres-database-job-queue.service.ts:94-105 | a reclaim requeues a row exactly when the row goes from running to queued |
| JobQueueRuns.HeldWhileNotReclaimed | packages/planes/database/postgres-database-job-queue.service.ts:49-88 | a claimed row stays with its worker, under the lease that worker last set, until it ends or is requeued |
| JobQueueRuns.LeaseExclusion | packages/planes/database/postgres-database-job-queue.service.ts:37-131 | between two claims of a row lies a reclaim that ran strictly after the lease end the first worker last set, and until it nobody else claimed or extended the row |
| JobQueueRuns.AttemptCountsClaims | packages/planes/database/postgres-database-job-queue.service.ts:53 | the attempt counter is the number of times the row was claimed in the run |
| JobQueueRuns.BoundedAttempts | packages/planes/database/postgres-database-job-queue.service.ts:93-117 | no row is claimed more often than its maximum, and a row failed on expiry was claimed exactly that often and says so in its error |
| JobQueueRuns.ReclaimSpends | packages/planes/database/postgres-database-job-queue.service.ts:90-131 | a reclaim lowers the measure by at least the number of rows it resolves |
| JobQueueRuns.StepSpends | packages/planes/database/postgres-database-job-queue.service.ts:49-117 | only enqueuing raises the measure; every claim and every row reclaimed lowers it |
| JobQueueRuns.RunSpends | packages/planes/database/postgres-database-job-queue.service.ts:49-117 | a run makes at most two claims or reclaims per attempt enqueued |
| JobQueueRuns.QuietMeansDrained | packages/planes/database/postgres-database-job-queue.service.ts:49-117 | when leases have run out and neither a claim nor a reclaim finds anything to do, every row is terminal |
| JobQueueRuns.Drains | packages/planes/database/postgres-database-job-queue.service.ts:49-117 | from every table that keeps the row invariant, at any time, claims and reclaims alone drain every row to a terminal status in no more steps than its weight |
| Strings.JoinSplit | packages/planes/rag/chunking.service.ts:123 | joining the parts of a split with its separator gives the text back |
| Strings.SplitIsLeftmost | packages/planes/rag/chunking.service.ts:123 | no part of a split holds the separator, and each part ends where the separator first occurs |
| Strings.SplitJoin | packages/planes/database/postgresql-database.service.ts:435-440 | splitting a join at its one-character separator gives the parts back |
| Strings.TrimExactly | packages/planes/rag/chunking.service.ts:63 | trimming takes the white space off both ends and nothing else |
| Chunking.SplitBySize | packages/planes/rag/chunking.service.ts:193-213 | for every size and overlap for which the fallback's loop ends at all, it produces exactly the windows of the text |
| ChunkingSteps.WindowsExactly | packages/planes/rag/chunking.service.ts:199-210 | window k starts k times a size minus an overlap further on and is what `slice` gives from there over a size; the last is the first to reach the end or to be followed by a start beyond it |
| ChunkingEnds.FallbackEndsExactly | packages/planes/rag/chunking.service.ts:199-210 | for every size and overlap the loop ends exactly when the overlap is smaller than the size, one window is enough or the text is empty |
| Chunking.RecursiveSplit | packages/planes/rag/chunking.service.ts:101-188 | on every text on which the recursion reaches the fallback only where its loop ends, it ends, on a shrinking separator list, with the chunks of the specification |
| ChunkingSteps.CarriedExactly | packages/planes/rag/chunking.service.ts:218-232 | a full chunk carries on its last `overlap` characters, but only what follows their first space when that lies after their start and in their first half; that is at least about half of them |
| ChunkingSteps.RestartCarries | packages/planes/rag/chunking.service.ts:154-156 | after an emitted chunk the next one is that carried end, the separator and the piece |
| ChunkingSteps.PieceThatFits | packages/planes/rag/chunking.service.ts:130-136 | while the next piece fits behind the separator the chunk grows by it and nothing is emitted |
| ChunkingSteps.PieceThatFills | packages/planes/rag/chunking.service.ts:137-156 | when it does not fit, the chunk is emitted, whole or split again by the later separators when it is too long |
| ChunkingSteps.PieceTooLong | packages/planes/rag/chunking.service.ts:157-166 | a piece too long for an empty chunk is split by the later separators and the chunk stays empty |
| ChunkingSteps.ShortText | packages/planes/rag/chunking.service.ts:107-110 | a text within the size is its own only chunk, unless it is blank |
| ChunkingSteps.ConfiguredExactly | packages/planes/rag/chunking.service.ts:28-60 | a blank text has no chunks; any other is split by the configured separators, or the nine default ones, by size and overlap |
| ChunkingEnds.AlwaysEnds | packages/planes/rag/chunking.service.ts:101-188 | with an overlap smaller than the size, or a size of at least one and separators that end in the empty one, the split of every text ends |
| ChunkingEnds.EndsOnEveryTextExactly | packages/planes/rag/chunking.service.ts:101-188 | given one character foreign to the separators, these are the only sizes and separators for which every text's split ends |
| ChunkingTheorems.NextIsSuffix | packages/planes/rag/chunking.service.ts:129-167 | after each piece the chunk under construction is a suffix of the text read so far, overlap or not |
| ChunkingCoverage.OneMoreCovers | packages/planes/rag/chunking.service.ts:129-167 | each turn of the merge loop loses nothing: what was built, the piece and what follows are covered by what is emitted and what is built next |
| ChunkingTheorems.EmittedInfix | packages/planes/rag/chunking.service.ts:139-152 | whatever a finished chunk is split into is a contiguous piece of it |
| ChunkingTheorems.EmittedShort | packages/planes/rag/chunking.service.ts:139-152 | with an overlap smaller than the size and not 0 an overlong chunk comes out of the later separators in pieces within the size |
| Chunking.SplitText | packages/planes/rag/chunking.service.ts:43-67 | trimmed chunks in order, numbered by position; a blank text has none |
| Chunking.SplitTextWithPages | packages/planes/rag/chunking.service.ts:72-96 | the chunks of all pages, numbered through and shifted by the lengths of the pages before |
| Chunking.FindCharOffset | packages/planes/rag/chunking.service.ts:237-253 | the total length of the chunks before this one |
| ChunkingSteps.NumberedExactly | packages/planes/rag/chunking.service.ts:62-66 | each chunk is trimmed, numbered by position, and offset by the text of the chunks before it |
| ChunkingSteps.PageChunksExactly | packages/planes/rag/chunking.service.ts:76-95 | chunk i of page p keeps its text, is numbered by its place in the document, carries its page's number and is shifted by the pages before; there are no other chunks |
| ChunkingTheorems.ChunksInfix | packages/planes/rag/chunking.service.ts:101-188 | every chunk is a contiguous piece of the text, whatever overlap it carries and however deep the recursion |
| ChunkingTheorems.ChunkContentsAreInfixes | packages/planes/rag/chunking.service.ts:62-66 | so is every chunk after trimming |
| ChunkingTheorems.WindowsCoverPositions | packages/planes/rag/chunking.service.ts:193-213 | with an overlap that is not negative the windows start a size minus an overlap apart, and every position lies in some window counted from that window's own start |
| ChunkingTheorems.ChunksShort | packages/planes/rag/chunking.service.ts:101-188 | with a size of at least one and an overlap smaller than it and not 0, no chunk is longer than the size, for any separator list that is empty or holds the empty separator |
| ChunkingTheorems.SizeBoundExactly | packages/planes/rag/chunking.service.ts:28-38 | for all sizes and overlaps, with the default separators: exactly when every text's split ends, and exactly when the size bounds every chunk |
| ChunkingCoverage.ChunksCover | packages/planes/rag/chunking.service.ts:101-188 | with a size of at least one, and an overlap that is not negative or separators that hold the empty one: without separator characters and white space, the text is a subsequence of its chunks one after the other |
| ChunkingCoverage.KeepsExactly | packages/planes/rag/chunking.service.ts:101-213 | given a character foreign to the separators, these are the only sizes, overlaps and separators with which no text loses content |
| ChunkingCoverage.NoContentLost | packages/planes/rag/chunking.service.ts:43-67 | the same of the trimmed chunks the service returns: nothing is lost and the order is kept |
| ChunkingPlacement.ContentHasPlace | packages/planes/rag/chunking.service.ts:43-188 | the trimmed chunks have places at which they occur in the text, and at these places they hold every character that is neither white space nor in a separator |
| ChunkingPlacement.PlacesNeedNotAscend | packages/planes/rag/chunking.service.ts:137-157 | a text whose chunks, wherever they are found in it, do not stand in the order in which they are returned |
| ChunkingCoverage.PageChunksPlaced | packages/planes/rag/chunking.service.ts:72-96 | every chunk of a paged document carries its position and the number of a page that contains it |
| Csv.ParseCsv | packages/planes/extractors/csv-extractor.service.ts:68-132 | the index-driven loop reads every input to the specified records and drops exactly the trailing blank ones |
| CsvRoundTrip.ParseInvertsPrint | packages/planes/extractors/csv-extractor.service.ts:64-132 | every printing that RFC 4180 allows of a table of non-empty records parses to that table without its trailing blank records |
| CsvRoundTrip.ReparseIsStable | packages/planes/extractors/csv-extractor.service.ts:64-132 | whatever the input, printing its parse and parsing again changes nothing, and no record is empty |
| CsvRoundTrip.BareExactly | packages/planes/extractors/csv-extractor.service.ts:93-118 | on any input, what each character does outside quotes: a quote opens them wherever it stands, a carriage return is passed over |
| CsvRoundTrip.QuotedExactly | packages/planes/extractors/csv-extractor.service.ts:76-92 | on any input, what each character does inside quotes |
| Markdown.ToMarkdownTable | packages/planes/extractors/csv-extractor.service.ts:134-149 | the loop with its inner padding loop produces the table of the specification |
| MarkdownReading.TableReadsBack | packages/planes/extractors/csv-extractor.service.ts:134-149 | read line by line and unescaped, the table gives the header and every record back, line breaks as blanks and short records with empty cells, when no cell holds a carriage return |
| Markdown.LineEndsExactly | packages/planes/extractors/csv-extractor.service.ts:138-148 | for the reader of the table LF, CR+LF and a CR that no LF follows each end one line |
| Markdown.LinesAreSeen | packages/planes/extractors/csv-extractor.service.ts:138-148 | a reader that ends lines at CR, LF and CRLF sees the specified lines exactly when no cell holds a carriage return, and more lines otherwise |
| Markdown.TableIsRectangular | packages/planes/extractors/csv-extractor.service.ts:138-148 | the printed table has a line per record and a column per header cell exactly when no record is longer than the header, no cell holds a carriage return and, for readers that count backslashes, no cell holds a pipe after an odd number of them |
| Markdown.ReturnBreaksTable | packages/planes/extractors/csv-extractor.service.ts:87 | a table with a carriage return in a cell parses from its own quoted printing and breaks when printed |
| Markdown.OddPipeBreaksTable | packages/planes/extractors/csv-extractor.service.ts:138 | a cell made of a backslash and a pipe parses from its own quoted printing and breaks the table for a reader that counts backslashes |
| PostgresBuilder.Builder.Eq | packages/planes/database/postgresql-database.service.ts:303-311 | appends an equality, or a null test for null; what was built before keeps its parameters |
| PostgresBuilder.Builder.Neq | packages/planes/database/postgresql-database.service.ts:313-321 | appends an inequality, or a not-null test for null |
| PostgresBuilder.Builder.Ordered | packages/planes/database/postgresql-database.service.ts:323-345 | appends the comparison with its value bound (gt, gte, lt, lte, like, ilike) |
| PostgresBuilder.Builder.In | packages/planes/database/postgresql-database.service.ts:347-355 | appends a membership test over freshly bound values, never true for an empty list |
| PostgresBuilder.Builder.Is | packages/planes/database/postgresql-database.service.ts:357-365 | appends a null test |
| PostgresBuilder.Builder.Not | packages/planes/database/postgresql-database.service.ts:367-398 | appends the negation the operator word asks for; an empty list appends nothing |
| PostgresBuilder.Builder.FilterClauseToSql | packages/planes/database/postgresql-database.service.ts:550-580 | one clause of a filter string with its value bound, or nothing for a clause that is skipped |
| PostgresBuilder.Builder.Or | packages/planes/database/postgresql-database.service.ts:434-449 | appends the disjunction of the clauses that parse, or nothing |
| Sql.FilterClauseExactly | packages/planes/database/postgresql-database.service.ts:827-837 | a clause is the text before the first dot, between it and the second, and all the rest; a text with fewer dots is none |
| Sql.FilterStringExactly | packages/planes/database/postgresql-database.service.ts:434-440 | a filter string is read clause by clause between its commas |
| Sql.OperatorWords | packages/planes/database/postgresql-database.service.ts:582-594 | what each operator word stands for, and equality for any other |
| PostgresBuilder.Builder.Filter | packages/planes/database/postgresql-database.service.ts:451-479 | appends what the call named by the operator word appends |
| PostgresBuilder.Builder.Match | packages/planes/database/postgresql-database.service.ts:481-486 | appends one equality per entry, in order |
| PostgresBuilder.Builder.BuildUpdate | packages/planes/database/postgresql-database.service.ts:648-661 | each assignment binds its value as written to that column, after the conditions, whose parameters it leaves alone |
| PostgresBuilder.Builder.BuildUpsert | packages/planes/database/postgresql-database.service.ts:663-705 | one statement whose placeholders carry every row's values as written to their columns |
| UpsertEffects.ConflictColumnsExactly | packages/planes/database/postgresql-database.service.ts:670-672 | the conflict columns are the trimmed names between the commas, `id` by default |
| UpsertEffects.NonConflictExactly | packages/planes/database/postgresql-database.service.ts:696 | the columns to update are exactly the columns of the data that are no conflict column |
| UpsertEffects.NonConflictInOrder | packages/planes/database/postgresql-database.service.ts:696 | in their order |
| UpsertEffects.PostgresWritesExactly | packages/planes/database/postgresql-database.service.ts:234-239 | the value written for each column of each row: null where none is given, an array as it is in an array column, any other object or array as JSON text |
| UpsertEffects.PostgresUpsertWrites | packages/planes/database/postgresql-database.service.ts:663-705 | an upsert carried out appends the data rows whose key is new, in order; a matched row takes every written non-key column from the data and keeps every other, or stays as it is when duplicates are ignored; no other row changes |
| PostgresBuilder.BuildChain | packages/planes/database/postgresql-database.service.ts:596-624 | any chain of calls builds the WHERE of the whole chain, parameters in place |
| SqlServerBuilder.NameInjective | packages/planes/database/sqlserver-database.service.ts:283-287 | no two parameters of a query share a name |
| SqlServerBuilder.Builder.Eq | packages/planes/database/sqlserver-database.service.ts:354-362 | appends an equality, or a null test for null; parameters bound before keep name and value |
| SqlServerBuilder.Builder.Neq | packages/planes/database/sqlserver-database.service.ts:364-372 | appends an inequality, or a not-null test for null |
| SqlServerBuilder.Builder.Ordered | packages/planes/database/sqlserver-database.service.ts:374-396 | appends the comparison with its value bound; ILIKE is written LIKE |
| SqlServerBuilder.Builder.In | packages/planes/database/sqlserver-database.service.ts:398-406 | appends a membership test over freshly named values, never true for an empty list |
| SqlServerBuilder.Builder.Is | packages/planes/database/sqlserver-database.service.ts:408-415 | appends a null test |
| SqlServerBuilder.Builder.Not | packages/planes/database/sqlserver-database.service.ts:417-453 | appends the negation the operator word asks for; an empty list appends nothing |
| SqlServerBuilder.Builder.FilterClauseToSql | packages/planes/database/sqlserver-database.service.ts:641-671 | one clause of a filter string with its value bound, or nothing for a clause that is skipped |
| SqlServerBuilder.Builder.Or | packages/planes/database/sqlserver-database.service.ts:484-499 | appends the disjunction of the clauses that parse, or nothing |
| SqlServerBuilder.Builder.Filter | packages/planes/database/sqlserver-database.service.ts:501-540 | appends what the call named by the operator word appends |
| SqlServerBuilder.Builder.Match | packages/planes/database/sqlserver-database.service.ts:542-547 | appends one equality per entry, in order |
| SqlServerBuilder.Builder.BuildUpdate | packages/planes/database/sqlserver-database.service.ts:768-783 | each assignment binds its value, objects as JSON text, under a new name and leaves the conditions' parameters alone |
| SqlServerBuilder.Builder.BuildUpsert | packages/planes/database/sqlserver-database.service.ts:785-838 | one MERGE per row, in order, each over its own named values, objects as JSON text |
| UpsertEffects.SqlServerWritesExactly | packages/planes/database/sqlserver-database.service.ts:798-809 | the value written for each column of each row: null where none is given, any object or array as JSON text |
| UpsertEffects.SqlServerUpsertWrites | packages/planes/database/sqlserver-database.service.ts:785-838 | the same of the MERGEs, where the last data row with a key decides |
| SqlServerBuilder.BuildChain | packages/planes/database/sqlserver-database.service.ts:687-741 | any chain of calls builds the WHERE of the whole chain, parameters in place |
| Dialects.AnyEqualIsMembership | packages/planes/database/postgresql-database.service.ts:347-355 | IN is membership, unknown exactly when only a null could decide it |
| Dialects.CallMeans | packages/planes/database/postgresql-database.service.ts:303-449 | what one call appends has exactly the truth value the call asks for, unknown included |
| Dialects.PostgresChainMeans | packages/planes/database/postgresql-database.service.ts:596-599 | the WHERE of a chain is the three-valued conjunction of what its calls ask for |
| Dialects.CallAgrees | packages/planes/database/sqlserver-database.service.ts:641-671 | one shared call accepts the same rows in both dialects, though IS TRUE is false on null where `= 1` is unknown |
| Dialects.DialectsAgree | packages/planes/database/sqlserver-database.service.ts:354-499 | so does every chain of shared calls |
| Dialects.ChainAcceptsItsMeaning | packages/planes/database/sqlserver-database.service.ts:687-690 | in either dialect such a chain accepts exactly the rows for which every call's meaning is true |
| Dialects.NotEqNullAcceptsNothing | packages/planes/database/postgresql-database.service.ts:377-381 | not-equal-to-null through `not` accepts no row, through `neq` the rows with a value |
| Upsert.DoNothingIsMerge | packages/planes/database/postgresql-database.service.ts:685-690 | ON CONFLICT DO NOTHING inserts what MERGE without an update inserts, repeated keys in the data included |
| Upsert.DoUpdateIsMerge | packages/planes/database/postgresql-database.service.ts:692-704 | ON CONFLICT DO UPDATE is refused exactly when a row would be touched twice, and otherwise is the sequence of MERGEs |
| Upsert.RunMergesIsMergeRows | packages/planes/database/sqlserver-database.service.ts:799-837 | the statements of the builder, run in order, merge the data's rows in order |
| Upsert.PostgresRefusesExactly | packages/planes/database/postgresql-database.service.ts:663-705 | Postgres refuses exactly data without columns, and, unless duplicates are ignored, data with nothing to update or two rows of one key |
| Upsert.SqlServerRefusesExactly | packages/planes/database/sqlserver-database.service.ts:785-838 | SQL Server refuses exactly data without columns or without a conflict column |
| Upsert.UpsertsAgreeExactly | packages/planes/database/sqlserver-database.service.ts:785-838 | given the same bound rows, both dialects reach the same table exactly when neither refuses |
| Upsert.WritesAgreeExactly | packages/planes/database/postgresql-database.service.ts:234-239 | both dialects bind the same values for a row's fields exactly when no array stands in an array column |
| UpsertAgreement.UpsertsMeanTheSameExactly | packages/planes/database/postgresql-database.service.ts:663-705 | both dialects upsert the caller's data to the same table, from every table with a unique key, exactly when neither refuses and no row has an array for an array column it writes, but, when duplicates are ignored, a row whose key an earlier row has |
| UpsertAgreement.ArrayColumnDiffers | packages/planes/database/sqlserver-database.service.ts:785-838 | one new row with an array in an array column is accepted by both and leaves different tables |
| WalkerSpec.FoldedIsDescribed | packages/transport-types/presentation/walker.ts:201-223 | advancing a blank stage by any list of firings gives what the list says without order of work: last end decides the state, the first firing or else the first timed end the start, the last timed end the end, the last message of a failure the error |
| Walker.WalkerState.RunActivators | packages/transport-types/presentation/walker.ts:148-175 | exactly the conditional stages some matching activator names, in its list or in the event, become activated |
| WalkerRules.NamedExactly | packages/transport-types/presentation/walker.ts:153-168 | an activator names the stages it lists and the texts in the array its payload path leads to |
| WalkerRules.ActivatedExactly | packages/transport-types/presentation/walker.ts:148-175 | the activators add exactly the conditional stages that a matching one names |
| Walker.WalkerState.RunRules | packages/transport-types/presentation/walker.ts:177-225 | each matching rule in order advances its stage if that is open; failure events override the rule's kind |
| WalkerRules.FailureWins | packages/transport-types/presentation/walker.ts:182-207 | an unsuppressed event whose hook type ends in `.failed` or `.error` leaves every stage failed that one of its matching rules could advance, whatever kinds the rules declare |
| WalkerRules.KindExactly | packages/transport-types/presentation/walker.ts:192-242 | on other events the declared kind decides, and without one the endings of hook type and step |
| WalkerRules.RuleExactly | packages/transport-types/presentation/walker.ts:198-224 | what each kind makes of a stage's state and error message |
| WalkerRules.MatchesExactly | packages/transport-types/presentation/walker.ts:111-136 | an event matches when it meets every condition given, said of its own fields, and at least one is given |
| WalkerRules.PathStep | packages/transport-types/presentation/walker.ts:252-264 | a payload path is read one part at a time |
| WalkerRules.PathOfOnePart | packages/transport-types/presentation/walker.ts:258-262 | one part is a field of an object, an element or the length of an array, and leads nowhere else |
| WalkerRules.TimestampExactly | packages/transport-types/presentation/walker.ts:244-250 | `created_at` when it says something, else the number of milliseconds |
| Walker.WalkerState.Finalize | packages/transport-types/presentation/walker.ts:60-66 | conditional stages never activated become skipped, all others stay |
| Walker.PresentationWalker | packages/transport-types/presentation/walker.ts:48-85 | the mutating walk returns the final states of the walked events in manifest order |
| WalkerSpec.WalkerRefinesDescription | packages/transport-types/presentation/walker.ts:48-85 | every stage ends as described without walking: by its last complete or fail firing, else active if any fired, else pending, or skipped exactly when conditional and never activated |
| WalkerSpec.WalkProjects | packages/transport-types/presentation/walker.ts:177-225 | at every point of the walk a stage is what the firings that reached it make of it, others not mattering |
| WalkerSpec.ActivatedProjects | packages/transport-types/presentation/walker.ts:148-175 | the activated set holds exactly the conditional stages some unsuppressed event activated |
| WalkerSpec.UnactivatedIsPending | packages/transport-types/presentation/walker.ts:186-190 | a conditional stage not activated is pending with nothing recorded |
| WalkerSpec.StagesOnlyMoveOn | packages/transport-types/presentation/walker.ts:201-223 | an ended stage never goes back to pending or active, and its start is written once |
| WalkerSpec.WalkResumes | packages/transport-types/presentation/walker.ts:54-58 | a walk resumed after any prefix ends as the whole walk |
| WalkerSpec.SuppressedLeavesNoTrace | packages/transport-types/presentation/walker.ts:54-55 | walking is walking without the suppressed events |
| SectionPath.ClearDeeper | packages/planes/rag/metadata-enrichment.service.ts:298-304 | the inner loop removes exactly the deeper levels |
| SectionPath.BuildSectionPath | packages/planes/rag/metadata-enrichment.service.ts:284-313 | the path joins the prior headings that no later prior heading of equal or smaller level has ended |
| SectionPath.FindNearestHeading | packages/planes/rag/metadata-enrichment.service.ts:315-331 | on an index sorted by offset, the early stop finds the last prior heading |
| SectionPath.SurvivorsEndAtNearest | packages/planes/rag/metadata-enrichment.service.ts:284-331 | levels on the path strictly increase and the path ends in the nearest heading |
| SectionPath.PathInDocumentOrder | packages/planes/rag/metadata-enrichment.service.ts:307-312 | the path sorted by level is in document order |
| SectionPath.OnPathExactly | packages/planes/rag/metadata-enrichment.service.ts:296-305 | a heading is on the path exactly when it stands where nothing after it has its level or a smaller one |
| RankFusion.Tally | packages/planes/rag/query.service.ts:502-537 | the score map holds each chunk of either list once, in order of first appearance, with the exact sum over its occurrences, its sources and its type |
| RankFusion.ContributionExactly | packages/planes/rag/query.service.ts:495-537 | a chunk that stands once in a list at rank r contributes 1 / (k + r + 1) |
| RankFusion.ReciprocalRankFusion | packages/planes/rag/query.service.ts:496-547 | no chunk twice, best first, as many as asked or exist, exact scores, "both" exactly for chunks in both lists, all other fields from the first occurrence, equal scores in order of first appearance, and none omitted that would come before a kept one |
| Mmr.SimilarityIsJaccard | packages/planes/rag/query.service.ts:274-282 | similarity is symmetric, between 0 and 1, 1 exactly for the same words and 0 exactly for none in common |
| Mmr.SimilarityExactly | packages/planes/rag/query.service.ts:274-282 | similarity is the number of common words over the number of words of either |
| Mmr.WordsExactly | packages/planes/rag/query.service.ts:275-276 | a text is cut at every run of white space |
| Mmr.ScoreExactly | packages/planes/rag/query.service.ts:238-251 | a candidate's score blends its relevance with the likeness of the nearest chosen result, 0 before the first |
| Mmr.BlendExactly | packages/planes/rag/query.service.ts:251 | weight 1 is relevance alone, weight 0 the penalty alone, and the blend is linear in between |
| Mmr.MaxSimilarityIsMax | packages/planes/rag/query.service.ts:238-245 | the penalty is the largest similarity to a chosen result, and 0 before the first choice |
| Mmr.PickBest | packages/planes/rag/query.service.ts:231-253 | the scan finds the first of the best |
| Mmr.TakeBest | packages/planes/rag/query.service.ts:230-265 | one round moves one result; chosen and remaining together stay the candidates |
| Mmr.MmrSearch | packages/planes/rag/query.service.ts:208-269 | all candidates when they are few, else the first topK of the greedy order, every pick maximal among those still free |
| Mmr.GreedyUnique | packages/planes/rag/query.service.ts:230-265 | there is only one greedy order, ties included |
| Sorting.SortFacts | packages/planes/rag/query.service.ts:539-541 | sorting by any total preorder permutes the items into order |
| Sorting.SortKeepsSeats | packages/planes/rag/query.service.ts:539-541 | sorting keeps the order of arrival among the items that rank level |
| Sorting.SortIsStable | packages/planes/rag/query.service.ts:619-625 | items that rank level keep their order |
| VersionGroups.GroupByDocument | packages/planes/rag/query.service.ts:610-617 | the map's keys are the documents in order of first appearance, each with its results in order |
| VersionGroups.DocumentExactly | packages/planes/rag/query.service.ts:612 | a result belongs to the document it refers to, else to its own file |
| VersionGroups.VersionExactly | packages/planes/rag/query.service.ts:621-625 | a result without a version counts as version 0, and newer versions come first |
| VersionGroups.FlattenedIsGrouping | packages/planes/rag/query.service.ts:619-627 | before the cut the list is a permutation of the results, documents in order of first appearance, newest version first |
| VersionGroups.GroupingIsContiguous | packages/planes/rag/query.service.ts:619-627 | nothing stands between two results of one document but results of that document |
| VersionGroups.DocumentPart | packages/planes/rag/query.service.ts:683-699 | a document's part of the list is the stable sort of its results |
| VersionGroups.EqualVersionsKeepOrder | packages/planes/rag/query.service.ts:683-699 | results of one version keep the order of the search |
| VersionGroups.TemporalOrder | packages/planes/rag/query.service.ts:588-630 | the first topK of that list |
| CaseConverter.SnakeToCamel | packages/planes/utils/case-converter.ts:15-34 | the recursive conversion with its field-by-field loop, `__proto__` assignment included |
| CaseConverter.CamelToSnake | packages/planes/utils/case-converter.ts:37-57 | the same in the other direction |
| CaseConverter.KeyRoundTrip | packages/planes/utils/case-converter.ts:26-28 | a key without a mark of the target case comes back from both replacements |
| CaseConverter.OutputIsPure | packages/planes/utils/case-converter.ts:15-57 | whatever goes in, the keys that come out are distinct and bear no mark of the other case, at every depth |
| CaseConverter.RoundTripExactly | packages/planes/utils/case-converter.ts:15-57 | for every value, converting there and back gives the value exactly when its keys are distinct, bear no mark of the target case, and none is the one lost key |
| CaseConverter.ProtoFieldIsLost | packages/planes/utils/case-converter.ts:23-31 | an object with the key `__proto__` does not come back |
| TokenReplay.CallerAuthService.ClaimToken | apps/api/src/gatehouse/callers.repository.ts:89-96 | succeeds exactly on a caller and jti not on record, and then records only that row |
| TokenReplay.CallerAuthService.PruneExpiredTokens | apps/api/src/gatehouse/callers.repository.ts:114-117 | removes exactly the rows that expired before the time given |
| TokenReplay.CallerAuthService.VerifyWith | apps/api/src/gatehouse/caller-auth.service.ts:123-143 | passes exactly the genuine tokens in time, of limited lifetime and with a jti of 8 to 200 characters |
| TokenReplay.CallerAuthService.Verify | apps/api/src/gatehouse/caller-auth.service.ts:45-67 | a token is let in or refused for the first reason that applies; only a token let in changes the table, which is pruned when ten minutes have passed |
| TokenReplay.LetInExactly | apps/api/src/gatehouse/caller-auth.service.ts:45-67 | a token is let in exactly when a known, active caller sends a good one, new, within its limit for the minute |
| TokenReplay.RefusedExactly | apps/api/src/gatehouse/caller-auth.service.ts:45-60 | which reason is given, in the order of the checks |
| TokenReplay.RecordedExactly | apps/api/src/gatehouse/caller-auth.service.ts:58-65 | a token let in is recorded with its expiry in milliseconds and the time; after ten minutes exactly the expired rows go |
| TokenReplay.RecentUsesExactly | apps/api/src/gatehouse/callers.repository.ts:98-107 | a row counts for the minute exactly when it is the caller's and was used since the time given |
| TokenReplay.RememberedLater | apps/api/src/gatehouse/caller-auth.service.ts:54-66 | from its acceptance on, a token is on record or has expired, at every later point of the run |
| TokenReplay.NoReplay | apps/api/src/gatehouse/caller-auth.service.ts:45-67 | over any run with a monotone clock no caller, jti and exp is let in twice, unless the exp is a fraction of a second that leaves a gap |
| TokenReplay.ReplayNeedsPrune | apps/api/src/gatehouse/caller-auth.service.ts:54-66 | a token let in twice was pruned in between, after its expiry and before the next full second |
| TokenReplay.LetInTwiceExactly | apps/api/src/gatehouse/caller-auth.service.ts:54-66 | some run lets a token in twice exactly when its exp leaves such a gap |
| TokenReplay.ReplayNeedsNewCaller | apps/api/src/gatehouse/caller-auth.service.ts:45-67 | without such a gap, one issuer, jti and exp is let in twice only if in between the issuer's caller is given another id |
| TokenReplay.RefinesNeverPruned | apps/api/src/gatehouse/callers.repository.ts:88-117 | the pruned table refines a set of accepted tokens that is never pruned, for tokens without a gap |
| TokenReplay.RowsWereLetIn | apps/api/src/gatehouse/callers.repository.ts:89-96 | every row comes from an accepted verify, so a token is called used only when its jti was let in before |
| TokenReplay.TableIsRecent | apps/api/src/gatehouse/caller-auth.service.ts:62-65 | right after an acceptance the table holds no row older than fifteen minutes |
| FeatureFlag.ToInt32Unique | packages/planes/config/feature-flag.service.ts:149 | the bitwise operators keep the one signed 32-bit integer congruent to the number |
| FeatureFlag.SimpleHash | packages/planes/config/feature-flag.service.ts:145-153 | the loop gives the absolute value of the signed 32-bit residue of the base-31 polynomial, at most 2^31, and every intermediate is an integer a number holds exactly |
| FeatureFlag.PolynomialExactly | packages/planes/config/feature-flag.service.ts:146-150 | the polynomial, one code unit at a time from either end |
| FeatureFlag.IsInRolloutPercentage | packages/planes/config/feature-flag.service.ts:129-143 | for every percentage, in or out of range, membership is bucket below percentage |
| FeatureFlag.BucketExactly | packages/planes/config/feature-flag.service.ts:137-142 | the bucket is the hash of flag name, colon and user, else organization, else `anonymous`, modulo 100 |
| FeatureFlag.IsEnabled | packages/planes/config/feature-flag.service.ts:26-50 | exclusion wins over targeting, targeting over the rollout |
| FeatureFlag.EnabledExactly | packages/planes/config/feature-flag.service.ts:26-50 | on exactly for an enabled flag, a caller on no exclusion list, and on a target list or within the rollout, said of the fields themselves |
| FeatureFlag.RolloutIsMonotone | packages/planes/config/feature-flag.service.ts:129-143 | raising the percentage turns nobody off, and each caller has one percentage from 1 to 100 at which the flag turns on |
| A2A.PartRoundTrip | apps/api/src/gatehouse/a2a-v1.ts:88-101 | a part parses to itself exactly when its media type and file name are not blank |
| A2A.PartOnTheWire | apps/api/src/gatehouse/a2a-v1.ts:88-101 | the fields of a printed part, name by name |
| A2A.PartReadExactly | apps/api/src/gatehouse/a2a-v1.ts:88-101 | a received part is text before data before a url, with the errors for anything else |
| A2A.TaskRoundTrip | apps/api/src/gatehouse/a2a-inbound.ts:76-101 | a printed task reads as its state, id, context and parts: the artifact if it has any, else the status text, else nothing |
| A2A.WireNames | apps/api/src/gatehouse/a2a-v1.ts:42-51 | the wire names of all task states |
| A2A.TaskOnTheWire | apps/api/src/gatehouse/a2a-inbound.ts:86-101 | the fields of a printed task, name by name |
| A2A.StatusOnTheWire | apps/api/src/gatehouse/a2a-inbound.ts:90-97 | the fields of its status |
| A2A.MessageOnTheWire | apps/api/src/gatehouse/a2a-inbound.ts:93-95 | the fields of its status message |
| A2A.ArtifactOnTheWire | apps/api/src/gatehouse/a2a-inbound.ts:99 | the one artifact with its parts |
| A2A.TaskReadExactly | apps/api/src/gatehouse/a2a-v1.ts:133-150 | a task is read from its status and its parts: those of its artifacts if there are any, else those of its message |
| A2A.StateNamed | apps/api/src/gatehouse/a2a-v1.ts:135-136 | a state is named by a text or by a list around what names it, and nothing else is a state |
| A2A.RefusedStateExactly | apps/api/src/gatehouse/a2a-v1.ts:135-136 | an otherwise sound task is refused for its state exactly when the name is neither a protocol state nor a property that every object inherits, and in the second case what is read is no state |
| A2A.InheritedStateIsRead | apps/api/src/gatehouse/a2a-v1.ts:135-136 | with the state `toString` or `constructor` a task is read as if in a state |
| A2A.TaskRefused | apps/api/src/gatehouse/a2a-v1.ts:133-148 | what is wrong with a task, in the order in which it is looked at |
| A2A.ArtifactRefused | apps/api/src/gatehouse/a2a-v1.ts:139-141 | the first artifact that is no object, or whose parts are no list, is named by its place |
| A2A.AnswerRoundTrip | apps/api/src/gatehouse/a2a-v1.ts:112-151 | the same inside the JSON-RPC 2.0 answer to its request, for exactly those tasks with a non-blank id and well-formed parts |
| A2A.AnswerParsed | apps/api/src/gatehouse/a2a-v1.ts:112-151 | an answer is read only from a JSON-RPC 2.0 response to this request without an error, and what is read is well-formed |
| A2A.AnswerRefused | apps/api/src/gatehouse/a2a-v1.ts:112-116 | what is wrong with an answer, in the order in which it is looked at |
| A2A.RemoteErrorExactly | apps/api/src/gatehouse/a2a-v1.ts:117-121 | an error reported comes with its code and the first 200 characters of its message |
| A2A.BodyRefused | apps/api/src/gatehouse/a2a-v1.ts:117-126 | an error, result or message that is no object is refused as such |
| A2A.AnswerReadExactly | apps/api/src/gatehouse/a2a-v1.ts:122-131 | a direct answer is complete and has the parts of its message; anything else is read as a task |
| A2A.RelayKeepsAnswer | apps/api/src/gatehouse/a2a-v1.ts:137-150 | another agent's answer, handed on as the artifact of a task with its own id and context, gives the next reader the same state and parts |

## Left out

- Input and output: database drivers, pools, network, storage, embeddings, model calls, clocks and logging. Their results are parameters of the model.
- The text of SQL statements and its quoting: conditions are trees, so operator precedence and quoting are not modelled.
- Boolean `is` and `not is`, containment, overlap and text search, on which the two dialects differ by design; LIKE and ILIKE collation, for which the comparison is one parameter shared by both dialects.
- PostgresBuilder.Builder.Is: the null test only; a boolean argument is bound as a parameter of IS, which is no valid SQL.
- PostgresBuilder.Builder.Not: no boolean `is`, no `cs`, no list for an operator other than `in`, and no operator word that is a property every object inherits, such as `constructor` or `toString`, for which the operator table yields a function instead of `=`.
- PostgresBuilder.Builder.Filter: no boolean `is`, no `cs` or `cd`, and no inherited property name as operator word.
- PostgresBuilder.BuildChain: chains of the calls above; containment, overlap, text search and boolean `is` are not among them.
- SqlServerBuilder.Builder.Is: the null test only; a boolean argument is written as a bit.
- SqlServerBuilder.Builder.Not: no boolean `is`, no `cs`, no list for an operator other than `in`, and no inherited property name as operator word.
- SqlServerBuilder.Builder.Filter: no boolean `is`, no `cs` or `cd`, and no inherited property name as operator word.
- SqlServerBuilder.BuildChain: chains of the calls above; containment, overlap, text search and boolean `is` are not among them.
- SELECT lists, counts, ordering, ranges and limits of the builders, RETURNING and OUTPUT, plain INSERT and DELETE.
- Which columns are array columns is a parameter, and an object or array to be written is known by its JSON text.
- Concurrent upserts: a statement runs alone on the table; columns not named are null, and constraints other than the unique key do not exist.
- Queue re-queues from outside the modelled steps, such as resuming after a review or a manual retry; the attempt bound is for the modelled steps.
- Chunking.SplitTextWithPages: pages keep number and content only.
- Chunking.FindCharOffset: the offset is the approximate one the code computes, not the chunk's true position, which the code says it is not.
- ChunkingTheorems.ChunksShort: not claimed for a custom separator list without the empty separator, with which a chunk can stay too long.
- UTF-16 surrogate pairs: text is a sequence of one-unit characters, so spreading a string into characters is one element per unit.
- Walker: properties that every object inherits, read through a payload path, and the ISO printing of a millisecond time stamp, which stays symbolic.
- The order of an object's fields in JsonValues, which no modelled code reads; CaseConverter keeps it.
- RankFusion: result fields other than id, score and match type are copied as text.
- Rounding: real numbers stand for floating-point scores and token times, and not-a-number and infinite ones do not occur.
- Lower-casing and version comparison depend on Unicode and locale tables: they are parameters, the latter any total preorder.
- CaseConverter: an object that holds both `_Proto__` and `__proto__`, where the first assignment may replace the prototype that the second goes through; the prototype an assignment sets is not part of a value.
- TokenReplay: a verify is one atomic step at one time; deleting a caller with its tokens, registration and key fetching are not modelled. The sixty-second rate limit is checked as in the code but not claimed over a run, since pruning may remove recent rows.
- TokenReplay.CallerAuthService.VerifyWith: signature, issuer, audience and algorithm are one predicate of the token.
- FeatureFlag: reading the configuration from the environment.
- A2A: a task state named like a property every object inherits; the request side (`parseSendMessage`) and agent cards.
- Extraction of document ids, cross-references, versions and keywords by regular expressions; PDF, DOCX and PPTX extraction.
- Rubric routing, status enumerations, issue transitions, configuration parsers, product registry and navigation paths, which would add only easy members.
- The ingest scripts' simpler copy of the chunker.
