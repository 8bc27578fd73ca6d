# The teaching library's row protocols, verified

The library keeps its state in PostgreSQL, and most of what it promises is a property of a few small
protocols over rows: who may take away the last admin, what a crashed worker leaves in the queue, what
other members see after somebody deletes their account, what a search may depend on, how often a token
works. This project models those protocols in Dafny and proves the promises over every input, every
run and, where transactions interleave, every interleaving.

`dafny verify dfyconfig.toml` checks all of it.

## How the code is modelled

A table is a map from ids to rows or, where the order of insertion matters, a sequence. Each SQL
statement is one atomic step, with the unique indexes, checks and foreign keys of
`packages/db/src/schema.ts` stated as part of it: a refused statement rolls its transaction back.
Identifiers are natural numbers; a fresh uuid is an id not given out before. Clocks, ids and provider
answers are parameters.

Where the source changes rows in place there is a class with the same tables as fields and one method
for each function, and its contracts give the whole new state through the functions the theorems are
about (`AccountTable`, `Database`, `JobTable`, `VerseTable`, `ResetTable`, `Board`, `ChapterTable`,
`CrossReferenceTable`, `PlaybackTable`, `FlowTable`, and the loops of `FakeEmbedder` and `Pipeline`).
Reads that only compute are functions and lemmas.

Three protocols are modelled with their interleavings (`LastAdmin`, `ResetProtocol`, `SosCap`): a
transaction is a program counter and the rows it has locked, a statement sees what is committed when
it starts, and a statement that waited for a row looks at the row again once it has it, as the
PostgreSQL documentation, section 13.2.1, describes for Read Committed. `Runs` holds the run of such a
machine. A wait is a step that cannot be taken yet, so deadlock and fairness are not claims here:
what is proved holds of whatever does happen.

| files | what they model |
|---|---|
| `Runs`, `Ordering` | runs of a transition system; `order by`, `row_number` and `limit` |
| `Accounts`, `LastAdmin` | the last-admin guard, one call at a time and interleaved |
| `Notes`, `Erasure`, `ErasureTransaction` | who sees which notes, and the account deletion |
| `JobLedger`, `JobRuns`, `JobTable`, `Pipeline` | the job queue, its crash sweep, and the dashboard over it |
| `Search`, `SearchResults`, `SearchQuery`, `SearchRows` | the two arms and their fusion, the cap and the pages, the whole statement, and its answer on the tables' columns |
| `Passages`, `PassageCounts`, `PassageStore` | the cache-aside verse resolver |
| `PasswordResets`, `ResetProtocol`, `ResetRuns`, `ResetAlone` | password resets, one call at a time and interleaved |
| `SosCap`, `SosBoard` | the cap on open prayer requests |
| `Chapters`, `ChapterTable`, `RelatedChapters` | chapters as starts only, and the chapters a span's links land in |
| `CrossReferences` | links stored in both directions |
| `Playback`, `Notifications` | the listening accumulator; keyset paging |
| `FlowSession`, `FlowTable` | Flow Tracker sessions and their counts |
| `FakeEmbedder` | the fake embedder's arithmetic |

## Where the code does less than its comments say

The code is followed throughout. In these places it does not meet what its comments or its evident
purpose promise, and the project proves exactly when it does.

- **The last-admin guard.** The set it locks can end up empty: a row of the locking read's snapshot that
  no longer matches when its lock is granted is skipped, and an admin reactivated meanwhile is not in
  the snapshot. `activeAdmins.every(...)` is then true of an empty list, but it only refuses a write
  whose target was an active admin when it was read. A write to a member passes, and if that member is
  promoted and the other admins leave before the write lands, it takes the last admin. `LastAdmin`
  proves that a decision is safe if and only if it is not of that kind (something was locked, or the
  write cannot take an admin, or its target is missing or is itself an active admin), that the guard
  with a branch refusing that kind keeps an admin in every interleaving, that the guard without it can
  be led from every state to no admin at all, and that this needs somebody to be made an active admin
  meanwhile. A concrete start is given.
- **"A row both arms placed outranks a row either placed alone"** (`packages/db/src/search.ts:42-43`)
  holds for arms of up to 61 candidates. The search page asks for 100
  (`packages/shared/src/search.ts:86`). `Search` gives the bound for every blend and, at the balanced
  stop, the exact pairs of ranks that beat every row one arm placed: (v-1)(w-1) < 3721.
- **The crash cap** is said to start again after an admin's re-run
  (`packages/db/src/jobs.ts:209-212`). The count is over attempts alone, so a re-run that itself
  crashes does not start it again. The cap also depends on the reason fitting the error column: a
  reason over 2000 characters is stored cut short, never recognised, and every crash is queued again.
- **The verse cache.** "What is held is what the source said the first time" holds of the table. In
  memory the last of two verses with one number wins, so when a source says a verse twice with
  different texts the passage handed back can differ from what is stored. Memory and table agree at the
  end exactly when no answer did that, and a passage says what the table says exactly when no answer up
  to its turn did that to one of its verses.
- **Deleting an account** is refused by a restricting key exactly when a reply hangs under one of the
  member's private notes. The note service refuses such replies, so this is a state the schema allows
  and the application does not produce. For readers whom the leaver had one-sidedly blocked, the block
  goes with the account and they see what it hid.
- **The listening total.** The first write is not capped, and a shorter length told later lowers a total
  already stored. `completedNow` is decided by comparing two instants at millisecond precision, so
  exactly one write answers so if and only if one crosses and no later one shares its millisecond.
- **The Flow Tracker counts** include items about teachings that have since been taken down, which the
  list leaves out. They agree exactly while there is no such item.

The bound on sweeps assumes what the deployment states: one worker, which alone finishes the rows it
claimed, and no other writer whose text begins with the sweep's reason.

## Model

| member | source | states |
|---|---|---|
| `Accounts.WrittenTakesTheTarget` | packages/db/src/accounts.ts:363-368 | Every guarded write but a promotion takes its target, and only its target, out of the active admins |
| `Accounts.GuardRefusesExactlyTheLastAdmin` | packages/db/src/accounts.ts:309-346 | Run alone, the guard answers `last-admin` exactly when the write would take the group from some admin to none, and no outcome ever does |
| `Accounts.GuardedTouchesOnlyTheTarget` | packages/db/src/accounts.ts:341-344 | A refusal or an unmatched write changes no row; an applied one changes its own row and no other |
| `Accounts.GuardedAnswers` | packages/db/src/accounts.ts:309-346 | Each of the guard's four answers exactly when, and what an applied write has changed and left alone, column by column |
| `Accounts.AccountTable.WithLastAdminGuard` | packages/db/src/accounts.ts:309-346 | The transaction as it runs gives those answers and makes those changes, and never takes the last active admin |
| `Accounts.AccountTable.Apply` | packages/db/src/accounts.ts:362-369 | The guarded statement matches exactly when its own `where` still holds, and then changes `deactivated_at` alone, `role` alone, or replaces the row by a placeholder |
| `Accounts.AccountTable.Reactivate` | packages/db/src/accounts.ts:382-398 | Reactivation is refused for a missing account or a placeholder, writes only a deactivated one, and can only add an active admin |
| `LastAdmin.WhatEachStepWrites` | packages/db/src/accounts.ts:309-426 | Accounts change by commits, reactivations and inserts, each in its own columns, and by no other step |
| `LastAdmin.LockKeeps` | packages/db/src/accounts.ts:320-325 | Locking one more admin row, looked at again once held, keeps the protocol consistent |
| `LastAdmin.DecideKeeps` | packages/db/src/accounts.ts:327-339 | A decision that does not let a write through with nothing locked leaves another locked admin behind every write that passed |
| `LastAdmin.CommitKeeps` | packages/db/src/accounts.ts:341-344 | Any commit keeps everybody else's locked rows meaning what they did, and leaves an active admin wherever there was one |
| `LastAdmin.StepKeepsInv` | packages/db/src/accounts.ts:309-426 | The inductive step: every statement of every transaction keeps "whoever removes an admin holds the lock on another live one" |
| `LastAdmin.GuardedRunsKeepAnAdmin` | packages/db/src/accounts.ts:309-426 | In every interleaving of deactivations, demotions, deletions, reactivations, promotions and inserts that never lets a write through with nothing locked, an active admin always exists |
| `LastAdmin.RunsThatAddNoAdminKeepOne` | packages/db/src/accounts.ts:309-426 | When nobody is made an active admin meanwhile, every interleaving keeps one, with no further condition |
| `LastAdmin.RepairedRunsKeepAnAdmin` | packages/db/src/accounts.ts:309-426 | With one branch more, refusing such a write when nothing was locked, every interleaving keeps an active admin on no condition at all |
| `LastAdmin.ADecisionIsSafeExactlyWhenNotBlind` | packages/db/src/accounts.ts:327-341 | One decision of the guard as written, every later one made with that branch: each run from there keeps an active admin if and only if an admin row was locked, or the write cannot take an admin, or its target is missing or an active admin |
| `LastAdmin.NoStateIsSafe` | packages/db/src/accounts.ts:309-426 | From every state of the tables the guard as written can be led to a decision with nothing locked, and from there to no active admin |
| `LastAdmin.UnguardedCanLoseTheLastAdmin` | packages/db/src/accounts.ts:320-344 | From every state in which a write passed with nothing locked, some continuation leaves no active admin, even if no other decision is made that way |
| `LastAdmin.AnUnguardedStateIsReached` | packages/db/src/accounts.ts:320-339 | A concrete start (one admin, one deactivated admin, one member) from which the guard can let such a write through |
| `LastAdmin.RunAlone` | packages/db/src/accounts.ts:309-346 | A transaction nothing interleaves with runs to its end and ends as the sequential guard does |
| `LastAdmin.DeactivateOthers` | packages/db/src/accounts.ts:353-373 | One guarded deactivation after another empties the active admins down to one, and cannot go further |
| `Notes.BlocksAreSymmetric` | packages/db/src/member-blocks.ts:90-102 | A block hides each of the two members from the other, whichever placed it, in the notes and in the threads |
| `Notes.NoteListIsExactly` | packages/db/src/notes.ts:193-221 | On the columns: the list holds exactly the top-level notes of the teaching that are public or the reader's own, with no block either way, undeleted or holding a reply the reader may see; each once, by position then date, each row its note's |
| `Notes.ReplyListIsExactly` | packages/db/src/notes.ts:383-409 | And a reply list exactly the undeleted replies under those notes with no block either way, thread by thread, oldest first |
| `Erasure.ErasedRows` | packages/db/src/account-deletion.ts:99-131 | The three tables after the transaction, row by row: notes re-pointed, private ones gone, blocks carried with their dates, the account and its own blocks gone |
| `Erasure.ErasureLeavesBehind` | packages/db/src/account-deletion.ts:99-131 | The same on the columns, with the placeholder a deactivated member named "Removed member" and the carried blocks at their dates |
| `Erasure.ErasureLeavesNoTrace` | packages/db/src/account-deletion.ts:65-86 | The schema still holds, the erased member is named nowhere, and no public note or anybody else's note is lost or reworded |
| `Erasure.ErasureFailsExactlyOnAPrivateThread` | packages/db/src/schema.ts:1036-1042 | A statement is refused exactly when a reply hangs under one of the member's private notes, which the restricting key forbids deleting |
| `Erasure.APrivateThreadStopsTheErasure` | packages/db/src/schema.ts:1036-1042 | Tables the schema allows on which the deletion is refused: a reply under a private note |
| `Erasure.ListedAfter` | packages/db/src/notes.ts:206-217 | Every reader sees after the erasure the notes they would have seen before without the leaver's own blocks |
| `Erasure.LeaversBlocksDoNotMatter` | packages/db/src/member-blocks.ts:90-102 | The leaver's blocks decide nothing for a reader they had not one-sidedly blocked |
| `Erasure.ReadersSeeTheSameNotes` | packages/db/src/notes.ts:193-221 | For every such reader the notes of every recording are the same list in the same order, tombstones included, with the leaver replaced by the placeholder |
| `Erasure.ReadersSeeTheSameReplies` | packages/db/src/notes.ts:383-409 | And so are the replies under any notes |
| `Erasure.ABlockOutlivesItsMember` | packages/db/src/member-blocks.ts:230-258 | A reader who had blocked the leaver still sees none of their notes or replies |
| `Erasure.ViewsChangeExactlyForTheUncovered` | packages/db/src/member-blocks.ts:244-258 | A reader's lists change if and only if the leaver's own one-sided block was hiding something from them |
| `Erasure.ALiftedBlockShowsANote` | packages/db/src/member-blocks.ts:244-258 | A reader the leaver had blocked, whose list gains the leaver's note |
| `ErasureTransaction.Database.DeletePrivateNotes` | packages/db/src/notes.ts:683-687 | Deletes exactly the private notes and answers their ids, or is refused and changes nothing |
| `ErasureTransaction.Database.RepointNotes` | packages/db/src/notes.ts:689-700 | Re-points every note of the author and answers how many top-level notes and replies moved |
| `ErasureTransaction.Database.CarryBlocks` | packages/db/src/member-blocks.ts:244-258 | Writes each block against the member again for the placeholder, keeping dates and skipping pairs that are there |
| `ErasureTransaction.Database.DeleteUser` | packages/db/src/account-deletion.ts:130-131 | Refused while the member authors a note; otherwise cascades blocks and clears `deleted_by` |
| `ErasureTransaction.WhatIsKept` | packages/db/src/notes.ts:660-675 | What the placeholder holds afterwards is exactly the leaver's public notes, their replies and the blocks held against them |
| `ErasureTransaction.Database.DeleteUserAccount` | packages/db/src/account-deletion.ts:91-147 | Answers `no-such-account`, `last-admin` and the rolled-back error exactly when the guard and the restricting key do, leaves every table untouched unless the account is gone, then leaves the columns as said, and its four counts are what the placeholder holds |
| `JobLedger.EnqueueKeepsValid` | packages/db/src/jobs.ts:64-99 | An enqueue keeps every pair's attempts 1..n with only the last unfinished, and afterwards the pair has an unfinished row |
| `JobLedger.FinishKeepsValid` | packages/db/src/jobs.ts:140-188 | Whichever row is finished, and however often, the ledger keeps that shape |
| `JobLedger.ClaimTakesTheOldest` | packages/db/src/jobs.ts:326-344 | A claim moves exactly one row, the oldest waiting one by (enqueued_at, id), and keeps the ledger valid |
| `JobLedger.ClaimIsIdleExactlyWhenNothingWaits` | packages/db/src/jobs.ts:324-343 | A claim takes nothing exactly when nothing waits |
| `JobLedger.FindUnfinishedIsLast` | packages/db/src/schema.ts:643-649 | The unfinished row of a pair is the one with its highest attempt, and there is no other |
| `JobLedger.ConsecutiveIsTail` | packages/db/src/jobs.ts:280-304 | What the sweep counts is the run of sweep failures directly before the row, over attempts alone, up to the cap |
| `JobLedger.SweptOneEffect` | packages/db/src/jobs.ts:249-269 | Sweeping a running row fails it and queues the next attempt unless two crashes already stand before it; the enqueue always inserts a fresh row |
| `JobLedger.SweepLeavesNothingRunning` | packages/db/src/jobs.ts:237-272 | A sweep leaves a valid ledger with nothing running, every untouched row as it was, and only pending rows added |
| `JobRuns.StepKeepsValid` | packages/db/src/jobs.ts:64-344 | Every statement of the ledger keeps its shape |
| `JobRuns.ReachableLedger` | packages/db/src/jobs.ts:64-344 | In every reachable ledger ids differ, a pair's attempts are 1, 2, 3, ... in order with none missing, and only its highest may be unfinished |
| `JobRuns.SweptOneCredit` | packages/db/src/jobs.ts:250-268 | Each row a sweep queues is paid for out of a credit of two for every ordinary ending |
| `JobRuns.StepCredit` | packages/db/src/jobs.ts:64-344 | No statement spends that credit but the sweep, and the sweep no more than it queues |
| `JobRuns.SweepRequeuesAreBounded` | packages/db/src/jobs.ts:200-214 | Over any run the sweeps queue, for one step of one recording, at most 2 x (1 + that pair's rows that ended any other way) |
| `JobRuns.TooLongAReasonIsNeverCapped` | packages/db/src/jobs.ts:129-179 | The cap needs a reason that fits the column: one over 2000 characters is never recognised and every crash is queued again |
| `JobRuns.AReRunDoesNotRestartTheCount` | packages/db/src/jobs.ts:280-304 | With two crashes at the end of the history, a re-run that itself crashes is failed and not queued again |
| `JobRuns.ClaimDecreases` | packages/db/src/jobs.ts:326-344 | A claim lowers the measure of crashes still to come by one |
| `JobRuns.SweptDecreases` | packages/db/src/jobs.ts:249-269 | A sweep lowers it by the number of rows it sweeps |
| `JobRuns.CrashLoopsEnd` | packages/db/src/jobs.ts:200-214 | With nothing enqueued from outside and every claim crashing, the number of claims and sweeps is bounded by that measure |
| `JobRuns.StuckMeansEmpty` | packages/db/src/jobs.ts:324-343 | When neither a claim nor a sweep finds anything, no unfinished row is left |
| `JobTable.TailIsCrashedTwice` | packages/db/src/jobs.ts:280-304 | On the columns: the sweep stops requeueing exactly when the two attempts directly before the row both failed with an error that begins with its reason |
| `JobTable.WhatEachEventWrites` | packages/db/src/jobs.ts:64-344 | What each statement of a run writes, column by column |
| `JobTable.JobTable.EnqueueJob` | packages/db/src/jobs.ts:64-99 | With no unfinished row of the pair it appends one, pending, at the next attempt, dated now, with the correlation id given; otherwise it changes nothing and answers that row |
| `JobTable.JobTable.Finish` | packages/db/src/jobs.ts:140-188 | Ends exactly the row named by id, in its status, error and end alone, and answers it as it then reads, or `None` where the source throws |
| `JobTable.JobTable.ClaimNextJob` | packages/db/src/jobs.ts:326-344 | Answers the oldest waiting row, now running, with every other row untouched; `None` exactly when nothing waits |
| `JobTable.JobTable.ConsecutiveFailures` | packages/db/src/jobs.ts:280-304 | The counting loop computes the leading run of sweep failures among the latest three earlier attempts |
| `JobTable.JobTable.SweepRunning` | packages/db/src/jobs.ts:237-272 | The loop leaves nothing running, and answers for each abandoned row, oldest first, the row it failed and, unless two crashes stood directly before it, the next attempt it queued under the same correlation id; both are in the table and nothing else is new or changed |
| `JobTable.UnsweptHistory` | packages/db/src/jobs.ts:249-269 | Until a row's own turn in the sweep comes, its pair's history is untouched by the rows swept before it |
| `Pipeline.LatestIsLast` | packages/db/src/pipeline.ts:84-98 | The latest attempt the dashboard reads is the last of the pair's history |
| `Pipeline.Assemble` | packages/db/src/pipeline.ts:130-171 | The fold gives one entry per recording in the join's order, and in it one entry per chain step carrying that step's row or none |
| `Pipeline.JoinReadsLatest` | packages/db/src/pipeline.ts:100-171 | One entry a recording, newest first, each step with its latest attempt, however the rows of recordings that tie in both dates fall between each other |
| `Pipeline.DashboardShowsTheLedger` | packages/db/src/pipeline.ts:79-171 | A chain step shows every column of the pair's highest attempt, or nothing when it was never enqueued, and pending or running exactly when the ledger holds an unfinished row for it |
| `Search.TopOfASet` | packages/db/src/search.ts:142-160 | The first `n` of an ordered set are the elements fewer than `n` others precede, ranked one more than how many do |
| `Search.VectorArmIsTheTrueTop` | packages/db/src/search.ts:138-146 | The meaning arm is the true top `perArm` of the rows the reader may see, and is empty without a vector |
| `Search.WordArmIsTheTrueTop` | packages/db/src/search.ts:151-160 | The word arm likewise among the rows that match, and is empty at a blend of one |
| `Search.QueriesGiveSuchArms` | packages/db/src/search.ts:122-160 | A query's arms hold no row twice, no more than `perArm`, and no word arm when all the weight is on meaning |
| `Search.BothBeatOneExactly` | packages/db/src/search.ts:185-193 | For every blend s, a row both arms placed scores above every row one placed, in all arms of up to n rows, exactly when n = 1, or s = 1, or max(s, 1-s) x (60 + n) < 61 |
| `Search.BalancedBoundIsTight` | packages/db/src/search.ts:185-193 | At the balanced stop that is exactly n <= 61; at 62 a row ranked last in both ties a row ranked first in one |
| `Search.WhichPairsBeatEverySingle` | packages/db/src/search.ts:185-193 | At the balanced stop, whatever the lengths, a row ranked v and w beats every row one arm placed exactly when (v-1)(w-1) < 61 x 61 |
| `Search.ThePagesArmsAreLonger` | packages/shared/src/search.ts:86 | At the hundred candidates an arm the page asks for, a row both arms placed can rank below one that only one arm placed |
| `Search.BothArmsComeFirst` | packages/db/src/search.ts:42-43 | With arms of at most 61 rows at the balanced stop, every row both arms placed precedes every row one arm placed |
| `Search.InOrderIsTotal` | packages/db/src/search.ts:199-202 | The final order, nulls last and id last, is a strict total order |
| `SearchResults.CapKeepsTheFirstOfEachTeaching` | packages/db/src/search.ts:196-205 | A row of the uncapped list is kept exactly when fewer than the cap of its own recording's rows stand above it |
| `SearchResults.RaisingTheCapOnlyAdds` | packages/db/src/search.ts:179-180 | The capped list is the uncapped one with rows left out, and raising the cap only puts rows back |
| `SearchResults.EachTeachingKeepsItsShare` | packages/db/src/search.ts:196-205 | Every recording keeps exactly min(cap, its rows) |
| `SearchResults.WalkIsOnePage` | packages/db/src/search.ts:253-254 | Consecutive offset and limit pages join to one long page |
| `SearchResults.PagesAreTheList` | packages/db/src/search.ts:252-254 | Walked far enough, pages of any size give the whole list once, with no gap |
| `SearchQuery.SearchDependsOnTheVisible` | packages/db/src/search.ts:117-255 | Two databases that agree on the rows visible to the reader of the kinds asked for, and on the rows joined to them, answer identically |
| `SearchQuery.HiddenRowsDoNotMatter` | packages/db/src/visibility.ts:529-551 | Rows the reader may not see can be added, changed or removed without a trace in the answer |
| `SearchQuery.EveryRowIsVisible` | packages/db/src/search.ts:122-131 | Nothing comes back that is not visible, of a kind asked for and placed by an arm, and nothing twice |
| `SearchRows.RanksAreTrue` | packages/db/src/search.ts:133-160 | On the columns: a row's two ranks are its true places, one more than the visible rows nearer to the query and than the visible matching rows the words rank higher, within `perArm` |
| `SearchRows.LineBefore` | packages/db/src/search.ts:238-244 | The line before is the text of the transcript's line that starts before the passage with none between, absent exactly when there is none |
| `SearchRows.LineAfter` | packages/db/src/search.ts:245-251 | And the line after likewise |
| `SearchRows.EachRowSaysWhatTheTablesSay` | packages/db/src/search.ts:206-237 | Every column of every row: the source's own, its teaching and series, its place by kind, the lines around it, both ranks, the similarity, the marked text and the fused score |
| `SearchRows.RowsAreInOrder` | packages/db/src/search.ts:252 | Rows come by score, then meaning rank, then word rank, missing ranks last, then id |
| `SearchRows.WholeAnswerIsEveryPlacedRow` | packages/db/src/search.ts:182-195 | Uncapped and unpaged the answer holds exactly the rows an arm placed |
| `SearchRows.AnswerIsTheCutWhole` | packages/db/src/search.ts:179-254 | Any answer is that list less the rows with the cap of their own teaching above them, from the offset on, no more than the limit |
| `Passages.InsertedAt` | packages/db/src/scripture.ts:154-167 | A held verse keeps its text; of two new rows for one verse the first stays |
| `Passages.StepAt` | packages/bible/src/passages.ts:92-129 | What one citation does to one verse in memory and in the table |
| `Passages.MemoryIsTheTableExactlyWhenTidy` | packages/bible/src/passages.ts:80-121 | After a whole resolution memory equals the table on every cited chapter if and only if no answer's new part said a verse twice with different first and last texts |
| `Passages.TheTableOnlyGrows` | packages/bible/src/passages.ts:107-120 | No held verse is overwritten, only cited chapters gain verses, and `fetched` is the growth of the table |
| `Passages.PassagesAreHeld` | packages/bible/src/passages.ts:123-128 | Each passage is what memory said of the wanted verses when its turn came, in order |
| `Passages.ConflictExactlyWhenSaidTwice` | packages/bible/src/passages.ts:107-121 | Memory and table always hold the same verses, and a verse's texts differ exactly when some answer so far said it twice, first and last with different texts |
| `Passages.PassagesSayWhatTheTableSaysExactlyWhenTidy` | packages/bible/src/passages.ts:29-33 | A passage is what the table says of the wanted verses, at its turn and ever after, if and only if no answer up to its turn said one of them twice with different first and last texts |
| `Passages.AVerseSaidTwice` | packages/bible/src/passages.ts:107-128 | A source that says one verse twice: the table keeps the first text, and the passage has the second |
| `Passages.ResolvedIsTheSourcesOwnAnswer` | packages/bible/src/passages.ts:9-27 | When the source's text is a function of the verse and the cache agrees with it, every passage holds exactly the verses from the citation's first to its last that the source has, with its texts, each once and rising |
| `Passages.ASecondResolutionCallsNothing` | packages/bible/src/passages.ts:9-22 | With a complete source, resolving again makes no call, writes nothing and serves every wanted verse from what is held |
| `PassageStore.VerseTable.FindHeldVerses` | packages/db/src/scripture.ts:126-144 | Returns exactly the verses held for the chapters in the translation |
| `PassageCounts.TurnCounts` | packages/bible/src/passages.ts:97-105 | A citation is asked for exactly when one of its verses is not in the table, and counts as held the verses that are |
| `PassageCounts.ResolutionCounts` | packages/bible/src/passages.ts:92-131 | Over a whole resolution `held` is the verses the table held at each turn, and `requestId` the last identifier an answer carried, or none when none did |
| `PassageStore.VerseTable.SaveVerseTexts` | packages/db/src/scripture.ts:154-167 | Changes no held row, holds every verse given, each new one with the text it was first given, and answers how many rows landed |
| `PassageStore.VerseTable.ResolvePassages` | packages/bible/src/passages.ts:59-132 | The loop over the map of maps does what the step-by-step specification says, and so: with a truthful source each passage is the truth about its whole range, `held` and `requestId` count as said, and `fetched` is the growth of the table |
| `PassageStore.GroupByChapter` | packages/bible/src/passages.ts:79-85 | The grouping loop puts in memory exactly what the table holds of the cited chapters |
| `PasswordResets.ResetTable.RevokePasswordResetsForUser` | packages/db/src/password-resets.ts:107-124 | Revokes the account's one live reset, if any, and changes no other row or column |
| `PasswordResets.ResetTable.IssuePasswordReset` | packages/db/src/password-resets.ts:83-104 | Leaves exactly the new reset live, as given, the old one revoked and every other row as it was; a token that is taken is refused and changes nothing |
| `PasswordResets.ResetTable.CompletePasswordReset` | packages/db/src/password-resets.ts:144-197 | Completes exactly a token that is unused, unrevoked, unexpired and of an active account: sets that account's password, marks that reset used, revokes each of that account's sessions, and touches nothing else; answers `None` having changed nothing |
| `PasswordResets.ATokenIsSpent` | packages/db/src/password-resets.ts:9-18 | A completed token can never be completed again |
| `ResetProtocol.MoveKeepsInv` | packages/db/src/password-resets.ts:83-197 | Every statement before a commit keeps the locks and what they stand for |
| `ResetProtocol.IssueCommits` | packages/db/src/password-resets.ts:88-103 | Committing an issue leaves one live reset for the account and disturbs no other transaction |
| `ResetProtocol.CompleteCommits` | packages/db/src/password-resets.ts:165-196 | Committing a completion logs the token once and disturbs no other transaction |
| `ResetProtocol.StepKeepsInv` | packages/db/src/password-resets.ts:83-197 | Every statement of issue, revoke, complete and deactivate, and every sign-in and sign-out, keeps the invariant |
| `ResetRuns.OneLiveResetAndNoTokenTwice` | packages/db/src/schema.ts:374-380 | Over any interleaving: at most one live reset an account, no token changes a password twice, no row is both used and revoked |
| `ResetRuns.WhatASuccessDoes` | packages/db/src/password-resets.ts:165-196 | At its commit a completion's token may still be completed; that account's password, that reset and that account's sessions change, no other account's, and it is left with no open session |
| `ResetRuns.WhatTheOtherCallsDo` | packages/db/src/password-resets.ts:83-124 | What the commit of an issue, a revocation or a deactivation writes, column by column |
| `ResetRuns.WhatHappensOutside` | packages/db/src/schema.ts:278-296 | A sign-in waits for a completion that holds its account; what it, a sign-out and a reactivation write |
| `ResetRuns.SuccessEndsEveryOpenSession` | packages/db/src/password-resets.ts:137-193 | In every interleaving, at the commit of a success no session of the account is open, and each that existed at any time before is there and revoked |
| `ResetRuns.RefusalsWriteNothing` | packages/db/src/password-resets.ts:137-143 | A call that is refused or rolled back writes nothing at any of its steps, in any run |
| `ResetRuns.CompleteAlone` | packages/db/src/password-resets.ts:149-196 | Run with nothing beside it, the transaction does what the sequential completion does |
| `ResetAlone.IssueAlone` | packages/db/src/password-resets.ts:83-104 | Run with nothing beside it, an issue is refused exactly for a taken token and otherwise does what the sequential one does |
| `ResetAlone.RevokeAlone` | packages/db/src/password-resets.ts:107-124 | And a revocation leaves the account no live reset and touches nothing else |
| `ResetAlone.NoneItSawStaysAlive` | packages/db/src/password-resets.ts:83-124 | In every interleaving, an issue or a revocation that goes through leaves none of the account's resets alive that were alive when it began |
| `SosCap.StepKeepsInv` | packages/db/src/sos.ts:198-387 | Every statement of raises, closes, removals and erasures keeps the bound, the advisory locks and the foreign keys' waiting |
| `SosCap.RaiseCommits` | packages/db/src/sos.ts:203-207 | A raise that counted under the lock still has room when it commits |
| `SosCap.EraseCommits` | packages/db/src/sos.ts:370-387 | An erasure's commit hands the placeholder no more than the leaver held, and no pending raise is caught in it |
| `SosCap.FewerOrMoved` | packages/db/src/sos.ts:370-387 | The leaver's open signals become the placeholder's, and nobody else's count moves |
| `SosCap.NobodyIsEverOverTheCap` | packages/db/src/sos.ts:190-207 | In every interleaving no author ever holds more than the cap of open standing signals |
| `SosCap.RaiseAlone` | packages/db/src/sos.ts:198-208 | With nothing beside it a raise goes through exactly when its author holds fewer than the cap |
| `SosCap.WhatAnErasureLeaves` | packages/db/src/sos.ts:370-387 | At an erasure's commit every signal of the leaver that stays is the placeholder's, open, closed or removed as it was, and no other has changed |
| `SosCap.EraseAlone` | packages/db/src/sos.ts:370-387 | With nothing beside it an erasure hands over every signal of the leaver and loses none |
| `SosCap.WhatTheOthersWrite` | packages/db/src/sos.ts:198-359 | What a raise, a close and a removal write |
| `SosBoard.Board.InsertSosSignalUnderCap` | packages/db/src/sos.ts:198-208 | Answers `None` exactly at the cap, never passes it, and moves nobody else's count |
| `SosBoard.Board.CloseSosSignal` | packages/db/src/sos.ts:327-338 | Closes an open standing signal once; a second press answers nothing and changes nothing |
| `SosBoard.Board.RemoveSosSignal` | packages/db/src/sos.ts:348-359 | Marks a standing signal, open or closed, and keeps its row |
| `SosBoard.Board.ReassignSosOfDeletedAuthor` | packages/db/src/sos.ts:370-387 | Moves every signal of the leaver, each otherwise as it was, touches no other, and counts them |
| `Chapters.SpansTile` | packages/db/src/chapters.ts:23-26 | An instant is in exactly one derived span if and only if it is not before the first start and is before the last start or the end |
| `Chapters.QueryPicksTheSpan` | packages/db/src/flow-tracker.ts:856-864 | The "no nearer start" query picks exactly the chapter whose span the instant is in |
| `Chapters.QueryPicksOne` | packages/db/src/flow-tracker.ts:856-864 | From the first start on the query always answers, and with one chapter |
| `Chapters.SplitCutsOneSpan` | packages/db/src/chapters.ts:188-217 | A new boundary takes exactly the instants from it to the next start, from one chapter, and moves no other |
| `Chapters.MergeGivesTheSpanBack` | packages/db/src/chapters.ts:219-238 | Joining a chapter to the one before gives exactly its own instants to that one, or to none when it was the first, and moves no other |
| `Chapters.SplitThenMergeRestores` | packages/db/src/chapters.ts:219-238 | Split then merge gives back the table, the listing and every span |
| `ChapterTable.EveryInstantHasItsChapter` | packages/db/src/chapters.ts:79-238 | After any sequence of replaces, edits, splits and merges, every instant from the first start on lies in exactly one derived span, and the "no nearer start" query picks exactly that chapter |
| `ChapterTable.WithWritten` | packages/db/src/schema.ts:1358-1369 | A run's list is accepted exactly when its starts differ and none is negative; the recording then has those rows and no others |
| `ChapterTable.ChapterTable.ReplaceChapters` | packages/db/src/chapters.ts:79-108 | Replaces the whole list by rows that say what the run's list says or, refused, leaves every row standing; other recordings keep theirs |
| `ChapterTable.ChapterTable.UpdateChapter` | packages/db/src/chapters.ts:161-181 | Gives one row its new title, summary and start and marks it, keeping the rest; refused where the new start is taken or negative or the row is gone |
| `ChapterTable.ChapterTable.InsertChapter` | packages/db/src/chapters.ts:198-217 | Adds exactly the row given, refused where a chapter of the recording starts already |
| `ChapterTable.ChapterTable.DeleteChapter` | packages/db/src/chapters.ts:229-238 | Removes one boundary and writes nothing else |
| `RelatedChapters.EachLinkLandsOnce` | packages/db/src/flow-tracker.ts:853-864 | Each link lands in at most one chapter, and in one exactly when its target teaching has started one by then |
| `RelatedChapters.LinksPartitionBySpan` | packages/web/src/server/flow-tracker/service.ts:491-518 | The links out of a teaching are shared out among the items a session asked about it, by the starts they were asked with: each leaves at most one, one exactly when some item had started by it, and then the last to |
| `RelatedChapters.WhatIsRelated` | packages/db/src/flow-tracker.ts:846-880 | On the tables: a chapter is related exactly when a link out of the span reaches it, and its score is the highest of those links |
| `RelatedChapters.ListFallsByScore` | packages/db/src/flow-tracker.ts:888-890 | The list runs from the highest score down, equal scores by id |
| `RelatedChapters.ListIsTheStrongest` | packages/db/src/flow-tracker.ts:846-893 | The list is the strongest related chapters of published teachings, each once, each at the highest score landing in it |
| `CrossReferences.InsertableExactlyWhenGood` | packages/db/src/schema.ts:2021-2043 | A run's rows are accepted exactly when each link joins its own recording to another, within the score range, and each pair of passages is said once in either direction |
| `CrossReferences.RowsOfAre` | packages/db/src/cross-references.ts:155-178 | The rows written are the links and their mirrors and nothing else |
| `CrossReferences.RunsByColumns` | packages/db/src/cross-references.ts:155-178 | On the columns: which lists a run may write, and that its rows say each link in its own direction and from the other end with the same score, basis and owner |
| `CrossReferences.ReplaceKeeps` | packages/db/src/cross-references.ts:147-180 | A replace makes the run's rows exactly the new ones, touches no other run's, and keeps every link stored both ways |
| `CrossReferences.ReplaceIsIdempotent` | packages/db/src/cross-references.ts:143-146 | Running the step again leaves the table as it is |
| `CrossReferences.RemovalKeeps` | packages/db/src/cross-references.ts:195-209 | Unpublishing leaves no row touching the recording, keeps all others, and keeps the closure |
| `CrossReferences.AlwaysClosed` | packages/db/src/cross-references.ts:147-209 | In every state any sequence of replaces, unpublishings and segment cascades reaches, each link is stored from both ends with equal score, basis and owner |
| `CrossReferences.BothEndsListTheLink` | packages/db/src/cross-references.ts:261-296 | A teaching lists exactly the links out of it whose target is published, and between two published teachings each lists exactly the links the other lists, seen from its own end |
| `CrossReferences.CrossReferenceTable.ReplaceCrossReferencesForRun` | packages/db/src/cross-references.ts:147-180 | As it runs: accepted exactly for a good run, leaving the other runs' rows and each link of this one both ways and nothing else, or rolled back whole |
| `CrossReferences.CrossReferenceTable.DeleteCrossReferencesTouching` | packages/db/src/cross-references.ts:195-209 | Removes exactly the rows on either end and counts them |
| `Playback.TotalIsTheCappedSum` | packages/db/src/playback.ts:115-120 | For a known length the total is the uncapped first delta after one write and min(sum, twice the length) from the second on |
| `Playback.HeardWithoutALength` | packages/db/src/playback.ts:72-73 | While no length is told the total is capped at a day from the second write on, and nothing is complete |
| `Playback.CappedFromTheStartExactly` | packages/db/src/playback.ts:122-147 | It is the capped sum throughout exactly when the first delta does not exceed twice the length |
| `Playback.OrderDoesNotMatter` | packages/db/src/playback.ts:115-120 | The same writes in any order give the same total |
| `Playback.WhenATotalFalls` | packages/db/src/playback.ts:115-120 | A write lowers the total exactly when it leaves the cap below it |
| `Playback.AShorterLengthLowersTheTotal` | packages/db/src/playback.ts:115-120 | A shorter length told later lowers a total already stored |
| `Playback.CompletedAtTheCrossing` | packages/db/src/playback.ts:140-145 | Completion is stamped by the first write whose uncapped sum x 5 reaches the length x 4, and never moved or cleared |
| `Playback.WhoAnswersCompleted` | packages/db/src/playback.ts:151-154 | A write answers that it completed exactly when it is the crossing write or a later one within its millisecond |
| `Playback.CompletedNowExactlyOnce` | packages/db/src/playback.ts:91-95 | Exactly one write answers so if and only if one crosses and none after it shares its millisecond |
| `Playback.CompletedNowOnce` | packages/db/src/playback.ts:151-154 | With a millisecond between writes, exactly that write answers that it completed |
| `Playback.TwoWritesInOneMillisecond` | packages/db/src/playback.ts:151-154 | Without it, a second write can answer so too |
| `Playback.NothingOverflows` | packages/db/src/playback.ts:72-73 | With deltas and lengths of at most a day, whatever lengths are told, no integer in the statement overflows |
| `Playback.PlaybackTable.RecordPlaybackProgress` | packages/db/src/playback.ts:107-155 | Refused exactly when an integer of the statement does not fit; otherwise the pair's row has the position, instant, length, capped total and completion the statement sets, column by column, and no other row changes |
| `Notifications.ForeignCursorsAreRefused` | packages/db/src/notifications.ts:384-390 | The cursor is refused exactly when it is not one of the member's own rows |
| `Notifications.PageIsTheNewest` | packages/db/src/notifications.ts:399-404 | A page holds the member's own newest rows strictly older than the cursor by date and then id, in that order, and all of them when it is not full |
| `Notifications.CursorSplits` | packages/db/src/notifications.ts:391-397 | A page's last row, as cursor in any later table, leaves behind exactly what the page had not listed |
| `Notifications.WalkDescends` | packages/db/src/notifications.ts:363-375 | Over a growing table the pages end to end are strictly descending, so nothing is listed twice |
| `Notifications.NothingIsSkipped` | packages/db/src/notifications.ts:363-375 | A walk that ends has listed every row that was there when it began |
| `Notifications.EnoughCallsFinish` | packages/db/src/notifications.ts:363-375 | The walk ends, however many rows arrive while it goes on |
| `Notifications.EveryRowExactlyOnce` | packages/db/src/notifications.ts:376-406 | Walked to the end, the pages give every row the member had at the start exactly once, newest first, with equal timestamps and rows arriving anywhere |
| `FlowSession.EventsLeave` | packages/db/src/flow-tracker.ts:509-788 | What every event leaves of every session and item, column by column |
| `FlowSession.WhatCounts` | packages/db/src/flow-tracker.ts:476-501 | Which items each count counts, by their own columns |
| `FlowSession.StepKeepsValid` | packages/db/src/schema.ts:2594-2681 | Every event keeps positions distinct and at most one session in progress a member |
| `FlowSession.CountsAddUp` | packages/db/src/flow-tracker.ts:487-501 | Questions are answered plus unanswered, and gaps are among the answered |
| `FlowSession.CountsMatchTheListExactly` | packages/db/src/flow-tracker.ts:632-641 | The counts equal the items listed exactly while no live item is about a teaching that has been taken down |
| `FlowSession.ATakenDownTeachingIsCounted` | packages/db/src/flow-tracker.ts:632-641 | A session of one item about a teaching taken down: one question counted, none listed |
| `FlowSession.AnswerEffect` | packages/db/src/flow-tracker.ts:699-711 | A first answer to a live item takes exactly one from the unanswered; a re-answer or an answer to a dropped item takes none |
| `FlowSession.ChapterDeletionEffect` | packages/db/src/flow-tracker.ts:476-481 | A chapter that goes drops exactly the unanswered chapter items on it |
| `FlowSession.TagDeletionEffect` | packages/db/src/flow-tracker.ts:476-481 | A tag that goes drops exactly the unanswered tag items on it |
| `FlowSession.RunsAreMonotone` | packages/db/src/flow-tracker.ts:466-481 | Over every run without removals, answered items stay answered, no unanswered item appears, and an ended session never changes |
| `FlowSession.CountsOnlyMoveOneWay` | packages/db/src/flow-tracker.ts:466-501 | So the answered count never falls and the unanswered count never rises |
| `FlowSession.OneSessionInProgress` | packages/db/src/schema.ts:2618-2620 | In every state any run reaches a member has at most one session in progress |
| `FlowTable.FlowTable.InsertFlowSession` | packages/db/src/flow-tracker.ts:509-543 | The session and every item as asked, in order, or neither; refused while one is in progress; it starts with nothing answered |
| `FlowTable.FlowTable.AnswerFlowSessionItem` | packages/db/src/flow-tracker.ts:699-711 | Answers only an item of this session, in its answer alone |
| `FlowTable.FlowTable.CountUnansweredFlowItems` | packages/db/src/flow-tracker.ts:714-725 | With the answered it makes up the questions, and it is zero, which completes the session, exactly when every live item has its answer |
| `FlowTable.FlowTable.CompleteFlowSession` | packages/db/src/flow-tracker.ts:728-745 | Only from in progress and only the member's own; then complete, and nothing else changes |
| `FlowTable.FlowTable.AbandonFlowSession` | packages/db/src/flow-tracker.ts:748-765 | Only from in progress and only the member's own; then abandoned, and nothing else changes |
| `FlowTable.FlowTable.DeleteFlowSessionForMember` | packages/db/src/flow-tracker.ts:772-788 | Removes exactly a past session of the member's with its items, never the one in progress, and keeps every other session's |
| `FakeEmbedder.NextIsABijection` | packages/embed/src/fake.ts:106-116 | The generator step is a bijection on 128-bit states, with its inverse given |
| `FakeEmbedder.StatesNeverMeet` | packages/embed/src/fake.ts:106-116 | Two different states never meet, so only the all-zero state is ever all zero |
| `FakeEmbedder.NeverAllZero` | packages/embed/src/fake.ts:70-76 | For every text, at every step, the state is not all zero |
| `FakeEmbedder.ComponentIsNotZero` | packages/embed/src/fake.ts:81 | No component before scaling is zero |
| `FakeEmbedder.SameComponentsExactlyOnTheSameSeed` | packages/embed/src/fake.ts:66-68 | Two texts have the same components exactly when both seeded hashes agree |
| `FakeEmbedder.LengthIsPositive` | packages/embed/src/fake.ts:79-85 | The squared length is positive, so it can be scaled |
| `FakeEmbedder.UnitAfterScaling` | packages/embed/src/fake.ts:85-86 | Over the reals the scaled vector has squared length exactly 1 |
| `FakeEmbedder.OneUnitChangesBothHashes` | packages/embed/src/fake.ts:89-104 | Changing one code unit anywhere in a text changes both its hashes |
| `FakeEmbedder.KnownHashes` | packages/embed/src/fake.ts:89-104 | The hashes of "" and "a", the first as published for 32-bit FNV-1a |
| `FakeEmbedder.HashFnv1a` | packages/embed/src/fake.ts:89-96 | The loop computes the first hash with 32-bit wrap-around |
| `FakeEmbedder.HashDjb2` | packages/embed/src/fake.ts:98-104 | And the second |
| `FakeEmbedder.Xorshift128` | packages/embed/src/fake.ts:106-116 | The in-place step moves the four words as the step function does |
| `FakeEmbedder.FakeVector` | packages/embed/src/fake.ts:70-87 | Every text gives 1536 components of squared length 1, its own components under one positive scale |

## Left out

- Account erasure's other steps (prayer-request rows, embeddings, notifications, invitations, and the cascades of sessions, resets, positions and reactions) are not in `ErasureTransaction`; the prayer-request step is in `SosCap` and `SosBoard`.
- Publication of a recording, series and artwork are not part of the notes lists; note images, reactions and pins are left out as easy members.
- Jobs: `payload` and `provider_meta` are carried by no decision and are not modelled. `JobTable.JobTable.EnqueueJob` is one atomic step, so the race in which the conflicting job finishes between the insert and the read, and the source throws, does not arise; `for update skip locked` between two workers is not modelled, as the deployment has one.
- `JobTable.JobTable.ClaimNextJob`: instants are given as parameters and are not tied to a clock that only moves forward.
- Search: `<=>`, `@@`, `ts_rank_cd` and `ts_headline` are abstract functions of the text and the query, HNSW is taken as exact, distances that tie are ordered by id where the source leaves the order open, and scores are reals, not `float8`.
- `SearchQuery.SearchDependsOnTheVisible` is about the statement alone; the service's cache of answers is left out.
- Passages: a database failure part way through a resolution and two resolutions at once are left out; verse numbers and texts are compared exactly.
- `PassageStore.VerseTable.FindHeldVerses`: the order of the rows is left open, because the resolver does not use it.
- Password resets: deleting an account, which cascades its resets, is not a step of `ResetProtocol`. A sign-in is one step that commits on its own. `used_at` and `revoked_at` are kept as whether they are set.
- `SosCap.NobodyIsEverOverTheCap`: the members who raise are those who exist when they begin, and a placeholder's id is fresh, as in the source; bell entries deleted with a removed signal are left out.
- `LastAdmin` keeps of an account its role, whether it is active and whether it is a placeholder; an erasure there is the replacement of the row by a placeholder.
- Chapters: whether a new start is a transcript segment's start inside its neighbours is the service's check and is left out; `listChapters` is the ordered set `Chapters.Listing`.
- Cross-references: `findNearestSegments`, row ids and `created_at` are left out, so the order of equal scores in the read is left open.
- `RelatedChapters.ListIsTheStrongest`: titles, series and artwork joined beside a row are left out.
- Playback: the preferred speed, the position's meaning and the table's foreign keys are left out; `least`, `coalesce` and `case` are taken to evaluate as PostgreSQL documents, with `completed_at` deciding whether the comparison is evaluated.
- Notifications: `EveryRowExactlyOnce` allows rows to arrive anywhere in the order but none to be deleted between calls.
- Flow Tracker: `done_at`, the snapshot texts and the question tables are left out; removing a teaching removes its items, so the counts may fall there and the monotone results exclude it.
- `FakeEmbedder.FakeVector`: the components are reals and the square root is exact, so IEEE rounding is left out; the call log and the spend record are left out.
- Owner-scoped create, read, update and delete (tags, folders, series, summaries, onboarding, reports, invitations), text shape, logging and configuration would add only easy members.
