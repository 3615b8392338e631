# mailarchiver, modelled in Dafny

mailarchiver logs in to an IMAP server and sorts the messages of chosen
mailboxes into a year/month folder tree under an archive root, for example
`Archive/2023/11`. This project models the archiving engine of
`mailarchiver.go` and proves properties of the model:

- the start-up configuration checks;
- the mailbox selector, which decides which folders to process, ignore or skip;
- `processMailbox`, which fetches messages, classifies each by date, and moves and counts it;
- `moveMessage` and `(*imapClient).Move`, which use UID MOVE or the COPY / STORE \Deleted / EXPUNGE fallback;
- `ensureAvailable`, which creates the missing ancestors of a target folder, shallowest first.

## How the model is built

- **Server.** The IMAP server is a value `Server(refuses, fetched, clock)` (`engine.dfy`). Each answer is a function of the commands sent so far:
  - whether a command is refused;
  - which messages UID FETCH returns;
  - which local month the clock shows.

  Every command sent is recorded in a trace. A refused command is recorded too, because it was sent.
- **Engine functions.** Module `Engine` gives one function per operation. Each takes a `State`: the catalog (the global `mailboxes`), the trace, and the counters `cntMbox` and `cntMsg`. It returns the new state and a success flag.
- **Imperative class.** Class `Archiving.Archiver` (`archiver.dfy`) keeps that state in fields and runs the operations step by step, loop for loop as the Go code does. Each method is proved to end in exactly the state, and with the result, that its specification gives:
  - `Move`: the command chain `Imap.MoveChain`, run by `Imap.RunChain`;
  - `MoveMessage`: `Engine.MoveMessage`;
  - `EnsureAvailable`: `Engine.EnsureAvailable`;
  - `HandleMessage`, one round of the message loop: `Engine.Handle`;
  - `ProcessMailbox`: `Engine.Process`;
  - `Run`: `Engine.Archive`;
  - `CumulativeName`: `Paths.Cumulative`;
  - `Contains` has no specifying function. Its contract says it finds the name exactly when the name is in the catalog.
- **Property lemmas.** The lemma modules state what the operations promise:
  - `EnsureProperties`, about `ensureAvailable`;
  - `ProcessProperties`, about `processMailbox`;
  - `SelectorProperties`, about the selection loop.
- **Path splitting** (`paths.dfy`) models Go's `strings.Split` and `strings.Join`, including the empty delimiter, which splits a string into its characters.
- **Dates** (`dates.dfy`) model the classification and the fixed-width year and month of the folder name.
- **Commands** (`imap.dfy`) model the IMAP commands and the chain that stops at the first refusal. A small mail store is used only to compare the two ways of moving a message.

## Behaviour as written

The model follows `mailarchiver.go` where a plain reading of the design would expect something else:

- **Processed twice.** A folder matched both by a `mailboxes` entry and by a `recursiveMailboxes` prefix is processed twice, and its moves are counted twice (lines 203-216). See `SelectorProperties.ScheduleCount` and `SelectorProperties.ExampleDoubleProcessing`.
- **Exact-match errors dropped.** Errors from exact-match processing are dropped (line 205). Only a recursive match can end the run early (`SelectorProperties.ExactOnlyAlwaysFinishes`).
- **Move errors dropped.** The error of `Move` is dropped by `moveMessage` (line 376). A message is therefore counted as moved even when its move commands were refused (`ProcessProperties.PassCounts`).
- **Fallback expunges more.** The fallback's EXPUNGE removes every \Deleted message of the source mailbox, not only the one being moved. It ends in the same store as UID MOVE exactly when no other message there is already flagged (`Imap.FallbackMatchesMoveIff`).
- **Leading delimiter dropped.** While building the cumulative name, the delimiter is skipped as long as the name built so far is empty. So a name that begins with the delimiter (or an empty archive root) loses it: `"/x"` leads to `""` and `"x"` (`Paths.LeadingDelimiterDropped`). Such a name is never among the names checked, so it is never created (`Paths.LeadingDelimiterNeverTarget`, `EnsureProperties.LeadingDelimiterNeverCreated`).
- **Empty archive root.** The archive root is never checked. When it is empty, a dated message goes to a name that starts with the delimiter, such as `"/2023/11"` (`Dates.ExampleEmptyRoot`). `ensureAvailable` then creates `""`, `"2023"` and `"2023/11"`, but never `"/2023/11"`. The move into that folder goes to a folder that does not exist, its error is dropped, and the message is still counted (`ProcessProperties.EmptyRootStrandsMessage`).
- **Catalog snapshot.** The selection loop walks the catalog as it was when the loop started. Folders created during the run are not visited (`Engine.Archive`).

## Model

| member | source | states |
|---|---|---|
| Engine.CheckConfig | mailarchiver.go:162-168 | Exactly one verdict per configuration. Missing host, port or user is reported first. "No mailbox" is reported exactly when the connection settings are present but both mailbox lists are empty. Otherwise the configuration passes. |
| Paths.Split | mailarchiver.go:383 | For a non-empty delimiter, the pieces joined again with the delimiter give back the name, and no piece contains the delimiter. For the empty delimiter, there is one single-character piece per character. |
| Paths.CumulativeIsJoin | mailarchiver.go:389-394 | When the first piece is non-empty, the name built for depth k is the first k+1 pieces joined with the delimiter. |
| Paths.TargetsAncestorFirst | mailarchiver.go:385-394 | Each name built is an ancestor of every name built after it (the name followed by the delimiter is a prefix of the later one, or the name is empty). |
| Paths.DeepestTargetIsName | mailarchiver.go:383-394 | The last name built is the mailbox's own name, provided the name does not begin with the delimiter. |
| Paths.NameAmongTargets | mailarchiver.go:383-394 | Under the same condition, the mailbox's own name is among the names checked. |
| Paths.ExampleNestedTargets | mailarchiver.go:383-394 | "A/2/1" with delimiter "/" is checked as "A", "A/2" and "A/2/1", in that order. |
| Paths.LeadingDelimiterNeverTarget | mailarchiver.go:383-394 | A name that begins with the delimiter is never among the names checked for it: every name checked is shorter. |
| Paths.LeadingDelimiterDropped | mailarchiver.go:389-394 | For "/x" with delimiter "/", the names built are "" and "x". "/x" itself is never checked. |
| Dates.Year4 | mailarchiver.go:336 | The year is printed as exactly four decimal digits whose value is the year. |
| Dates.Month2 | mailarchiver.go:336 | The month is printed as exactly two decimal digits, zero-padded, whose value is the month. |
| Dates.Classify | mailarchiver.go:326-337 | A message is skipped exactly when skipping is on and it dates from the current month. Otherwise it goes to a folder under the archive root, which is the root itself exactly when the message has no usable date. |
| Dates.UndatedGoesToRoot | mailarchiver.go:326-328 | A message with no usable date goes to the archive root. |
| Dates.SkipExactlyCurrentMonth | mailarchiver.go:331-334 | A message is skipped if and only if skipping is on and it dates from the current year and month. |
| Dates.DatedGoesToMonthFolder | mailarchiver.go:329-337 | A dated message that is not skipped goes to root + delimiter + year + delimiter + month, which is never the root itself. |
| Dates.MonthFolderReadsBack | mailarchiver.go:336 | The folder name splits back into root, delimiter, four year digits, delimiter and two month digits, with the right values. |
| Dates.MonthFolderInjective | mailarchiver.go:336 | Different months give different folders under the same root and delimiter. |
| Dates.ExampleNovember2023 | mailarchiver.go:336 | Root "Archive", delimiter "/", November 2023 gives "Archive/2023/11". |
| Dates.ExampleEmptyRoot | mailarchiver.go:326-337 | With an empty archive root and delimiter "/", November 2023 goes to "/2023/11". |
| Dates.ExampleCurrentMonthSkipped | mailarchiver.go:332-333 | With skipping on, a message from the current month stays. |
| Imap.MoveChain | mailarchiver.go:67-89 | With MOVE support the chain is the single UID MOVE of this UID to the target. Otherwise it is three commands: UID COPY of this UID to the target, UID STORE \Deleted of this UID, and EXPUNGE, which ends the chain exactly in the fallback. |
| Imap.RunChainSucceedsIffAllAccepted | mailarchiver.go:67-89 | What a move sends is a prefix of its command chain. The move succeeds if and only if the whole chain was sent and every command was accepted. |
| Imap.RunChainFailsAtLast | mailarchiver.go:67-89 | When a move fails, the last command sent is the one refused, and every earlier command was accepted. |
| Imap.MoveChainsEffect | mailarchiver.go:67-89 | Both ways of moving put the message into the target. UID MOVE removes only that message from the source. The fallback flags it and then expunges every flagged message. |
| Imap.FallbackMatchesMoveIff | mailarchiver.go:72-86 | The fallback ends in the same mail store as UID MOVE if and only if no other message of the source mailbox is flagged \Deleted. |
| EnsureProperties.EnsureDryRun | mailarchiver.go:403-417 | In dry-run, nothing is sent, the call succeeds, and every missing prefix is appended to the catalog, shallowest first. |
| EnsureProperties.EnsureCreatesMissing | mailarchiver.go:396-417 | Outside dry-run, exactly the missing prefixes are created, in order, each appended once its CREATE is accepted. |
| EnsureProperties.CreateAllIsChain | mailarchiver.go:403-415 | Creating is a chain of CREATEs that stops at the first refusal. The catalog gains exactly the accepted names, and the counters are untouched. |
| EnsureProperties.MissingFacts | mailarchiver.go:396-403 | The prefixes found missing come from the targets, are not in the catalog and are distinct. Every target is in the catalog or missing. |
| EnsureProperties.EnsureAppendsMissing | mailarchiver.go:403-417 | The catalog grows by a leading part of the missing prefixes, with the mailbox's delimiter, and by nothing else. The counters do not change. |
| EnsureProperties.EnsureCovers | mailarchiver.go:385-421 | After a successful call, every prefix is in the catalog. |
| EnsureProperties.EnsureKeepsNamesUnique | mailarchiver.go:396-415 | A catalog without duplicate names keeps none. |
| EnsureProperties.EnsureIdempotent | mailarchiver.go:382-421 | A second successful call with the same name sends nothing and changes nothing. |
| EnsureProperties.DryRunAppendsLikeLiveRun | mailarchiver.go:406-415 | A dry run appends the same catalog entries as a live run in which every CREATE is accepted. |
| EnsureProperties.EnsureStopsAtRefusedCreate | mailarchiver.go:406-411 | A failure happens only outside dry-run, at the first refused CREATE. The prefixes before it are appended. The refused CREATE is the last command sent. |
| EnsureProperties.EnsureAvailableAncestorFirst | mailarchiver.go:385-415 | The folders appended come ancestors first. |
| EnsureProperties.EnsureAvailableCreatesName | mailarchiver.go:382-421 | After success, the mailbox itself is in the catalog, unless its name begins with the delimiter. |
| EnsureProperties.EnsureSendsOnlyCreates | mailarchiver.go:403-411 | `ensureAvailable` only appends CREATE commands to the trace, and none in dry-run. |
| EnsureProperties.EnsureAddsOnlyTargets | mailarchiver.go:385-417 | The catalog gains no name other than the prefixes checked. |
| EnsureProperties.LeadingDelimiterNeverCreated | mailarchiver.go:382-421 | A name that begins with its delimiter and is not in the catalog is still not in it afterwards, even after success. |
| ProcessProperties.MoveMessageWrites | mailarchiver.go:369-380 | `moveMessage` sends only commands that change messages, leaves the catalog and counters alone, and in dry-run changes nothing. |
| ProcessProperties.MoveMessageSendsItsChain | mailarchiver.go:369-380 | Every command `moveMessage` sends belongs to that message's move chain. It never sends CREATE or SELECT. |
| ProcessProperties.HandleCounts | mailarchiver.go:323-362 | One message is counted exactly when it leaves its mailbox and its target could be ensured. Only a leaving message can fail the loop. A message that stays changes nothing and sends nothing. |
| ProcessProperties.HandleWrites | mailarchiver.go:339-362 | Handling one message only appends to the catalog and the trace, sends only folder or message changes, and in dry-run sends nothing and succeeds. |
| ProcessProperties.EmptyRootStrandsMessage | mailarchiver.go:326-362 | With an empty archive root, a dated message that leaves goes to a name that starts with the delimiter. That folder is still not in the catalog afterwards, yet the message is counted when the prefixes could be ensured. |
| ProcessProperties.PassCounts | mailarchiver.go:323-363 | A finished message loop adds to `cntMsg` exactly the number of messages that leave the mailbox, whether or not their moves succeeded. A loop cut short adds fewer. `cntMbox` is untouched. |
| ProcessProperties.PassWrites | mailarchiver.go:323-363 | The message loop only appends, sends only folder or message changes, and in dry-run sends nothing and always finishes. |
| ProcessProperties.ProcessCounts | mailarchiver.go:292-367 | A mailbox is counted exactly when its message loop finishes. `cntMsg` then grows by the fetched messages that leave it, judged against the month read after the fetch. |
| ProcessProperties.ProcessSelectsOnce | mailarchiver.go:292-319 | Every call starts with SELECT of its mailbox and sends no other SELECT. |
| ProcessProperties.DryProcess | mailarchiver.go:292-367 | In dry-run, once SELECT and UID FETCH succeed, nothing else is sent. The mailbox is counted, and so is every message that would move. |
| SelectorProperties.ProcessSelects | mailarchiver.go:295 | Each `processMailbox` call adds exactly its mailbox to the list of selected mailboxes. |
| SelectorProperties.ExactCallsSelects | mailarchiver.go:203-207 | The exact-match loop processes a folder once per equal entry. |
| SelectorProperties.RecursiveCallsSelects | mailarchiver.go:209-216 | The recursive loop processes a folder once per prefix entry, or a leading part of those calls when one fails. |
| SelectorProperties.SelectFromSchedule | mailarchiver.go:193-217 | The mailboxes processed are exactly the schedule when the loop finishes, and a leading part of it when it stops early. |
| SelectorProperties.ArchiveSchedule | mailarchiver.go:187-217 | The whole selection loop follows the schedule of the catalog as it was when the loop began. |
| SelectorProperties.ScheduleCount | mailarchiver.go:193-217 | A folder is processed (catalog entries of that name) × (equal `mailboxes` entries + prefix `recursiveMailboxes` entries) times, and never when an ignore entry is a prefix of its name. |
| SelectorProperties.ExactOnlyAlwaysFinishes | mailarchiver.go:203-216 | With no recursive entries, the selection loop always finishes. |
| SelectorProperties.ExampleDoubleProcessing | mailarchiver.go:203-216 | "INBOX" in both lists is processed twice. |
| Archiving.Archiver.constructor | mailarchiver.go:187 | A run starts from the listed folders, with nothing sent and both counters zero. |
| Archiving.Archiver.Move | mailarchiver.go:67-89 | Sends UID MOVE, or COPY, STORE \Deleted and EXPUNGE, stopping at the first refusal. The result is success exactly when the chain completed. |
| Archiving.Archiver.MoveMessage | mailarchiver.go:369-380 | Outside dry-run the state is what `Move` leaves, with its result dropped. In dry-run nothing changes. |
| Archiving.Archiver.CumulativeName | mailarchiver.go:387-394 | The inner loop builds the name of depth pI as `Cumulative` defines it. |
| Archiving.Archiver.Contains | mailarchiver.go:396-401 | The scan finds the name exactly when it is in the catalog. |
| Archiving.Archiver.EnsureAvailable | mailarchiver.go:382-421 | Ends in the state and result `Engine.EnsureAvailable` gives. The properties proved of that function are in `EnsureProperties`. |
| Archiving.Archiver.HandleMessage | mailarchiver.go:323-362 | One round of the message loop ends as `Engine.Handle` says. |
| Archiving.Archiver.ProcessMailbox | mailarchiver.go:292-367 | Ends in the state and result `Engine.Process` gives. Counting, dry-run and SELECT facts are proved in `ProcessProperties`. |
| Archiving.Archiver.Run | mailarchiver.go:193-217 | Ends in the state and result `Engine.Archive` gives, over the catalog as it was when the loop began. Its schedule is proved in `SelectorProperties`. |

## Left out

- Connecting, TLS, login, the capability query and the client ID (`getClient`, lines 231-266) are left out. `supportMove` is a constant of the run.
- Listing the folders (`getMailboxes`, lines 268-290) is left out. The catalog starts from the list the server gave.
- Command-line parsing, `main` and the password prompt are left out. The configuration is a value.
- The producer/consumer pair that streams fetched messages is left out. The fetched messages are one sequence, the server's answer to the UID FETCH.
- `time.Now().Local()` and the conversion of message dates to local time are left out. The clock is the server value's `clock`, and each message carries its local year and month. Years are limited to 0..9999, the range Go prints as four digits.
- The date layout `"2006" + delimiter + "01"` is read as year, delimiter, month. A delimiter that itself contains Go layout elements is not modelled.
- `imap.ParseSeqSet` is not modelled. Its inputs always parse ("1:*", and a UID, which is a non-zero 32-bit number).
- Console output, the final summary line and `Logout` are left out. The counters it reports are modelled.
- Error values are reduced to success or failure. `log.Fatal` becomes the verdict of `Engine.CheckConfig`.
- The server's own state is not modelled, apart from the small mail store used to compare the two ways of moving.
- SelectorProperties.SelectFromSchedule: when the loop stops early, it states only that a leading part of the schedule was processed, not which call failed.

