# prodcli task list, commit template, countdown and focus schedule — a Dafny model

This project models the logic of `prodcli.py`, a small productivity command line:

- the **task list** of the `todo` subcommands (`add`, `list`, `done`, `remove`), written as pure functions over a
  `seq<Task>`. Every operation returns the list the program writes back. The clock (`int(time.time())`
  and `now_str()`) is an argument.
- the **selectors** of `done` and `remove`, modelled as the code has them. The id matches when `str(t['id'])`
  equals `str(args.id)`, and a missing id renders as `"None"`. The index matches when `args.index` is present and
  non-zero and equals `tasks.index(t)+1`, the first position of an *equal* record in the original list.
- the **commit message** of `gitwrap commit`: the template with every `{msg}` replaced by the message, or the
  message itself when the template is absent or empty.
- the **countdown** loop: `divmod(seconds, 60)` shown at each step, and the count down to zero.
- the **focus schedule**: the order of work phases, breaks and notifications of `focus start`, as a list of events.

Modules: `Wrappers` (Option), `Seqs` (`index`, order-preserving filters, counting), `Decimal` (`str(int)` and its
inverse), `TodoStore` (records and operations), `TodoProperties` (properties relating operations),
`ListedSelection` (selection by listed position, see Findings), `CommitTemplate`, `Countdown`, `Focus`.

Notes on what the code does:

- `remove <id>` deletes *every* task carrying that id. Ids are creation seconds and can repeat, so removing an
  existing id shortens the list by exactly one only when that id is unique (`TodoProperties.RemoveUniqueId`
  versus `TodoProperties.RemoveByIdDropsAllWithId`).
- `done` and `remove` accept an id and an index together and combine them with "or". The model keeps that.
- `done` on a task that is already done marks it again and overwrites its completion time.
- When nothing matches, `done` still writes the unchanged list back: `NotFound(tasks)` carries it.

## Model

| member | source | states |
|---|---|---|
| `Decimal.IntToString` | prodcli.py:66 | the rendering of a task id is Python's canonical decimal: non-empty, '-' first exactly for negative ids, no leading zeros ("0" is the only text starting with '0', and a '-' is never followed by '0'), and it reads back as the same integer |
| `Decimal.RenderingInjective` | prodcli.py:66 | two ids render the same text exactly when they are equal, so an id selector names one id |
| `Decimal.RenderingIsNeverNone` | prodcli.py:66 | no id renders as "None", the text of a missing id argument |
| `Seqs.FirstIndexOf` | prodcli.py:66 | `tasks.index(t)` is a position holding `t` with no equal record before it |
| `Seqs.FilterIsSubsequence` | prodcli.py:81 | the comprehension keeps a subsequence of the list, in the original order |
| `Seqs.FilterMembers` | prodcli.py:81 | a record survives the comprehension exactly when it is in the list and satisfies the condition |
| `Seqs.FilterCount` | prodcli.py:84-87 | the comprehension keeps exactly as many records as satisfy its condition |
| `Seqs.FilterLength` | prodcli.py:84-87 | the list gets shorter exactly when some record fails the condition; otherwise it comes back unchanged |
| `Seqs.FilterAppend` | prodcli.py:81 | the comprehension over two concatenated lists is the concatenation of the two comprehensions |
| `Seqs.DropOnlyPosition` | prodcli.py:81 | when exactly one position fails the condition, the comprehension deletes that position only |
| `TodoStore.Add` | prodcli.py:37-46 | the list grows by one at the end; earlier records are unchanged; the new one has the given title, id = now, created_at = now text, is not done and has no completion time |
| `TodoStore.Listing` | prodcli.py:56-58 | one line per task in stored order, numbered from 1, showing that task's title, id and status |
| `TodoStore.Complete` | prodcli.py:67-68 | marking sets done and the completion time and keeps id, title and creation time |
| `TodoStore.FirstHitFrom` | prodcli.py:65-71 | the scan returns the first position that matches, and no position when none matches |
| `TodoStore.Done` | prodcli.py:61-74 | length and order kept; NotFound, with the list unchanged, exactly when no task matches; otherwise only the first matching task is changed, and it is marked done at now |
| `TodoStore.Remove` | prodcli.py:77-87 | the result is an order-preserving subsequence; kept records match neither test and every matching record is gone; "removed" is reported exactly when something matched; with no match the list is identical; the result is exactly as long as the number of records that do not match, which together with the subsequence property fixes it completely |
| `TodoProperties.IdSelectsExactly` | prodcli.py:66 | the selector `str(x)` matches a task exactly when its id is x |
| `TodoProperties.MissingIdNeverMatches` | prodcli.py:66 | a missing id argument matches no task |
| `TodoProperties.IndexMatchesIff` | prodcli.py:66 | index k matches position i exactly when 1 <= k <= length, the record at i equals the one at k-1, and k-1 is that record's first occurrence |
| `TodoProperties.FirstIndexOfDistinct` | prodcli.py:66 | without duplicate records, `tasks.index` returns the record's own position |
| `TodoProperties.HitWithoutId` | prodcli.py:81 | with no id argument only the index test can match |
| `TodoProperties.InertSelector` | prodcli.py:61-87 | with no id and an absent or zero index, done reports NotFound and writes the list back unchanged, and remove removes nothing |
| `TodoProperties.DoneAtFirstHit` | prodcli.py:65-71 | done marks the first matching position, whichever it is |
| `TodoProperties.DoneListedPosition` | prodcli.py:65-71 | without duplicate records, `done --index k` marks exactly the k-th task |
| `TodoProperties.DoneByIdAgain` | prodcli.py:65-71 | when some task has the id, done by that id marks a task, and a second done with the same id selects the same task again |
| `TodoProperties.RemoveOnlyPosition` | prodcli.py:80-85 | when exactly one position matches, remove deletes that position and reports a removal |
| `TodoProperties.RemoveListedPosition` | prodcli.py:81 | without duplicate records, `remove --index k` deletes exactly the k-th task |
| `TodoProperties.RemoveByIdDropsAllWithId` | prodcli.py:81 | remove by id leaves exactly the tasks with a different id, in order |
| `TodoProperties.RemoveUniqueId` | prodcli.py:80-85 | when the id is unique, remove by that id shortens the list by exactly one and deletes that task |
| `TodoProperties.AddedTaskIsLastListed` | prodcli.py:37-46 | after add, index n+1 matches the new task and no other, unless the new record duplicates an old one |
| `TodoProperties.AddThenRemoveLast` | prodcli.py:37-87 | removing index n+1 right after add restores the old list, unless the new record duplicates an old one |
| `TodoProperties.AddThenRemoveById` | prodcli.py:37-87 | removing the new id right after add restores the old list when no old task has that id |
| `TodoProperties.AddThenDoneLast` | prodcli.py:37-74 | marking index n+1 right after add completes the new task and nothing else, unless the new record duplicates an old one |
| `TodoProperties.ListedNumberSelects` | prodcli.py:56-87 | without duplicate records, the number `todo list` prints before a task selects that task for done and remove |
| `ListedSelection.FirstListedHitFrom` | prodcli.py:65-71 | the corrected scan returns the first position matching by id or listed position |
| `ListedSelection.DoneListed` | prodcli.py:61-74 | the corrected done keeps length and order and marks only the first position matching by id or listed position |
| `ListedSelection.DoneListedSelectsListedTask` | prodcli.py:65-71 | with the corrected test, `done --index k` marks the k-th task whatever the records |
| `ListedSelection.RemoveListed` | prodcli.py:80-85 | the corrected remove keeps an order-preserving subsequence whose every record equals the record at a position that does not hit, as many records as there are such positions, and each such position i reappears at its rank (the number of non-hitting positions before i); "removed" exactly when some position hits, and the identical list otherwise |
| `ListedSelection.RemoveListedDropsListedTask` | prodcli.py:80-85 | with the corrected test, `remove --index k` deletes exactly the k-th task whatever the records |
| `ListedSelection.HitAgreesOnDistinct` | prodcli.py:66 | without duplicate records, the program's index test and the listed-position test agree |
| `ListedSelection.AgreeOnDistinct` | prodcli.py:61-87 | without duplicate records, the program's done and remove equal the corrected ones |
| `ListedSelection.SameSecondDuplicate` | prodcli.py:37-87 | two adds in the same second with the same title: as written, index 2 selects nothing and remove index 1 deletes both; the corrected versions select the second task and delete one task |
| `CommitTemplate.ReplaceAll` | prodcli.py:143 | a text without the pattern comes back unchanged |
| `CommitTemplate.CommitMessage` | prodcli.py:141-143 | an absent or empty template gives the raw message; a non-empty template without `{msg}` gives the template unchanged |
| `CommitTemplate.JoinSplit` | prodcli.py:143 | cutting a text at the pattern's occurrences and joining with the pattern gives the text back |
| `CommitTemplate.SplitPiecesFree` | prodcli.py:143 | no piece between occurrences contains the pattern |
| `CommitTemplate.ReplaceAppend` | prodcli.py:143 | for a pattern whose first character is unique, replacing in a + b is replacing in a and in b when b starts with that character |
| `CommitTemplate.ReplaceJoin` | prodcli.py:143 | replacing in pieces joined by the pattern puts the replacement exactly between the pieces |
| `CommitTemplate.CommitMessageFillsPlaceholders` | prodcli.py:141-143 | with a non-empty template, the message is the template with every `{msg}` occurrence replaced by the message and nothing else changed |
| `CommitTemplate.CommitMessageOfPieces` | prodcli.py:141-143 | a template built from `{msg}`-free pieces yields those pieces with the message between them |
| `CommitTemplate.PlaceholderAsMessage` | prodcli.py:141-143 | using `{msg}` itself as the message gives the template back |
| `Countdown.Ticks` | prodcli.py:110-116 | the values the loop shows within `fuel` iterations: never more than `fuel`; when the loop reaches 0 the start was non-negative, exactly `seconds` values were shown and the k-th is divmod(seconds - k, 60); None when it has not reached 0 |
| `Countdown.DivMod60` | prodcli.py:113 | the shown pair satisfies m*60 + s = seconds with 0 <= s < 60 |
| `Countdown.NegativeNeverFinishes` | prodcli.py:110-116 | a negative start never reaches zero, whatever number of iterations is allowed |
| `Countdown.NonNegativeFinishes` | prodcli.py:110-116 | a non-negative start needs exactly `seconds` iterations, and the k-th one shows divmod(seconds - k, 60) |
| `Countdown.Run` | prodcli.py:110-117 | the loop shows `seconds` values, the k-th one splitting seconds - k into minutes and seconds, and stops at 0 |
| `Focus.Schedule` | prodcli.py:91-105 | a completed run ends with the completion message and then its notice; a stuck run has no completion notice |
| `Focus.ScheduleFinishesIff` | prodcli.py:96-103 | the run completes exactly when it has no cycles, or its work length is non-negative and (one cycle or non-negative break length) |
| `Focus.NoCycles` | prodcli.py:96-105 | with cycles <= 0 only the completion message and notice are emitted |
| `Focus.ScheduleLayout` | prodcli.py:96-105 | n >= 1 cycles with a non-negative work length (and a non-negative break length when there is more than one cycle, since the last cycle never counts the break down) give 4n events: work i and its notice at 4(i-1), a break and its notice after every cycle but the last, then the completion message |
| `Focus.ScheduleCounts` | prodcli.py:96-105 | under the same condition, n >= 1 cycles give n work phases, n-1 breaks and 2n notifications |
| `Focus.ScheduleBreaks` | prodcli.py:100-103 | every break belongs to a cycle 1..n-1, so none follows the last work phase |

## Left out

- `ensure_config`, `load_todo`, `save_todo` (prodcli.py:14-29): file system and JSON. The store is the in-memory
  list, and "save" is the list each operation returns. A malformed file and I/O errors are not modelled.
- `data.get('tasks', [])` on a document without a `tasks` key, and records missing keys: every record is assumed
  to have the five fields of `Task`.
- `time.time()`, `datetime.now()`, `time.sleep` (prodcli.py:33, 40, 115): the clock is a parameter and the sleep
  is dropped.
- `notify`, `git_status` and the `git add`/`commit`/`push` calls (prodcli.py:122-147): external processes and
  platform detection. Only the commit message is modelled.
- `KeyboardInterrupt` handling (prodcli.py:106-107, 118-119): interrupts are not modelled.
- `build_parser` and `main` (prodcli.py:151-212): argument parsing, including `int(args.work)` failing on
  non-numeric text, and the exit codes (1 without a subcommand, 2 on an exception, 0 otherwise).
- All printed text except the 1-based numbers of `todo list`, including the `mm:ss` formatting and the
  final `00:00` line of `countdown`.
- Countdown.Run: requires `seconds >= 0`, because a negative start never ends. That case is modelled by
  `Countdown.Ticks` and `Countdown.NegativeNeverFinishes`.
- Focus.Schedule: each countdown is one event carrying its length. Its individual ticks are described by the
  `Countdown` module.

## Findings

| source | as written | input that shows it | evidently intended | confidence | as-written member | corrected member |
|---|---|---|---|---|---|---|
| prodcli.py:66 | the index test compares `tasks.index(t)+1`, the position of the first *equal* record | two `todo add "x"` in the same second store two equal records; `todo done --index 2` prints "Task not found" | `--index k` marks the k-th task shown by `todo list` | medium, not executed | `ListedSelection.SameSecondDuplicate` | `ListedSelection.DoneListedSelectsListedTask` |
| prodcli.py:81 | the same test in the `remove` comprehension | same list; `todo remove --index 2` removes nothing, `todo remove --index 1` removes both records | `--index k` removes exactly the k-th listed task | medium, not executed | `ListedSelection.SameSecondDuplicate` | `ListedSelection.RemoveListedDropsListedTask` |

`TodoStore` keeps the code's behaviour, because it models the program. The corrected `ListedSelection.DoneListed`
and `ListedSelection.RemoveListed` compare the index with the listed position instead.
`ListedSelection.AgreeOnDistinct` proves that both readings agree on every list without duplicate records.
