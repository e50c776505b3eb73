# gh-monday-actions, modelled in Dafny

A GitHub Action that, given a commit range, finds the pull requests behind
those commits, reads ticket ids out of their descriptions (`Ticket number:
ABC-123`) and records a deployment on the matching Monday.com items: it sets a
status column to `environment + version` and posts a comment. All of that
lives in `index.js`. This project models the data-shaping and the control flow
of that file as pure Dafny functions, and proves properties about them.

The outside world enters as inputs:

- the text `git log --oneline <range>` prints, or `None` when the call throws;
- GitHub, as a function from a commit id to what the "pull requests associated
  with a commit" call, the `pulls.get` calls and the fallback `pulls.list`
  call answer for it;
- Monday.com, as a function from a request (`Monday.Call`) to its reply:
  the call throws, the GraphQL reply carries `errors`, or it carries a list of
  items.

Modules, one per file, following the order of `run`:

| file | module | models |
|---|---|---|
| `wrappers.dfy` | `Wrappers` | `Option` |
| `text.dfy` | `Text` | JavaScript white space, `trim`, `split` on one character, `join` |
| `collections.dfy` | `Collections` | a JavaScript `Set` as a duplicate-free sequence in insertion order |
| `insertion_map.dfy` | `InsertionMap` | a JavaScript `Map`: keys in first-insertion order, `set` overwrites the value in place |
| `commit_log.dfy` | `CommitLog` | `getCommitsInRange` after the git call |
| `pull_requests.dfy` | `PullRequests` | `findPullRequestsForCommits` and `findPRsFallbackMethod` |
| `tickets.dfy` | `Tickets` | `extractTaskIdsFromPRs`: the regular expression `/Ticket number:\s*([A-Za-z0-9\-_]+)/gi` as a left-to-right scanner, and the `Set` of ids |
| `monday.dfy` | `Monday` | `updateMondayTasks`: board lookup, per-task lookup, column mutation, comment |
| `action.dfy` | `Action` | `run` after its inputs are read |

Notes on the semantics:

- White space is what JavaScript's `trim` and `\s` use: the WhiteSpace and
  LineTerminator characters of ECMAScript (tab, line feed, vertical tab, form
  feed, carriage return, space, U+00A0, U+1680, U+2000 to U+200A, U+2028,
  U+2029, U+202F, U+205F, U+3000, U+FEFF).
- With the `i` flag but without the `u` flag, no non-ASCII character folds
  to an ASCII letter, so only ASCII letters match the label without regard to
  case, and the label is matched by lower-casing ASCII letters only. For the
  same reason the class `[A-Za-z0-9\-_]` still admits only those characters.
- The regular expression is global: after a match, the search resumes where
  the match ended, so matches never overlap. The `\s*` and the id run are
  greedy, and the id run cannot backtrack usefully, because `\s` and the id
  class share no character.
- The pattern has no anchor and no lookbehind, so whether it matches at a
  position depends only on the text from that position on. The scanner
  therefore works on suffixes: it tries the text's start, and after a match
  continues with the text after it, otherwise with the text after the first
  character.
- Two error paths do less than one might expect:
  - A column mutation that replies with `errors` ends the task with
    `continue`, so the comment is not attempted (index.js:309-315).
  - A board id that cannot be found only logs an error and returns
    (index.js:207-210), without `setFailed`. `run` then logs success
    (index.js:57) and the action is not marked failed.
- The fallback scans only the first page of `pulls.list` (index.js:120-127,
  100 entries) and never asks for more: a pull request beyond that page is
  never found. A `Listing` is that page.

## Model

| member | source | states |
|---|---|---|
| Text.Trim | index.js:66 | the result of `trim` is empty or starts and ends with a non-space character, and a text without white space is left as it is |
| Text.TrimSurrounded | index.js:66 | `trim` removes white space at the two ends and nothing else: white space, then a text that neither starts nor ends with white space, then white space again trims to that text |
| Text.Split | index.js:66-67 | `split` on one character gives at least one piece, no piece holds the separator, and joining the pieces with it gives the text back |
| Text.SplitJoin | index.js:66 | splitting pieces that were joined with the separator gives the same pieces back |
| CommitLog.FirstToken | index.js:67 | `line.split(' ')[0]` is a prefix of the line without spaces, ending at the line's end or at its first space |
| CommitLog.Hashes | index.js:67-69 | the map and filter keep at most one id per line, each non-empty and without spaces, and without newlines when the lines have none |
| CommitLog.ParseLog | index.js:66-69 | every commit id is non-empty and holds no space or newline, and there are at most as many ids as lines of the trimmed output |
| CommitLog.HashesAllLines | index.js:66-69 | when no line is empty or starts with a space there is exactly one id per line, namely the text before its first space |
| CommitLog.HashesMembers | index.js:67-69 | the ids are exactly the non-empty first tokens of the lines |
| CommitLog.ParseLogRoundTrip | index.js:66-69 | reading back the text git prints for a list of commits gives their hashes, in order |
| CommitLog.ParseBlankLog | index.js:66-69 | an empty or blank log gives no commits |
| Collections.Dedup | index.js:146 | adding to a `Set` keeps each element once, and an element is in the result exactly when it was added |
| Collections.DedupOrder | index.js:161 | `Array.from` of a `Set` lists the elements in order of first addition |
| InsertionMap.Set | index.js:100 | `Map.set` keeps the keys and appends a key that was not there yet |
| InsertionMap.SetGet | index.js:100 | after `set(k, v)`, `get(k)` is `v` and every other key keeps its value |
| InsertionMap.SetAllFromEmpty | index.js:76 | a `Map` filled by a run of `set` calls holds each key once, in order of first `set` |
| InsertionMap.SetAllGet | index.js:115 | the value stored for a key is the one of the last `set` for it |
| PullRequests.PrimaryEntries | index.js:92-101 | the primary path stores the PRs of the associated list, in order, up to the first `pulls.get` that throws |
| PullRequests.FallbackEntries | index.js:129-142 | the fallback stores only matching candidates, and, when no matching fetch throws, all of them; FallbackUnit, FallbackAppend and FallbackStopsAtThrow pin down the order and the stop at a throw |
| PullRequests.FallbackUnit | index.js:129-139 | one candidate alone is stored exactly when it matches the commit and its `pulls.get` succeeds |
| PullRequests.FallbackAppend | index.js:129-139 | past candidates none of which is a match whose `pulls.get` throws, the scan continues: their entries come first, in listing order, then those of the rest |
| PullRequests.FallbackStopsAtThrow | index.js:129-139 | the first match whose `pulls.get` throws ends the scan: the stored entries are those of the candidates before it, and none after |
| PullRequests.StorePrimaryIsSetAll | index.js:92-103 | the primary loop performs exactly those `set` calls, and reports a throw exactly when a call threw |
| PullRequests.StoreFallbackIsSetAll | index.js:129-142 | the fallback loop performs exactly its `set` calls |
| PullRequests.StoreCommitIsSetAll | index.js:79-112 | one commit's `try`/`catch` performs the primary `set` calls, then the fallback ones when the primary path threw |
| PullRequests.StoreCommitsIsSetAll | index.js:78-113 | the commit loop performs every commit's `set` calls in commit order |
| PullRequests.FindPullRequestsCorrect | index.js:76-115 | the PRs found hold each number once, in order of first storing, each with the detail fetched last for it |
| PullRequests.StoreCommitKeepsEarlier | index.js:78-113 | a commit never removes or reorders PRs stored for earlier commits |
| PullRequests.FallbackOnlyWhenPrimaryThrows | index.js:103-108 | without a throw on the primary path the listing is never consulted, and every associated PR is stored |
| PullRequests.FallbackKeys | index.js:129-139 | with no failing fetch, the fallback stores exactly the numbers of the PRs whose merge commit or head is the commit |
| PullRequests.FallbackStoresMatches | index.js:103-111 | after a primary throw, when the listing succeeds and no `pulls.get` of a matching PR throws, what was stored before is kept and the fallback adds exactly the matching PRs |
| PullRequests.FallbackIgnoresOtherLengths | index.js:130-131 | a commit id of a different length than every listed SHA matches nothing, so the fallback stores nothing |
| Tickets.Skip | index.js:147 | `\s*` and `[...]+` consume the longest run of their class |
| Tickets.Captures | index.js:151-153 | every id the global scan captures is a non-empty run of `[A-Za-z0-9-_]` characters |
| Tickets.MatchFrontSound | index.js:147 | a match the scanner reports at the start of a text is the label in any case, then white space only, then an id that no further id character extends |
| Tickets.MatchFrontComplete | index.js:147 | every such occurrence of the pattern at the start of a text is the match the scanner reports there, ending right after the id |
| Tickets.NoLabelHere | index.js:147 | a text shorter than the label, or whose character at some label position differs from the label ignoring ASCII case, matches nothing |
| Tickets.ScanSound | index.js:151 | every captured id comes from an occurrence of the pattern |
| Tickets.ScanEmptyIff | index.js:151 | the scan yields nothing exactly when the pattern occurs nowhere |
| Tickets.TicketLine | index.js:147-151 | a label, white space, an id and a non-id character yield that id, and the search resumes after the id: the captures of the rest follow |
| Tickets.NoLabelInFront | index.js:151 | a first character that cannot start the label adds no capture |
| Tickets.LastTicketLine | index.js:147-151 | a ticket line followed by less text than the label yields exactly its id |
| Tickets.LabelInCapitals | index.js:147 | `TICKET NUMBER: ABC-1` yields `ABC-1` |
| Tickets.NoSpaceAfterLabel | index.js:147 | `ticket number:ABC-1` yields `ABC-1` |
| Tickets.NewlineAfterLabel | index.js:147 | a newline and spaces after the colon are skipped |
| Tickets.TwoSpacesInLabel | index.js:147 | `Ticket  number: X`, with two spaces, yields nothing |
| Tickets.NothingInShortText | index.js:147-151 | text shorter than the label yields nothing |
| Tickets.TwoTicketLines | index.js:151-158 | two ticket lines in one body yield both ids, in order |
| Tickets.MatchesDoNotOverlap | index.js:151 | an id run that swallows the start of another label hides that label |
| Tickets.AddMatchesIsAddAll | index.js:153-157 | `trim` and the empty check never change or drop a capture |
| Tickets.ExtractTaskIds | index.js:145-162 | the ids are distinct, each is a non-empty run of `[A-Za-z0-9-_]`, an id is listed exactly when some body captures it, and the list is the captures with later repeats removed |
| Tickets.ExtractTaskIdsOrder | index.js:161 | the ids keep the order in which they first appear across the bodies |
| Tickets.AbsentBodyAddsNothing | index.js:150 | a pull request without a body contributes no id, wherever it stands in the list |
| Monday.BoardFrom | index.js:196-203 | a board id is found exactly when the reply has data with an item whose board id is set and non-empty |
| Monday.FindBoard | index.js:171-210 | at most one request is sent, none exactly when there are no task ids, and a board id is only ever read from the reply to that request |
| Monday.Lookup | index.js:252-264 | the `name` query is sent first, and the `title` query is sent exactly when it throws |
| Monday.ProcessTask | index.js:212-354 | the trace of one loop iteration belongs to its task id and begins with the item lookup's requests |
| Monday.TitleQueryOnlyAfterThrow | index.js:252-264 | over a whole task, the `title` query appears exactly when the `name` query throws |
| Monday.NoMutationWithoutItem | index.js:269-283 | a lookup with `errors` or no items sends no mutation, and the outcome tells the two apart |
| Monday.ColumnValue | index.js:289 | the column value is the environment followed directly by the version |
| Monday.ColumnSetOnFoundItem | index.js:285-306 | for a found item the first mutation sets the column of the first item found to `environment + version` |
| Monday.CommentOnlyAfterColumnSet | index.js:309-336 | the comment is sent exactly when the column mutation replied with data, as the last request, with the fixed template |
| Monday.ColumnRejectedStopsTask | index.js:309-315 | a column mutation with `errors` ends the task without a comment |
| Monday.UpdatedIff | index.js:304-348 | a task is updated exactly when its item was found and both mutations replied with data |
| Monday.CommentRoundTrip | index.js:320 | the comment holds version, environment and description in that order and can be read back when the first two are single lines |
| Monday.CommentInjective | index.js:320 | different single-line versions or environments, or different descriptions, give different comments |
| Monday.ColumnValueAmbiguous | index.js:289 | with no separator, `prod` + `1.0` and `prod1` + `.0` write the same value |
| Monday.ProcessAll | index.js:212-355 | every task is processed with the same request sequence it would get on its own, whatever happened before it |
| Monday.UpdateTasks | index.js:207-212 | without a board no task is processed; with one, every task is |
| Monday.NoBoardNoTasks | index.js:174-210 | the board lookup is one request about the first task id, none when there are no ids, and without a board id nothing else is sent |
| Monday.EveryTaskProcessed | index.js:174-264 | with a board id found in the reply to the lookup of the first task id, that lookup is the first request, and every task is processed in order on that board, starting with its `name` query |
| Monday.TasksIndependent | index.js:349-354 | a task's trace depends only on its id, not on its place in the list |
| Action.Run | index.js:30-57 | the run fails exactly when the git call throws, and an update phase always has ids and is `updateMondayTasks` on them |
| Action.UpdateOnlyWithTaskIds | index.js:49-54 | Monday.com is contacted exactly when task ids were found, starting with the board lookup of the first id |
| Action.BlankLogFindsNothing | index.js:31-52 | a blank log ends the run with no pull requests and no task ids |
| Action.MissingBoardStillFinishes | index.js:54-57 | a board that cannot be found still ends the run as finished, with only the board lookup sent |

## Left out

- The `git log` call itself (index.js:65): its output, or its failure, is an input.
- The GitHub and Monday.com HTTP calls, tokens and headers: their replies are inputs. A reply is a function of the request, so the model cannot express two identical requests getting different answers.
- The GraphQL text of each request (index.js:179-190, 218-247, 292-302, 323-332): a request is a `Monday.Call` value with the fields the text interpolates. How Monday.com parses that text, including a comment whose newlines sit inside a quoted string, is part of the reply.
- Logging (`core.info`, `warning`, `error`) and reading the action inputs and tokens (index.js:9-22), including the `setFailed` call for a missing GitHub token.
- `async`/`await`: the calls are awaited one at a time, so the model is a sequential fold.
- Strings are sequences of Unicode scalar values, not UTF-16 code units; characters outside the Basic Multilingual Plane count as one character.
- Replies of unexpected shape (an item without `id`, a `board.id` that is a number, a `data` field that is not an object) are not modelled; a `board` that is null or has a null id is.
- `pre.js`, which installs dependencies, is not part of this model.
- Tickets.ScanSound: states that every captured id comes from some occurrence of the pattern, not which occurrences a global scan skips. Tickets.ScanEmptyIff covers the empty case, and Tickets.TicketLine and Tickets.NoLabelInFront cover the resumption rule.
- Tickets.Captures: its own contract says only that each capture is a valid id. What the scan captures, and where it resumes, is stated by Tickets.ScanSound, Tickets.ScanEmptyIff, Tickets.MatchFrontComplete, Tickets.TicketLine and Tickets.NoLabelInFront.
- Monday.ProcessTask: its own contract states only the task id and the lookup prefix of the trace. Its outcomes and requests are stated by Monday.NoMutationWithoutItem, Monday.ColumnSetOnFoundItem, Monday.CommentOnlyAfterColumnSet, Monday.ColumnRejectedStopsTask and Monday.UpdatedIff.
