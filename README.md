# Jira synchronisation core, modelled in Dafny

This project models the pure core of `JiraClient.update` from the Agile Task
Notes plugin. `update` pulls the user's Jira issues into task notes and a
Kanban board. The model covers:

- **Username parsing and the search query.** The "Usernames" setting is
  trimmed, split at `,` plus line break, and each entry is trimmed and loses
  its first and last character. So the code expects one quoted username per
  line. This happens in `Assignees`. The usernames
  become `assignee=` terms, which are joined with ` OR ` into a JQL query that
  keeps only open issues, newest first.
- **The rich-text extractor.** This is `extractTextFromContent`, in
  `RichText`. It turns an issue description, written in Atlassian's document
  format, into plain text. Paragraphs join their inline texts with spaces. An
  ordered list numbers its items from its `order` attribute. A bullet list
  prefixes each item with `- `. A block of unknown type gives the empty
  string. Blocks are separated by a blank line.
- **The task mapper.** This is in `Tasks`. Each issue record becomes a task,
  with `Unassigned`, the empty description and `No Name` standing in for a
  missing assignee, description and sprint. The task's link is the issue's
  browse address.
- **The task filter.** Also in `Tasks`. It drops the "PM Evaluation" and
  "Ready for Engineering" states. It drops "Backlog" tasks when the
  assignee's name contains `Venet`.
- **The column sequencer.** This is in `Columns`. The distinct task states,
  in first-seen order, are stably sorted by their index in the fixed column
  order, and states the order does not list go last.
- **The board.** In `Sync`. `PlanBoard` puts the active tasks, the column
  sequence and the board id `FP` together into the value that the board
  writer receives.

`Strings`, `Seqs` and `StableSort` model the JavaScript built-ins this code
relies on:

- `join` and `includes`;
- a leftmost search, `Find`, which `includes` and `split` rest on;
- `split` at a string separator;
- `trim`, with ECMAScript's white space set;
- `slice`, with negative indices and clamping;
- `Array.prototype.indexOf`, including its `-1`;
- `new Set` insertion order;
- the stable `Array.prototype.sort`.

Each operation is a function. Its partner is a reference definition, an
inverse or an invariant, and lemmas tie the two together:

- `SequenceColumns` is proved equal to an independent reference: the listed
  entries in column order, then the unlisted states in first-seen order.
- Parsing is proved to undo formatting, for a non-empty list of usernames
  none of which holds a line break. The empty list formats to the empty
  setting, which parses to one empty username
  (`Assignees.ParseFormatEmpty`).
- Splitting is proved to undo joining, for parts that neither hold the
  separator nor straddle it.
- The extractor's list output is proved to split back into one line per
  item, when no item text holds a line break. An item with several
  paragraphs or a nested list gives more lines than there are items.

Some behaviours of the code are easy to misread:

- **The Usernames format.** The setting's own description (line 196 of
  `src/Clients/JiraClient.ts`) asks for a comma-separated list, or just the
  user's own username. The code instead expects quoted usernames separated
  by `,` and a line break. A comma-separated list on one line holds no line
  break, so it is a single entry and gives a single username
  (`Assignees.SingleEntry`). A bare `alice` searches for `lic`
  (`Assignees.BareUsername`).
- **An empty Usernames setting** gives one empty username, not an empty
  list. The query then asks for `(assignee=) AND …`
  (`Assignees.ParseEmpty`, `Assignees.JqlOfEmptySetting`).
- **The filter's condition** is read with JavaScript precedence: `&&` binds
  tighter than `||`. So only "Backlog" is gated by the assignee, and the other
  two states are dropped whoever the assignee is (`Tasks.ExclusionPolicy`).
- **Unlisted states** keep the order in which they first occur. The stable
  sort and the `Set`'s insertion order make this deterministic
  (`Columns.SequenceColumnsProperties`).
- **"Ready for Engineering"** is in the column order but can never become a
  column, since the filter always drops it (`Sync.PlanBoardProperties`).

## Model

| member | source | states |
|---|---|---|
| Strings.Find | src/Clients/JiraClient.ts:118 | the result is the leftmost index where the pattern occurs, or none when it occurs nowhere |
| Strings.Contains | src/Clients/JiraClient.ts:118 | `includes` is true exactly when the pattern occurs at some index |
| Strings.Split | src/Clients/JiraClient.ts:38 | `split` gives at least one part; no part holds the separator; joining the parts with it gives the string back |
| Strings.SplitJoin | src/Clients/JiraClient.ts:38 | `Join` and `split`: splitting undoes joining, for parts that neither hold nor straddle the separator |
| Strings.SplitCount | src/Clients/JiraClient.ts:38 | for a separator that cannot overlap itself, `split` gives one part more than the separator has occurrences |
| Strings.FindAfter | src/Clients/JiraClient.ts:38 | after a part without the separator, the next separator is found right behind it |
| Strings.JoinEnds | src/Clients/JiraClient.ts:49 | `Join`: a joined non-empty list starts with its first part and ends with its last |
| Strings.TrimStart | src/Clients/JiraClient.ts:37 | the result is the longest suffix that does not start with white space; everything removed is white space |
| Strings.TrimEnd | src/Clients/JiraClient.ts:37 | the result is the longest prefix that does not end with white space; everything removed is white space |
| Strings.TrimUnchanged | src/Clients/JiraClient.ts:37 | a string that neither starts nor ends with white space is its own trim |
| Strings.TrimSpec | src/Clients/JiraClient.ts:37-39 | `trim` gives the part of the string between its leading and trailing white space; everything removed is white space, and the result neither starts nor ends with white space |
| Strings.Slice | src/Clients/JiraClient.ts:39 | `slice` never gives more characters than the string has |
| Strings.SliceInner | src/Clients/JiraClient.ts:39 | `slice(1, -1)` is empty below two characters, and otherwise is the string without its first and last character |
| Strings.SliceUnwrap | src/Clients/JiraClient.ts:39 | `slice(1, -1)` removes exactly one character put on each side |
| Strings.NatToString | src/Clients/JiraClient.ts:73 | the decimal rendering is digits only, has no leading zero, and denotes the number |
| Strings.CanonicalUnique | src/Clients/JiraClient.ts:73 | only one canonical digit string denotes a given number, so the rendering of the item number is fixed by the contracts |
| Strings.IntToString | src/Clients/JiraClient.ts:73 | a negative number prints as `-` and the canonical digits of its magnitude; any other number prints as its canonical digits, with no leading zero |
| Seqs.IndexOf | src/Clients/JiraClient.ts:149-150 | `indexOf` is -1 exactly when the element is absent; otherwise it is the first index that holds it |
| StableSort.InsertSpec | src/Clients/JiraClient.ts:147-158 | inserting into a sorted list keeps it sorted, adds the element once, and places it after the elements of equal key |
| StableSort.Sort | src/Clients/JiraClient.ts:147-158 | the sort gives a sorted permutation that keeps the input order within each key, as a stable `sort` does |
| StableSort.SortedUnique | src/Clients/JiraClient.ts:147-158 | only one sorted list has a given content in a given order for each key, so the stable sort's result is determined |
| StableSort.WithKeyKeepsOrder | src/Clients/JiraClient.ts:147-158 | selecting the elements of one key keeps a strict order the list already had |
| RichText.InlineTexts | src/Clients/JiraClient.ts:67 | one text per inline node; a node without text reads as the empty string |
| RichText.BulletLines | src/Clients/JiraClient.ts:77-83 | each line of a bullet list is `- ` and the item's text |
| RichText.BlockTexts | src/Clients/JiraClient.ts:63-88 | one text per block, in block order, each the `BlockText` of that block |
| RichText.Extract | src/Clients/JiraClient.ts:60-90 | absent and empty content give the empty string; a single block gives that block's text |
| RichText.ExtractCons | src/Clients/JiraClient.ts:85-89 | `ExtractBlocks`: several blocks are separated by a blank line, and a block of unknown type contributes the empty string |
| RichText.ParagraphWords | src/Clients/JiraClient.ts:66-67 | a paragraph's text splits back at single spaces into its inline texts, when these hold no space |
| RichText.OrderedListLines | src/Clients/JiraClient.ts:69-75 | `OrderedLines` and `ItemText`: an ordered list of n items gives exactly n lines, the i-th numbered `order + i` and holding the item's text (empty when the item has no content), when no item text spans several lines |
| RichText.BulletListLines | src/Clients/JiraClient.ts:77-83 | `BulletLines` and `ItemText`: a bullet list of n items gives exactly n lines, each `- ` and the item's text (empty when the item has no content), when no item text spans several lines |
| RichText.NoNewlineInNumber | src/Clients/JiraClient.ts:73 | an item number prints without a line break |
| RichText.OrderedListExample | src/Clients/JiraClient.ts:69-75 | an ordered list starting at 3 with items `a` and `b` reads `3. a`, a line break, `4. b` |
| RichText.BulletListExample | src/Clients/JiraClient.ts:77-83 | a bullet list with items `x` and `y` reads `- x`, a line break, `- y` |
| Tasks.ToTaskFields | src/Clients/JiraClient.ts:93-115 | `ToTask`: the id is the key; the state is the status name; the title is the summary and the type is the issue type name; a missing assignee reads `Unassigned`, a missing description the empty text, a missing or empty sprint list `No Name`; the link is the browse address of the key |
| Tasks.LinkDeterminesKey | src/Clients/JiraClient.ts:111 | two issues of one server have the same link exactly when they have the same key |
| Tasks.ToTasks | src/Clients/JiraClient.ts:92-115 | one task per issue, in issue order |
| Tasks.FilterActive | src/Clients/JiraClient.ts:116-119 | the filter keeps every active task as often as it occurs, in order, and nothing else |
| Tasks.ExclusionPolicy | src/Clients/JiraClient.ts:117-118 | `IsActive`: "PM Evaluation" and "Ready for Engineering" are always dropped; "Backlog" is dropped exactly when the assignee's name contains `Venet`; every other state is kept |
| Tasks.AssigneeGatesOnlyBacklog | src/Clients/JiraClient.ts:118 | outside "Backlog", changing the assignee never changes whether a task is kept |
| Columns.ColumnOrderDistinct | src/Clients/JiraClient.ts:136-145 | the column order has eight entries, none of them twice |
| Columns.RankIn | src/Clients/JiraClient.ts:149-150 | the rank is the state's index in the order, or the order's length exactly when the order does not list it |
| Columns.RankIsIndex | src/Clients/JiraClient.ts:149-156 | the rank agrees with `indexOf` for a listed state, and `indexOf` is -1 for an unlisted one |
| Columns.CompareIsByRank | src/Clients/JiraClient.ts:148-157 | `Compare`: the comparator is negative, zero or positive exactly when the first state's rank is lower, equal or higher |
| Columns.RankOfEntry | src/Clients/JiraClient.ts:149-150 | in an order without repeats, an entry's rank is its index |
| Columns.States | src/Clients/JiraClient.ts:147 | one state per task, in task order |
| Columns.Distinct | src/Clients/JiraClient.ts:147 | `[...new Set(xs)]` holds each element of `xs` once, in the order of its first occurrence |
| Columns.DistinctUnchanged | src/Clients/JiraClient.ts:147 | a list without repeats passes through the `Set` unchanged |
| Columns.PresentFromSpec | src/Clients/JiraClient.ts:136-157 | the entries of the order that some state names are exactly those, in strictly increasing rank |
| Columns.ReferenceIsStableSorted | src/Clients/JiraClient.ts:147-157 | the reference columns are sorted by rank and hold for each rank what the distinct states hold |
| Columns.SortIsReference | src/Clients/JiraClient.ts:147-157 | stably sorting the distinct states by rank gives the reference column sequence, for any order without repeats |
| Columns.ReferenceMembers | src/Clients/JiraClient.ts:147-157 | the reference columns hold no state twice, and hold exactly the states that occur |
| Columns.ReferenceListedFirst | src/Clients/JiraClient.ts:152-156 | listed states come before unlisted ones, and the listed ones follow the order |
| Columns.UnlistedInFirstSeenOrder | src/Clients/JiraClient.ts:147-152 | the unlisted states keep their first-seen order |
| Columns.ReferenceUnlistedOrder | src/Clients/JiraClient.ts:147-152 | in the reference columns, the unlisted states keep the order in which they first occur |
| Columns.SequenceColumnsIsReference | src/Clients/JiraClient.ts:136-158 | the column sequence under the fixed column order is the reference sequence |
| Columns.SequenceColumnsProperties | src/Clients/JiraClient.ts:136-158 | `SequenceColumns`: the columns have no repeats and exactly the occurring states; listed before unlisted; listed in column order; unlisted in first-seen order |
| Columns.ColumnIdsStates | src/Clients/JiraClient.ts:147-158 | `ColumnIds`: the columns of some tasks are exactly their states, each once |
| Columns.SortExample | src/Clients/JiraClient.ts:147-157 | with priorities a, b, c and states c, b, u (u unlisted), the columns are b, c, u |
| Columns.SortExampleStates | src/Clients/JiraClient.ts:147-157 | with priorities "Backlog", "To Do", "In Progress", the states "In Progress", "To Do", "Unknown" give columns "To Do", "In Progress", "Unknown" |
| Assignees.ParseUsernames | src/Clients/JiraClient.ts:36-39 | there is always at least one username, and there is one more username than there are separators in the trimmed setting |
| Assignees.EntryPadding | src/Clients/JiraClient.ts:39 | white space around a quoted entry does not change the username it gives |
| Assignees.UnquoteQuote | src/Clients/JiraClient.ts:39 | `Unquote`: unquoting a quoted username gives the username |
| Assignees.FormatSplits | src/Clients/JiraClient.ts:37-38 | a setting listing quoted usernames splits back into the quoted entries |
| Assignees.ParseFormat | src/Clients/JiraClient.ts:36-39 | `ParseUsernames` and `UnquoteAll`: parsing the setting that lists some usernames, each quoted, gives those usernames back, when none holds a line break |
| Assignees.ParseExample | src/Clients/JiraClient.ts:36-39 | the setting `"alice"`, then `,` and a line break, then `"bob"` gives the usernames `alice` and `bob` |
| Assignees.SingleEntry | src/Clients/JiraClient.ts:36-39 | a setting without a line break that is its own trim is one entry, so it gives one username, the entry unquoted |
| Assignees.BareEntry | src/Clients/JiraClient.ts:36-39 | a one-line setting that neither starts nor ends with white space gives one username, the setting without its first and last character, quoted or not |
| Assignees.BareUsername | src/Clients/JiraClient.ts:36-39 | a bare `alice`, without quotes, gives the username `lic` |
| Assignees.ParseEmpty | src/Clients/JiraClient.ts:36-39 | an empty setting gives one empty username |
| Assignees.ParseFormatEmpty | src/Clients/JiraClient.ts:36-39 | formatting no usernames gives the empty setting, and parsing that gives one empty username, so the round trip needs a non-empty list |
| Assignees.AssigneeTerms | src/Clients/JiraClient.ts:49 | one `assignee=` term per username, in order |
| Assignees.Jql | src/Clients/JiraClient.ts:50 | the query opens with a parenthesis and ends with the open-status filter and the newest-first ordering |
| Assignees.AssigneePartOfJql | src/Clients/JiraClient.ts:49-50 | the part between the query's parentheses is the assignee terms joined with ` OR ` |
| Assignees.TermsSplit | src/Clients/JiraClient.ts:49 | joined terms split back into the terms at ` OR `, when no username holds a space |
| Assignees.JqlOfOne | src/Clients/JiraClient.ts:49-50 | the query for a single username is `(`, its one `assignee=` term and the open-status filter |
| Assignees.JqlOfEmptySetting | src/Clients/JiraClient.ts:36-50 | an empty setting gives the query `(assignee=) AND status NOT IN (…) ORDER BY created DESC` |
| Sync.ActiveTasksMembers | src/Clients/JiraClient.ts:92-119 | `ActiveTasks`: a task is in the active list exactly when some issue maps to it and it passes the filter |
| Sync.SearchQueryOf | src/Clients/JiraClient.ts:36-50 | `SearchQuery`: a setting listing some quoted usernames, none holding a line break, gives the query for exactly those usernames |
| Sync.BoardTasks | src/Clients/JiraClient.ts:92-119 | every board task comes from a returned issue, passes the filter, and links to that issue's browse address |
| Sync.ExcludedStatesNoColumns | src/Clients/JiraClient.ts:118-158 | tasks that all pass the filter never give a "PM Evaluation" or "Ready for Engineering" column |
| Sync.PlanBoardProperties | src/Clients/JiraClient.ts:92-167 | `PlanBoard`: the board has id `FP`; its tasks are the active tasks of the issues, with their links; its columns are exactly those tasks' states, once each, and never the two excluded states |

## Left out

- The Basic authorisation header built from email and API token (lines 27-34) is left out. It is credentials and base64 encoding, and no query or board content depends on it.
- Logging the usernames (line 40) and the error log of the `catch` (lines 41, 168-170) are I/O. The model has no exceptions: it covers only the path on which the issue response has the expected shape.
- Creating the target folders with `normalizePath` (lines 42-47) is left out. It is file-system I/O.
- The request is left out: `encodeURIComponent`, the search URL with `maxResults=1000`, and `requestUrl` (lines 51-58). The network is an effect, so the returned issues are the model's input (`Sync.PlanBoard`'s `issues`).
- Creating, looking up and renaming task notes (lines 121-133) are left out. They are vault I/O, `Promise.all` and concurrency.
- `VaultHelper.createKanbanBoard` (lines 161-167) is left out. It writes a file; the model stops at the `Board` value that it receives.
- `setupSettings` (lines 173-233) is left out. It is the settings UI.
- The `Task` class's own constructor logic is left out; it is not part of this model. A task is the record of the eight fields that the mapper passes.
- Issue records whose shape would make the code throw are not modelled: a missing `fields.status`, or list items or blocks of the wrong type. Fields that may be absent are options: assignee, description, its content, a list item's content, an inline node's text, and the sprint list.
- RichText.OrderedLines: `block.attrs.order + index` is a JavaScript number. The model takes it as an unbounded integer, so it leaves out floating-point and non-integral orders and a missing `attrs`.
- StableSort.Sort: `Array.prototype.sort` sorts the array in place. The model gives the sorted value instead, specified by its partner properties (sorted, a permutation, stable). No other code holds the array, so no aliasing is lost.
- Strings: characters are Unicode scalar values. JavaScript strings are UTF-16 code units, which only matters for text outside the Basic Multilingual Plane.
