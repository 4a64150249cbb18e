# Dashboard backend, modelled in Dafny

`scripts/dashboard-backend.py` gathers the data behind a small operations dashboard.
It reads the Airtable token from a secrets file. It totals the "In Contract" deals
that Airtable returns. It turns the task board file into dashboard tasks and picks an
owner for each one. It keeps the last week of transactions from a Tiller sheet, newest
first. It decides which of four agents are active, and it renders a fixed list of
activity lines.

Most of the script is I/O glue. This project models the deterministic transformations
inside that glue, one Dafny module per concern:

- `Wrappers`: the `Option` type.
- `Text`: the Python string operations the script relies on. These are `str.strip`,
  the split at the first `=`, `str.replace`, `str.lower` and the `in` substring test,
  plus `str(n)` and `format(n, ',')` for integers.
- `Clock`: calendar arithmetic in place of `datetime`. A naive time is a count of
  seconds. Day *n* of the proleptic Gregorian calendar starts at second *n* × 86400.
- `SecretsLine`, `Credentials`: the Airtable part of `load_credentials`. One module
  models what a single line sets. The other models the loop over the file, in which
  the last matching line wins.
- `Deals`: `get_airtable_deal_revenue`. It covers the fold over the records, the
  zero result when there is no token, and the fixed fallback.
- `Tasks`: `get_real_tasks` and `get_assignee_for_task`.
- `TransactionRows`, `TransactionSort`, `Transactions`: `get_tiller_financial_data`
  and the timestamps of `get_fallback_financial_data`. They cover the row parser, the
  seven-day window, the stable newest-first sort (done in place on an array) and the
  cut to fifty.
- `Agents`: `get_agent_status`, `check_zillow_monitor` and `check_asana_activity`.
- `Activities`: the eleven entries of `get_live_activities`, with their `%I:%M %p`
  times and the thousands-grouped revenue figure.

Everything the script gets from outside becomes an input. "Now" is a parameter.
HTTP replies are datatypes holding a status and the records, or an exception. File
contents are given as lines or as a parsed board. The random content check is a
boolean. Parts of the script that change state step by step are methods with loop
invariants: the credential loop, the deal loop, the task loop, the row loop and the
in-place sort. The agent map updates are a method without a loop, proved against the
status function. Each method is proved against a function that specifies it, and the
lemmas are about those functions.

Where the script behaves differently from what one might expect, the model follows
the code:

- A missing Airtable token gives `{0, 0, 0}`, not the 162000/18 fallback (line 49).
- The website task is appended on every successful load (lines 158-168).
- Transactions are sorted with a stable sort. Entries of the same day keep their row
  order, so the result is non-increasing, not strictly decreasing (line 238).
- The activity timestamps are not in order. The SYSTEM entry, two minutes old,
  follows the EMAIL entry, which is seven minutes old (lines 361-362).
- The fallback transaction list is charges followed by revenue. It is not newest
  first (line 281).

## Model

| member | source | states |
|---|---|---|
| Text.TrimLeft | scripts/dashboard-backend.py:23 | The left trim returns a suffix of its input that does not start with a character to drop. |
| Text.TrimLeftDrops | scripts/dashboard-backend.py:23 | Every character the left trim removed is one to drop. |
| Text.TrimRight | scripts/dashboard-backend.py:23 | The right trim returns a prefix of its input that does not end with a character to drop. |
| Text.TrimRightDrops | scripts/dashboard-backend.py:23 | Every character the right trim removed is one to drop. |
| Text.Strip | scripts/dashboard-backend.py:23-26 | `strip` never lengthens a string; StripSlice and StripEnds say which characters it removes. |
| Text.StripEnds | scripts/dashboard-backend.py:26 | What `strip` leaves neither starts nor ends with a character to drop. |
| Text.StripSlice | scripts/dashboard-backend.py:23 | `strip` keeps one contiguous slice of the input and removes only droppable characters on either side. |
| Text.StripKeeps | scripts/dashboard-backend.py:22-23 | A character that `strip` may not remove (such as `=`) is still in the stripped line. |
| Text.StripNothing | scripts/dashboard-backend.py:23 | A string with no droppable character at either end is unchanged by `strip`. |
| Text.StripPadded | scripts/dashboard-backend.py:23 | Around a core with no droppable character at either end, `strip` removes exactly the droppable padding and leaves the core. |
| Text.FirstIndex | scripts/dashboard-backend.py:23 | The split point is the first occurrence of the character, or the length when it is absent. |
| Text.RemoveAll | scripts/dashboard-backend.py:30 | `replace(pat, '')` never makes a string longer. |
| Text.RemoveAbsent | scripts/dashboard-backend.py:30 | Deleting a piece whose first character does not occur leaves the string unchanged. |
| Text.Lower | scripts/dashboard-backend.py:177-178 | Lower-casing keeps the length and lower-cases each character on its own. |
| Text.LowerAppend | scripts/dashboard-backend.py:177-178 | Lower-casing a concatenation lower-cases each part. |
| Text.LowerIdempotent | scripts/dashboard-backend.py:177-178 | Lower-casing twice is the same as lower-casing once. |
| Text.Decimal | scripts/dashboard-backend.py:359-361 | `str(n)` is a non-empty string of digits. |
| Text.DecimalRoundTrip | scripts/dashboard-backend.py:359-361 | Reading back the digits of `str(n)` gives n. |
| Text.Grouped | scripts/dashboard-backend.py:359 | The `{:,}` rendering is never empty. |
| Text.GroupedCommas | scripts/dashboard-backend.py:359 | In the `{:,}` rendering, a character is a comma exactly when it is not the first and its distance from the end is a multiple of four. So the digits fall in groups of three from the right, with one to three digits in front. |
| Text.GroupedDigits | scripts/dashboard-backend.py:359 | `{:,}` only inserts commas: removing them gives `str(n)`. |
| Text.Pad2 | scripts/dashboard-backend.py:377 | Two-digit padding is two digits whose value is n. |
| Text.Pad4 | scripts/dashboard-backend.py:223 | Four-digit padding of a year below 10000 is four digits whose value is the year. |
| Clock.DaysInMonth | scripts/dashboard-backend.py:223 | A month has between 28 and 31 days. |
| Clock.HourOf | scripts/dashboard-backend.py:321 | `datetime.hour` lies in 0..23. |
| Clock.MinuteOf | scripts/dashboard-backend.py:377 | `datetime.minute` lies in 0..59. |
| Clock.DayNumberOrder | scripts/dashboard-backend.py:237-238 | Day numbers follow calendar (year, month, day) order in both directions, and equal day numbers mean equal dates. |
| SecretsLine.SplitToken | scripts/dashboard-backend.py:23-33 | A stripped line sets a token exactly when its key (the text before the first `=`) names the API key, bare or after `export `. The token is the text after the first `=` with its `"`s stripped, so it never begins or ends with `"`. |
| SecretsLine.LineToken | scripts/dashboard-backend.py:22-33 | A line sets a token only if it contains `=`. A line with `=` sets the token of its white-space-stripped text, which still contains the `=`. |
| SecretsLine.SplitAtFirstEquals | scripts/dashboard-backend.py:22-33 | For a line made of any blanks (a trailing newline among them), a non-empty `=`-free key that does not start with a blank, `=`, a value that does not end with a blank, and any blanks again: the token is the value (which may contain `=`) without its enclosing quotes, and is set only when the key names the API key. |
| SecretsLine.SplitAtKey | scripts/dashboard-backend.py:23-33 | A stripped `key=value` with an `=`-free key splits into exactly that key and value. |
| SecretsLine.KeySpellings | scripts/dashboard-backend.py:24-31 | `AIRTABLE_API_KEY` and `export AIRTABLE_API_KEY` are accepted; a key with a trailing blank is not. |
| Credentials.Settings | scripts/dashboard-backend.py:21-33 | There is one setting per line of the file. |
| Credentials.SettingsAt | scripts/dashboard-backend.py:21-33 | The setting for line k is the token that line k sets. |
| Credentials.LastSet | scripts/dashboard-backend.py:27-33 | The token left after a run of overwrites is one of the tokens set. |
| Credentials.LoadCredentials | scripts/dashboard-backend.py:14-33 | The credential set holds at most the Airtable token. It holds one exactly when the file exists and some line sets a token, and the value is the last token set. |
| Credentials.OneMoreLine | scripts/dashboard-backend.py:21-33 | Reading one more line: a token that the line sets replaces the current one; otherwise the current one stays. |
| Credentials.LastSetFromLastSetter | scripts/dashboard-backend.py:21-33 | The token comes from a line after which no line sets one. There is no token exactly when no line sets one. |
| Credentials.LaterLineWins | scripts/dashboard-backend.py:27-33 | A later matching line overwrites an earlier one, whatever came before it. |
| Credentials.IgnoredLinesKeepToken | scripts/dashboard-backend.py:22 | Lines that set nothing, such as those without `=`, do not change the token. |
| Deals.DealRevenue | scripts/dashboard-backend.py:45-98 | No token gives {0,0,0}. An HTTP error or an exception gives {162000,18,0}. A 200 reply gives the record count, the total of the truthy revenues, and last_24h as the code computes it. That is the revenue of the deals whose date parses, is strictly after now minus 24 hours and carries no UTC offset. A recent date with an offset raises on comparison, and the bare `except` swallows the error. |
| Deals.RecentRevenueAsWritten | scripts/dashboard-backend.py:77-85 | With no negative revenue, last_24h as written lies between 0 and the total. |
| Deals.TotalAppend | scripts/dashboard-backend.py:71-75 | The total is additive over any split of the records. |
| Deals.TotalIsSumOfRevenues | scripts/dashboard-backend.py:71-75 | Every record adds its revenue to the total, whether or not its date parses. |
| Deals.RecentRevenueIsWindowTotal | scripts/dashboard-backend.py:77-83 | last_24h is the total over exactly the deals whose date parses and is strictly after now minus 24 hours. |
| Deals.RecentAtMostTotal | scripts/dashboard-backend.py:65-85 | With nonnegative revenues, 0 ≤ last_24h ≤ total_revenue. |
| Deals.AsWrittenAgreesWithoutOffsets | scripts/dashboard-backend.py:78-85 | The code as written and the intended last_24h agree when no date carries a UTC offset. |
| Deals.OffsetDateMissedAsWritten | scripts/dashboard-backend.py:78-85 | A deal one hour old whose date ends in Z is missing from last_24h as written, and is counted by the intended sum. |
| Tasks.MapColumn | scripts/dashboard-backend.py:138-149 | backlog, in-progress and done map to themselves; recurring and every unknown column map to backlog. |
| Tasks.Truncate | scripts/dashboard-backend.py:148 | A description of at most 100 characters is unchanged. A longer one becomes its first 100 characters plus `...`, which is exactly 103 characters. |
| Tasks.Assignee | scripts/dashboard-backend.py:175-187 | First match wins: Zillow Bot exactly when a Zillow word occurs, Ghost exactly when no Zillow word and some content word occurs, Admin exactly when only admin words occur, Arthur otherwise. |
| Tasks.LastUpdate | scripts/dashboard-backend.py:153 | lastUpdate is `created` when there is no activity list. Otherwise it is the last entry's date, or `created` when that entry has no date. It fails exactly when the list is empty. |
| Tasks.Convert | scripts/dashboard-backend.py:145-154 | A task converts exactly when it has every required key and no empty activity list. Then id, title and created are copied. The description is truncated (at most 103 characters), the column goes through the column table and the owner through the keyword rules, both landing among the allowed values. The priority defaults to medium. |
| Tasks.LoadedTasks | scripts/dashboard-backend.py:128-173 | A load gives either [] or a list that ends with the website task. |
| Tasks.RealTasks | scripts/dashboard-backend.py:128-173 | The loader walks the board. It gives up with [] at the first task that raises, and otherwise returns the converted non-archived tasks followed by the website task. |
| Tasks.NoRecoveryAfterFailure | scripts/dashboard-backend.py:171-173 | Once one task raises, nothing that follows restores the result. |
| Tasks.LiveOfAppend | scripts/dashboard-backend.py:135-136 | Dropping archived tasks commutes with concatenation. |
| Tasks.LiveMembers | scripts/dashboard-backend.py:135-136 | A task survives exactly when it is on the board and not archived. |
| Tasks.AllOrNothingElementwise | scripts/dashboard-backend.py:134-155 | The loop succeeds exactly when every task converts, and then yields the conversions in order. |
| Tasks.LoadedTasksShape | scripts/dashboard-backend.py:128-173 | An unreadable board, or any task that raises, gives []. Otherwise the result is the conversions of the non-archived tasks in board order, then the website task, so its length is that count plus one. |
| Tasks.NoArchivedTaskSurvives | scripts/dashboard-backend.py:135-136 | Every entry but the last comes from a non-archived task of the board. |
| Tasks.AssigneeIgnoresCase | scripts/dashboard-backend.py:177-178 | Letter case does not affect the owner. |
| Tasks.SectionEightInTitle | scripts/dashboard-backend.py:177-180 | "section 8" occurs in the lower-cased title "Write Section 8 listing post". |
| Tasks.RealEstateBeforeContent | scripts/dashboard-backend.py:180-183 | A real-estate keyword beats content keywords in the same title. |
| TransactionRows.ParseDate | scripts/dashboard-backend.py:223 | `strptime('%m/%d/%Y')` only yields dates that exist, and only for text that is month, day and four-digit year texts joined by slashes, read as the date they spell. |
| TransactionRows.ParseDateExactly | scripts/dashboard-backend.py:223 | A text parses exactly when it is month, day and four-digit year texts joined by slashes that name an existing date. |
| TransactionRows.IsoDateRefused | scripts/dashboard-backend.py:223 | A `year-month-day` spelling is refused. |
| TransactionRows.DateText | scripts/dashboard-backend.py:223 | The `%m/%d/%Y` text is ten characters with slashes at positions 2 and 5. |
| TransactionRows.ParseDateRoundTrip | scripts/dashboard-backend.py:223 | Every valid date, written as `%m/%d/%Y`, parses back to itself. |
| TransactionRows.PadSmall | scripts/dashboard-backend.py:223 | A zero-padded day from 1 to 31 matches `%d` with its own value. Up to 12 it also matches `%m`. |
| TransactionRows.NoThirtiethOfFebruary | scripts/dashboard-backend.py:223-235 | February 30th does not parse, so the row is skipped. |
| TransactionRows.ParseAmount | scripts/dashboard-backend.py:218 | An amount is accepted exactly when the cell is empty (counting as 0) or is text that `float()` accepts. |
| TransactionRows.SeparatorNotStripped | scripts/dashboard-backend.py:218 | A cell led by one of the separators U+001C to U+001F is refused, as `float()` does not strip them. |
| TransactionRows.SeparatorLiteral | scripts/dashboard-backend.py:218 | No float literal starts with one of those separators. |
| TransactionRows.PaddedFigure | scripts/dashboard-backend.py:218 | Blanks that `float()` strips, around a literal, do not change whether the cell is accepted. |
| TransactionRows.ParseRow | scripts/dashboard-backend.py:215-235 | A row yields a transaction exactly when it has at least six cells and its date and amount parse. The transaction carries the row's date text, description, account and category, the date and the amount parsed from its cells, and the day number of that date. |
| TransactionRows.ParseDateSpellings | scripts/dashboard-backend.py:223 | Every spelling `m/d/yyyy` with a one- or two-digit month and day and a four-digit year parses to that date exactly when the date exists, and is refused otherwise. |
| TransactionSort.InsertByDay | scripts/dashboard-backend.py:238 | Insertion adds exactly one element. |
| TransactionSort.SortNewest | scripts/dashboard-backend.py:238 | The sort keeps the length. |
| TransactionSort.InsertAt | scripts/dashboard-backend.py:238 | x goes after the elements at least as new as it and before the older ones. |
| TransactionSort.SplitPoint | scripts/dashboard-backend.py:238 | In a newest-first list, the elements at least as new as x form a prefix. |
| TransactionSort.SplitNewestFirst | scripts/dashboard-backend.py:238 | Placing x between those elements and the older ones keeps the list newest first. |
| TransactionSort.InsertKeepsOrder | scripts/dashboard-backend.py:238 | Insertion keeps the list newest first and adds x to its multiset. |
| TransactionSort.SortNewestSortedPermutation | scripts/dashboard-backend.py:238 | The sorted list is newest first and a permutation of the input. |
| TransactionSort.OnDaySplit | scripts/dashboard-backend.py:238 | x placed before strictly older elements comes after the rest of its own day. |
| TransactionSort.InsertOnDay | scripts/dashboard-backend.py:238 | Insertion puts x after every element of its own day. |
| TransactionSort.SortNewestStable | scripts/dashboard-backend.py:238 | The sort is stable: the transactions of each day keep their input order. |
| TransactionSort.InsertLast | scripts/dashboard-backend.py:238 | One in-place insertion step leaves the prefix up to i sorted with the new element inserted, and the rest of the array untouched. |
| TransactionSort.ShiftedIsInsert | scripts/dashboard-backend.py:238 | The shifted prefix with x at the stopping point is the insertion of x. |
| TransactionSort.SortInPlace | scripts/dashboard-backend.py:238 | The in-place sort leaves the array holding the stable newest-first sort of its old contents. |
| Transactions.KeepOneMore | scripts/dashboard-backend.py:214-233 | One more row adds its transaction exactly when it parsed and lies in the window. |
| Transactions.CollectRecent | scripts/dashboard-backend.py:211-235 | The row loop appends, in row order, the transactions of the rows that parse and lie strictly after now minus seven days. |
| Transactions.KeepMembers | scripts/dashboard-backend.py:214-233 | A transaction is kept exactly when some entry parsed to it and it lies in the window. No more are kept than there are entries. |
| Transactions.KeptMembers | scripts/dashboard-backend.py:211-235 | A transaction is kept exactly when some row parses to it and it lies in the window. Short or unparsable rows contribute nothing. |
| Transactions.Newest | scripts/dashboard-backend.py:240 | `[:50]` is a prefix of at most fifty entries: the whole list when it is that short, and exactly fifty entries when it is longer. |
| Transactions.NewestCut | scripts/dashboard-backend.py:237-240 | Cutting a newest-first list after fifty splits it into the kept part and the rest, which together are the whole list, and nothing in the rest is newer than anything kept. |
| Transactions.Financial.SampleTimes | scripts/dashboard-backend.py:281 | The placeholder transaction list is the charges followed by the revenue. |
| Transactions.FallbackData | scripts/dashboard-backend.py:249-281 | Six charges stamped 2i hours before now and four revenue entries stamped 3i hours before now. |
| Transactions.TillerFinancialData | scripts/dashboard-backend.py:189-247 | A 200 reply gives the kept rows sorted newest first in place and cut to fifty. Every other outcome gives the placeholder data. |
| Transactions.LiveResult | scripts/dashboard-backend.py:211-240 | The live result has the smaller of fifty and the number of kept transactions as its length, newest first. Each comes from a row and lies in the window. Each day keeps its row order. The kept transactions left out are, with the result, all of them, and none is newer than any entry of the result. |
| Transactions.SampleNotNewestFirst | scripts/dashboard-backend.py:273-281 | The placeholder list is not newest first: the last charge is older than the first revenue entry that follows it. |
| Agents.AsanaActive | scripts/dashboard-backend.py:324-340 | Recent activity is reported exactly when a token is configured and the reply holds at least one record. |
| Agents.ZillowMonitor | scripts/dashboard-backend.py:317-322 | The monitor counts as running exactly when the time of day is from 6:00:00 up to, but not including, 19:00:00. |
| Agents.Status | scripts/dashboard-backend.py:283-322 | There are four agents. Arthur is always active and coordinating. zillow-bot is active exactly from 6:00 to 18:59. admin and ghost follow their flags. Each task text changes only when its flag is true. |
| Agents.AgentStatus | scripts/dashboard-backend.py:283-315 | Updating the default map one check at a time gives the status of the hour and the two flags. |
| Agents.AllFourActive | scripts/dashboard-backend.py:285-322 | At least one agent is always active. All four are active exactly in monitor hours with both flags set. |
| Activities.Clock12 | scripts/dashboard-backend.py:377 | `%I` lies in 1..12 and agrees with the hour modulo 12. |
| Activities.TimeText | scripts/dashboard-backend.py:377 | `%I:%M %p` is eight characters with `:` and a blank in their places. |
| Activities.To24 | scripts/dashboard-backend.py:377 | Reading a 12-hour time back gives an hour in 0..23 that is 12 or more exactly for PM. |
| Activities.TimeTextRoundTrip | scripts/dashboard-backend.py:377 | The 12-hour text loses nothing: its hour, minute and AM/PM read back as the hour and minute of the timestamp. |
| Activities.Descriptions | scripts/dashboard-backend.py:358-370 | There are eleven entry texts. |
| Activities.RenderAll | scripts/dashboard-backend.py:358-378 | One activity per entry, in list order, each stamped its age before now and shown with that time's `%I:%M %p`. The first entry is the newest, and the list is not sorted. |
| Activities.LiveActivities | scripts/dashboard-backend.py:348-380 | Eleven activities in list order. Each has its type and its text, the first carrying the live deal figures. Each is stamped its age before now and shown with that time's `%I:%M %p`. |
| Activities.RevenueLine | scripts/dashboard-backend.py:359 | The deal line starts with `Deal Revenue Tracker: $` and ends with ` deals`. |
| Activities.AgesFromNewest | scripts/dashboard-backend.py:358-370 | The first entry is the newest, and the third entry is older than the fourth. |
| Activities.RevenueLineDigits | scripts/dashboard-backend.py:359 | The revenue line is `Deal Revenue Tracker: $`, then the total, then ` from `, the deal count in decimal and ` deals`; removing the total's grouping commas leaves its sign and plain digits. |

## Left out

- HTTP requests, `os.popen` of the token script, and file reads and writes with
  `json.load` and `json.dump` are I/O. Their outcomes are inputs: a status with
  records, an exception, or the lines or board read.
- `load_credentials` also loads `google_token` from a JSON file. That is I/O, and
  nothing in the model reads the token.
- `get_ghl_sms_stats` and `get_arthur_email_stats` return constants. Only their
  `today` figures (50 and 8) appear, inside the activity texts.
- `generate_dashboard_data` and all `print` output are orchestration and logging.
- Each separate `datetime.now()` call is modelled as one `now` parameter. The
  microseconds between the calls are not modelled.
- `check_content_schedule` is random. It is the `contentActive` input.
- Agents.AgentStatus: the `except` branch of `get_agent_status` is not modelled.
  None of the three checks it guards can raise once their inputs are given.
- Dictionary key order in the returned JSON is not modelled. Maps are unordered.
- TransactionRows.ParseAmount: amounts are floats in Python. The model checks that
  `float()` would accept the cell and carries the text. It does not model the value,
  underscores between digits, or non-ASCII digits. Surrounding white space is stripped as
  `float()` strips it: the ASCII space, `\t`, `\n`, `\v`, `\f` and `\r`, and the
  non-ASCII blanks. The separators U+001C to U+001F are not stripped.
- TransactionRows.ParseDate: Python's `strptime` also accepts non-ASCII decimal
  digits. The model accepts only ASCII digits.
- TransactionSort.SortNewest: the sort key is the day number, not the `isoformat()`
  text. Clock.DayNumberOrder proves that day-number order is (year, month, day) order.
  The last step, that this is also the order of the zero-padded texts, is not proved.
- Text.Lower: `str.lower` is modelled on ASCII letters only. Other letters are kept
  as they are.
- Deals.DealRevenue: revenues are integers. Float revenues, and a `null` Revenue or
  In Contract value, are not modelled. `datetime.fromisoformat` is not modelled
  either: each record arrives with its date already parsed, or None.
- Tasks.Convert: JSON values are taken to have the types the code expects (strings,
  a boolean `archived`, a list of activity entries). A value of another type, which
  would raise in a different place, is not modelled.
- Transactions.FallbackData: of the placeholder charges and revenue entries, only the
  timestamps are kept. Amounts, descriptions and cards are literals.
- Activities.Descriptions: the activity texts are literals. Only the revenue line
  depends on an input.
- `%p` is rendered as AM/PM, as in the C locale. Other locales are not modelled.

## Findings

| source | as written | input that shows it | evidently intended | confidence | as-written member | corrected member |
|---|---|---|---|---|---|---|
| scripts/dashboard-backend.py:78-85 | A trailing `Z` is turned into `+00:00`, so the parsed date is offset-aware. Comparing it with the naive `cutoff_time` raises TypeError. The bare `except` swallows the error, and the deal never counts toward `last_24h`. | One record with Revenue 5000 and In Contract one hour before now, written with a trailing `Z` | The deal's revenue counts toward `last_24h` whenever its date is within the last 24 hours | not executed | Deals.RecentRevenueAsWritten, Deals.OffsetDateMissedAsWritten | Deals.RecentRevenue, Deals.RecentRevenueIsWindowTotal |

Deals.DealRevenue follows the code as written. Deals.AsWrittenAgreesWithoutOffsets
proves that the two definitions agree whenever no contract date carries an offset.
