# AI travel assistant: calendar core

A Dafny model of the calendar part of the AI travel assistant (`app.py`).

- **The `events` table.** `id INTEGER PRIMARY KEY AUTOINCREMENT`, `description TEXT NOT NULL`, `event_time TEXT NOT NULL`. It is the class `CalendarDb`, which holds its rows, the AUTOINCREMENT counter and a ghost set of every id ever handed out. Its methods are the four statements the calendar runs:
  - `CREATE TABLE IF NOT EXISTS` (`init_db`)
  - `INSERT`
  - `SELECT * ... ORDER BY event_time`
  - `DELETE ... WHERE id = ?`
- **`handle_calendar_command`.** The method `HandleCalendarCommand`:
  1. It picks a branch from the lower-cased, stripped input.
  2. It cuts the argument from the original input.
  3. It splits an add argument at its first comma and checks the time with CPython's `strptime("%Y-%m-%d %H:%M")`. The check is modelled as the regular expression CPython builds for that format: ordered alternatives, a greedy `\s+` with backtracking, the "unconverted data remains" check, then the calendar check for the day.
  4. It parses a delete argument with `int()`.
  5. It runs the statement and builds the reply text.
- **The intent router** at the top of the script. `Classify` is a pure function of the input text. `ProcessInput` is one run of the script: it calls `init_db()`, runs one input through `Classify` and hands calendar commands to the handler.

The files:

- `py_strings.dfy`: the Python `str` operations the code uses (`lower`, `strip` with the whitespace set it shares with `re`'s `\s`, `startswith`, `in`, `replace`, `split(",", 1)`, `join`, `str(int)`, `int(str)`).
- `event_time.dfy`: the time check.
- `event_store.dfy`: the table.
- `calendar.dfy`: the handler.
- `router.dfy`: the router.

Where the code does something a reader may not expect, the model follows the code:

- **Empty descriptions.** An empty description is accepted, because the code never checks for one. `Calendar.AddCommandRoundTrip` with `d == ""` shows it.
- **Listing order and non-canonical times.** The time check accepts non-canonical texts such as `2024-9-01 10:00` or `2024-09-01  \t 10:00`. For these, the text order used by `ORDER BY` is not chronological (see `EventStore.NonCanonicalOrderIsNotChronological`).
- **Destination phrase.** The phrase removed from an itinerary request is matched case-sensitively (see `Router.CapitalisedPhraseIsKept`).

## Model

| member | source | states |
|---|---|---|
| EventTime.ParseEventTime | app.py:87 | whatever the time check accepts is a real date (year 1-9999, a day that exists in its month, leap years included) and time of day, and the text begins and ends with a digit |
| EventTime.FormatParses | app.py:87 | the canonical `YYYY-MM-DD HH:MM` form of every real date and time is accepted and read back as that date and time; any text after it, even one blank, is refused |
| EventTime.FormatMatches | app.py:87 | the regular expression matches the canonical form as the encoded date and time, whatever follows it |
| EventTime.ParseOctober | app.py:87 | `2024-10-01 10:00` is accepted as 1 October 2024, 10:00 |
| EventTime.ParseSeptember | app.py:87 | the one-digit month in `2024-9-01 10:00` is accepted as 1 September 2024, 10:00 |
| EventTime.MatchFormat | app.py:87 | a match of the regular expression has a month 1-12, an hour 0-23 and a minute 0-59, and stops just after a digit |
| EventTime.ValidTimeEnds | app.py:86-87 | an accepted time has no surrounding whitespace, so stripping it keeps it whole |
| EventStore.CalendarDb.constructor | app.py:16-19 | a new database has no table, no rows and the id counter at 1 |
| EventStore.CalendarDb.InitDb | app.py:21-30 | the first call creates an empty table; later calls change neither rows nor counter |
| EventStore.CalendarDb.Insert | app.py:89-93 | appends exactly one record with the given fields; its id was never issued before and exceeds every stored id; the other records are unchanged |
| EventStore.CalendarDb.Delete | app.py:114-117 | in SQLite's integer range, removes exactly the records with that id (none is no error); outside it, fails and changes nothing; ids are never issued again |
| EventStore.CalendarDb.ListByTime | app.py:101-103 | returns a permutation of the stored records in non-decreasing `event_time` text order, changing nothing |
| EventStore.SortByTime | app.py:102 | the listing holds exactly the stored records, each as often as stored |
| EventStore.SortByTimeSorted | app.py:102 | the listing is in non-decreasing text order of `event_time` |
| EventStore.ListingMembers | app.py:102 | a record is listed exactly when it is stored |
| EventStore.TextLeTotal | app.py:102 | any two times are comparable under BINARY collation |
| EventStore.TextLeTrans | app.py:102 | BINARY collation order is transitive |
| EventStore.TextLeAntisym | app.py:102 | two texts each ordered before the other are equal |
| EventStore.TextLeConcat | app.py:102 | texts that start with parts of one length are ordered by those parts unless they are equal |
| EventStore.FirstDifference | app.py:102 | texts are ordered by their first differing character |
| EventStore.CanonicalOrderIsChronological | app.py:102 | on canonical times, text order is chronological order |
| EventStore.NonCanonicalOrderIsNotChronological | app.py:102 | two accepted times, `2024-10-01 10:00` and `2024-9-01 10:00`, are listed against the calendar |
| EventStore.WithoutId | app.py:115 | keeps exactly the records whose id differs |
| EventStore.WithoutIdAscending | app.py:115 | a delete keeps the remaining ids ascending |
| EventStore.WithoutAbsentId | app.py:115 | deleting an id that is not stored changes nothing |
| EventStore.WithoutIdRemovesAtMostOne | app.py:115 | as ids are unique, a delete removes one record if the id is stored and none otherwise |
| Calendar.ParseAdd | app.py:83-87 | an accepted add has a comma in its argument, a comma-free description with no surrounding whitespace, and a time the check accepts; an argument without a comma is the usage hint |
| Calendar.DeletePaddedInteger | app.py:113 | `str(n)` with any whitespace around it is read back as `n`, for every integer `n` |
| Calendar.DeleteNeedsInteger | app.py:113-120 | a delete argument whose stripped text holds a character other than a digit, `_` or a leading sign is the usage hint |
| Calendar.DeleteNeedsArgument | app.py:113-120 | an empty or all-whitespace delete argument is the usage hint |
| Calendar.ParseAddSplitsAtFirstComma | app.py:83-87 | for an argument with a comma, the description is the stripped text before the first comma and the time the stripped text after it; the usage hint exactly when strptime refuses that time |
| Calendar.ParseCommand | app.py:78-121 | no text yields an add the table would store with a comma in the description or an unchecked time |
| Calendar.EventLines | app.py:105-106 | one listing line per record, in listing order, each `📝 id: description at event_time` |
| Calendar.ViewResponse | app.py:104-108 | the empty-calendar notice exactly for an empty listing, and otherwise a text containing every record's `📝 id: description at event_time` line |
| Calendar.HandleCalendarCommand | app.py:76-126 | the table and reply after each branch: an add appends one record with the next id and confirms; a view changes nothing and answers for a time ordering of the rows; a delete removes that id and confirms, or gives the usage hint when the id does not bind; usage hints and help change nothing; only an add issues an id, the old counter |
| Calendar.CommandsKeepRowsWellFormed | app.py:83-93 | no command stores a description with a comma or surrounding whitespace, or an unchecked time |
| Calendar.OnlyAddAndDeleteChangeTable | app.py:96-125 | usage hints, help and view leave the table alone; only an add moves the id counter, by one, giving the new record the old counter |
| Calendar.DeleteRemovesExactlyThatId | app.py:113-120 | a delete keeps exactly the records with other ids, confirms exactly when the id binds, and removes at most one record |
| Calendar.ViewShowsEveryRecord | app.py:101-108 | the empty-calendar notice exactly when nothing is stored, otherwise a line for every stored record |
| Calendar.AddKeywordSelectsAdd | app.py:78-83 | text starting with `add event:` goes to the add branch with the rest of the text |
| Calendar.ViewKeywordSelectsView | app.py:100 | text starting with `view events` lists the events |
| Calendar.DeleteKeywordSelectsDelete | app.py:111-113 | text starting with `delete event:` goes to the delete branch with the rest of the text |
| Calendar.AddCommandRoundTrip | app.py:81-87 | `add event: d, t` gives back `d` and `t` for every comma-free, stripped `d` (the empty one included) and every accepted `t` |
| Calendar.DeleteCommandRoundTrip | app.py:113 | `delete event: n` asks for the deletion of `n`, for every integer `n` |
| Calendar.LeadingBlankShiftsCut | app.py:78-83 | with one blank before `add event:`, the argument is cut one place early, from the colon |
| Calendar.LeadingBlankShiftsArgument | app.py:78-86 | so `␣add event: d, t` stores the description `: d` |
| PyStrings.SplitOnceOf | app.py:84 | `split(",", 1)` of `a + "," + b`, with no comma in `a`, gives back `a` and `b` |
| PyStrings.ParseIntToString | app.py:113-118 | `int(str(n)) == n` for every integer |
| PyStrings.StripPrefixIff | app.py:151 | for text that does not start with whitespace, the stripped and unstripped prefix tests agree |
| PyStrings.RemoveAll | app.py:138 | `replace(p, "")` never lengthens a text and leaves it alone when `p` does not occur |
| PyStrings.RemoveAllFirst | app.py:138 | `replace(p, "")` keeps everything before the first occurrence of `p`, drops that occurrence and goes on after it |
| PyStrings.RemoveAllLeading | app.py:138 | an occurrence of `p` at the start is dropped and the rest is treated on its own |
| PyStrings.Strip | app.py:83-86 | `strip()` never lengthens a text, and what is left neither starts nor ends with whitespace |
| PyStrings.StripAround | app.py:83-86 | `strip()` removes exactly the whitespace around a core that does not start or end with whitespace |
| PyStrings.StripAroundSeparator | app.py:83-84 | stripping a text with a comma in it strips only the start of the part before it and the end of the part after it |
| PyStrings.StripAfterTrimRight | app.py:83-86 | stripping after removing trailing whitespace gives what stripping alone gives |
| PyStrings.LowerCases | app.py:134 | `lower()` keeps the length, leaves no upper-case ASCII letter, moves each upper-case letter to its lower-case one and keeps every other character |
| PyStrings.LowerKeepsPrefix | app.py:78 | `lower()` keeps a lower-case prefix in place |
| PyStrings.ContainsIff | app.py:137 | `p in s` holds exactly when `p` occurs at some position of `s` |
| PyStrings.ContainsPastPrefix | app.py:137 | when no character of `pre` is the first of `p`, `p` is in `pre + d` only if it is in `d` |
| PyStrings.SplitOnce | app.py:84 | `split(",", 1)` fails exactly when there is no comma, and otherwise gives a comma-free first part that, rejoined with the comma and the second part, is the text |
| PyStrings.IntToString | app.py:118 | `str(n)` is non-empty, starts with `-` or a digit and ends with a digit |
| PyStrings.ParseIntCharset | app.py:113 | whatever `int()` accepts holds only digits, underscores and a leading sign |
| PyStrings.JoinContainsEach | app.py:105 | every joined line occurs in the joined text |
| Router.Classify | app.py:133-158 | a destination is never empty and has no surrounding whitespace; recommendations and calendar commands carry the whole input |
| Router.Destination | app.py:138 | the destination has no surrounding whitespace, and is the stripped input when the input does not hold the phrase |
| Router.ProcessInput | app.py:133-158 | after `init_db()`, only a calendar command touches the table, with exactly the handler's effect and one newly issued id for an add; every other branch leaves the table and the issued ids unchanged and gives its fixed reply |
| Router.RoutedCommandIsAligned | app.py:151-152 | text the router sends to the calendar always reaches a command branch, and the argument is cut right after the keyword |
| Router.ItineraryWins | app.py:137-144 | a text mentioning `itinerary` or `trip plan` is an itinerary request whatever else it says, invalid exactly when its destination is empty |
| Router.ItineraryRequest | app.py:137-140 | `give me an itinerary for d` yields destination `d` |
| Router.EmptyDestination | app.py:138-144 | the phrase followed only by whitespace is an invalid destination |
| Router.CapitalisedPhraseIsKept | app.py:138 | `Give me an itinerary for d` keeps the capitalised phrase in its destination, for every stripped `d` that does not hold the phrase |
| Router.RecommendationBeatsCalendar | app.py:146-151 | text starting with `add event:` that mentions a restaurant or an activity, and no itinerary, is a recommendation request |
| Router.GuidanceIsTheFallback | app.py:156-158 | the warning is given exactly to a non-empty text with no keyword and no command prefix |
| Router.RestaurantBeatsCalendar | app.py:146-151 | `add event: restaurant, 2024-01-01 10:00` is a recommendation request |
| Router.LeadingBlankIsNotACommand | app.py:151 | text that starts with whitespace never reaches the calendar, so the early cut above cannot happen through the router |

## Left out

- The language model (`pipeline`, `set_seed`, `advanced_generate`) and the prompt builders `suggest_itinerary` and `recommend_restaurants` (app.py:4-13, 35-73) are foreign, random calls. The itinerary and recommendation replies only record what the model would be asked about. The recommendation prompt embeds the user's text verbatim.
- Streamlit output (`st.title`, `st.text_input`, `st.subheader`, `st.write`, `st.error`, `st.warning`) is left out. The reply datatype `Router.Reply` stands for what the page shows. The "🌎 Travel Itinerary for …", "🍽️ …" and "📅 Calendar Response" subheaders are not modelled.
- SQLite connection handling (`connect`, `row_factory`, `commit`, `close`) and storage failures are left out. The table is held in memory.
- EventStore.CalendarDb.Insert: does not model SQLite's failure once the id 9223372036854775807 has been assigned. The handler would turn that failure into the add usage hint.
- PyStrings.Lower: lower-cases ASCII letters only. No keyword test changes because of this. Only U+212A and U+0130 lower to ASCII letters, to `k` and to `i` followed by U+0307, and no keyword contains `k` or an `i` followed by U+0307.
- PyStrings.ParseInt: accepts ASCII digits only, and leaves out the 4300-digit limit of `int()`.
- EventTime.ParseEventTime: `\d` is restricted to ASCII digits, whereas CPython also accepts other Unicode decimal digits.
- Strings are sequences of code points. Lone surrogates and encoding errors when SQLite stores text are not modelled.
- EventStore.SortByTime: fixes one order for records with equal times. The table's contracts (`ListByTime`, `HandleCalendarCommand`) claim only sortedness and permutation, because SQLite leaves the tie order open.
- Concurrency between sessions is left out.
