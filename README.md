# when-next, modelled in Dafny

when-next is a terminal program that lets a user pick days from a scrolling
seven-day window. It then posts the picked days as a Discord poll through a
webhook. This project models and proves its core:

- **The date picker** (`datepicker/picker.go`), in module `DatePicker` (`picker.dfy`).
  - The Go `model` is a value whose `dates` slice and `selected` map are references.
    `Update` works on a copy and returns it, and the copy shares both with the original.
    `main.go` relies on that: it reads the selection from the value it created, after
    the program loop has run on copies.
  - The model keeps this shape. `Model` is a datatype holding an `array<int>` (the
    window) and a `Selection` object (the map, as a `set<string>` field), plus the
    cursor, the offset and the help flag.
  - Days are day numbers (days since 1970-01-01). The clock reading `now` is a parameter.
  - A selected day is stored under its identity, the `YYYY-MM-DD` text that
    `Format(time.DateOnly)` gives.
  - `State`, `Step` and `Run` are the abstract picker, its transition function and
    the program's event loop, which stops at the first event that asks to quit.
    `Update`, `RunSession` and `Session` are proved against them.
  - `GetSelected` is proved to return the selected days strictly ascending, one per
    identity, or else an identity that does not parse.
- **The `YYYY-MM-DD` identity** (module `DateOnly`, `date_only.dfy`).
  - This is the part of Go's `time` package that the picker depends on: `Format` and
    `time.Parse` for the layout `time.DateOnly` over the proleptic Gregorian calendar.
  - `Parse(Format(d))` gives back `d` exactly when `d`'s year is 0000..9999.
  - Every string that parses is the formatted form of its day.
  - So the error path of `GetSelected` is reachable: a day scrolled to outside those
    years is stored under an identity that Go's own parser rejects.
- **Poll answers** (`discord/webhook-params.go`), in module `WebhookParams`.
  - `Poll` is a class. `AddAnswer` takes the next id from the poll's int64 counter
    (its wrap-around is written out) and appends the answer.
  - From a fresh poll, the ids of n answers are exactly 1..n.
- **Snowflake timestamps** (`discord/snowflake.go`), in module `Snowflake`.
  - `Unix` is `(s >> 22) + 1420070400000` on a uint64, converted to int64. Both widths
    are written out.
  - The model proves that neither the addition nor the conversion wraps, that the
    result ignores the low 22 bits and is monotone, and both test vectors.
  - The result is in milliseconds, as the code and its tests compute. The doc comment
    on `Unix` says seconds.

`Wrappers` (`wrappers.dfy`) holds the `Option` and `Result` datatypes. `GoInts` (`go_ints.dfy`)
holds Go's 64-bit integer ranges, shared by the poll counter and the snowflake arithmetic.

## Model

| member | source | states |
|---|---|---|
| DatePicker.Window | datepicker/picker.go:171-176 | the window has the requested length and its i-th day is `now + offset + i` |
| DatePicker.Initial | datepicker/picker.go:104-122 | the new picker is valid: seven consecutive days from today, cursor 0, offset 0, nothing selected |
| DatePicker.Step | datepicker/picker.go:128-168 | every message keeps the cursor inside the window and the window length unchanged |
| DatePicker.Run | main.go:61-64 | the event loop keeps the cursor inside the window and the window length unchanged |
| DatePicker.StepKeepsValid | datepicker/picker.go:134-149 | every message keeps the window seven consecutive days from `today + offset` and the cursor in 0..6 |
| DatePicker.RunKeepsValid | datepicker/picker.go:107-114 | from a valid picker, any sequence of messages keeps the window and cursor invariant |
| DatePicker.UpMovesFocusBack | datepicker/picker.go:134-141 | Up moves the focused day one day back. With the cursor above 0 only the cursor decrements. At 0 the offset decrements, the cursor stays and the window is regenerated |
| DatePicker.DownMovesFocusForward | datepicker/picker.go:142-149 | Down moves the focused day one day forward. Below the last row only the cursor increments. At row 6 the offset increments, the cursor stays and the window is regenerated |
| DatePicker.SelectTogglesFocus | datepicker/picker.go:150-157 | Select flips the membership of the focused day's identity, no other identity's membership changes, and nothing else in the state changes |
| DatePicker.SelectTogglesFocusedDayOnly | datepicker/picker.go:150-157 | Select flips whether the focused day is selected, and whether every other day is selected stays as it was |
| DatePicker.IdentityInjective | datepicker/picker.go:152-156 | different days have different identities, so the map holds at most one key per day |
| DatePicker.SelectTwiceRestores | datepicker/picker.go:150-157 | Select applied twice gives back the original state |
| DatePicker.QuitAndValidate | datepicker/picker.go:158-162 | Quit empties the selection and asks to quit. Validate asks to quit with the state unchanged |
| DatePicker.HelpFlipsFlag | datepicker/picker.go:163-164 | Help flips the help flag and changes nothing else |
| DatePicker.GoToKeysChangeNothing | datepicker/picker.go:131-133 | GoToStart and GoToEnd leave the state unchanged and ask for nothing |
| DatePicker.UnboundChangesNothing | datepicker/picker.go:165-167 | a message that matches no binding falls through to `return m, nil`: state unchanged, no command |
| DatePicker.QuitCmdIffTerminates | datepicker/picker.go:158-162 | a message asks the program to quit exactly when it is Quit or Validate |
| DatePicker.RunAppend | main.go:61-64 | running two batches, the first of which does not quit, equals running them back to back |
| DatePicker.QuitDiscardsSelection | datepicker/picker.go:160-162 | whatever came before, Quit ends the session with nothing selected, and later messages are never read |
| DatePicker.ValidateKeepsSelection | datepicker/picker.go:158-159 | Validate ends the session with the selection built so far, and later messages are never read |
| DatePicker.ScrollPastBottom | datepicker/picker.go:142-149 | seven Downs from a new picker put the cursor on the last row and then scroll the window one day |
| DatePicker.Identity | datepicker/picker.go:152-156 | the key of a day has at least ten characters, exactly ten when its year has four digits |
| DatePicker.Selection.constructor | datepicker/picker.go:115 | the selection map starts empty |
| DatePicker.New | datepicker/picker.go:104-122 | the loop fills a fresh array with `now + i`, and the picker equals `Initial(now)` |
| DatePicker.UpdateDates | datepicker/picker.go:171-176 | the loop rewrites the array in place with the window of `now` and the current offset |
| DatePicker.MoveUp | datepicker/picker.go:134-141 | Up on the Go value is `Step` on its abstract state, sharing the array and the selection |
| DatePicker.MoveDown | datepicker/picker.go:142-149 | Down on the Go value is `Step` on its abstract state, sharing the array and the selection |
| DatePicker.Toggle | datepicker/picker.go:150-157 | the shared selection loses the focused identity if it held it and gains it otherwise |
| DatePicker.Update | datepicker/picker.go:128-168 | the returned value and command are `Step` of the old state, and the returned value shares the array and the selection |
| DatePicker.RunSession | main.go:61-64 | feeding the messages to `Update` until it asks to quit gives `Run` of the old state |
| DatePicker.InsertAscending | datepicker/picker.go:96-98 | inserting into an ascending sequence keeps it ascending and adds exactly that element |
| DatePicker.SortAscending | datepicker/picker.go:96-98 | the result is ascending and a permutation of the input |
| DatePicker.AscendingWithoutDuplicates | datepicker/picker.go:96-98 | an ascending sequence without repeated days is strictly ascending |
| DatePicker.IdentityRoundTrips | datepicker/picker.go:89 | `time.Parse` inverts the identity text and the identity text inverts `time.Parse` |
| DatePicker.CollectOne | datepicker/picker.go:87-94 | appending the parsed day of one more key keeps the collected days exact and without repeats |
| DatePicker.SortedCollection | datepicker/picker.go:94-98 | sorting the collected days gives one strictly ascending day per key, and a day is in the result iff its identity is a key |
| DatePicker.ParseAll | datepicker/picker.go:86-94 | the loop fails iff some key does not parse, and then returns such a key. Otherwise it returns exactly one day per key |
| DatePicker.GetSelected | datepicker/picker.go:86-101 | an error iff some identity does not parse. Otherwise the days are strictly ascending, one per identity, and a day is returned iff its identity is selected |
| DatePicker.Session | main.go:59-68 | after `New`, the loop and `GetSelected` on the original value, the result is `GetSelected`'s contract for the selection of `Run` from the initial picker |
| DateOnly.Format | datepicker/picker.go:152-156 | the `time.DateOnly` text of a day has at least ten characters, exactly ten when the year is 0000..9999 |
| DateOnly.Parse | datepicker/picker.go:89 | `time.Parse(time.DateOnly, …)` only ever yields days of the years 0000..9999 |
| DateOnly.CivilFromDays | datepicker/picker.go:152 | the calendar date of a day number is valid and maps back to that day number |
| DateOnly.CivilFromDaysOfCivil | datepicker/picker.go:152 | calendar dates and day numbers are in one-to-one correspondence |
| DateOnly.RepresentableYears | datepicker/picker.go:89 | the days whose identity Go's parser accepts are exactly those of the years 0000..9999 |
| DateOnly.ParseFormat | datepicker/picker.go:89 | parsing a day's identity gives the day back when its year is 0000..9999, and an error otherwise |
| DateOnly.FormatParse | datepicker/picker.go:89 | every string that parses is the identity of the day it parses to |
| DateOnly.FormatInjective | datepicker/picker.go:152-156 | two days have the same `time.DateOnly` text exactly when they are the same day, for every year |
| Snowflake.Unix | discord/snowflake.go:23-26 | the result is `s / 2^22 + 1420070400000`, within `[1420070400000, 1420070400000 + 2^42 - 1]`, so the uint64 addition and the int64 conversion never wrap |
| Snowflake.UnixIgnoresLowBits | discord/snowflake.go:3-13 | changing the worker, process and increment bits 21..0 does not change the result |
| Snowflake.UnixMonotone | discord/snowflake.go:25 | a larger snowflake never gives an earlier time |
| Snowflake.UnixDocumentationExample | discord/snowflake_test.go:16-20 | `Unix(175928847299117063) == 1462015105796` |
| Snowflake.UnixSecondExample | discord/snowflake_test.go:21-25 | `Unix(212581406344216578) == 1470753756844` |
| WebhookParams.Succ64 | discord/webhook-params.go:33 | the counter's increment is `x + 1` modulo 2^64 in the int64 range, and exactly `x + 1` below the maximum |
| WebhookParams.Numbered | discord/webhook-params.go:37-43 | adding n texts appends exactly n answers |
| WebhookParams.NumberedIds | discord/webhook-params.go:32-34 | short of overflow, the answers added after counter `last` have ids `last + 1`, `last + 2`, … in order, each carrying its own text, and the counter ends at `last + n` |
| WebhookParams.FreshPollIds | discord/webhook-params.go:20 | from a fresh poll the ids of n answers are exactly 1..n, strictly increasing |
| WebhookParams.NumberedAppend | discord/webhook-params.go:37-43 | adding one more text appends one answer numbered after the batch before it |
| WebhookParams.Poll.constructor | discord/webhook-params.go:15-30 | a poll literal carries the given question, answers, duration and multiselect flag, and its counter is zero |
| WebhookParams.Poll.NextAnswerId | discord/webhook-params.go:32-34 | the counter advances by one (int64 wrap-around) and the new value is returned |
| WebhookParams.Poll.AddAnswer | discord/webhook-params.go:37-43 | one answer is appended at the end, with id the old counter + 1 and the given text. Earlier answers, the question, the duration and the multiselect flag are unchanged |
| WebhookParams.AddAnswers | main.go:24-26 | adding the texts one by one appends `Numbered` of the old counter and advances the counter by their number, and nothing else changes |

## Left out

- View (`datepicker/picker.go:178-201`) is left out. It is terminal rendering through lipgloss and the help widget, and its day delta is wall-clock floating point.
- The key bindings, `key.Matches`, `KeyMap`, `Styles` and `help.Model` are left out. They are UI library tables, so each binding is one `Event` constructor and a message that matches no binding is `Unbound`. The help widget is reduced to its `ShowAll` flag.
- The clock is a parameter. `updateDates` re-reads `time.Now()` on every scroll, and the window property is stated relative to a fixed `today` passed as `now`.
- `time.Time` values are modelled as day numbers. Time of day, locations and `AddDate` are left out. The proleptic Gregorian calendar behind `Format` and `Parse` of `time.DateOnly` is modelled in full.
- DatePicker.GetSelected: Go ranges over the map in an unspecified order, so the model takes any key. Its error carries only the key that failed to parse, not the `fmt.Errorf` message text.
- DatePicker.SortAscending: `slices.SortFunc` with `Time.Compare` is modelled by an insertion sort. Only the result is promised, and an ascending permutation is unique, so that result is the same.
- DatePicker.Run: bubbletea's program loop (`tea.NewProgram`, `p.Run`) is not part of this model. It is taken to deliver messages to `Update` in order and to stop at the first `tea.Quit`.
- The picker's `cursor` and `offset` (`datepicker/picker.go:73-76`) are Go `int`s and are modelled as unbounded integers. Their 64-bit wrap-around is not modelled. The cursor stays in 0..6, and the offset would need about 2^63 scrolls to wrap.
- WebhookParams.Poll.NextAnswerId: the counter is incremented with `sync/atomic` in the source. Calls here are sequential and concurrency is not modelled.
- The rest of `main.go` is I/O and not part of this model: JSON marshalling, the HTTP post, reading the response, stdout/stderr and `os.Exit`.
- `config.go` is not part of this model. It is a wrapper over the flag library and file reading.
- `WebhookParams` fields `Content`, `Username` and `AvatarUrl` are left out. They are only carried to JSON.
