# Rotina Ghost activity planner: store, paging and reminders

This project models the core of a small desktop activity planner. The
planner keeps activities in one SQLite table, `atividades`, with columns
`id, nome, inicio, fim, nota, status, tags`. Its window shows the table
through a status filter and a search box, loads the list in pages of 30,
and once a minute reminds the user of pending activities that start within
the next five minutes.

The model has four modules:

- `Table` (`table.dfy`) gives the meaning of each SQL statement the store
  runs, as functions over a sequence of rows kept in rowid order:
  - `UPDATE … WHERE id=?` is `UpdateWhere`;
  - `DELETE … WHERE id=?` is `WithoutId`;
  - `SELECT nota` is `NoteOf`;
  - `SELECT … WHERE status=0` is `PendingOf`;
  - the filtered, ordered, paginated `SELECT *` is `Query`, which is
    `Select`, then `Ordered`, then `Window`.
- `Store` (`store.dfy`) is the `Database` class. It holds the rows and the
  AUTOINCREMENT counter as fields, and its methods change them in place.
- `Reminders` (`reminders.dfy`) is the reminder rule of `notify`:
  - `Scan` is one pass over the pending rows;
  - `Run` is a sequence of timer ticks.
- `App` (`planner.dfy`) is the `Planner` window without its widgets. It has
  the status filter text, the search text, the shown list `lista`, the
  `offset` cursor, the `notificados` set and the empty-result notice.
  - `Planner.Valid` is the invariant every operation keeps: the list shows
    exactly the first `offset` rows of the current listing, in order.

Choices the model makes:

- **Timestamps.** `inicio` and `fim` are whole seconds. The planner writes
  them with `isoformat(" ")` as `YYYY-MM-DD HH:MM:SS` text, with `.ffffff`
  appended when the time has a fraction of a second (main.py:195-196).
  SQLite compares that text as text, and text order is time order. Whole
  seconds drop the fraction, so two starts less than a second apart become a
  tie, which the model then breaks by `id`.
- **Reminder window.** `notify`'s test
  `0 < (start - now).total_seconds() / 60 <= 5` becomes
  `0 < start - now <= 300` on seconds. `ImminentInMinutes` proves the two
  equivalent.
- **Ties in the listing order.** `ORDER BY inicio` leaves the order of rows
  with equal `inicio` open. The model breaks ties by `id`, so that pages
  fit together.
- **Search.** `LIKE '%busca%'` is modelled as a substring test after ASCII
  case folding. An empty search applies no text filter, as `if busca:`
  does. `None` and `""` are treated alike, because the window always passes
  a string.

## Model

| member | source | states |
|---|---|---|
| Table.IndexOf | database.py:77-80 | the position found holds the key; none is found exactly when no row has the key |
| Table.IdentifiesOneRow | database.py:16 | in a table with increasing keys, two positions with the same key are the same position |
| Table.UpdateWhere | database.py:40-45 | same length; each row keyed `id` gets the change and every other row stays unchanged in place |
| Table.UpdateKeepsOrder | database.py:16 | an update keeps every key where it was, so the keys stay unique and increasing |
| Table.WithoutId | database.py:73-75 | a row is kept iff it was in the table and its key is not `id`; a missing id leaves the table unchanged |
| Table.WithoutIdKeepsOrder | database.py:73-75 | deleting keeps the remaining keys unique and increasing |
| Table.NoteOf | database.py:77-80 | a missing id reads ""; otherwise the note of the row with that key |
| Table.NoteReadsBack | database.py:77-84 | after `update_nota(id, t)` on an existing row, `nota(id)` is `t`; on a missing id the table is unchanged and the note reads "" |
| Table.PendingOf | database.py:65-67 | the pending projection is never longer than the table |
| Table.PendingMembers | database.py:65-67 | `pendentes` yields exactly the (id, nome, inicio) of the rows with status 0 |
| Table.PendingAfterToggle | database.py:65-71 | after `toggle(id, s)` on an existing row, that id is pending iff `s` is 0 |
| Table.ContainsIffOccurs | database.py:56-57 | the substring test holds iff the needle occurs at some position of the text |
| Table.SubstringIsLike | database.py:56-57 | text that holds the search string verbatim always matches `LIKE '%busca%'` |
| Table.Select | database.py:48-57 | the WHERE clause never adds rows |
| Table.SelectMembers | database.py:51-57 | a row is selected iff it is in the table, its status equals the filter when one is given, and a non-empty search matches its nome or its tags |
| Table.StatusPartition | database.py:51-53 | with statuses 0 and 1 only, the status-0 and status-1 selections together are exactly the unfiltered selection |
| Table.SortedPairwise | database.py:59 | in the listing order, every row comes before every later one, not just before its neighbour |
| Table.Insert | database.py:59 | inserting into a sorted listing keeps it sorted and adds exactly that row |
| Table.Ordered | database.py:59 | `ORDER BY inicio` (ties by id) gives a sorted permutation of its input |
| Table.Window | database.py:59-60 | `LIMIT l OFFSET o` returns `min(l, n-o)` rows, or none past the end, and they are the consecutive rows from `o` |
| Table.QueryPage | database.py:47-63 | a page of `all` has at most `limit` rows, in listing order with non-decreasing `inicio`, each a row of the table matching the filter |
| Table.PagedFrom | database.py:59-63 | requesting pages from offset `o`, each at the previous offset plus the rows returned, until an empty page, yields the listing from `o` on |
| Table.ScrollingCoversSelection | database.py:59-63 | paging from 0 yields the whole filtered, sorted table: no row twice, none missing |
| Store.Database.constructor | database.py:13-25 | a fresh table is empty and its next key is 1 |
| Store.Database.Add | database.py:32-37 | one new row at the end, keyed above every key issued so far, with the given nome/inicio/fim/tags, nota "" and status 0; existing rows untouched |
| Store.Database.Update | database.py:40-45 | only nome/inicio/fim/tags of the row keyed `id` change; keys, notes, statuses and other rows stay; a missing id changes nothing |
| Store.Database.Toggle | database.py:69-71 | only that row's status changes; afterwards the row is pending iff the new status is 0; a missing id changes nothing |
| Store.Database.Delete | database.py:73-75 | only the row keyed `id` goes; afterwards no row has that key and `nota(id)` reads "" |
| Store.Database.UpdateNote | database.py:82-84 | only that row's note changes; `nota(id)` then reads the new note, or "" with the table unchanged when the id is missing |
| Reminders.ImminentInMinutes | main.py:270-273 | the window on seconds `0 < start-now <= 300` is the window on real minutes `0 < diff <= NOTIFICATION_MINUTES` |
| Reminders.ScanSound | main.py:266-277 | every reminder shown is a pending row, imminent, whose id was not yet notified, and no id is shown twice in one call |
| Reminders.ScanComplete | main.py:266-277 | every pending row that is imminent and whose id was not yet notified gets its id notified |
| Reminders.CompletedNeverNotified | main.py:266 | a row whose status is not 0 is never reminded of, because only `pendentes` is scanned and keys are unique |
| Reminders.RunNeverRepeats | main.py:264-277 | over any sequence of `notify` calls, each run to completion before the next, `notificados` only grows, by exactly the ids shown, and no id is shown twice |
| Reminders.ShowThenRecordRepeats | main.py:260-277 | as written, a tick that runs `notify` while a reminder's box is still open, with the activity still inside its window, shows that reminder a second time |
| Reminders.ShownTwice | main.py:274-277 | an activity at 300 s, a call at 0 s and a tick at 60 s inside its box give the same reminder twice |
| Reminders.RecordThenShowNeverRepeats | main.py:274-277 | recording the id before showing the box, a tick inside the box repeats no reminder and shows no id notified before |
| App.StatusFilter | main.py:209-213 | "Pendentes" maps to status 0, "Concluídas" to 1, and every other text to no status filter, both ways |
| App.FilterShows | main.py:209-215 | the listing under a combo-box choice holds exactly the table rows that match the search, with status 0 under "Pendentes" and 1 under "Concluídas" |
| App.NoteInvisible | main.py:59-61 | saving a note does not change what the list shows, so the dialog needs no reset |
| App.EntryIsRow | main.py:218-222 | each list entry is the stored row with that key, column for column, and no other row has the key |
| App.ToggleFlips | main.py:247 | the menu's `0 if status else 1` flips the row between open and completed |
| App.NextPage | main.py:215-226 | appending the page at `offset` and advancing by its length keeps the list a prefix of the listing; the page is empty only at the end, and then the list shows the whole listing |
| App.Render | main.py:218-224 | the loop builds one entry per returned row, in order |
| App.AsTuple | database.py:63 | with no row factory, a fetched row is the tuple of its seven columns in table order |
| App.Subscript | main.py:219 | a Python tuple subscript: a position in range (negative from the end) gives that cell, another position raises IndexError, and a column name raises TypeError |
| App.StartupPageNonEmpty | main.py:174 | the first page `__init__` asks for, under "Todos" and an empty search, is non-empty exactly when the table holds a row |
| App.Planner.constructor | main.py:107-174 | filter "Todos", empty search, nothing notified, the first page loaded by `reset`, `offset` its length, and the notice shown iff it is empty |
| App.Planner.Reset | main.py:203-206 | the list becomes exactly the first page, `offset` becomes its length, and the notice shows iff that page is empty |
| App.Planner.Load | main.py:208-226 | appends the page at the old `offset` in order, advances `offset` by the rows returned (not by PAGE_SIZE), shows the notice iff the page is empty at offset 0, and keeps `Valid`; after an empty page the list shows the whole listing |
| App.Planner.LoadAsWritten | main.py:208-226 | as written: the notice is set as in `load`, a non-empty page raises TypeError at the first `r["nome"]`, and the list and `offset` stay as they were |
| App.Planner.Add | main.py:190-201 | an empty name changes neither the store nor the list, `offset` or the notice; otherwise the store gains the new row, its key counter advances by one, and the list is reset, with `offset` its length and the notice shown iff it is empty |
| App.Planner.ToggleItem | main.py:232-248 | the store's key counter stays; the status of the entry's row is flipped in the store and the list is reset, with `offset` and the notice as `reset` leaves them; no entry at the position means no change |
| App.Planner.DeleteItem | main.py:249-252 | the store's key counter stays, so a deleted key is never issued again; on confirmation the entry's row is deleted, no list entry keeps its key, and the list is reset, with `offset` and the notice as `reset` leaves them; otherwise nothing changes |
| App.Planner.SaveNote | main.py:59-61 | the store's key counter stays; the entry's note becomes the text and reads back as the text; the list stays valid without a reset |
| App.Planner.ChooseStatus | main.py:150 | a new combo-box choice resets the list to the first page under that filter, with `offset` its length and the notice shown iff it is empty; the search text and `notificados` stay |
| App.Planner.Search | main.py:154 | a new search text resets the list to the first page under that search, with `offset` its length and the notice shown iff it is empty; the filter and `notificados` stay |
| App.Planner.Notify | main.py:264-277 | the reminders shown are exactly one `Scan` of `pendentes` from the old `notificados`, and `notificados` grows by exactly their ids |

## Left out

- The SQLite connection, `CREATE TABLE`/`CREATE INDEX` and the commits (database.py:7-30) are storage plumbing. Indexes change speed, not results.
- `Database.backup` (database.py:86-91) is left out. It is a best-effort file copy that swallows every error, so it has no effect on the table.
- Table.Like: `%` and `_` inside the search text act as wildcards in SQLite. The model treats them as ordinary characters.
- Table.Like: case folding covers ASCII letters only, as SQLite's built-in LIKE does.
- Table.Ordered: ties between equal `inicio` are broken by `id`. SQLite leaves that order open.
- Store.Database.Add: AUTOINCREMENT is modelled as a counter that starts at 1. The counter persisted across runs in `sqlite_sequence` is not modelled. A new key is still above every key issued by the counter.
- `Database.nota`, `pendentes` and `all` are the one-line accessors `Store.Database.Nota`, `Pendentes` and `All`. Their meaning and properties are carried by `NoteOf`, `PendingOf` and `Query`.
- App.Planner.Load, App.Planner.constructor, App.Planner.Reset, App.Planner.Add, App.Planner.ToggleItem, App.Planner.DeleteItem, App.Planner.ChooseStatus and App.Planner.Search: all of them reach the list through `load`, which the model reads as evidently intended, taking each row's columns by name. As written, each of them clears the list and then raises on a non-empty first page; see "## Findings".
- Reminders.RunNeverRepeats and App.Planner.Notify: each `notify` call is taken to run to completion before the next tick. As written, a tick inside an open reminder box can show the same reminder again; see "## Findings".
- Table.PendingOf: `pendentes` has no ORDER BY, so SQLite leaves its order open. The model fixes rowid order, and that order is the order in which one `notify` call shows its reminders.
- App.Planner.constructor: the store is a parameter. `Database()` opens whatever `rotina.db` already holds, so the model starts from any store that satisfies `Valid`.
- All Qt presentation is left out, because it is display only: widgets, styles and themes, `ItemAtividade` formatting, message boxes, the date/time editors, and clearing the name and tags boxes after `add`.
- `open_note` is the dialog that displays `nota(id)`. Only its save action is modelled, as `SaveNote`.
- The context menu is reduced to a list position plus a confirmation flag.
- The scroll-bar handler (main.py:228-230) only calls `load`, so it is modelled as `Load` itself.
- The clock and the timer are parameters: `datetime.now()`, `datetime.fromisoformat` and the 60-second `QTimer` (main.py:259-265, main.py:270). `now` and the start times are passed in as seconds.
- The reminder text and its `int(diff)` minute count are left out, because they are display only.
- Threads, signals and re-entrancy between Qt callbacks are left out, apart from the reminder box under "## Findings". Each operation is taken as atomic.
- `resource_path` (main.py:28-33, utils.py:4-9) is left out. It is an environment and path lookup.
- auto_git_push.py is not part of this model. It is a file watcher that shells out to git.

## Findings

| source | as written | input that shows it | evidently intended | confidence | as-written member | corrected member |
|---|---|---|---|---|---|---|
| main.py:208-226, database.py:7-9, database.py:63 | the connection sets no row factory, so `fetchall()` returns tuples, and `load` reads `r["nome"]`; a tuple subscripted by a string raises TypeError, so no entry is ever added, `offset` never advances, and `__init__`'s `reset` (main.py:174) raises whenever the table holds a row | any non-empty page, e.g. a table with one activity at start-up under "Todos" and an empty search | each row's columns are read by name, one entry is appended per row, and `offset` advances by the rows returned (for instance with `conn.row_factory = sqlite3.Row`) | high, not executed | App.Planner.LoadAsWritten | App.Planner.Load |
| main.py:260-262, main.py:274-277 | the modal `QMessageBox.information` is shown before `self.notificados.add(id_)`, and the timer keeps firing in the box's event loop, so a tick while the box is open sees the id as not yet notified | one pending activity starting at 300 s, `notify` at 0 s, the box left open past the tick at 60 s: the reminder is shown twice | the id is recorded before the box is shown, so each activity is reminded of once | medium, not executed | Reminders.ShowThenRecordRepeats | Reminders.RecordThenShowNeverRepeats |
