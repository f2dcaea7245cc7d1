# CodeSharer: snippet stores and editor controller, in Dafny

CodeSharer is a desktop snippet manager. It has a backend service for sharing snippets. This project models three parts of it:

- **The share registry** (`ShareApi`, share_api.dfy). This is the backend's `shared_snippets` table: a map from an 8-character public share id to content, language, creation time and an optional expiry. `CreateSnippet` first validates the request. It then draws random ids from the 62 letters and digits until one is not in the table, and stores the row. An expiry past the end of the `datetime` range raises before the row is stored, and the service answers 500. Otherwise it answers with the id, the url `base_url + "/api/snippets/" + id` and the expiry. `GetSnippet` answers 404 for a missing id. It deletes an expired row and answers 404. Otherwise it returns the row. The pure functions `Fetch` and `Publish` describe the effect on the table, and the lemmas are stated over them.
- **The local store** (`SnippetDb`, snippet_db.dfy). This is the desktop's SQLite `snippets` table, a class holding `map<int, Record>` and the AUTOINCREMENT counter `lastId`. A ghost set `issued` holds every id ever handed out, so the model can say that ids are never reused. Both timestamps are set on insert. On update, the trigger refreshes `updatedAt` to the clock. The listing is ordered by `updatedAt` descending, and equal timestamps may come in any order.
- **The editor controller** (`Editor`, editor.dfy). This is the non-widget part of the main window: the current snippet id, and the list of (id, text, hidden) items that the window edits in place. It also covers the save / delete / new actions against the local store, the case-insensitive filter, loading the list, selecting a row, and the checks made before a snippet is shared.

Text (text.dfy) holds the Python string operations the three rely on: `strip()`, `lower()` and `in`. Wrappers (wrappers.dfy) holds `Option` and `Result`.

The models take several things as parameters:
- The clock is an integer `now`, in seconds; a day is 86400 seconds.
- The base url of the service is `baseUrl`.
- The random source of the share-id generator is a stream `pick: nat -> nat`. Draw `k` uses the picks `k*8 .. k*8+7`, each reduced modulo 62.
- The user's answers to the confirmation and share dialogs are a boolean and a choice index.
- The language box's values are the set `languages`.

The design description of this system and its code disagree in a few places. The model follows the code:
- The local store validates nothing. It accepts empty titles and content.
- `update_snippet` on a missing id silently changes nothing; it does not report not-found.
- The listing has no tie-break on the id.
- The save action strips the title but not the content.
- After an update, the window renames the snippet's item where it stands; it does not move it to the front of the list. A listing of the store would put it first when its `updatedAt` is the latest (`SnippetDb.LatestComesFirst`).
- The share registry checks that an id is free before inserting it. It does not retry after a uniqueness violation at commit.

## Model

| member | source | states |
|---|---|---|
| Text.Strip | main.py:143 | `strip()` leaves no whitespace at either end; it is empty exactly when every character is whitespace |
| Text.StripIsSlice | main.py:143 | the stripped string is the contiguous slice of the input between a whitespace-only prefix and a whitespace-only suffix |
| Text.Lower | main.py:115-118 | `lower()` keeps the length, leaves no upper-case ASCII letter, maps each upper-case letter to the lower-case letter of the same place, and keeps every other character |
| Text.LowerIdempotent | main.py:115-118 | lower-casing twice is the same as lower-casing once |
| Text.ContainsIff | main.py:119 | the substring test `needle in haystack` holds exactly when the needle occurs at some position |
| Text.EmptyIsContained | main.py:119 | the empty string is in every string |
| ShareApi.Candidate | backend/api_server.py:100 | each draw has the requested length, and every character is one of the 62 letters and digits |
| ShareApi.GenerateShareId | backend/api_server.py:97-103 | the id returned has the requested length, uses only the 62 symbols, is not a key of the table, and is the first draw that is not a key |
| ShareApi.Validate | backend/api_server.py:118-119 | a request is refused with 422 when `expires_in_days` is below 1; otherwise with 400 exactly when the content is all whitespace |
| ShareApi.ExpiresAt | backend/api_server.py:123-125 | the expiry is absent exactly when no number of days is given (or the falsy 0); otherwise it is that many days after now, strictly later than now, and within the `datetime` range whenever the computation does not overflow |
| ShareApi.ShareUrl | backend/api_server.py:140-141 | the url starts with the base url and ends with the share id |
| ShareApi.Publish | backend/api_server.py:127-135 | the new row is stored under the id with the request's content and language, created now; every other row is kept, and a fresh id adds exactly one row |
| ShareApi.Fetch | backend/api_server.py:156-169 | a fetch succeeds exactly when the row exists and is not expired, returning its content unchanged; otherwise it is 404 and the id is absent afterwards; a fetch only ever removes that one row |
| ShareApi.Registry.constructor | backend/api_server.py:79-81 | the table starts empty |
| ShareApi.Registry.CreateSnippet | backend/api_server.py:108-145 | an invalid request answers its error and leaves the table unchanged; a valid one whose expiry overflows the `datetime` range answers 500 and stores nothing; any other valid one allocates a fresh 8-symbol id, stores the row as `Publish` says, and answers with the id, its url and its expiry |
| ShareApi.Registry.GetSnippet | backend/api_server.py:148-169 | answers and changes the table as `Fetch` says |
| ShareApi.NotFoundIsFinal | backend/api_server.py:161-165 | after a fetch answered 404, the next fetch of that id, at any later time and with no create in between, answers 404 too (a create may draw the same id again) |
| ShareApi.FetchAfterPublish | backend/api_server.py:161-169 | a published snippet is served with its content, language and creation time until its expiry, and forever without one |
| SnippetDb.Store.constructor | database/db_handler.py:19-47 | a fresh database holds no rows and has issued no ids |
| SnippetDb.Store.AddSnippet | database/db_handler.py:55-69 | inserts one row with the given title, content and language (default plaintext) and both timestamps at now; the id is larger than every id issued before, deleted ones included |
| SnippetDb.Store.GetSnippetById | database/db_handler.py:83-90 | the full row for a present id, None otherwise |
| SnippetDb.Store.UpdateSnippet | database/db_handler.py:92-104 | overwrites title, content and language of the matching row and sets its `updatedAt` to now, keeping `createdAt` and every other row; on an absent id nothing changes |
| SnippetDb.Store.DeleteSnippet | database/db_handler.py:106-115 | removes the row if present and is a no-op otherwise; afterwards the id is not found |
| SnippetDb.Store.GetAllSnippets | database/db_handler.py:71-81 | lists every row exactly once as (id, title, language, updated_at), ordered by `updatedAt` descending |
| SnippetDb.MostRecent | database/db_handler.py:78 | picks a row whose `updatedAt` is the latest among the given keys |
| SnippetDb.LatestComesFirst | database/db_handler.py:78 | in any listing, a row touched strictly later than all others comes first |
| Editor.FilterHidesExactlyNonMatches | main.py:113-119 | the filter keeps ids, texts and order, and hides an item exactly when the lower-cased search text occurs nowhere in its lower-cased text |
| Editor.EmptySearchHidesNothing | main.py:113-119 | with an empty search text no item is hidden |
| Editor.FindItem | main.py:161-164 | finds the first row whose item carries the id, or reports that no item does |
| Editor.Renamed | main.py:161-164 | only the first item carrying the id gets the new text; ids, hidden flags and all other texts stay |
| Editor.DisplayTitle | main.py:107 | a stored empty title is shown as the placeholder, any other title as itself; the shown text is never empty |
| Editor.LoadedItemsMatchStore | main.py:104-110 | for any listing of the store, the loaded list has one visible item per stored snippet and no other, each snippet once, showing its title or the placeholder, ordered by `updatedAt` descending |
| Editor.ShareDurationsAccepted | main.py:38-41 | every duration the share dialog offers passes the service's `expires_in_days >= 1` check |
| Editor.BlankContentPassesClientCheck | main.py:189-191 | any non-empty whitespace-only content passes the share action's emptiness check but the service refuses it with 400 |
| Editor.MainWindow.constructor | main.py:59-67 | a new window has no current snippet and shows the store's listing |
| Editor.MainWindow.FilterSnippetsList | main.py:113-119 | every item's hidden flag is recomputed from the search text; nothing else in the list changes |
| Editor.MainWindow.SearchChanged | main.py:86 | a new search text refilters the list |
| Editor.MainWindow.LoadSnippetsList | main.py:102-111 | the list becomes the filtered items of a listing of the store, with no current row |
| Editor.MainWindow.SelectSnippet | main.py:121-131 | the clicked row becomes current and its snippet's title, content and language (plaintext if the box lacks it) fill the editor when the store has it |
| Editor.MainWindow.NewSnippet | main.py:133-139 | nothing is current and the editor is cleared to plaintext |
| Editor.MainWindow.CreateCurrent | main.py:149-156 | adds the snippet to the store under an id never issued before (and issues no other), makes it current, puts its item first and selects it |
| Editor.MainWindow.UpdateCurrent | main.py:158-164 | updates the current snippet's row in the store (nothing if it is gone), issues no id, and renames its first list item |
| Editor.MainWindow.RenameItem | main.py:161-164 | the list becomes `Renamed` of the old list |
| Editor.MainWindow.SaveSnippet | main.py:141-167 | a blank title or empty content changes nothing; with no current id the snippet is added under a newly issued id, which becomes current, and its item is inserted first; with a current id the store row is updated, no id is issued, and only its first item is renamed; the list is then filtered |
| Editor.MainWindow.DeleteSnippet | main.py:169-183 | with no current id, no current row or no confirmation nothing changes; otherwise the row is deleted from the store (its id stays issued), its item leaves the list, the editor is reset and the search text stays |
| Editor.MainWindow.ShareSnippet | main.py:185-196 | a request is produced exactly when there is a current id, non-empty content and an accepted dialog; it carries the editor's content and language and the chosen duration `ShareDurations[choice]` (1, 7, 30 days or none), which the service never refuses with 422; the service refuses it with 400 exactly when the content is all whitespace |

## Left out

- Qt widgets, message boxes and dialogs are left out. Their layout and display are not modelled; the user's answers to dialogs are parameters, and the text boxes and the editor are plain strings.
- Editor.MainWindow.SelectSnippet: models the editor as plain text. In the window, `setText` (main.py:131) guesses whether the stored content is HTML and, if so, loads it as rich text, so `toPlainText()` (main.py:144 and 189) can return a different string: markup is dropped, U+00A0 becomes a space and U+2028/U+2029 become line breaks. A save or share after selecting such a snippet then writes or sends that converted text. The model keeps the stored content unchanged, which matches the window only for content the format guess takes as plain text.
- The syntax highlighter (widgets/syntax_highlighter.py) and the filling of the language box from the lexer library are left out. Both rest on a library this model cannot see, so the box's values are the parameter `languages`.
- The network part of `share_snippet` is left out: the POST to the service, the clipboard, and the error dialogs for transport failures. This is I/O. The model ends at the request that would be sent.
- The FastAPI routing, the SQLAlchemy engine and sessions, uvicorn, environment configuration and console output are left out. These are framework and I/O; `baseUrl` is a parameter.
- Storage faults and connection handling in both stores are left out. The model has no failing storage.
- Concurrent requests are left out. The registry's check-then-insert race (backend/api_server.py:102 and 134-135) and the unique constraint that would reject a duplicate at commit are not modelled. Only the sequential behaviour is modelled.
- The expiry overflow is modelled on whole seconds since 1970-01-01 (`MaxTimestamp` is the last second of 9999-12-31). The microseconds of the clock are left out; they cannot push a whole second inside the range past its end.
- Real time is left out. `created_at` and `expires_at` of one share use the same `now`, although the service reads the clock twice. Timestamps are whole seconds, not datetimes or SQLite text.
- The registry's integer primary key column and the 12-character limit of the `share_id` column are left out. They do not affect behaviour at length 8.
- The local store's 64-bit rowid limit is left out: ids are unbounded integers. A `NULL` language, which the window never sends, is also not modelled.
- `init_db` on an existing database is left out. The store's constructor models a fresh database only.
- ShareApi.Registry.constructor: models a fresh database only. `create_all` (backend/api_server.py:79-81) creates the table only when it is missing, so after a restart the stored shares remain; the model starts from an empty table.
- The application's top-level exception handler in `main()` is left out.
- Text.Lower: lower-cases ASCII letters only, because Python's `str.lower()` uses Unicode case mappings that this model does not include.
- ShareApi.GenerateShareId: requires that some draw of the random stream is not yet a key. Without one, the source's `while True` loop never returns, and a terminating method cannot model that.
- ShareApi.Registry.CreateSnippet: carries the same requirement on the random stream for a request that passes validation, because only such a request reaches the generator.
- ShareApi.Registry.CreateSnippet: does not model the 50-character limit of the `language` column (backend/api_server.py:44). Whether it is enforced depends on the database behind `DATABASE_URL`: SQLite ignores it, while PostgreSQL rejects a longer language at commit (backend/api_server.py:135), so the service answers 500 and stores no row. The model accepts any language and stores the row.
