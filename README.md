# Memo persistence and ordering, modelled in Dafny

The application is a small memo pad whose memos carry an `order` field and are kept
one Markdown file per memo (`${id}.md`, a front-matter header of five
`key: value` lines, then the body). It exists in three revisions:

- a DOM-only page that keeps its memos in localStorage (`src/index.ts`);
- a React app that stores the files in a folder picked through the File System
  Access API (`src/useMemos.ts`, `src/repository.ts`, `src/storage.ts`,
  `src/migration.ts`);
- a React client (`frontend/src/useMemos.ts`) talking to a Hono server
  (`backend/src/routes/memos.ts`, `backend/src/storage.ts`).

The project models the core of all three. It has one module per source file, and
the modules share the following definitions:

- `MemoTypes`: the `Memo` record, and a legacy record whose `order` may be missing.
- `Ordering`: the stable sort by order, the renumbering `order := position`, the
  two-`splice` move, removal by id, `findIndex` and the selection rule after a delete.
- `FrontMatter`: the front-matter codec.
  - `escapeYaml` and `unescapeYaml` are three sequential global replaces each.
  - The writer template is split into a backend form and a browser form.
  - `parseMarkdownFile` uses hand-written scanners for its regular expressions:
    - the frame `^---\n([\s\S]*?)\n---\n([\s\S]*)$`;
    - the five field patterns under the `m` flag. `^` matches at the start or
      after any JavaScript line terminator, `\s` is JavaScript's whitespace set,
      and `[^"]+` and `\d+` are greedy runs.
- `MemoFiles`: a directory as a map from file name to content. The order in which
  the directory lists its files is a parameter `listing`, and `Lists(listing,
  files)` says it names every file once.

State that the source updates in place is a class, and its methods have
`modifies` clauses:

- the browser store, with its fields `handle`, `files`, `savedName` and `legacy`;
- the server's directory;
- the DOM page's globals;
- the two hooks' React state;
- the server's routes.

Each of these methods is stated against functions of the old state, and the
properties are lemmas about those functions.

What comes from outside the program is given as parameters:

- ids drawn by `crypto.randomUUID`;
- readings of `Date.now`;
- what the directory picker returns;
- localStorage contents, after `JSON.parse`;
- the outcomes of the client's HTTP calls.

The codec's round-trip limits appear as preconditions and as lemmas:

- An empty title makes the file unreadable (`FrontMatter.EmptyTitleLost`).
- A quote in a title cuts it (`FrontMatter.QuoteInTitleCut`).
- A `\r` in a title starts a new line for the `m` flag's `^`, so a title holding
  `\rorder: 9` is read back with order 9 (`FrontMatter.CarriageReturnInTitleSetsOrder`).
- A backslash followed by `n` in a title comes back as a backslash and a newline
  (`FrontMatter.UnescapeEscapeBackslashN`).
- Every browser save/load cycle puts a newline in front of the body
  (`FrontMatter.BrowserRoundTrip`).
- A legacy memo without an order is written as `order: undefined` and never read
  again (`FrontMatter.LegacyWithoutOrderLost`).

## Model

| member | source | states |
|---|---|---|
| FrontMatter.EscapeIsCharwise | src/storage.ts:150-155 | the three sequential global replaces of `escapeYaml` equal a character-by-character escape of `\`, `"` and newline |
| FrontMatter.EscapeHasNoNewline | backend/src/storage.ts:104-106 | an escaped text holds no newline |
| FrontMatter.EscapeNoLineTerminator | backend/src/storage.ts:104-106 | a text without `\r`, U+2028 or U+2029 escapes to a text without any JavaScript line terminator |
| FrontMatter.EscapePlain | backend/src/storage.ts:104-106 | escaping is the identity on a text without `\`, `"` or newline |
| FrontMatter.UnescapeEscape | backend/src/storage.ts:104-110 | unescaping after escaping restores every text without a backslash |
| FrontMatter.UnescapeEscapeBackslashN | backend/src/storage.ts:104-110 | `\` followed by `n` escapes to `\\n` and comes back as `\` followed by a newline |
| FrontMatter.NatToString | backend/src/storage.ts:23-25 | a number is written as a non-empty digit string without a leading zero |
| FrontMatter.ParseNatToString | backend/src/storage.ts:94-96 | `parseInt` of a written number gives the number back |
| FrontMatter.TakeDigitsSpec | backend/src/storage.ts:82-84 | `\d+` captures the longest digit prefix, ending at a non-digit or at the end |
| FrontMatter.TakeNonQuoteSpec | backend/src/storage.ts:80-81 | `[^"]+` captures the longest quote-free prefix, ending at a quote or at the end |
| FrontMatter.FindShape | backend/src/storage.ts:80-84 | every field capture is non-empty: digits for a number field, quote-free for a quoted field |
| FrontMatter.FindInLines | backend/src/storage.ts:80-84 | on a text with only `\n` line breaks, the multiline scanner equals a line-by-line search for the first line where the pattern matches |
| FrontMatter.SplitFrameSpec | backend/src/storage.ts:73-76 | a matched frame gives front matter and body with content == `---\n` + front matter + `\n---\n` + body |
| FrontMatter.SplitAtClosingFirst | backend/src/storage.ts:73 | the lazy `[\s\S]*?` splits at the first `\n---\n`, and the match fails only when there is none |
| FrontMatter.DecodeSome | backend/src/storage.ts:71-102 | a decoded memo came from a framed text whose five fields all matched; its id is the non-empty quote-free capture, its title the unescaped capture, its numbers the values of digit strings |
| FrontMatter.DecodeNone | backend/src/storage.ts:73-88 | without the frame, or with any of the five fields unmatched, decode returns null |
| FrontMatter.DecodeTemplate | backend/src/storage.ts:71-102 | on any text the writer template produces with one-line fields, decode yields the quote-cut id and unescaped title and the parsed numbers, or null when a cut is empty or the order is `undefined` |
| FrontMatter.DecodeEncode | backend/src/storage.ts:20-27 | for a storable id and a one-line title, reading the written file gives the memo with its title cut at the first quote of its escape and unescaped, or null when that cut is empty |
| FrontMatter.RoundTrip | backend/src/storage.ts:20-27 | decode(encode(m)) == m for a non-empty id without `"` or line terminator, and a non-empty one-line title without `"` or `\` |
| FrontMatter.EmptyTitleLost | backend/src/storage.ts:81-88 | a memo with an empty title is written but decodes to null |
| FrontMatter.QuoteInTitleCut | backend/src/storage.ts:81 | the title `a"b` comes back as `a\` |
| FrontMatter.CarriageReturnInTitleSetsOrder | backend/src/storage.ts:80-85 | a memo titled `a\rorder: 9` is read back with order 9, whatever its order was: `^order:` matches after the `\r` inside the title line, before the real order line |
| FrontMatter.EncodeBrowserIsEncode | src/storage.ts:50-58 | the browser's file is the backend's file for the same memo with `"\n"` in front of its body |
| FrontMatter.BrowserRoundTrip | src/storage.ts:113-147 | reading back a browser file gives the memo with body `"\n" + body`, under the round-trip preconditions |
| FrontMatter.LegacyWithoutOrderLost | src/storage.ts:50-58 | a legacy memo without an order is written with `order: undefined` and decodes to null |
| Ordering.SortByOrder | src/migration.ts:21 | the sort keeps the length and yields a list sorted by ascending order |
| Ordering.SortByOrderPermutes | src/migration.ts:21 | the sort is a permutation (same multiset) |
| Ordering.SortByOrderStable | src/migration.ts:21 | memos of equal order keep their input order, as `Array.prototype.sort` is stable |
| Ordering.SortByOrderOfSorted | src/migration.ts:21 | sorting a sorted list returns it unchanged |
| Ordering.Renumbered | src/index.ts:168-170 | renumbering keeps the length and every field but the order, and gives each memo its position as order |
| Ordering.Renumber | src/index.ts:168-170 | the `forEach` loop that assigns `order := index` computes `Renumbered` |
| Ordering.RenumberedOrders | src/useMemos.ts:182-184 | after renumbering the orders are exactly 0..n-1 |
| Ordering.RenumberedIds | src/index.ts:168-170 | renumbering keeps the ids in place, and ids are unique after it exactly when they were before |
| Ordering.RemoveAtPermutes | src/index.ts:164 | the element removed by `splice(i, 1)` plus the rest is the original multiset |
| Ordering.InsertAtPermutes | src/index.ts:165 | `splice(i, 0, x)` adds exactly `x` to the multiset |
| Ordering.Move | src/index.ts:164-165 | the two splices put the element from `from` at `to`, keep the length and multiset, and leave the rest in order |
| Ordering.MoveToSelf | src/index.ts:164-165 | moving an element to its own position changes nothing |
| Ordering.MoveRenumberedKeepsContents | src/index.ts:164-170 | after the move and the renumbering the orders are positions, the moved memo is at `to`, and the multiset of ids is kept |
| Ordering.MoveKeepsUniqueIds | src/index.ts:164-165 | the move keeps ids unique |
| Ordering.RemoveAtKeepsUniqueIds | src/index.ts:257-258 | removing one memo keeps ids unique |
| Ordering.SortByOrderKeepsUniqueIds | src/index.ts:298 | sorting keeps ids unique |
| Ordering.MoveRenumberedLookup | src/index.ts:164-174 | with unique ids, the selected position still holds a memo after a drop, and `findIndex` of its id is that position |
| Ordering.IdsOfMove | frontend/src/useMemos.ts:145-155 | the ids after a move are the move of the ids |
| Ordering.WithoutId | src/index.ts:257-258 | the filter never lengthens the list and is the identity when the id is absent |
| Ordering.WithoutIdMembers | src/useMemos.ts:181 | the filter keeps exactly the memos whose id differs |
| Ordering.WithoutIdIsRemoveAt | src/index.ts:257-258 | with unique ids, filtering out the id at position k is removing position k |
| Ordering.IndexOfId | src/useMemos.ts:187 | `findIndex` is -1 exactly when no memo has the id, and otherwise the first position holding it |
| Ordering.IndexOfUniqueId | src/index.ts:173-174 | with unique ids, `findIndex` of the id at position k is k |
| MemoFiles.FileName | backend/src/storage.ts:17 | `${id}.md` is a Markdown name that starts with the id |
| MemoFiles.FileNameInjective | backend/src/storage.ts:17 | different ids get different file names |
| MemoFiles.PresentMembers | backend/src/storage.ts:49-57 | the pushed memos are exactly the successful parses: with `Parsed` (each listed file parsed when its name ends in `.md`, nothing otherwise), a memo is pushed exactly when some listed file parses to it |
| MemoFiles.LoadedMemos | backend/src/storage.ts:41-69 | a load is sorted by order, is as a multiset the memos `Parsed` gives for the `.md` files (a memo held by two files loads twice), and contains a memo exactly when some `.md` file of the directory parses to it |
| MemoFiles.LoadedStable | backend/src/storage.ts:67 | files of equal order come out in listing order |
| MemoFiles.OverwrittenLast | backend/src/storage.ts:29 | after a series of writes, a written file holds the value of its last write |
| MemoFiles.OverwrittenOther | backend/src/storage.ts:29 | a file no write touches keeps its state |
| BackendStorage.SavedMemoIsLoaded | backend/src/storage.ts:14-69 | a memo that satisfies the round-trip preconditions is found by the next load after it is saved |
| BackendStorage.MemoDirectory.EnsureDirectory | backend/src/storage.ts:8-12 | the directory exists afterwards and its files are unchanged |
| BackendStorage.MemoDirectory.Save | backend/src/storage.ts:14-30 | the save succeeds exactly when writes succeed, and then replaces `${id}.md` with the encoded memo and no other file |
| BackendStorage.MemoDirectory.Delete | backend/src/storage.ts:32-39 | removes `${id}.md` and no other file, and is a no-op when that file is absent |
| BackendStorage.MemoDirectory.ReadAll | backend/src/storage.ts:44-68 | the loop and the sort compute `Loaded(listing, files)` |
| BackendStorage.MemoDirectory.LoadAll | backend/src/storage.ts:41-69 | the directory is created when missing, its files are unchanged, and the result is `Loaded(listing, files)` |
| BrowserStorage.WrittenLast | src/storage.ts:181-183 | after an import, each legacy memo's file holds the browser encoding of the last memo with that id |
| BrowserStorage.WrittenOther | src/storage.ts:181-183 | an import leaves files that no imported memo maps to unchanged |
| BrowserStorage.MigratedMemoIsLoaded | src/storage.ts:166-192 | after an import, a legacy memo with an order and a round-trippable id and title loads again, with `"\n"` in front of its body |
| BrowserStorage.BrowserStore.constructor | src/storage.ts:4 | a fresh page holds no folder handle and no files; localStorage is as it was |
| BrowserStorage.BrowserStore.SelectDirectory | src/storage.ts:7-21 | a cancelled or failed picker returns null and changes nothing; a picked folder becomes the handle and its name is saved |
| BrowserStorage.BrowserStore.GetDirectoryHandle | src/storage.ts:30-36 | returns the handle of this session and changes nothing |
| BrowserStorage.BrowserStore.Save | src/storage.ts:39-62 | fails without a handle; otherwise writes `${id}.md` with the browser encoding and no other file |
| BrowserStorage.BrowserStore.Delete | src/storage.ts:65-73 | fails without a handle or when the file is missing; otherwise removes `${id}.md` only |
| BrowserStorage.BrowserStore.LoadAll | src/storage.ts:76-110 | empty without a handle; otherwise the `.md` files that parse, sorted by order (`Loaded`) |
| BrowserStorage.BrowserStore.MigrateFromLocalStorage | src/storage.ts:166-192 | returns [] and changes nothing when the item is absent or unparseable; without a handle returns the legacy memos and keeps the item; with one, writes every memo in order and removes the item |
| Migration.FilledKeepsOrdered | src/migration.ts:13-18 | the fill step `Filled` (each memo through `WithOrder` with its position as fallback) returns a memo that has an order as it was |
| Migration.FilledFillsMissing | src/migration.ts:13-18 | in `Filled`, a memo without an order takes its position as order, and every other field is kept |
| Migration.EnsureOrderFieldSpec | src/migration.ts:12-24 | the result has the input's length, is a permutation of the filled input, is sorted by order, and keeps ties in input order |
| Migration.EnsureOrderFieldIdempotent | src/migration.ts:12-24 | normalising a normalised list returns it unchanged |
| Migration.EnsureOrderFieldOfSorted | src/migration.ts:12-24 | a list that is already sorted, with every order present, is returned unchanged |
| Migration.ApplyMigrations | src/migration.ts:27-40 | the result of `applyMigrations` has the input's length, is sorted, is a permutation of the filled input, and is a fixed point of `ensureOrderField` |
| Migration.NewMemoDefaults | src/migration.ts:43-54 | `CreateNewMemo` without a partial: order k, the drawn id, title `new memo {k+1}`, an empty body and createdAt == updatedAt == the clock reading |
| Migration.PartialOverridesDefaults | src/migration.ts:43-54 | the partial is spread last in `CreateNewMemo`, so each field the partial sets overrides its own default, and each field it leaves unset keeps the default |
| Migration.CreateInitialMemos | src/migration.ts:57-59 | `count` memos whose orders are their positions 0..count-1, the i-th being `createNewMemo(i)` |
| Migration.InitialMemosNormalised | src/migration.ts:57-59 | the initial memos are sorted, and `applyMigrations` returns them unchanged |
| VanillaApp.MemoPage.constructor | src/index.ts:7-9 | no memos, position 0 selected, nothing dragged |
| VanillaApp.MemoPage.NewMemo | src/index.ts:21-31 | the new memo's order is the count of memos, its title `new memo {count+1}`, its body empty, and createdAt == updatedAt |
| VanillaApp.MemoPage.SaveToStorage | src/index.ts:177 | localStorage holds the current memos |
| VanillaApp.MemoPage.Init | src/index.ts:282-304 | an empty store is seeded with two new memos of orders 0 and 1, which are saved; otherwise the memos are the stored ones with missing orders filled by position and sorted by order; ids stay unique |
| VanillaApp.MemoPage.DragStart | src/index.ts:114-122 | remembers the dragged memo's id |
| VanillaApp.MemoPage.DragEnd | src/index.ts:188-198 | clears the dragged id |
| VanillaApp.MemoPage.MoveMemo | src/index.ts:164-170 | the two splices and the renumbering leave `Renumbered(Move(memos, from, to))` |
| VanillaApp.MemoPage.Drop | src/index.ts:159-177 | the dragged memo moves to the target's position, orders become positions, the multiset of ids is kept, the selected position is unchanged, and the result is saved |
| VanillaApp.MemoPage.HandleDrop | src/index.ts:150-185 | with no dragged or target id, or the same id, nothing changes; otherwise the drop above happens |
| VanillaApp.MemoPage.ClickSave | src/index.ts:224-235 | only the selected memo changes, in title, body and updatedAt; order and createdAt are kept; the result is saved |
| VanillaApp.MemoPage.ClickAdd | src/index.ts:238-248 | a new memo is appended and saved, and the last position is selected |
| VanillaApp.MemoPage.ClickDelete | src/index.ts:251-277 | with one memo nothing changes; otherwise the selected memo is removed, orders become 0..n-2, the selection moves up unless it was first, and ids stay unique |
| Repository.FileSystemMemoRepository.EnsureDirectory | src/repository.ts:36-39 | true exactly when the store holds a folder handle; nothing changes |
| Repository.FileSystemMemoRepository.RequestDirectory | src/repository.ts:41-44 | true exactly when the picker returned a folder, which then is the handle (so `ensureDirectory` is true afterwards), the saved name and the files; false leaves handle, files and saved name unchanged; localStorage is never touched |
| Repository.FileSystemMemoRepository.LoadAll | src/repository.ts:46-48 | the result of the store's load |
| Repository.FileSystemMemoRepository.SaveOne | src/repository.ts:50-52 | the store's save: fails without a handle, otherwise writes `${id}.md` only |
| Repository.FileSystemMemoRepository.DeleteOne | src/repository.ts:54-56 | the store's delete: fails without a handle or a file, otherwise removes `${id}.md` only |
| Repository.FileSystemMemoRepository.MigrateFromLegacyStorage | src/repository.ts:58-60 | the store's one-shot import, with its three outcomes |
| MemoHook.UpdatedTouchesOnlyId | src/useMemos.ts:154-162 | in `Updated` (the map of `updateMemo`), the memo with the id takes the title, body and clock reading; every memo keeps its id, order and createdAt, and a memo with another id is unchanged |
| MemoHook.UpdatedLastWins | src/useMemos.ts:154-162 | two `Updated` edits of the same memo equal the second alone |
| MemoHook.DeleteSelectsPrevious | src/useMemos.ts:181-189 | with unique ids, deleting the memo at k and taking `IdAt` of `SelectionAfterDelete` (`newMemos[Math.max(0, k - 1)]?.id`) selects the memo above it, or the new first memo when k is 0 |
| MemoHook.MemosHook.constructor | src/useMemos.ts:37-40 | no memos, no selection, edit mode off, status loading |
| MemoHook.MemosHook.SaveAll | src/useMemos.ts:110-120 | saves the memos in order: with a handle every file is written, and without one the first save fails and nothing is written |
| MemoHook.MemosHook.LoadMemos | src/useMemos.ts:78-100 | a non-empty load is taken as it is (`applyMigrations` keeps a load unchanged); an empty one is replaced by the initial memos, which are saved; the first memo is selected; a failed save changes nothing |
| MemoHook.MemosHook.StartWithoutDirectory | src/useMemos.ts:58-73 | without a folder, the status is needDirectory with the migrated legacy memos after `applyMigrations`, or the initial memos when there are none; the first memo is selected |
| MemoHook.MemosHook.InitializeApp | src/useMemos.ts:47-75 | with a folder, status ready with the load, or with the initial memos, which are then written to the folder; localStorage is unchanged; without a folder, the needDirectory outcome |
| MemoHook.MemosHook.Autosave | src/useMemos.ts:104-108 | the files are rewritten from the memos exactly when there are memos, the status is ready and a folder is held |
| MemoHook.MemosHook.SelectDirectory | src/useMemos.ts:125-131 | a failed pick leaves memos, selection, status, handle, saved name and files unchanged; a pick makes the folder the handle and the saved name, loads it (an empty folder receives the initial memos, written into it), selects the first memo and makes the status ready; localStorage is unchanged |
| MemoHook.MemosHook.AddMemo | src/useMemos.ts:134-145 | does nothing unless ready; otherwise appends `createNewMemo(count)`, selects it and turns edit mode on |
| MemoHook.MemosHook.SelectMemo | src/useMemos.ts:148-151 | selects the id and turns edit mode off |
| MemoHook.MemosHook.UpdateMemo | src/useMemos.ts:154-162 | the memos become `Updated(memos, id, title, body, now)` |
| MemoHook.MemosHook.DeleteMemo | src/useMemos.ts:165-194 | with one memo, or when the file delete fails, nothing changes; otherwise the id is filtered out, orders become positions, the memo above is selected, edit mode is off, and only `${id}.md` is removed |
| MemoHook.MemosHook.ReorderMemos | src/useMemos.ts:197-210 | splice-move then renumber; the multiset of ids is kept |
| MemoHook.MemosHook.ToggleEditMode | src/useMemos.ts:213-215 | flips edit mode |
| FrontendHook.SetLookup | frontend/src/useMemos.ts:103-107 | after `set`, the id holds the new edit and every other id what it held |
| FrontendHook.SetKeys | frontend/src/useMemos.ts:103-107 | `set` keeps the keys in insertion order and appends only a new key |
| FrontendHook.SetUnique | frontend/src/useMemos.ts:103-107 | `set` keeps each key once |
| FrontendHook.SetLastWins | frontend/src/useMemos.ts:103-107 | a later edit of the same memo overwrites an earlier one |
| FrontendHook.ClientHook.constructor | frontend/src/useMemos.ts:24-30 | no memos, no selection, edit mode off, status loading, no pending edits |
| FrontendHook.ClientHook.LoadMemos | frontend/src/useMemos.ts:36-57 | a failed load gives status error; an empty list creates exactly one memo; success selects the first memo and gives status ready; a failed create gives error |
| FrontendHook.ClientHook.Flush | frontend/src/useMemos.ts:59-69 | appends `UpdateRequests` of the map to the requests sent: one update per pending entry, in map order, whatever the outcomes; then the map is cleared |
| FrontendHook.ClientHook.SaveEffect | frontend/src/useMemos.ts:71-75 | flushes exactly when edits are pending and the status is ready, and otherwise sends nothing |
| FrontendHook.ClientHook.AddMemo | frontend/src/useMemos.ts:77-90 | sends a create request; the server's memo is appended, selected and edited; on failure nothing else changes |
| FrontendHook.ClientHook.SelectMemo | frontend/src/useMemos.ts:92-95 | selects the id and turns edit mode off |
| FrontendHook.ClientHook.UpdateMemo | frontend/src/useMemos.ts:97-108 | the memo takes the edit; the pending map holds the new edit under the id, and every other entry is unchanged |
| FrontendHook.ClientHook.DeleteMemo | frontend/src/useMemos.ts:110-141 | with one memo nothing is sent or changed; a refused delete changes nothing; otherwise the id is filtered out, orders become positions, the memo above is selected, and edit mode is off |
| FrontendHook.ClientHook.ReorderMemos | frontend/src/useMemos.ts:143-163 | splice-move then renumber, the orders are positions, the ids are kept, and the ids are sent in exactly the new order |
| FrontendHook.ClientHook.ToggleEditMode | frontend/src/useMemos.ts:165-167 | flips edit mode |
| MemoRoutes.FindById | backend/src/routes/memos.ts:23 | `find` gives a memo exactly when some memo has the id, and then the first such memo |
| MemoRoutes.FindUnique | backend/src/routes/memos.ts:23 | with unique ids, `find` gives the one memo holding the id |
| MemoRoutes.ReorderedMembers | backend/src/routes/memos.ts:112-120 | `Reordered` (the map step `Numbered`, then the nulls filtered out) holds exactly the known listed memos, each with its list index as order and every other field kept |
| MemoRoutes.ReorderedOrders | backend/src/routes/memos.ts:112-120 | the orders given are strictly increasing and below the list's length, so unknown ids leave gaps |
| MemoRoutes.ReorderLeavesUnlisted | backend/src/routes/memos.ts:122-124 | a memo whose id is not listed keeps its file as it was |
| MemoRoutes.MemoServer.GetAll | backend/src/routes/memos.ts:8-16 | 200 with the directory's load |
| MemoRoutes.MemoServer.GetOne | backend/src/routes/memos.ts:19-34 | 200 with the first loaded memo of that id, which some file of the directory holds, or 404 |
| MemoRoutes.MemoServer.Create | backend/src/routes/memos.ts:37-58 | a memo with the drawn id, the title `新規メモ` when the input title is empty, the body given, createdAt == updatedAt == now, and order = the count of stored memos is saved and answered with 201; 500 and no change when the save fails |
| MemoRoutes.MemoServer.Update | backend/src/routes/memos.ts:61-85 | 404 and no change for an unknown id; otherwise title and body are replaced only when given, id, createdAt and order are kept, updatedAt is now, and the memo is saved (200), or 500 and no change |
| MemoRoutes.MemoServer.Delete | backend/src/routes/memos.ts:88-104 | 404 and no change for an id no loaded memo has; otherwise 200 and only `${id}.md` is removed |
| MemoRoutes.MemoServer.Reorder | backend/src/routes/memos.ts:107-131 | the known listed memos are saved in list order with their list index as order and returned with 200; when the directory is not writable and there is something to save, the first save fails: 500 and nothing is saved |

## Left out

- Rendering, styling, drag visuals and event wiring are not modelled: they are DOM and React presentation code. The component files and the `App.tsx` files are also left out.
- Timing is not modelled: the 1000 ms debounce, React effect scheduling and `async` interleavings. The client's flush and the autosave are explicit method calls.
- The client's HTTP layer (`getBFF`) is not modelled; each call is a success or failure outcome given as a parameter. The server's request parsing and JSON replies are reduced to decoded parameters and a `(status, payload)` value.
- The server's route dispatch is not modelled: each handler is its own method. In backend/src/routes/memos.ts, `PUT /:id` is registered before `PUT /reorder`, so the client's `PUT /api/memos/reorder` reaches the update handler with id `"reorder"`. That answers 404 unless some memo has that id, and the client's `catch` swallows the error. The handler that `MemoServer.Reorder` models is therefore never reached by the client.
- I/O failures are modelled only where the model has them.
  - The backend models failing writes, as `writable`.
  - The browser models a missing folder handle and a missing file on delete.
  - A failing `mkdir`, `readdir`, `readFile` or `unlink` is not modelled, nor a failing browser write or `localStorage.setItem`. As a result, GET and DELETE on the server never answer 500.
- The localStorage item is kept after `JSON.parse`: `Json(memos)` or `Malformed`. JSON that parses but is not an array of memos is outside the model.
- A legacy `order` that is `null` or `undefined` is modelled as missing. `src/index.ts` `init` fills only `undefined`: a `null` there sorts as 0 and stays `null`, and the model treats it as missing.
- `MemoRoutes.MemoServer.Reorder`: does not model a write that fails part-way. The source saves memo by memo, so a failure at the k-th save leaves the first k-1 files rewritten when the 500 goes out. In the model, writability is fixed for the whole request, so either every save succeeds or the first one fails.
- `MemoHook.MemosHook.SaveAll`: does not model a save that fails part-way. The browser store fails only without a folder handle, which the loop does not change, so either every file is written or the first save fails.
- `MemoHook.MemosHook.ReorderMemos`: does not model aliasing. `forEach` writes `order` into memo objects that the previous React state shares. The same holds for the delete in src/useMemos.ts.
- `Migration.CreateNewMemo`: does not model a partial whose fields are present but `undefined`. Such a partial would write `undefined` over a default; the model's `MemoPatch` has only set or unset fields.
- `MemoRoutes.MemoServer.Create`: takes the input title and body as strings. A missing field acts as the empty string, which is what `||` does for both.
- Numbers are unbounded naturals. Floating-point timestamps and precision, negative numbers and `NaN` are not represented. Every stored number is a digit string, which the codec reads as such.
- Strings are sequences of code points. UTF-16 surrogates, file-system name rules and case-insensitive file systems are not modelled.
- `VanillaApp.MemoPage.HandleDrop`: requires both ids to name memos on the page. The DOM only offers drop targets for rendered memos, and `findIndex` returning -1 is not modelled.
- `MemoHook.MemosHook.ReorderMemos`: requires both indices to be in range. The list component passes only the positions of rendered items. The same requirement holds for `FrontendHook.ClientHook.ReorderMemos`.
- `VanillaApp.MemoPage.Init`: requires the filled store to have unique ids. The page learns ids only from its own new memos.
- `backend/src/repository.ts` and `backend/src/index.ts` are not part of this model: the first is one-line delegation to the storage functions, and the second is server bootstrap.
