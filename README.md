# rowsy sync and reconciliation layer, in Dafny

This project models the layer of rowsy that sits around its merge engine, a collaborative spreadsheet editor:

- **Patch reconciler** (`Reconciler`, `LocalSession.Sheet.ApplyPatchesToStore`). A batch of path-addressed patches copies document subtrees into the UI store. It works at three levels: a whole top-level region, one item, or one leaf. A set of already-copied region keys stops a region being copied twice in one batch. As in the source, a key is the region's path parts joined with ".". The batch is also defined with keys compared as whole paths. The two batches agree whenever no path part contains ".". Writes go straight into the store, so a patch that throws leaves earlier writes in place.
- **Client session** (`LocalSession.Sheet`). Holds the document, the sync state, the socket's open flag, the debounced save timer and the store. Covers the open, message and close handlers, `changeDoc`, the mount step and the cleanup flush.
- **Bounded sync exchange** (`SyncExchange`). Client and relay both ask the engine for up to 100 messages, stopping at the first absent one.
- **Relay session** (`Relay.SheetServer`):
  - loads once, and writes a synthesized document back when nothing was stored;
  - keeps a map from connection id to sync state;
  - answers the sender, then fans out to every other connection and drops the state of connections whose socket throws;
  - coalesces saves behind a pending flag.
  - `Relay.MakeInitialDoc` builds the initial document.
- **Schema migrator** (`Migrations`). The "arrays-to-maps" migration turns legacy `columns`/`rows` lists into id-keyed maps with zero-padded order keys. The driver applies the registry in order and records names.
- **Ordering** (`Ordering.SortByOrder`). A stable sort of a map's values by their string `order` key.
- **Table edits** (`TableView.Draft`). The `changeDoc` closures of the table view, on the list-shaped document of `Schema`.

The merge engine stays opaque:
- `D`, `S` and `M` are its document, sync-state and message types.
- `generateSyncMessage`, `receiveSyncMessage`, `change`, `diff` and the document's JSON view are function parameters.
- A result `None` from one of them means the call threw.
- Socket writes and storage writes are logs that the methods append to.
- Failing sockets are a given set of connection ids whose `send` throws.

Where the code and the documented design differ, the model follows the code:
- A client with nothing stored keeps the empty document; no initial document is synthesized on the client.
- A client whose load or migration throws falls back to the empty document; it does not keep the unmigrated one.
- The migration keeps only the last element of a list with a duplicated id, so rows or columns can be dropped.
- The relay's initial sheet is named "Untitled Sheet".
- Neither loop logs anything when it reaches the 100-message cap.

## Model

| member | source | states |
|---|---|---|
| Json.Put | client/src/sheet/useSheet.ts:33-53 | a property write stores the value under its key and leaves every other key; on an object, or on an array index that exists, it never throws |
| Json.Lookup | client/src/sheet/useSheet.ts:45-46 | only containers have properties to read |
| Reconciler.Region | client/src/sheet/useSheet.ts:32-54 | the region a patch copies is a non-empty prefix of its path: the top entry for length 1-2, the item for length 3, the path itself beyond |
| Reconciler.EnsureTop | client/src/sheet/useSheet.ts:38 | afterwards the top entry is present and truthy; a truthy one is kept; a missing or falsy one becomes `{}`; no other entry changes |
| Reconciler.EnsureTopFrame | client/src/sheet/useSheet.ts:38 | creating the top entry changes nothing at any path other than the root and that entry |
| Reconciler.WriteLeafFrame | client/src/sheet/useSheet.ts:47-53 | the walk to a leaf changes nothing at paths neither above nor below the leaf |
| Reconciler.WriteLeafCovers | client/src/sheet/useSheet.ts:47-53 | a walk that does not throw leaves the document's value at the leaf |
| Reconciler.WriteLeafAbsent | client/src/sheet/useSheet.ts:53 | with no document value at the leaf the walk throws (`JSON.parse(undefined)`) |
| Reconciler.WriteLeafSame | client/src/sheet/useSheet.ts:47-53 | walking to a leaf that already holds the value changes nothing |
| Reconciler.WriteFrameItem | client/src/sheet/useSheet.ts:36-41 | an item copy changes nothing outside the item |
| Reconciler.WriteFrameLeaf | client/src/sheet/useSheet.ts:43-54 | a leaf copy changes nothing at paths neither above nor below the leaf |
| Reconciler.WriteFrame | client/src/sheet/useSheet.ts:32-54 | one patch's copy leaves every path unrelated to its region unchanged, whether or not it throws |
| Reconciler.WriteCovers | client/src/sheet/useSheet.ts:32-54 | a copy that does not throw makes the store equal to the document on the region, and the document has a value there |
| Reconciler.WriteSame | client/src/sheet/useSheet.ts:32-54 | copying a region the store already agrees on changes nothing and does not throw |
| Reconciler.WriteAbsent | client/src/sheet/useSheet.ts:33-53 | a patch whose region the document lacks throws |
| Reconciler.WritePreservesAgree | client/src/sheet/useSheet.ts:32-54 | a successful copy keeps every other region the store agreed on |
| Reconciler.StepAgree | client/src/sheet/useSheet.ts:28-56 | one patch keeps all recorded regions in agreement, records no fewer, and covers its own region |
| Reconciler.RunAgree | client/src/sheet/useSheet.ts:28-56 | a batch that does not throw covers the region of every patch it saw |
| Reconciler.ReconcileCovers | client/src/sheet/useSheet.ts:23-59 | after a batch that does not throw, the store equals the document on the region of every non-empty patch |
| Reconciler.ReconcileFrame | client/src/sheet/useSheet.ts:23-59 | any store path related to no patch's region is unchanged, for any keying and even when the batch throws |
| Reconciler.EmptyPathsIgnored | client/src/sheet/useSheet.ts:24-29 | an empty batch, or one of empty paths only, leaves the store as it was |
| Reconciler.RemovedKeyThrows | client/src/sheet/useSheet.ts:33-53 | a patch whose region the document no longer has makes the batch throw rather than delete, wherever in the batch it is reached without being skipped |
| Strings.JoinInjective | client/src/sheet/useSheet.ts:31-44 | joining by a separator that no part contains maps distinct non-empty part lists to distinct strings |
| Reconciler.ReconcileJoinedAsPaths | client/src/sheet/useSheet.ts:23-59 | when no path part contains ".", the batch keyed by joined strings writes the same store, and throws in the same cases, as the batch keyed by paths |
| Reconciler.ReconcileJoinedCovers | client/src/sheet/useSheet.ts:23-59 | when no path part contains ".", a batch keyed as the source keys it that does not throw leaves the store equal to the document on every patch's region |
| Reconciler.JoinedKeySkipsDottedItem | client/src/sheet/useSheet.ts:31-44 | with keys joined by ".", a batch can succeed while leaving an item that differs from the document |
| LocalSession.InitialStore | client/src/sheet/useSheet.ts:11-15 | the store starts with exactly the regions meta, columns and rows |
| LocalSession.Sheet.constructor | client/src/sheet/useSheet.ts:10-21 | empty document, fresh sync state, no socket, no timer, nothing sent or saved |
| LocalSession.Sheet.ApplyPatchesToStore | client/src/sheet/useSheet.ts:23-59 | the in-place loop, recording `top`, `top.item` and the joined leaf path as the source does, leaves the store and the outcome that the batch specification `Reconcile` gives with keys joined by "." |
| SyncExchange.ExchangeSends | client/src/sheet/useSheet.ts:76-82 | at most 100 messages, each the engine's message for the state the previous call returned; it stops at the first absent one and keeps the last returned state |
| LocalSession.Sheet.SendSync | client/src/sheet/useSheet.ts:74-83 | nothing when the socket is not open; otherwise the sync state and the messages sent are those of the bounded exchange |
| LocalSession.Sheet.ScheduleSave | client/src/sheet/useSheet.ts:66-72 | a timer is pending afterwards, and a new one is started only when none was |
| LocalSession.Sheet.SaveTimerFires | client/src/sheet/useSheet.ts:68-71 | the timer is cleared and the current document saved once |
| LocalSession.Sheet.Cleanup | client/src/sheet/useSheet.ts:141-147 | the socket is closed; the document is saved synchronously exactly when a timer is pending |
| LocalSession.Sheet.OnOpen | client/src/sheet/useSheet.ts:116-120 | connected, a fresh sync state, then one bounded exchange from it |
| LocalSession.Sheet.OnClose | client/src/sheet/useSheet.ts:122 | disconnected |
| LocalSession.Sheet.AfterNewVersion | client/src/sheet/useSheet.ts:135-137 | reconcile the diff; if that throws, no sync and no save; otherwise one exchange and a scheduled save |
| LocalSession.Sheet.OnMessage | client/src/sheet/useSheet.ts:124-138 | text frames change nothing; a binary frame takes the new document and state from the engine, or changes nothing if the engine throws, then reconciles, syncs and saves |
| LocalSession.Sheet.ChangeDoc | client/src/sheet/useSheet.ts:85-91 | a throwing change changes nothing; otherwise the new document is reconciled from the previous version, synced and saved |
| LocalSession.Sheet.Mount | client/src/sheet/useSheet.ts:93-105 | nothing stored keeps the document; a loaded document is reconciled in full, and any throw falls back to the empty document; ready afterwards |
| Relay.SendRoundSends | server/src/worker.ts:79-89 | a missing state counts as fresh; at most 100 messages in order, up to the first absent one; the final state is stored under that id only; a failing socket throws on its first message and stores nothing |
| Relay.SheetServer.WriteExchange | server/src/worker.ts:81-87 | the loop writes each engine message to the socket as it comes, up to `Cap` and stopping at the first absent one, and ends with the exchange's final state; a failing socket throws on its first message and nothing is written |
| Relay.SheetServer.SendSyncMessages | server/src/worker.ts:79-89 | the loop writes exactly the round's messages to that connection and leaves the round's states |
| Relay.MessagesToTag | server/src/worker.ts:86 | a batch written to one connection is seen, whole and in order, by that connection only |
| Relay.FanOutUntouched | server/src/worker.ts:125-132 | the sender and the connections not listed keep their sync entries and are written nothing |
| Relay.FanOutServed | server/src/worker.ts:125-132 | with distinct ids, a listed connection other than the sender ends with the exchange's final state from its own state, or no state when its socket threw, and receives exactly that exchange's messages |
| Relay.FanOutIsolated | server/src/worker.ts:125-132 | with distinct ids, each other connection is served once from its own state and gets its messages once, in order; a failing one loses its state; the sender and unlisted connections are untouched |
| Relay.SheetServer.FanOutLoop | server/src/worker.ts:125-132 | the loop leaves the states and the log of the fan-out specification |
| Relay.SheetServer.constructor | server/src/worker.ts:45-48 | no document, not loaded, no states, no pending save |
| Relay.SheetServer.EnsureLoaded | server/src/worker.ts:50-63 | nothing once loaded; otherwise the stored document, or the synthesized one written to storage at once; bytes that fail to load leave it unloaded |
| Relay.SheetServer.ScheduleSave | server/src/worker.ts:71-77 | a no-op while a save is pending; otherwise one timer is started |
| Relay.SheetServer.SaveFires | server/src/worker.ts:73-76 | the pending flag is cleared and the document persisted |
| Relay.SheetServer.OnConnect | server/src/worker.ts:91-101 | after loading, a fresh state is installed for the connection before it is answered; a load failure sends the error notice |
| Relay.SheetServer.OnMessage | server/src/worker.ts:103-138 | text frames change nothing; a binary frame replaces the document and the sender's state with the engine's result, answers the sender, fans out and schedules a save; a throw stops it where it happens |
| Relay.SheetServer.OnClose | server/src/worker.ts:140-142 | only that connection's state is removed |
| Relay.ThreeRowsWritten | server/src/worker.ts:34-38 | writing three rows gives exactly their ids as keys, the last row for a repeated id, and three rows for distinct ids |
| Relay.InitialRows | server/src/worker.ts:34-38 | every row id gets an entry with its order key and no values; a repeated id keeps the last row; distinct ids give three rows |
| Relay.MakeInitialDoc | server/src/worker.ts:21-40 | meta named "Untitled Sheet"; columns "Name"/text with the first order key and "Done"/checkbox with the second; three rows; distinct ids give exactly two columns and three rows |
| Migrations.ElementKey | shared/migrations.ts:21 | computing an element's key throws exactly for `null` |
| Migrations.OrderKey | shared/migrations.ts:21 | the order key has at least five characters |
| Migrations.Convert | shared/migrations.ts:17-22 | a converted list has no `null` element |
| Migrations.ConvertFails | shared/migrations.ts:19-21 | a list converts exactly when it holds no `null` |
| Migrations.ConvertKeys | shared/migrations.ts:19-22 | the map's keys are exactly the elements' keys |
| Migrations.ConvertLastWins | shared/migrations.ts:19-22 | an element no later element shares a key with ends up under its key, with its position's order key |
| Migrations.ConvertSize | shared/migrations.ts:19-22 | with distinct keys the map has as many entries as the list had elements |
| Migrations.EntryKeepsFields | shared/migrations.ts:21 | every field of an element is kept; only `order` is added or overwritten |
| Migrations.OrderKeysIncrease | shared/migrations.ts:21 | for positions below 100000, order keys increase under string comparison as positions do |
| Migrations.OrderKeysWrapAt100000 | shared/migrations.ts:21 | position 100000's key sorts before position 99999's |
| Migrations.ConvertList | shared/migrations.ts:17-22 | the loop builds the map `Convert` specifies, or throws when it does |
| Migrations.ArraysToMapsEffect | shared/migrations.ts:15-32 | each list region becomes its converted map, each other region and top-level entry is untouched; it throws exactly when a list holds `null` |
| Migrations.ArraysToMapsClearsNeeded | shared/migrations.ts:14-32 | after the transform the migration is no longer needed |
| Migrations.ApplyArraysToMaps | shared/migrations.ts:15-32 | the in-place transform gives the result `ArraysToMaps` specifies |
| Migrations.NothingNeeded | shared/migrations.ts:40-47 | when no migration is needed, the input comes back with no names applied |
| Migrations.MigrateApplies | shared/migrations.ts:11-47 | "arrays-to-maps" is recorded exactly when its test held, and the document is then its transform's result |
| Migrations.MigrateIdempotent | shared/migrations.ts:11-47 | a second run applies nothing and returns its input |
| Migrations.MigrateDoc | shared/migrations.ts:36-48 | the driver's loop returns what the registry run specifies |
| Strings.PadStart | shared/migrations.ts:21 | left padding to the width with the pad character, never truncating |
| Strings.PadDecimalIsFixedDigits | shared/migrations.ts:21 | below 10^w, the padded decimal is the number's last w digits |
| Strings.FixedDigitsLess | shared/migrations.ts:21 | fixed-width digit strings compare as their numbers |
| Strings.LessTransitive | shared/ordering.ts:2 | the string comparison of the comparator is transitive |
| Strings.LessTotal | shared/ordering.ts:2 | two different strings are ordered one way or the other |
| Ordering.SortByOrderSortedPermutation | shared/ordering.ts:1-3 | the result is ascending by `order` and has the same multiset of values, so the same length |
| Ordering.SortByOrderStable | shared/ordering.ts:2 | values with equal `order` keep their relative order |
| Ordering.SortByOrderKeepsSorted | shared/ordering.ts:2 | an input already in order, the empty one included, comes back unchanged |
| Ordering.StringNotNumericOrder | shared/ordering.ts:2 | the key "10" sorts before "9" |
| TableView.RemoveAt | client/src/ui/TableView.tsx:28 | removing index i keeps every other element in order |
| TableView.WithoutCells | client/src/ui/TableView.tsx:36-38 | every row keeps its id and loses only the cell of that column |
| TableView.WithoutCellsEffect | client/src/ui/TableView.tsx:36-38 | no cell of the column is left, and every other cell is as it was |
| TableView.Draft.AddColumn | client/src/ui/TableView.tsx:14-18 | one text column "New Column" with no options is appended; the others are unchanged |
| TableView.Draft.AddRow | client/src/ui/TableView.tsx:20-24 | one row with no values is appended |
| TableView.Draft.DeleteRow | client/src/ui/TableView.tsx:26-30 | exactly the row at the index is removed; out of range, nothing changes |
| TableView.Draft.DeleteColumn | client/src/ui/TableView.tsx:32-40 | the column at the index is removed and its id deleted from every row's values; out of range, nothing changes |
| TableView.Draft.UpdateColumnName | client/src/ui/TableView.tsx:42-46 | only the name of the column at the index changes |
| TableView.Draft.UpdateColumnType | client/src/ui/TableView.tsx:48-52 | only the type of the column at the index changes |
| TableView.Draft.UpdateCell | client/src/ui/TableView.tsx:54-58 | only that cell of the row at the index is set |

## Left out

- **What the engine does.** Automerge's `change`, `diff`, `getHeads`, `save`, `load` and sync messages are parameters or opaque types. The model claims no convergence property.
- **Storage and sockets.** Local storage, durable-object storage, PartySocket/partyserver and the `fetch` handler are not modelled. Writes are recorded as logs; reads are parameters.
- **Timers and async.** Real delays and the lazy engine import are not modelled, and neither are races between overlapping `ensureLoaded` calls. A timer firing is the method `SaveTimerFires`/`SaveFires`, called by whoever models time.
- **Engine wrapping of the initial document.** `Relay.MakeInitialDoc` returns the tree that the initializing change writes. `Relay.SheetServer.EnsureLoaded` receives the engine document holding it as the parameter `initial`.
- **Library values.** `newId` and `generateNKeysBetween` are parameters, and nothing is assumed about their values.
- **Client loading.** `LocalSession.Sheet.Mount` takes the result of loading and migrating as a value, because the document type is opaque. The JSON-level migrator in `Migrations` is not linked to it.
- **Console output.** Logging in the relay's error paths is not modelled.
- **Error kinds.** Every thrown error is collapsed into one failure outcome.
- **Numbers.** JSON numbers are integers; floating point is not modelled.
- **Strings.** String comparison is on Dafny characters, not UTF-16 code units.
- **Non-own properties.** Only an object's own fields and an array's elements at canonical decimal indices can be read. Everything else reads as absent: an array's `length`, a string's indices and `length`, and inherited properties. So a patch whose path reads an array's `length` throws in the model, where JavaScript would read a number and a write there would resize the array.
- **Array writes.** A write to an array at a gap or at a non-index key is modelled as a failure. JavaScript would grow the array or add a property.
- **Aliasing.** Object identity and the effect of deep copies are not modelled; "unchanged" means equal as values.
- **Reconnection.** `LocalSession.Sheet.OnClose` does not model PartySocket reconnecting.
- **Connection list.** The relay's current connections form the parameter `conns`. `Relay.FanOutIsolated` assumes their ids are distinct.
- **Out-of-range table edits.** They are modelled as the closure throwing, which aborts the transaction. The list proxy's exact response to a splice at the list's length is not modelled.
- **Property order.** `Object.values` order is the order of the input sequence of `Ordering.SortByOrder`. JavaScript's property-order rules (integer-like keys first) are not modelled.
- Migrations.Spread: spreading an array or a string element would copy its index keys in JavaScript; here it contributes no fields.
- Migrations.ToKey: `__proto__` and other special property keys are treated as ordinary keys.
- Relay.SheetServer.SaveFires: requires the document to be loaded. No save is scheduled before the load.

## Findings

| source | as written | input that shows it | evidently intended | confidence | as-written member | corrected member |
|---|---|---|---|---|---|---|
| client/src/sheet/useSheet.ts:31-44 | region keys are the path parts joined with ".", so a top-level key containing "." collides with an item key | store `{a: {b: 0}}`, document `{"a.b": 1, a: {b: 2}}`, patches `["a.b"]` then `["a","b","c"]`: the second patch is skipped, and the batch succeeds with `store.a.b == 0` while the document has 2 | one key per distinct region, so no patch is skipped unless its own region was copied | low, not executed | Reconciler.JoinedKeySkipsDottedItem | Reconciler.ReconcileCovers |

The client session (`LocalSession.Sheet`) runs the batch as written, with joined keys. `Reconciler.ReconcileJoinedAsPaths` shows that this matches the corrected batch whenever no path part contains ".". `Reconciler.ReconcileJoinedCovers` carries the covering property over to joined keys.
