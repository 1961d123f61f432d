# LRU paging simulator: a verified model

The paging simulator is a single web page that teaches demand paging with a library metaphor:

- Six catalog **books** are the virtual pages.
- A **shelf** of three slots is physical memory.
- A **page table** records, for each book, whether it is on the shelf and in which slot.
- A **last-used** clock and **hit/fault counters** record the history of requests.

When a reader requests a book that is not on a full shelf, the page evicts the least-recently-used book.

The state lives in four globals of `script.js`. Four handlers change it:

- a request;
- loading and saving a snapshot in local storage;
- a reset;
- a drag-and-drop reorder of the shelf.

This project models that state machine and proves what each handler does.

## Modules

- `wrappers.dfy`, module `Wrappers`: an `Option` type. It stands for snapshot fields that may be missing and for a snapshot that may be absent.
- `library.dfy`, module `Library`: the data model.
  - The catalog `Books` and the capacity `Capacity` (3).
  - `Entry` (page-table entry), `Stats`, `State` (the catalog plus the four globals) and `Snapshot`.
  - JavaScript's `indexOf` (`IndexOf`).
  - The invariant `Consistent`, which the simulator keeps, and the stronger `ExactSlots`.
  - The hit ratio `HitRatio`.
- `lru.dfy`, module `Lru`: the least-recently-used choice.
  - `LruIndex`: the victim's slot, as a function.
  - `FindLru`: the page's scan, as a method with a loop, proved to return the book at that slot.
- `transitions.dfy`, module `Transitions`: every handler as a function from state to state.
  - `Request`, `Restore`, `Save`, `Reset` and `Rearrange`.
  - The page's `forEach` loops as left folds (`AssignAll`, `RebuildAll`, `FillAll`, `PlaceAll`).
  - All the lemmas about these functions.
- `simulator.dfy`, module `Simulator`: the class `PagingSimulator`.
  - Its fields are the globals, and its methods update them in place as the handlers do.
  - The loops live in the helper methods `StoreEntries`, `RebuildEntries`, `PlaceEntries` and `Fetch`.
  - Each method is proved to produce exactly the state computed by the matching function of `Transitions`, and to keep `Valid()`, which is `Consistent` of the fields.
- `renumbering.dfy`, module `Renumbering`: the stale slot an eviction leaves behind (see Findings). It has two halves:
  - the page's behaviour, shown to break exact slots;
  - the corrected request, proved to keep them.
- `dragdrop.dfy`, module `DragDrop`: the drop handler as written, which reads each title back with the wrong index (see Findings).
  - It is shown never to change the shelf, and to agree with the intended `Rearrange` only when nothing moved.
  - The class runs the intended `Rearrange`.

The catalog is a field of the state and a constant of the class. The constructor sets it to the page's six titles. All proofs hold for any catalog.

## Model

| member | source | states |
|---|---|---|
| Library.HitRatio | script.js:278-279 | The ratio is 0 when there have been no requests. Otherwise it is the whole percentage nearest to 100·hits/total, rounded half up: `(2r-1)·total <= 200·hits < (2r+1)·total`. It always lies in 0..100. |
| Library.IndexOf | script.js:254 | `indexOf` gives -1 exactly when the element is absent. Otherwise it gives an index holding the element with no earlier occurrence. |
| Lru.LruIndex | script.js:244-252 | The victim slot is on the shelf. Its clock is minimal over the whole shelf and strictly smaller than the clock of every earlier slot, so ties go to the earliest slot. |
| Lru.LruIndexUnique | script.js:247-251 | A slot that is minimal and strictly below every earlier slot is exactly `LruIndex`, so the strict-`<` scan's tie rule determines the victim. |
| Lru.FindLru | script.js:244-252 | The scan from `shelf[0]` returns the book at `LruIndex`. That book is on the shelf and has the smallest clock of all shelf books. |
| Transitions.Evict | script.js:244-256 | Cuts the least-recently-used book out of the shelf and marks it `{false, -1}`. Its contract is stated by `Transitions.RequestFaultEvicts`. |
| Transitions.Fault | script.js:242-261 | Evicts when the shelf is full, then appends the book at the last slot. Its contract is stated by `Transitions.RequestFaultWithRoom` and `Transitions.RequestFaultEvicts`. |
| Transitions.Request | script.js:216-271 | A request with the fetch delay collapsed. Its contract is stated by `Transitions.RequestHit`, `Transitions.RequestFault` and `Transitions.RequestKeepsConsistent`. |
| Transitions.LruIgnoresOtherStamps | script.js:220 | Stamping a book that is not on the shelf (the requested one, on a fault) does not change which shelf book is least recently used. |
| Transitions.RequestHit | script.js:220-228 | On a hit, the book's clock becomes `now` and hits grow by exactly one. Faults, the shelf and the page table are unchanged. |
| Transitions.RequestFault | script.js:229-261 | On a fault, the book's clock becomes `now`, faults grow by exactly one and hits are unchanged. The book ends in the last slot with entry `{onShelf: true, position: length-1}`. |
| Transitions.RequestFaultWithRoom | script.js:242 | A fault on a shelf with a free slot evicts nothing. The book is appended and only its own entry changes. |
| Transitions.RequestFaultEvicts | script.js:242-261 | A fault on a full shelf evicts exactly the book at `LruIndex`, which is minimal with ties to the earliest slot. The other books keep their order and the book is appended. The victim is no longer on the shelf and is marked `{false, -1}`. No other entry but the requested book's changes. |
| Transitions.RequestKeepsConsistent | script.js:216-271 | Every request keeps the invariant: at most three books and no duplicate; one entry per catalog book; on the shelf exactly when marked so; marked slots within the shelf; in-storage entries `{false, -1}`. |
| Transitions.Replay | script.js:216-271 | A run of requests from a consistent state ends in a consistent state with the same catalog. |
| Transitions.ReplayCounts | script.js:224-231 | Over a run of requests, hits plus faults grow by exactly the number of requests, neither counter decreases, and the shelf never exceeds three books. |
| Transitions.AssignAll | script.js:66-69 | The catalog walk that sets each book to one value. Its contract is stated by `Transitions.AssignAllSpec`. |
| Transitions.AssignAllSpec | script.js:98-101 | Setting every key of a list to one value adds exactly those keys, maps them to the value, and keeps every other entry. |
| Transitions.RebuildAll | script.js:55-61 | The catalog walk of a load that rebuilds the page table. Its contract is stated by `Transitions.RebuildAllSpec`. |
| Transitions.RebuildAllSpec | script.js:55-61 | The rebuilt page table has an entry for exactly the catalog books. Each entry is `{onShelf: indexOf > -1, position: indexOf}` on the loaded shelf. |
| Transitions.FillAll | script.js:62 | The catalog walk of a load that fills missing times. Its contract is stated by `Transitions.FillAllSpec`. |
| Transitions.FillAllSpec | script.js:62 | The loaded clock gains a 0 for each catalog book whose time is missing. Every time that was there is kept, including those of books outside the catalog. |
| Transitions.PlaceAll | script.js:151-154 | The drop walk over the page table. It keeps the table's keys; the slots it sets are stated by `Transitions.PlaceAllSpec`. |
| Transitions.PlaceAllSpec | script.js:151-154 | After the drop walk, the book at index `i` has position `i` and keeps its flag. Books not in the order keep their entry. |
| Transitions.Fresh | script.js:64-70 | The first-visit state satisfies the invariant with exact slots. |
| Transitions.Restore | script.js:46-70 | Loading a snapshot, or the first-visit state when there is none. Its contract is stated by `Transitions.RestoreRebuilds`, `Transitions.FreshIsBaseline` and `Transitions.RestoreConsistent`. |
| Transitions.Save | script.js:81-88 | Saving writes the shelf, the stats and the clock. Its contract is stated by `Transitions.SaveRestoreRoundTrip`. |
| Transitions.FreshIsBaseline | script.js:64-70 | With nothing saved, the shelf is empty and the counters are zero. Exactly the catalog books have entries, each `{false, -1}` with clock 0. |
| Transitions.RestoreRebuilds | script.js:46-63 | Loading takes the snapshot's shelf and stats, or `[]` and zeros when they are missing. It rebuilds one entry per catalog book from `indexOf`. A missing clock entry becomes 0 and every saved time is kept. |
| Transitions.RestoreConsistent | script.js:50-63 | Loading a snapshot whose shelf holds at most three distinct catalog books gives a consistent state with exact slots. |
| Transitions.SaveRestoreRoundTrip | script.js:46-88 | Loading what was saved gives back the shelf, the stats and the clock, and the same page-table keys and on-shelf flags. The page table itself comes back equal exactly when the saved state's slots were exact. |
| Transitions.ClockRoundTrip | script.js:62 | Filling a clock that already covers the catalog leaves it unchanged. |
| Transitions.TableRoundTrip | script.js:55-61 | Rebuilding the page table from a consistent state's shelf keeps its keys and flags. It reproduces the table exactly when the table's slots are exact. |
| Transitions.Reset | script.js:91-101 | Reset of the shelf, the counters, the clock and the page table. Its contract is stated by `Transitions.ResetClears`, `Transitions.ResetIsFresh` and `Transitions.ResetIdempotent`. |
| Transitions.ResetClears | script.js:91-101 | From any state, reset leaves an empty shelf and zero counters. Every catalog book is `{false, -1}`, and the clock holds exactly the catalog books, each at 0. |
| Transitions.ResetIsFresh | script.js:91-101 | From any state whose page table has an entry for exactly the catalog books, consistent or not, reset gives exactly the first-visit state, whatever the history. |
| Transitions.ResetIdempotent | script.js:91-101 | Resetting twice is the same as resetting once. |
| Transitions.SameElements | script.js:148-157 | A permutation of the duplicate-free shelf is duplicate-free and holds the same books. |
| Transitions.Rearrange | script.js:148-157 | The intended drop, where the shelf becomes the dropped order. Its contract is stated by `Transitions.RearrangeExact`. |
| Transitions.RearrangeEntries | script.js:150-157 | After a reorder, a book of the new order is on the shelf at its new index, and every other book stays `{false, -1}`. |
| Transitions.RearrangeSlots | script.js:151-154 | After a reorder, the book dropped at index `i` has entry `{true, i}`. |
| Transitions.RearrangeConsistent | script.js:148-157 | A reorder keeps the invariant and makes every slot exact. |
| Transitions.RearrangeExact | script.js:148-157 | A reorder sets the shelf to the new order. Each moved book gets `{true, i}` and clock `now`; other books keep their clock; the stats are untouched. The invariant holds with exact slots. |
| Simulator.StoreEntries | script.js:66-69 | The catalog walk of a fresh start or a reset produces exactly `AssignAll` of `{false, -1}` and of 0. |
| Simulator.RebuildEntries | script.js:55-63 | The catalog walk of a load produces exactly the table `RebuildAll` and the clock `FillAll`. |
| Simulator.PlaceEntries | script.js:150-156 | The drop walk builds the order as the new shelf, the table `PlaceAll` and the clock `AssignAll` of `now`. |
| Simulator.Fetch | script.js:242-261 | The delayed half of a fault (scan, `indexOf`, splice, mark, push, mark) produces exactly `Fault`. |
| Simulator.PagingSimulator.LoadState | script.js:46-70 | The constructor fixes the catalog to the six titles and yields `Restore` of the snapshot. Whatever the snapshot holds, it establishes `Keyed()`: one page-table entry per catalog book and a time for each. It is valid with exact slots when there is no snapshot or the snapshot is well-formed. |
| Simulator.PagingSimulator.SaveState | script.js:81-88 | From any state a load can produce (`Keyed()`), saving writes exactly shelf, stats and clock, and loading the result gives those three back. |
| Simulator.PagingSimulator.ResetSimulation | script.js:91-101 | From any state a load can produce (`Keyed()`), even one loaded from a malformed snapshot, reset leaves the object in `Reset` of its old state. That is the first-visit state, valid with exact slots. |
| Simulator.PagingSimulator.RequestBook | script.js:216-271 | A request leaves the object in `Request` of its old state and keeps it valid. |
| Simulator.PagingSimulator.Reorder | script.js:148-157 | A drop of a permutation of the shelf leaves the object in `Rearrange` of its old state, valid with exact slots. |
| Renumbering.StaleSlotAfterEviction | script.js:254-261 | From a state with exact slots, a fault on a full shelf whose victim is not in the last slot moves the next book down one index while its entry keeps the old slot. Exact slots no longer hold. |
| Renumbering.StaleSlotExample | script.js:242-261 | On the shelf [A, B, C] with clocks 4, 2, 3 and exact slots, requesting D leaves C at index 1 with entry `{true, 2}`. |
| Renumbering.Renumber | script.js:150-154 | Sets every on-shelf book's slot to its shelf index. It keeps the shelf, the clock and the counters; the rest is stated by `Renumbering.RenumberExact`. |
| Renumbering.RequestRenumbered | script.js:216-271 | The corrected request: the page's request, then the slots recomputed. Its contract is stated by `Renumbering.RequestRenumberedExact`. |
| Renumbering.RenumberExact | script.js:254-256 | Renumbering the shelf keeps the invariant, makes every slot exact, and changes only the slots of books on the shelf. |
| Renumbering.RequestRenumberedExact | script.js:216-271 | The corrected request keeps the invariant with exact slots from any consistent state. It agrees with the page's request on the shelf, clock, counters, keys and flags. |
| DragDrop.CommonPrefix | script.js:151-152 | The number of leading items whose stripped label is the title: the longest common prefix of the dropped order and the drawn shelf. It is bounded by both lengths, the two agree below it, and they differ at it. |
| DragDrop.DropAsWritten | script.js:148-158 | The drop as the page runs it: it stamps and renumbers the unmoved prefix, then throws at the first moved book. Its contract is stated by `DragDrop.DropKeepsShelf` and `DragDrop.DropAsIntendedIff`. |
| DragDrop.DropKeepsShelf | script.js:148-158 | As written, a drop never changes the shelf and keeps the invariant. Each book before the first moved one gets its index as slot and the clock `now`. Every other entry, every other time and the counters stay. |
| DragDrop.DropAsIntendedIff | script.js:148-158 | The page's drop equals the intended `Rearrange` if and only if the dropped order is the shelf itself. |
| DragDrop.RotatedDropIsLost | script.js:152-154 | Dragging [a, b, c] into [c, a, b] changes nothing at all, where the intended drop gives the shelf [c, a, b]. |

## Left out

- Rendering, messages, sounds, the theme, the help modal and event wiring: these are presentation only.
- Local storage and JSON: a snapshot is a Dafny record, and saving and loading are functions to and from it. A snapshot whose JSON is not an object of the expected shape is not represented.
- The Sortable library and the DOM: a drop is modelled as receiving the new order as a permutation of the shelf. Each item's label is assumed to carry its index on the current shelf, as the last drawing of the shelf made it. The page's read-back of titles from those labels is modelled in `DragDrop` (see Findings).
- Simulator.PagingSimulator.Reorder: runs the intended drop, `Rearrange`. The page's own handler completes only when nothing moved; `DragDrop.DropAsWritten` models that. It also gives every dropped book the same `now`, whereas the page reads the clock once per book.
- The one-second fetch delay: a fault's eviction and append run at once. The model therefore cannot express a second request arriving within that second. A second request for the same book in that second would count a second fault and push the book twice. On a touch screen, one tap fires both `touchstart` and `click` (script.js:183-184), so a single tap may already request the book twice.
- When the page saves: only after a fetch completes (script.js:266) and after a drop (script.js:158). A hit is not saved until a later fetch or drop. A reset removes the stored snapshot (script.js:104), so the next load starts fresh. The model has saving and loading as separate operations and does not track what local storage holds between them.
- `Date.now()`: it becomes a natural-number parameter `now`.
- Library.HitRatio: `Math.round` on a floating-point quotient is modelled as exact integer rounding half up, `(200·hits + total) / (2·total)`. The two may differ where the floating-point quotient lands just beside a half.
- Simulator.PagingSimulator.RequestBook: requests a catalog book only. The page's only callers are the click and touch handlers on the catalog books, so an unknown title is never requested.
- Simulator.PagingSimulator.LoadState: proves validity only for a snapshot whose shelf has at most three distinct catalog books, or for no snapshot. The page accepts any stored shelf. From any other snapshot it proves only `Keyed()`, which `SaveState` and `ResetSimulation` need.
- Simulator.PagingSimulator.RequestBook and Reorder require `Valid()`. After a load from a malformed snapshot the model says nothing about them. Only saving and resetting are covered from such a state.
- `renderBooks`, the initial `initialize` wiring and the theme preference load are not part of this model.

Outside a request, the page keeps every slot exact. Loading computes slots with `indexOf` (script.js:57-60), and the drop handler gives each book its index (script.js:154). The page also shows a book's shelf index twice: as `Slot i` on the shelf (script.js:193) and as `Shelf i` in the page table (script.js:208). A request does not keep slots exact, and the model follows the code:

- After `splice`, the slots of the books behind the victim are left as they were (see Findings).
- A, B, C, A, D ends with the shelf [A, C, D], because the remaining books keep their order and D is appended.

The invariant `Consistent` therefore bounds every on-shelf slot by the shelf length but does not claim it equals the book's index. The exact-index form, `ExactSlots`, is proved after loading, a reset and a reorder.

## Findings

| source | as written | input that shows it | evidently intended | confidence | as-written member | corrected member |
|---|---|---|---|---|---|---|
| script.js:254-256 | Eviction splices the victim out of the shelf but leaves the `position` of every later book unchanged, so their entries name a slot one too high. The page table then displays the wrong slot. | Requests A, B, C, A, D: the shelf becomes [A, C, D], C sits at index 1, but its entry reads "Shelf 2". | After every removal, each on-shelf book's entry names its current index. | high for the stale slot; not executed | Renumbering.StaleSlotAfterEviction | Renumbering.RequestRenumberedExact |
| script.js:152-154 | The drop handler strips `Slot ${index}: ` using each item's new index, but the label carries the index at which the shelf was drawn (script.js:193). For the first book that moved, the label stays whole, `pageTable[book]` is undefined, and setting `.position` throws before the shelf is assigned and saved. | Drag the shelf [A, B, C] into [C, A, B]: the first item reads `Slot 2: C`, stripping `Slot 0: ` leaves it whole, and the drop is lost. | The shelf takes the dropped order, and each book gets its new index as slot and a fresh clock. | high; not executed | DragDrop.DropAsIntendedIff | Transitions.RearrangeExact |
