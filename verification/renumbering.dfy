/** The slots left stale by an eviction. The page's request handler cuts the
    victim out of the shelf but does not renumber the books behind it, so
    their page-table entries keep naming their old slots, one too high.
    Everywhere else the page keeps slots exact: loading recomputes them with
    `indexOf` (script.js:57-60), the drop handler sets each to its index
    (script.js:154), and the page shows a book's shelf index as `Slot i`
    (script.js:193) beside its page-table slot `Shelf i` (script.js:208). So
    after an eviction the two numbers shown for one book disagree. This module
    exhibits the stale slot on a short request sequence, and proves that the
    corrected request, which renumbers the shelf after the fetch, keeps every
    slot exact. */
module Renumbering {
  import opened Library
  import opened Lru
  import opened Transitions

  /** As the page runs it: from any state whose slots are exact, a fault on a
      full shelf whose least-recently-used book is not in the last slot leaves
      a slot stale. The book just behind the victim moves down one index, but
      its entry keeps the old slot. */
  lemma StaleSlotAfterEviction(s: State, book: Book, now: nat)
    requires Consistent(s) && ExactSlots(s) && book in s.catalog && book !in s.shelf
    requires |s.shelf| >= Capacity && LruIndex(s.shelf, s.lastUsed) < |s.shelf| - 1
    ensures var k := LruIndex(s.shelf, s.lastUsed);
      var r := Request(s, book, now);
      && r.shelf == s.shelf[..k] + s.shelf[k + 1..] + [book]
      && r.pageTable[s.shelf[k]] == InStorage
      && r.shelf[k] == s.shelf[k + 1]
      && IndexOf(r.shelf, r.shelf[k]) == k
      && r.pageTable[r.shelf[k]] == Entry(true, k + 1)
      && !ExactSlots(r)
  {
    var k := LruIndex(s.shelf, s.lastUsed);
    var r := Request(s, book, now);
    var moved := s.shelf[k + 1];
    RequestFaultEvicts(s, book, now);
    RequestKeepsConsistent(s, book, now);
    IndexOfNoDup(s.shelf, k + 1);
    assert r.shelf[k] == moved;
    IndexOfNoDup(r.shelf, k);
  }

  /** Requests A, B, C, A, D, from the fourth request on: the shelf is [A, B, C]
      with exact slots after A, B and C faulted in and A was hit, so B has the
      oldest stamp. Requesting D evicts B and appends D: C moves down to index
      1, but its entry still names slot 2. */
  lemma StaleSlotExample(s: State, a: Book, b: Book, c: Book, d: Book)
    requires Consistent(s) && ExactSlots(s)
    requires |s.shelf| == 3 && s.shelf[0] == a && s.shelf[1] == b && s.shelf[2] == c
    requires d in s.catalog && d != a && d != b && d != c
    requires s.lastUsed[a] == 4 && s.lastUsed[b] == 2 && s.lastUsed[c] == 3
    ensures var r := Request(s, d, 5);
      && IndexOf(r.shelf, c) == 1
      && r.pageTable[c] == Entry(true, 2)
  {
    LruIndexUnique(s.shelf, s.lastUsed, 1);
    StaleSlotAfterEviction(s, d, 5);
  }

  /** Every on-shelf book's slot set to its index on the shelf, by a walk over
      the shelf like the drop handler's. */
  function Renumber(s: State): (r: State)
    requires Consistent(s)
    ensures r.shelf == s.shelf && r.lastUsed == s.lastUsed && r.stats == s.stats
  {
    s.(pageTable := PlaceAll(s.shelf, s.pageTable))
  }

  /** The request with the slots kept exact, as loading and dropping keep
      them: the page's request, then the slots recomputed. */
  function RequestRenumbered(s: State, book: Book, now: nat): State
    requires Consistent(s) && book in s.catalog
  {
    RequestKeepsConsistent(s, book, now);
    Renumber(Request(s, book, now))
  }

  /** Renumbering keeps the invariant, makes every slot exact, and changes
      nothing but the slots of the books on the shelf. */
  lemma RenumberExact(s: State)
    requires Consistent(s)
    ensures var r := Renumber(s);
      && Consistent(r) && ExactSlots(r)
      && r.pageTable.Keys == s.pageTable.Keys
      && (forall b :: b in s.pageTable ==> r.pageTable[b].onShelf == s.pageTable[b].onShelf)
      && (forall b :: b in s.pageTable && b !in s.shelf ==> r.pageTable[b] == s.pageTable[b])
  {
    var r := Renumber(s);
    PlaceAllSpec(s.shelf, s.pageTable);
    forall b | b in r.pageTable && b in s.shelf
      ensures r.pageTable[b] == Entry(true, IndexOf(s.shelf, b))
    {
      var i := IndexOf(s.shelf, b);
      assert r.pageTable[s.shelf[i]] == s.pageTable[s.shelf[i]].(position := i);
    }
  }

  /** The corrected request keeps the invariant with exact slots, from any
      consistent state, and agrees with the page's request on everything but
      the slots: the shelf, the clock, the counters and the on-shelf flags. */
  lemma RequestRenumberedExact(s: State, book: Book, now: nat)
    requires Consistent(s) && book in s.catalog
    ensures var r := RequestRenumbered(s, book, now);
      var q := Request(s, book, now);
      && Consistent(r) && ExactSlots(r)
      && r.shelf == q.shelf && r.lastUsed == q.lastUsed && r.stats == q.stats
      && r.pageTable.Keys == q.pageTable.Keys
      && (forall b :: b in q.pageTable ==> r.pageTable[b].onShelf == q.pageTable[b].onShelf)
  {
    RequestKeepsConsistent(s, book, now);
    RenumberExact(Request(s, book, now));
  }
}
