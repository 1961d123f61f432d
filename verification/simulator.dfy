/** The page's global state as one object: the shelf, page table, clock and
    counters are fields that the operations update in place, as the script's
    event handlers do. Each method is proved to leave the object in the state
    the corresponding function of module Transitions computes, and to keep the
    invariant `Valid()`; the properties of those functions are proved there. */
module Simulator {
  import opened Wrappers
  import opened Library
  import opened Lru
  import opened Transitions

  /** The catalog loop of a fresh start and of a reset: each book's entry
      becomes in-storage and its time 0, on top of `table` and `clock`. */
  method StoreEntries(books: seq<Book>, table: map<Book, Entry>, clock: map<Book, nat>)
    returns (table': map<Book, Entry>, clock': map<Book, nat>)
    ensures table' == AssignAll(books, table, InStorage)
    ensures clock' == AssignAll(books, clock, 0)
  {
    table', clock' := table, clock;
    for i := 0 to |books|
      invariant table' == AssignAll(books[..i], table, InStorage)
      invariant clock' == AssignAll(books[..i], clock, 0)
    {
      var book := books[i];
      assert books[..i + 1][..i] == books[..i];
      table' := table'[book := InStorage];
      clock' := clock'[book := 0];
    }
    assert books[..|books|] == books;
  }

  /** The catalog loop of a load: a new page-table entry per book from `indexOf`
      on the loaded shelf, and a 0 for each book whose saved time is missing or
      zero. */
  method RebuildEntries(books: seq<Book>, loaded: seq<Book>, saved: map<Book, nat>)
    returns (table: map<Book, Entry>, clock: map<Book, nat>)
    ensures table == RebuildAll(books, loaded)
    ensures clock == FillAll(books, saved)
  {
    table, clock := map[], saved;
    for i := 0 to |books|
      invariant table == RebuildAll(books[..i], loaded)
      invariant clock == FillAll(books[..i], saved)
    {
      var book := books[i];
      assert books[..i + 1][..i] == books[..i];
      var position := IndexOf(loaded, book);
      table := table[book := Entry(position > -1, position)];
      if book !in clock || clock[book] == 0 {
        clock := clock[book := 0];
      }
    }
    assert books[..|books|] == books;
  }

  /** The drop handler's loop: walks the dropped order, building the new shelf,
      giving each book its index as slot and stamping it. */
  method PlaceEntries(order: seq<Book>, table: map<Book, Entry>, clock: map<Book, nat>, now: nat)
    returns (newShelf: seq<Book>, table': map<Book, Entry>, clock': map<Book, nat>)
    requires NoDup(order) && forall b :: b in order ==> b in table
    ensures newShelf == order
    ensures table' == PlaceAll(order, table)
    ensures clock' == AssignAll(order, clock, now)
  {
    newShelf, table', clock' := [], table, clock;
    for i := 0 to |order|
      invariant newShelf == order[..i]
      invariant NoDup(order[..i])
      invariant table' == PlaceAll(order[..i], table)
      invariant clock' == AssignAll(order[..i], clock, now)
    {
      var book := order[i];
      assert order[..i + 1][..i] == order[..i];
      newShelf := newShelf + [book];
      table' := table'[book := table'[book].(position := i)];
      clock' := clock'[book := now];
    }
    assert order[..|order|] == order;
  }

  /** The delayed half of a fault: when the shelf is full, find the
      least-recently-used book, cut it out at its `indexOf` and mark it in
      storage; then push the requested book and mark it at the last slot. */
  method Fetch(shelf: seq<Book>, pageTable: map<Book, Entry>, lastUsed: map<Book, nat>, book: Book)
    returns (shelf': seq<Book>, pageTable': map<Book, Entry>)
    requires forall b :: b in shelf ==> b in lastUsed
    ensures (shelf', pageTable') == Fault(shelf, pageTable, lastUsed, book)
  {
    shelf', pageTable' := shelf, pageTable;
    if |shelf'| >= Capacity {
      var lruBook := FindLru(shelf', lastUsed);
      var index := IndexOf(shelf', lruBook);
      shelf' := shelf'[..index] + shelf'[index + 1..];
      pageTable' := pageTable'[lruBook := InStorage];
    }
    shelf' := shelf' + [book];
    pageTable' := pageTable'[book := Entry(true, |shelf'| - 1)];
  }

  class PagingSimulator {
    /** The catalog the page-table loops walk; the page always uses `Books`. */
    const catalog: seq<Book>
    var shelf: seq<Book>
    var pageTable: map<Book, Entry>
    var lastUsed: map<Book, nat>
    var stats: Stats

    /** The fields as one value. */
    ghost function Model(): State
      reads this
    {
      State(catalog, shelf, pageTable, lastUsed, stats)
    }

    ghost predicate Valid()
      reads this
    {
      Consistent(Model())
    }

    /** What every load establishes, whatever the snapshot held: one page-table
        entry per catalog book and no other, and a time for every catalog book. */
    ghost predicate Keyed()
      reads this
    {
      && (forall b :: b in pageTable <==> b in catalog)
      && (forall b :: b in catalog ==> b in lastUsed)
    }

    /** Page load: restore the saved snapshot if there is one, rebuilding the
        page table from the shelf one catalog book at a time; with no snapshot,
        every book starts in storage with time 0. */
    constructor LoadState(saved: Option<Snapshot>)
      ensures catalog == Books
      ensures Model() == Restore(Books, saved)
      ensures Keyed()
      ensures saved.None? || WellFormed(Books, saved.value) ==> Valid() && ExactSlots(Model())
    {
      var books := Books;
      var table: map<Book, Entry>, clock: map<Book, nat>;
      match saved {
        case Some(snap) =>
          var loaded := snap.shelf.GetOr([]);
          table, clock := RebuildEntries(books, loaded, snap.lastUsed.GetOr(map[]));
          catalog, shelf, pageTable, lastUsed, stats := books, loaded, table, clock, snap.stats.GetOr(Stats(0, 0));
          RestoreRebuilds(books, snap);
          if WellFormed(books, snap) {
            RestoreConsistent(books, snap);
          }
        case None =>
          table, clock := StoreEntries(books, map[], map[]);
          catalog, shelf, pageTable, lastUsed, stats := books, [], table, clock, Stats(0, 0);
          FreshIsBaseline(books);
      }
    }

    /** Writes the shelf, the counters and the clock; loading the result gives
        them back. */
    method SaveState() returns (snap: Snapshot)
      requires Keyed()
      ensures snap == Save(Model())
      ensures var r := Restore(catalog, Some(snap));
        r.shelf == shelf && r.stats == stats && r.lastUsed == lastUsed
    {
      snap := Snapshot(Some(shelf), Some(stats), Some(lastUsed));
      ClockRoundTrip(catalog, lastUsed);
    }

    /** Clears the shelf, the counters and the clock, then puts every catalog
        book back in storage with time 0. */
    method ResetSimulation()
      requires Keyed()
      modifies this
      ensures Model() == Reset(old(Model()))
      ensures Model() == Fresh(catalog)
      ensures Valid() && ExactSlots(Model())
    {
      ghost var s := Model();
      shelf := [];
      stats := Stats(0, 0);
      pageTable, lastUsed := StoreEntries(catalog, pageTable, map[]);
      ResetIsFresh(s);
      FreshIsBaseline(catalog);
    }

    /** A request with the fetch latency collapsed: stamp, then count a hit, or
        count a fault, evict the least-recently-used book if the shelf is full,
        and put the book in the last slot. */
    method RequestBook(book: Book, now: nat)
      requires Valid() && book in catalog
      modifies this
      ensures Model() == Request(old(Model()), book, now)
      ensures Valid()
    {
      ghost var s := Model();
      lastUsed := lastUsed[book := now];
      if pageTable[book].onShelf {
        stats := Stats(stats.hits + 1, stats.faults);
      } else {
        stats := Stats(stats.hits, stats.faults + 1);
        shelf, pageTable := Fetch(shelf, pageTable, lastUsed, book);
      }
      RequestKeepsConsistent(s, book, now);
    }

    /** The drop handler: walks the dropped order, building the new shelf,
        giving each book its index as slot and stamping it. */
    method Reorder(order: seq<Book>, now: nat)
      requires Valid() && IsArrangementOf(order, shelf)
      modifies this
      ensures Model() == Rearrange(old(Model()), order, now)
      ensures Valid() && ExactSlots(Model())
    {
      ghost var s := Model();
      SameElements(shelf, order);
      shelf, pageTable, lastUsed := PlaceEntries(order, pageTable, lastUsed, now);
      RearrangeExact(s, order, now);
    }
  }
}
