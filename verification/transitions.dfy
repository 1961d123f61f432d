/** The simulator's operations as functions from state to state: requesting a
    book, restoring and saving a snapshot, resetting, and rearranging the
    shelf by drag and drop. The class in module Simulator runs the same steps
    in place and is proved to agree with these functions; the properties of
    the operations are proved here, about the functions. */
module Transitions {
  import opened Wrappers
  import opened Library
  import opened Lru

  // ---------------------------------------------------------------------
  // Requesting a book

  /** Removes the least-recently-used book from a non-empty shelf: the book the
      scan keeps is looked up with `indexOf`, cut out of the shelf, and marked
      as in storage. No other page-table entry is touched. */
  function Evict(shelf: seq<Book>, pageTable: map<Book, Entry>, lastUsed: map<Book, nat>)
    : (seq<Book>, map<Book, Entry>)
    requires |shelf| > 0
    requires forall b :: b in shelf ==> b in lastUsed
  {
    var victim := shelf[LruIndex(shelf, lastUsed)];
    var index := IndexOf(shelf, victim);
    (shelf[..index] + shelf[index + 1..], pageTable[victim := InStorage])
  }

  /** The delayed half of a fault: evict when the shelf is full, then append the
      book and mark it on the shelf at the last slot. */
  function Fault(shelf: seq<Book>, pageTable: map<Book, Entry>, lastUsed: map<Book, nat>, book: Book)
    : (seq<Book>, map<Book, Entry>)
    requires forall b :: b in shelf ==> b in lastUsed
  {
    var room := if |shelf| >= Capacity then Evict(shelf, pageTable, lastUsed) else (shelf, pageTable);
    var shelf' := room.0 + [book];
    (shelf', room.1[book := Entry(true, |shelf'| - 1)])
  }

  /** A request, with the fetch latency collapsed: stamp the book; on a hit count
      it; on a fault count it and fetch it. */
  function Request(s: State, book: Book, now: nat): State
    requires Consistent(s) && book in s.catalog
  {
    var lastUsed := s.lastUsed[book := now];
    if s.pageTable[book].onShelf then
      s.(lastUsed := lastUsed, stats := Stats(s.stats.hits + 1, s.stats.faults))
    else
      var (shelf, pageTable) := Fault(s.shelf, s.pageTable, lastUsed, book);
      s.(shelf := shelf, pageTable := pageTable, lastUsed := lastUsed,
         stats := Stats(s.stats.hits, s.stats.faults + 1))
  }

  /** Changing the clock of a book that is not on the shelf does not change
      which shelf book is least recently used. */
  lemma LruIgnoresOtherStamps(shelf: seq<Book>, lastUsed: map<Book, nat>, book: Book, now: nat)
    requires |shelf| > 0 && book !in shelf
    requires forall b :: b in shelf ==> b in lastUsed
    ensures LruIndex(shelf, lastUsed[book := now]) == LruIndex(shelf, lastUsed)
  {
    var k := LruIndex(shelf, lastUsed);
    LruIndexUnique(shelf, lastUsed[book := now], k);
  }

  /** A hit stamps the book and adds exactly one hit; the faults, the shelf and
      the page table are unchanged. */
  lemma RequestHit(s: State, book: Book, now: nat)
    requires Consistent(s) && book in s.catalog && book in s.shelf
    ensures var r := Request(s, book, now);
      && r.lastUsed == s.lastUsed[book := now]
      && r.stats == Stats(s.stats.hits + 1, s.stats.faults)
      && r.shelf == s.shelf
      && r.pageTable == s.pageTable
  {
  }

  /** A fault stamps the book, adds exactly one fault and no hit, and leaves the
      book in the last slot, marked on the shelf at that slot. */
  lemma RequestFault(s: State, book: Book, now: nat)
    requires Consistent(s) && book in s.catalog && book !in s.shelf
    ensures var r := Request(s, book, now);
      && r.lastUsed == s.lastUsed[book := now]
      && r.stats == Stats(s.stats.hits, s.stats.faults + 1)
      && |r.shelf| > 0 && r.shelf[|r.shelf| - 1] == book
      && r.pageTable[book] == Entry(true, |r.shelf| - 1)
  {
  }

  /** A fault on a shelf with a free slot evicts nothing: the book is appended
      and only its own page-table entry changes. */
  lemma RequestFaultWithRoom(s: State, book: Book, now: nat)
    requires Consistent(s) && book in s.catalog && book !in s.shelf
    requires |s.shelf| < Capacity
    ensures var r := Request(s, book, now);
      && r.shelf == s.shelf + [book]
      && r.pageTable == s.pageTable[book := Entry(true, |s.shelf|)]
  {
  }

  /** A fault on a full shelf evicts exactly one book, the one at slot
      `LruIndex`: its clock is minimal and every earlier slot's is strictly
      larger. The remaining books keep their order, the victim is marked in
      storage, and no other entry but the requested book's changes. */
  lemma RequestFaultEvicts(s: State, book: Book, now: nat)
    requires Consistent(s) && book in s.catalog && book !in s.shelf
    requires |s.shelf| >= Capacity
    ensures var k := LruIndex(s.shelf, s.lastUsed);
      var victim := s.shelf[k];
      var r := Request(s, book, now);
      && (forall j :: 0 <= j < |s.shelf| ==> s.lastUsed[victim] <= s.lastUsed[s.shelf[j]])
      && (forall j :: 0 <= j < k ==> s.lastUsed[victim] < s.lastUsed[s.shelf[j]])
      && r.shelf == s.shelf[..k] + s.shelf[k + 1..] + [book]
      && victim !in r.shelf
      && r.pageTable == s.pageTable[victim := InStorage][book := Entry(true, |s.shelf| - 1)]
  {
    var k := LruIndex(s.shelf, s.lastUsed);
    LruIgnoresOtherStamps(s.shelf, s.lastUsed, book, now);
    IndexOfNoDup(s.shelf, k);
    RemoveAt(s.shelf, k);
  }

  /** Removing one element from a duplicate-free sequence keeps it duplicate-free
      and takes exactly that element out. */
  lemma {:induction false} RemoveAt(s: seq<Book>, k: int)
    requires NoDup(s) && 0 <= k < |s|
    ensures var rest := s[..k] + s[k + 1..];
      && NoDup(rest)
      && |rest| == |s| - 1
      && forall b :: b in rest <==> b in s && b != s[k]
  {
    var rest := s[..k] + s[k + 1..];
    forall b | b in s && b != s[k] ensures b in rest {
      var i :| 0 <= i < |s| && s[i] == b;
      if i < k {
        assert rest[i] == b;
      } else {
        assert rest[i - 1] == b;
      }
    }
    forall b | b in rest ensures b in s && b != s[k] {
      var i :| 0 <= i < |rest| && rest[i] == b;
      if i < k {
        assert s[i] == b;
      } else {
        assert s[i + 1] == b;
      }
    }
    forall i, j | 0 <= i < j < |rest| ensures rest[i] != rest[j] {
      var i' := if i < k then i else i + 1;
      var j' := if j < k then j else j + 1;
      assert rest[i] == s[i'] && rest[j] == s[j'];
    }
  }

  /** Appending a book that is absent keeps a sequence duplicate-free. */
  lemma AppendFresh(s: seq<Book>, book: Book)
    requires NoDup(s) && book !in s
    ensures NoDup(s + [book])
  {
  }

  /** Every request keeps the invariant, in particular the capacity bound and
      the absence of duplicates: eviction happens exactly when the shelf is
      full, and only a book not on the shelf is appended. */
  lemma RequestKeepsConsistent(s: State, book: Book, now: nat)
    requires Consistent(s) && book in s.catalog
    ensures Consistent(Request(s, book, now))
  {
    var r := Request(s, book, now);
    if book !in s.shelf {
      if |s.shelf| >= Capacity {
        var k := LruIndex(s.shelf, s.lastUsed);
        RequestFaultEvicts(s, book, now);
        RequestFault(s, book, now);
        EvictAppendConsistent(s, k, book, r);
      } else {
        RequestFaultWithRoom(s, book, now);
        RequestFault(s, book, now);
        AppendConsistent(s, book, r);
      }
    }
  }

  /** The invariant survives removing the book at slot `k` of a full shelf and
      appending an absent catalog book in the freed last slot. */
  lemma EvictAppendConsistent(s: State, k: nat, book: Book, r: State)
    requires Consistent(s) && book in s.catalog && book !in s.shelf
    requires |s.shelf| >= Capacity && k < |s.shelf|
    requires r.shelf == s.shelf[..k] + s.shelf[k + 1..] + [book]
    requires r.pageTable == s.pageTable[s.shelf[k] := InStorage][book := Entry(true, |s.shelf| - 1)]
    requires r.catalog == s.catalog && forall b :: b in s.catalog ==> b in r.lastUsed
    ensures Consistent(r)
  {
    var rest := s.shelf[..k] + s.shelf[k + 1..];
    RemoveAt(s.shelf, k);
    AppendFresh(rest, book);
    assert forall b :: b in r.shelf <==> b in rest || b == book;
  }

  /** The invariant survives appending an absent catalog book to a shelf with a
      free slot. */
  lemma AppendConsistent(s: State, book: Book, r: State)
    requires Consistent(s) && book in s.catalog && book !in s.shelf
    requires |s.shelf| < Capacity
    requires r.shelf == s.shelf + [book]
    requires r.pageTable == s.pageTable[book := Entry(true, |s.shelf|)]
    requires r.catalog == s.catalog && forall b :: b in s.catalog ==> b in r.lastUsed
    ensures Consistent(r)
  {
    AppendFresh(s.shelf, book);
    assert forall b :: b in r.shelf <==> b in s.shelf || b == book;
  }

  /** A run of requests, each with the clock value it was made at. */
  function Replay(s: State, requests: seq<(Book, nat)>): (r: State)
    requires Consistent(s)
    requires forall q :: q in requests ==> q.0 in s.catalog
    ensures Consistent(r) && r.catalog == s.catalog
    decreases |requests|
  {
    if requests == [] then s
    else
      RequestKeepsConsistent(s, requests[0].0, requests[0].1);
      Replay(Request(s, requests[0].0, requests[0].1), requests[1..])
  }

  /** Between resets, every request adds exactly one to hits plus faults,
      neither counter ever decreases, and the shelf never exceeds its capacity. */
  lemma {:induction false} ReplayCounts(s: State, requests: seq<(Book, nat)>)
    requires Consistent(s)
    requires forall q :: q in requests ==> q.0 in s.catalog
    ensures var r := Replay(s, requests);
      && r.stats.hits + r.stats.faults == s.stats.hits + s.stats.faults + |requests|
      && r.stats.hits >= s.stats.hits && r.stats.faults >= s.stats.faults
      && |r.shelf| <= Capacity
    decreases |requests|
  {
    if requests != [] {
      var (book, now) := requests[0];
      if book in s.shelf {
        RequestHit(s, book, now);
      } else {
        RequestFault(s, book, now);
      }
      RequestKeepsConsistent(s, book, now);
      ReplayCounts(Request(s, book, now), requests[1..]);
    }
  }

  // ---------------------------------------------------------------------
  // The page's `forEach` loops, as left folds over the list they walk

  /** Every key of `keys`, in order, set to `v` on top of `m`. */
  function AssignAll<V>(keys: seq<Book>, m: map<Book, V>, v: V): map<Book, V>
    decreases |keys|
  {
    if keys == [] then m
    else AssignAll(keys[..|keys| - 1], m, v)[keys[|keys| - 1] := v]
  }

  /** The keys of `keys` are added, map to `v`, and every other entry is kept. */
  lemma {:induction false} AssignAllSpec<V>(keys: seq<Book>, m: map<Book, V>, v: V)
    ensures var r := AssignAll(keys, m, v);
      && (forall b :: b in r <==> b in m || b in keys)
      && (forall b :: b in r ==> r[b] == if b in keys then v else m[b])
    decreases |keys|
  {
    if keys != [] {
      var front := keys[..|keys| - 1];
      assert keys == front + [keys[|keys| - 1]];
      AssignAllSpec(front, m, v);
    }
  }

  /** The page table rebuilt from a loaded shelf, one catalog book at a time. */
  function RebuildAll(keys: seq<Book>, shelf: seq<Book>): map<Book, Entry>
    decreases |keys|
  {
    if keys == [] then map[]
    else
      var b := keys[|keys| - 1];
      var position := IndexOf(shelf, b);
      RebuildAll(keys[..|keys| - 1], shelf)[b := Entry(position > -1, position)]
  }

  /** The rebuilt table has an entry for exactly the books of `keys`: on the
      shelf exactly when `indexOf` finds the book, at that index (-1 otherwise). */
  lemma {:induction false} RebuildAllSpec(keys: seq<Book>, shelf: seq<Book>)
    ensures var table := RebuildAll(keys, shelf);
      && (forall b :: b in table <==> b in keys)
      && (forall b :: b in table ==> table[b] == Entry(IndexOf(shelf, b) > -1, IndexOf(shelf, b)))
    decreases |keys|
  {
    if keys != [] {
      var front := keys[..|keys| - 1];
      assert keys == front + [keys[|keys| - 1]];
      RebuildAllSpec(front, shelf);
    }
  }

  /** The loaded clock, one catalog book at a time: a missing or zero time
      becomes 0. */
  function FillAll(keys: seq<Book>, clock: map<Book, nat>): map<Book, nat>
    decreases |keys|
  {
    if keys == [] then clock
    else
      var b := keys[|keys| - 1];
      var filled := FillAll(keys[..|keys| - 1], clock);
      if b !in filled || filled[b] == 0 then filled[b := 0] else filled
  }

  /** Filling adds the books of `keys` that were missing, with time 0, and keeps
      every time that was there, including those of keys outside the catalog. */
  lemma {:induction false} FillAllSpec(keys: seq<Book>, clock: map<Book, nat>)
    ensures var r := FillAll(keys, clock);
      && (forall b :: b in r <==> b in clock || b in keys)
      && (forall b :: b in r ==> r[b] == if b in clock then clock[b] else 0)
    decreases |keys|
  {
    if keys != [] {
      var front := keys[..|keys| - 1];
      assert keys == front + [keys[|keys| - 1]];
      FillAllSpec(front, clock);
    }
  }

  /** The drop handler's slot update, one dropped book at a time. */
  function PlaceAll(order: seq<Book>, table: map<Book, Entry>): (r: map<Book, Entry>)
    requires forall b :: b in order ==> b in table
    ensures r.Keys == table.Keys
    decreases |order|
  {
    if order == [] then table
    else
      var n := |order| - 1;
      var placed := PlaceAll(order[..n], table);
      placed[order[n] := placed[order[n]].(position := n)]
  }

  /** The book at index `i` of a duplicate-free `order` gets position `i`; its
      on-shelf flag and every entry of a book not in `order` are kept. */
  lemma {:induction false} PlaceAllSpec(order: seq<Book>, table: map<Book, Entry>)
    requires NoDup(order) && forall b :: b in order ==> b in table
    ensures var r := PlaceAll(order, table);
      && (forall j :: 0 <= j < |order| ==> r[order[j]] == table[order[j]].(position := j))
      && (forall b :: b in table && b !in order ==> r[b] == table[b])
    decreases |order|
  {
    if order != [] {
      var n := |order| - 1;
      var front := order[..n];
      assert order == front + [order[n]];
      PlaceAllSpec(front, table);
    }
  }

  // ---------------------------------------------------------------------
  // Saving and loading

  /** The state on the first visit, with nothing saved: consistent, with exact
      slots since nothing is on the shelf. */
  function Fresh(catalog: seq<Book>): (r: State)
    ensures Consistent(r) && ExactSlots(r)
  {
    AssignAllSpec(catalog, map[], InStorage);
    AssignAllSpec<nat>(catalog, map[], 0);
    var r := State(catalog, [], AssignAll(catalog, map[], InStorage), AssignAll(catalog, map[], 0), Stats(0, 0));
    assert forall b :: b in catalog ==> b in r.lastUsed;
    r
  }

  /** Loading: with no snapshot the fresh state; otherwise the snapshot's shelf,
      stats and clock (each defaulted when missing), with the page table rebuilt
      from the shelf. */
  function Restore(catalog: seq<Book>, saved: Option<Snapshot>): State {
    match saved
    case None => Fresh(catalog)
    case Some(snap) =>
      var shelf := snap.shelf.GetOr([]);
      State(catalog, shelf, RebuildAll(catalog, shelf), FillAll(catalog, snap.lastUsed.GetOr(map[])),
            snap.stats.GetOr(Stats(0, 0)))
  }

  /** Saving writes the shelf, the stats and the clock, and nothing else. */
  function Save(s: State): Snapshot {
    Snapshot(Some(s.shelf), Some(s.stats), Some(s.lastUsed))
  }

  /** A snapshot whose shelf could have been produced by the simulator. */
  predicate WellFormed(catalog: seq<Book>, snap: Snapshot) {
    var shelf := snap.shelf.GetOr([]);
    |shelf| <= Capacity && NoDup(shelf) && forall b :: b in shelf ==> b in catalog
  }

  /** Loading a snapshot rebuilds one entry per catalog book, on the shelf
      exactly when `indexOf` finds it and at that index; a catalog book whose
      time is missing or zero gets 0 and every other time is kept; missing
      fields default to the empty shelf and zero counters. */
  lemma RestoreRebuilds(catalog: seq<Book>, snap: Snapshot)
    ensures var r := Restore(catalog, Some(snap));
      var lastUsed := snap.lastUsed.GetOr(map[]);
      && r.shelf == snap.shelf.GetOr([])
      && r.stats == snap.stats.GetOr(Stats(0, 0))
      && (forall b :: b in r.pageTable <==> b in catalog)
      && (forall b :: b in catalog ==>
            r.pageTable[b].onShelf == (b in r.shelf) && r.pageTable[b].position == IndexOf(r.shelf, b))
      && (forall b :: b in catalog ==>
            b in r.lastUsed && r.lastUsed[b] == if b in lastUsed then lastUsed[b] else 0)
      && (forall b :: b in lastUsed ==> b in r.lastUsed && r.lastUsed[b] == lastUsed[b])
  {
    RebuildAllSpec(catalog, snap.shelf.GetOr([]));
    FillAllSpec(catalog, snap.lastUsed.GetOr(map[]));
  }

  /** With nothing saved, every catalog book and no other has an entry, in
      storage, and a clock of 0; the shelf is empty and the counters are zero. */
  lemma FreshIsBaseline(catalog: seq<Book>)
    ensures var r := Fresh(catalog);
      && r.catalog == catalog && r.shelf == [] && r.stats == Stats(0, 0)
      && (forall b :: b in r.pageTable <==> b in catalog)
      && (forall b :: b in catalog ==> r.pageTable[b] == InStorage && b in r.lastUsed && r.lastUsed[b] == 0)
  {
    AssignAllSpec(catalog, map[], InStorage);
    AssignAllSpec<nat>(catalog, map[], 0);
  }

  /** Loading a well-formed snapshot gives a consistent state whose page table
      names exact slots. */
  lemma RestoreConsistent(catalog: seq<Book>, snap: Snapshot)
    requires WellFormed(catalog, snap)
    ensures Consistent(Restore(catalog, Some(snap))) && ExactSlots(Restore(catalog, Some(snap)))
  {
    RestoreRebuilds(catalog, snap);
  }

  /** Loading what was saved restores the shelf, the stats and the clock, and
      the same on-shelf flags. The rebuilt page table equals the saved state's
      exactly when that state's slots were exact. */
  lemma SaveRestoreRoundTrip(s: State)
    requires Consistent(s)
    ensures var r := Restore(s.catalog, Some(Save(s)));
      && r.shelf == s.shelf && r.stats == s.stats && r.lastUsed == s.lastUsed
      && r.pageTable.Keys == s.pageTable.Keys
      && (forall b :: b in s.pageTable ==> r.pageTable[b].onShelf == s.pageTable[b].onShelf)
      && (r.pageTable == s.pageTable <==> ExactSlots(s))
  {
    var r := Restore(s.catalog, Some(Save(s)));
    ClockRoundTrip(s.catalog, s.lastUsed);
    TableRoundTrip(s, r.pageTable);
  }

  /** Filling a clock that already has every catalog book gives it back. */
  lemma ClockRoundTrip(catalog: seq<Book>, clock: map<Book, nat>)
    requires forall b :: b in catalog ==> b in clock
    ensures FillAll(catalog, clock) == clock
  {
    FillAllSpec(catalog, clock);
    assert FillAll(catalog, clock).Keys == clock.Keys;
  }

  /** The table rebuilt from a consistent state's shelf has the same keys and
      flags, and equals the state's table exactly when its slots are exact. */
  lemma TableRoundTrip(s: State, table: map<Book, Entry>)
    requires Consistent(s) && table == RebuildAll(s.catalog, s.shelf)
    ensures table.Keys == s.pageTable.Keys
    ensures forall b :: b in s.pageTable ==> table[b].onShelf == s.pageTable[b].onShelf
    ensures table == s.pageTable <==> ExactSlots(s)
  {
    RebuildAllSpec(s.catalog, s.shelf);
    if ExactSlots(s) {
      forall b | b in s.pageTable ensures table[b] == s.pageTable[b] {
      }
    }
  }

  // ---------------------------------------------------------------------
  // Reset

  /** Reset: empty shelf, zero counters, a clock rebuilt from nothing with 0 for
      every catalog book, and every catalog book's entry overwritten as in
      storage (the table itself is not replaced). */
  function Reset(s: State): State {
    State(s.catalog, [], AssignAll(s.catalog, s.pageTable, InStorage), AssignAll(s.catalog, map[], 0),
          Stats(0, 0))
  }

  /** From any state at all, reset leaves an empty shelf and zero counters,
      every catalog book in storage, and a clock holding exactly the catalog
      books, each at 0. */
  lemma ResetClears(s: State)
    ensures var r := Reset(s);
      && r.shelf == [] && r.stats == Stats(0, 0) && r.catalog == s.catalog
      && (forall b :: b in s.catalog ==> b in r.pageTable && r.pageTable[b] == InStorage)
      && (forall b :: b in r.lastUsed <==> b in s.catalog)
      && (forall b :: b in r.lastUsed ==> r.lastUsed[b] == 0)
  {
    AssignAllSpec(s.catalog, s.pageTable, InStorage);
    AssignAllSpec<nat>(s.catalog, map[], 0);
  }

  /** From any state whose page table has an entry for exactly the catalog
      books, consistent or not, reset yields the fresh baseline. */
  lemma ResetIsFresh(s: State)
    requires forall b :: b in s.pageTable <==> b in s.catalog
    ensures Reset(s) == Fresh(s.catalog)
  {
    AssignAllSpec(s.catalog, s.pageTable, InStorage);
    AssignAllSpec(s.catalog, map[], InStorage);
    assert Reset(s).pageTable == Fresh(s.catalog).pageTable;
  }

  /** Reset twice is reset once, from any state at all. */
  lemma ResetIdempotent(s: State)
    ensures Reset(Reset(s)) == Reset(s)
  {
    AssignAllSpec(s.catalog, s.pageTable, InStorage);
    AssignAllSpec(s.catalog, Reset(s).pageTable, InStorage);
    assert Reset(Reset(s)).pageTable == Reset(s).pageTable;
  }

  // ---------------------------------------------------------------------
  // Rearranging the shelf by drag and drop

  /** The new order is a permutation of the shelf. */
  predicate IsArrangementOf(order: seq<Book>, shelf: seq<Book>) {
    multiset(order) == multiset(shelf)
  }

  /** A permutation of a duplicate-free sequence has no duplicates and the same
      elements. */
  lemma SameElements(shelf: seq<Book>, order: seq<Book>)
    requires NoDup(shelf) && multiset(order) == multiset(shelf)
    ensures NoDup(order)
    ensures forall b :: b in order <==> b in shelf
  {
    NoDupPermutation(shelf, order);
    forall b ensures b in order <==> b in shelf {
      assert b in order <==> b in multiset(order);
      assert b in shelf <==> b in multiset(shelf);
    }
  }

  /** Dropping the shelf into a new order: the shelf becomes `order`, each
      moved book's slot becomes its new index and its clock becomes `now`;
      the on-shelf flags, the other entries and the stats stay. */
  function Rearrange(s: State, order: seq<Book>, now: nat): State
    requires Consistent(s) && IsArrangementOf(order, s.shelf)
  {
    SameElements(s.shelf, order);
    s.(shelf := order, pageTable := PlaceAll(order, s.pageTable), lastUsed := AssignAll(order, s.lastUsed, now))
  }

  /** A rearrangement keeps the invariant and makes every slot exact: the book
      dropped at index `i` has entry `{onShelf: true, position: i}` and clock
      `now`; books off the shelf keep their clock; the counters are untouched. */
  lemma RearrangeExact(s: State, order: seq<Book>, now: nat)
    requires Consistent(s) && IsArrangementOf(order, s.shelf)
    ensures var r := Rearrange(s, order, now);
      && Consistent(r) && ExactSlots(r)
      && r.shelf == order && r.stats == s.stats
      && (forall i :: 0 <= i < |order| ==>
            && order[i] in r.pageTable && r.pageTable[order[i]] == Entry(true, i)
            && order[i] in r.lastUsed && r.lastUsed[order[i]] == now)
      && (forall b :: b in s.lastUsed && b !in order ==> b in r.lastUsed && r.lastUsed[b] == s.lastUsed[b])
  {
    SameElements(s.shelf, order);
    AssignAllSpec<nat>(order, s.lastUsed, now);
    assert |order| == |s.shelf| by {
      assert |multiset(order)| == |multiset(s.shelf)|;
    }
    RearrangeSlots(s, order, now);
    RearrangeConsistent(s, order, now);
  }

  /** Every entry after a rearrangement: a book of `order` is on the shelf at
      its index in `order`; every other book stays in storage. */
  lemma RearrangeEntries(s: State, order: seq<Book>, now: nat)
    requires Consistent(s) && IsArrangementOf(order, s.shelf)
    ensures var r := Rearrange(s, order, now);
      && r.pageTable.Keys == s.pageTable.Keys
      && forall b :: b in r.pageTable ==>
           r.pageTable[b] == if b in order then Entry(true, IndexOf(order, b)) else InStorage
  {
    var r := Rearrange(s, order, now);
    SameElements(s.shelf, order);
    PlaceAllSpec(order, s.pageTable);
    forall b | b in r.pageTable
      ensures r.pageTable[b] == if b in order then Entry(true, IndexOf(order, b)) else InStorage
    {
      if b in order {
        var i := IndexOf(order, b);
        assert r.pageTable[order[i]] == s.pageTable[order[i]].(position := i);
      }
    }
  }

  lemma RearrangeSlots(s: State, order: seq<Book>, now: nat)
    requires Consistent(s) && IsArrangementOf(order, s.shelf)
    ensures var r := Rearrange(s, order, now);
      forall i :: 0 <= i < |order| ==> order[i] in r.pageTable && r.pageTable[order[i]] == Entry(true, i)
  {
    SameElements(s.shelf, order);
    RearrangeEntries(s, order, now);
    forall i | 0 <= i < |order| ensures IndexOf(order, order[i]) == i {
      IndexOfNoDup(order, i);
    }
  }

  lemma RearrangeConsistent(s: State, order: seq<Book>, now: nat)
    requires Consistent(s) && IsArrangementOf(order, s.shelf)
    requires |order| == |s.shelf|
    ensures Consistent(Rearrange(s, order, now)) && ExactSlots(Rearrange(s, order, now))
  {
    SameElements(s.shelf, order);
    RearrangeEntries(s, order, now);
    AssignAllSpec<nat>(order, s.lastUsed, now);
  }
}
