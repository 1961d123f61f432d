/** The library shelf: the catalog of books (virtual pages), the bounded shelf
    (physical memory), the page table, the last-use clock and the hit/fault
    counters, together with the invariant that ties them to each other. */
module Library {
  import opened Wrappers

  type Book = string

  /** The page's fixed catalog, in the order the page-table loops visit it. */
  const Books: seq<Book> := [
    "Operating Systems",
    "Computer Networks",
    "Algorithms",
    "Database Systems",
    "Machine Learning",
    "Web Development"
  ]

  /** Number of slots on the shelf. */
  const Capacity: nat := 3

  /** A page-table entry: whether the book is on the shelf and in which slot
      (-1 when it is in storage). */
  datatype Entry = Entry(onShelf: bool, position: int)

  const InStorage: Entry := Entry(false, -1)

  datatype Stats = Stats(hits: nat, faults: nat)

  /** The whole simulator state: the catalog it was configured with (the page
      always uses `Books`) and the four globals of the page. */
  datatype State = State(
    catalog: seq<Book>,
    shelf: seq<Book>,
    pageTable: map<Book, Entry>,
    lastUsed: map<Book, nat>,
    stats: Stats)

  /** What is written to local storage. Each field may be missing from the
      parsed JSON object, hence the options. */
  datatype Snapshot = Snapshot(
    shelf: Option<seq<Book>>,
    stats: Option<Stats>,
    lastUsed: Option<map<Book, nat>>)

  predicate NoDup<T(==)>(s: seq<T>) {
    forall i, j :: 0 <= i < j < |s| ==> s[i] != s[j]
  }

  /** JavaScript's `Array.prototype.indexOf`: the first index of `x`, or -1. */
  function IndexOf<T(==)>(s: seq<T>, x: T): (i: int)
    ensures i == -1 <==> x !in s
    ensures x in s ==> 0 <= i < |s| && s[i] == x && x !in s[..i]
  {
    if s == [] then -1
    else if s[0] == x then 0
    else
      var j := IndexOf(s[1..], x);
      if j == -1 then -1
      else
        assert s[..j + 1] == [s[0]] + s[1..][..j];
        j + 1
  }

  /** In a sequence without duplicates, the index of the element at `k` is `k`. */
  lemma IndexOfNoDup<T>(s: seq<T>, k: int)
    requires NoDup(s) && 0 <= k < |s|
    ensures IndexOf(s, s[k]) == k
  {
  }

  /** Two sequences with the same multiset of elements, one without duplicates:
      the other has none either. */
  lemma {:induction false} NoDupPermutation<T>(s: seq<T>, t: seq<T>)
    requires multiset(s) == multiset(t) && NoDup(s)
    ensures NoDup(t)
  {
    if !NoDup(t) {
      var i, j :| 0 <= i < j < |t| && t[i] == t[j];
      var x := t[i];
      MultiplicityAtLeastTwo(t, i, j);
      MultiplicityAtMostOne(s, x);
    }
  }

  lemma {:induction false} MultiplicityAtLeastTwo<T>(t: seq<T>, i: int, j: int)
    requires 0 <= i < j < |t| && t[i] == t[j]
    ensures multiset(t)[t[i]] >= 2
  {
    var x := t[i];
    assert t == t[..i] + [x] + t[i + 1..j] + [x] + t[j + 1..];
    calc {
      multiset(t)[x];
      multiset(t[..i])[x] + 1 + multiset(t[i + 1..j])[x] + 1 + multiset(t[j + 1..])[x];
    >=
      2;
    }
  }

  lemma {:induction false} MultiplicityAtMostOne<T>(s: seq<T>, x: T)
    requires NoDup(s)
    ensures multiset(s)[x] <= 1
  {
    if s != [] {
      assert NoDup(s[1..]) by {
        forall i, j | 0 <= i < j < |s[1..]| ensures s[1..][i] != s[1..][j] {
          assert s[1..][i] == s[i + 1] && s[1..][j] == s[j + 1];
        }
      }
      MultiplicityAtMostOne(s[1..], x);
      assert s == [s[0]] + s[1..];
      if s[0] == x {
        assert x !in s[1..];
      }
    }
  }

  /** The invariant the simulator keeps between operations: the shelf is
      bounded and duplicate-free and holds catalog books only; there is exactly
      one page-table entry per catalog book and a clock entry for each; a book
      is marked on the shelf exactly when it is on the shelf; an on-shelf entry
      names a slot that exists and an in-storage entry names slot -1.
      It does NOT say that `position` is the book's index on the shelf: an
      eviction leaves the positions of later books one too high. */
  ghost predicate Consistent(s: State) {
    && |s.shelf| <= Capacity
    && NoDup(s.shelf)
    && (forall b :: b in s.shelf ==> b in s.catalog)
    && (forall b :: b in s.pageTable <==> b in s.catalog)
    && (forall b :: b in s.catalog ==> b in s.lastUsed)
    && (forall b :: b in s.pageTable ==> (s.pageTable[b].onShelf <==> b in s.shelf))
    && (forall b :: b in s.pageTable && s.pageTable[b].onShelf ==>
          0 <= s.pageTable[b].position < |s.shelf|)
    && (forall b :: b in s.pageTable && !s.pageTable[b].onShelf ==> s.pageTable[b] == InStorage)
  }

  /** The stronger form the page itself sets up: every on-shelf entry names
      the book's exact index. Loading computes slots with `indexOf`
      (script.js:57-60) and the drop handler gives each book its index
      (script.js:154), and the page shows the same number twice, as the shelf
      item's `Slot i` (script.js:193) and as the page table's `Shelf i`
      (script.js:208). */
  ghost predicate ExactSlots(s: State) {
    forall b :: b in s.pageTable && s.pageTable[b].onShelf ==>
      s.pageTable[b].position == IndexOf(s.shelf, b)
  }

  /** The hit ratio shown on the page, as a whole percentage rounded half up;
      0 before any request. */
  function HitRatio(st: Stats): (ratio: nat)
    ensures ratio <= 100
    ensures st.hits + st.faults == 0 ==> ratio == 0
    ensures st.hits + st.faults > 0 ==>
      var total := st.hits + st.faults;
      (2 * ratio - 1) * total <= 200 * st.hits < (2 * ratio + 1) * total
  {
    var total := st.hits + st.faults;
    if total > 0 then
      var r := (200 * st.hits + total) / (2 * total);
      RoundingBounds(200 * st.hits + total, 2 * total, r);
      assert (200 * st.hits + total) < 202 * total;
      QuotientBelow(200 * st.hits + total, 2 * total, 101);
      r
    else 0
  }

  lemma RoundingBounds(n: nat, d: nat, q: nat)
    requires d > 0 && q == n / d
    ensures q * d <= n < q * d + d
  {
  }

  lemma QuotientBelow(n: nat, d: nat, k: nat)
    requires d > 0 && n < k * d
    ensures n / d < k
  {
  
  }
}
