/** The drop handler as the page runs it. Each shelf item is drawn with the
    label `Slot i: title`, where `i` is the index the book had when the shelf
    was drawn (script.js:193). After a drop the handler walks the items in
    their new order and strips `Slot j: ` using the item's NEW index `j`
    (script.js:152). So the title comes back only while the dropped order
    agrees with the drawn shelf. At the first book that moved, the label stays
    whole, names no page-table entry, and setting its position throws
    (script.js:154). That happens before the new shelf is assigned or saved
    (script.js:157-158). The books walked before it have already been given
    their index as slot and stamped. The intended drop is
    `Transitions.Rearrange`, which the class `Simulator.PagingSimulator` runs. */
module DragDrop {
  import opened Library
  import opened Transitions

  /** The length of the longest common prefix of `a` and `b`. */
  function CommonPrefix(a: seq<Book>, b: seq<Book>): (m: nat)
    ensures m <= |a| && m <= |b|
    ensures forall j :: 0 <= j < m ==> a[j] == b[j]
    ensures m < |a| && m < |b| ==> a[m] != b[m]
  {
    if a == [] || b == [] || a[0] != b[0] then 0
    else 1 + CommonPrefix(a[1..], b[1..])
  }

  /** The drop as the page runs it. The books of `order` that sit where they
      were drawn, up to the first one that moved, get their index as slot and
      the clock `now`. Then the walk either throws, keeping the old shelf, or
      completes because nothing moved, and assigns `order` as the shelf. */
  function DropAsWritten(s: State, order: seq<Book>, now: nat): State
    requires Consistent(s) && IsArrangementOf(order, s.shelf)
  {
    var m := CommonPrefix(order, s.shelf);
    assert forall b :: b in order[..m] ==> b in s.shelf by {
      forall b | b in order[..m] ensures b in s.shelf {
        var j :| 0 <= j < m && order[j] == b;
        assert s.shelf[j] == b;
      }
    }
    s.(shelf := if m == |order| then order else s.shelf,
       pageTable := PlaceAll(order[..m], s.pageTable),
       lastUsed := AssignAll(order[..m], s.lastUsed, now))
  }

  /** As written, a drop never changes the shelf, and keeps the invariant. Only
      the books before the first one that moved are touched: each gets its
      index as slot and the clock `now`. Every other entry, every other time
      and the counters stay. */
  lemma DropKeepsShelf(s: State, order: seq<Book>, now: nat)
    requires Consistent(s) && IsArrangementOf(order, s.shelf)
    ensures var m := CommonPrefix(order, s.shelf);
      var r := DropAsWritten(s, order, now);
      && r.shelf == s.shelf && r.stats == s.stats && r.catalog == s.catalog
      && Consistent(r)
      && (forall j :: 0 <= j < m ==>
            && s.shelf[j] in r.pageTable && r.pageTable[s.shelf[j]] == Entry(true, j)
            && s.shelf[j] in r.lastUsed && r.lastUsed[s.shelf[j]] == now)
      && (forall b :: b in s.pageTable && b !in s.shelf[..m] ==> b in r.pageTable && r.pageTable[b] == s.pageTable[b])
      && (forall b :: b in s.lastUsed && b !in s.shelf[..m] ==> b in r.lastUsed && r.lastUsed[b] == s.lastUsed[b])
  {
    var m := CommonPrefix(order, s.shelf);
    var prefix := order[..m];
    assert prefix == s.shelf[..m];
    assert |order| == |s.shelf| by {
      assert |multiset(order)| == |multiset(s.shelf)|;
    }
    if m == |order| {
      assert order == s.shelf;
    }
    PrefixNoDup(s.shelf, m);
    PlaceAllSpec(prefix, s.pageTable);
    AssignAllSpec<nat>(prefix, s.lastUsed, now);
    var r := DropAsWritten(s, order, now);
    forall j | 0 <= j < m
      ensures r.pageTable[s.shelf[j]] == Entry(true, j)
    {
      assert prefix[j] == s.shelf[j];
      assert s.pageTable[s.shelf[j]].onShelf;
    }
    forall b | b in r.pageTable && r.pageTable[b].onShelf
      ensures 0 <= r.pageTable[b].position < |r.shelf|
    {
      if b in prefix {
        var j :| 0 <= j < m && prefix[j] == b;
        assert r.pageTable[prefix[j]] == s.pageTable[prefix[j]].(position := j);
      }
    }
  }

  /** A prefix of a duplicate-free sequence is duplicate-free. */
  lemma PrefixNoDup(s: seq<Book>, m: nat)
    requires NoDup(s) && m <= |s|
    ensures NoDup(s[..m])
  {
    forall i, j | 0 <= i < j < m ensures s[..m][i] != s[..m][j] {
      assert s[..m][i] == s[i] && s[..m][j] == s[j];
    }
  }

  /** The page's drop does what a drop should exactly when the books were left
      where they were: for every other arrangement it differs from the intended
      `Rearrange`, whose shelf is the dropped order. */
  lemma DropAsIntendedIff(s: State, order: seq<Book>, now: nat)
    requires Consistent(s) && IsArrangementOf(order, s.shelf)
    ensures DropAsWritten(s, order, now) == Rearrange(s, order, now) <==> order == s.shelf
  {
    var m := CommonPrefix(order, s.shelf);
    assert |order| == |s.shelf| by {
      assert |multiset(order)| == |multiset(s.shelf)|;
    }
    if order == s.shelf {
      assert order[..m] == order;
    } else {
      assert m < |order|;
    }
  }

  /** A concrete drop: the shelf [a, b, c] dragged into [c, a, b]. The first
      item read back is `Slot 2: c` stripped of `Slot 0: `, so the walk throws
      at once and the drop changes nothing at all. */
  lemma RotatedDropIsLost(s: State, a: Book, b: Book, c: Book, now: nat)
    requires Consistent(s) && s.shelf == [a, b, c]
    ensures IsArrangementOf([c, a, b], s.shelf)
    ensures DropAsWritten(s, [c, a, b], now) == s
    ensures Rearrange(s, [c, a, b], now).shelf == [c, a, b] != s.shelf
  {
    assert s.shelf[0] != s.shelf[2];
    assert multiset([c, a, b]) == multiset([a, b, c]);
    assert CommonPrefix([c, a, b], s.shelf) == 0;
    assert [c, a, b][..0] == [];
  }
}
