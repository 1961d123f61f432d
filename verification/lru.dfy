/** The least-recently-used choice made when the shelf is full: a
    left-to-right scan that keeps the first book whose last-use time is
    strictly smaller than the best seen so far. */
module Lru {
  import opened Library

  /** The victim the scan keeps: minimal `lastUsed`, earliest slot among equals.
      Defined on the prefix already scanned, so that it follows the scan order. */
  function LruIndex(shelf: seq<Book>, lastUsed: map<Book, nat>): (k: nat)
    requires |shelf| > 0
    requires forall b :: b in shelf ==> b in lastUsed
    ensures k < |shelf|
    ensures forall j :: 0 <= j < |shelf| ==> lastUsed[shelf[k]] <= lastUsed[shelf[j]]
    ensures forall j :: 0 <= j < k ==> lastUsed[shelf[k]] < lastUsed[shelf[j]]
  {
    if |shelf| == 1 then 0
    else
      var front := shelf[..|shelf| - 1];
      var k := LruIndex(front, lastUsed);
      assert shelf[k] == front[k];
      if lastUsed[shelf[|shelf| - 1]] < lastUsed[shelf[k]] then |shelf| - 1 else k
  }

  /** The two properties characterise the victim: any slot that is minimal and
      earlier than every other minimal slot is the one `LruIndex` picks. */
  lemma LruIndexUnique(shelf: seq<Book>, lastUsed: map<Book, nat>, k: nat)
    requires |shelf| > 0
    requires forall b :: b in shelf ==> b in lastUsed
    requires k < |shelf|
    requires forall j :: 0 <= j < |shelf| ==> lastUsed[shelf[k]] <= lastUsed[shelf[j]]
    requires forall j :: 0 <= j < k ==> lastUsed[shelf[k]] < lastUsed[shelf[j]]
    ensures k == LruIndex(shelf, lastUsed)
  {
  }

  /** The scan itself: start from the first shelf book and replace the
      candidate only on a strictly smaller time. Returns the book, as the
      source does; its slot is then found with `indexOf`. */
  method FindLru(shelf: seq<Book>, lastUsed: map<Book, nat>) returns (lruBook: Book)
    requires |shelf| > 0
    requires forall b :: b in shelf ==> b in lastUsed
    ensures lruBook == shelf[LruIndex(shelf, lastUsed)]
    ensures lruBook in shelf
    ensures forall b :: b in shelf ==> lastUsed[lruBook] <= lastUsed[b]
  {
    lruBook := shelf[0];
    var lruTime := lastUsed[lruBook];
    ghost var k := 0;
    for i := 0 to |shelf|
      invariant k < |shelf| && (k <= i || k == 0)
      invariant lruBook == shelf[k] && lruTime == lastUsed[lruBook]
      invariant forall j :: 0 <= j < i ==> lruTime <= lastUsed[shelf[j]]
      invariant forall j :: 0 <= j < k ==> lruTime < lastUsed[shelf[j]]
    {
      var b := shelf[i];
      if lastUsed[b] < lruTime {
        lruBook := b;
        lruTime := lastUsed[b];
        k := i;
      }
    }
    LruIndexUnique(shelf, lastUsed, k);
  }
}
