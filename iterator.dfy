// ConstBaseIterator<T>: a checked cursor over the [start, end) range of a
// map's entries.  Positions are indices into the entries in the map's
// iteration order; `end` is one past the last entry of the range.

module Iterators {
  /** operator++ on the position: one step forward unless already at the
      end of the range. */
  function Incremented(curr: nat, end: nat): nat
  {
    if curr != end then curr + 1 else curr
  }

  /** operator-- on the position: one step back unless already at the
      start of the range. */
  function Decremented(curr: nat, start: nat): nat
    requires start <= curr
  {
    if curr != start then curr - 1 else curr
  }

  /** A step forward from inside the range, then a step back, returns to
      where it started. */
  lemma DecrementUndoesIncrement(start: nat, curr: nat, end: nat)
    requires start <= curr < end
    ensures start <= Incremented(curr, end) <= end
    ensures Decremented(Incremented(curr, end), start) == curr
  {
  }

  /** A step back from inside the range, then a step forward, returns to
      where it started. */
  lemma IncrementUndoesDecrement(start: nat, curr: nat, end: nat)
    requires start < curr <= end
    ensures start <= Decremented(curr, start) <= end
    ensures Incremented(Decremented(curr, start), end) == curr
  {
  }

  /** The position after `n` applications of operator++. */
  function IncrementedTimes(curr: nat, end: nat, n: nat): nat
    decreases n
  {
    if n == 0 then curr else IncrementedTimes(Incremented(curr, end), end, n - 1)
  }

  /** The checked increment never leaves the range, and `n` steps from
      inside it reach min(curr + n, end): a loop of operator++ until
      isAtEnd() visits every entry once and stops. */
  lemma {:induction false} IncrementedTimesClamps(curr: nat, end: nat, n: nat)
    requires curr <= end
    ensures IncrementedTimes(curr, end, n) == if curr + n <= end then curr + n else end
    decreases n
  {
    if n > 0 {
      IncrementedTimesClamps(Incremented(curr, end), end, n - 1);
    }
  }

  class ConstBaseIterator<K, V> {
    /** The collection's entries (key, mapped value) in iteration order. */
    var entries: seq<(K, V)>
    /** d_startIter */
    var start: nat
    /** d_endIter */
    var end: nat
    /** d_currIter */
    var curr: nat

    /** The current position lies within the range, and the range within
        the collection. */
    ghost predicate Valid()
      reads this
    {
      start <= curr <= end <= |entries|
    }

    /** ConstBaseIterator(start_iter, end_iter): positioned at the start. */
    constructor(entries: seq<(K, V)>, startPos: nat, endPos: nat)
      requires startPos <= endPos <= |entries|
      ensures Valid()
      ensures this.entries == entries && start == startPos && end == endPos && curr == startPos
    {
      this.entries := entries;
      start := startPos;
      end := endPos;
      curr := startPos;
    }

    /** ConstBaseIterator(org): the same range and position. */
    constructor Copy(org: ConstBaseIterator<K, V>)
      ensures entries == org.entries && start == org.start && end == org.end && curr == org.curr
      ensures org.Valid() ==> Valid()
    {
      entries := org.entries;
      start := org.start;
      end := org.end;
      curr := org.curr;
    }

    /** operator=(rhs): takes over the range and the position. */
    method Assign(rhs: ConstBaseIterator<K, V>)
      modifies this
      ensures entries == old(rhs.entries) && start == old(rhs.start)
      ensures end == old(rhs.end) && curr == old(rhs.curr)
      ensures old(rhs.Valid()) ==> Valid()
    {
      var c, s, e, es := rhs.curr, rhs.start, rhs.end, rhs.entries;
      curr := c;
      start := s;
      end := e;
      entries := es;
    }

    /** getCurrentKey(): the key of the entry at the current position. */
    function CurrentKey(): (k: K)
      requires Valid() && curr < end
      reads this
      ensures k == entries[curr].0
    {
      entries[curr].0
    }

    /** getCurrentValue() and operator*: the mapped value of the entry at
        the current position. */
    function CurrentValue(): (v: V)
      requires Valid() && curr < end
      reads this
      ensures v == entries[curr].1
    {
      entries[curr].1
    }

    /** isAtEnd(): inside a valid range, an iterator not at the end has a
        current entry to read. */
    function IsAtEnd(): (r: bool)
      reads this
      ensures Valid() && !r ==> curr < end <= |entries|
    {
      curr == end
    }

    /** isAtStart(): inside a valid range, an iterator not at the start
        has an entry before it. */
    function IsAtStart(): (r: bool)
      reads this
      ensures Valid() && !r ==> start < curr
    {
      curr == start
    }

    /** operator++(): moves one entry forward, or stays at the end. */
    method Increment()
      requires Valid()
      modifies this
      ensures Valid() && curr == Incremented(old(curr), end)
      ensures old(IsAtEnd()) ==> curr == old(curr)
      ensures !old(IsAtEnd()) ==> curr == old(curr) + 1
      ensures entries == old(entries) && start == old(start) && end == old(end)
    {
      if curr != end {
        curr := curr + 1;
      }
    }

    /** operator++(int): a copy of the iterator as it was, then the same
        move as operator++(). */
    method PostIncrement() returns (tmp: ConstBaseIterator<K, V>)
      requires Valid()
      modifies this
      ensures fresh(tmp) && tmp.Valid()
      ensures tmp.entries == old(entries) && tmp.start == old(start) && tmp.end == old(end)
      ensures tmp.curr == old(curr)
      ensures Valid() && curr == Incremented(old(curr), end)
      ensures entries == old(entries) && start == old(start) && end == old(end)
    {
      tmp := new ConstBaseIterator<K, V>.Copy(this);
      Increment();
    }

    /** operator--(): moves one entry back, or stays at the start. */
    method Decrement()
      requires Valid()
      modifies this
      ensures entries == old(entries) && start == old(start) && end == old(end)
      ensures Valid() && curr == Decremented(old(curr), start)
      ensures old(IsAtStart()) ==> curr == old(curr)
      ensures !old(IsAtStart()) ==> curr == old(curr) - 1
    {
      if curr != start {
        curr := curr - 1;
      }
    }

    /** operator--(int): a copy of the iterator as it was, then the same
        move as operator--(). */
    method PostDecrement() returns (tmp: ConstBaseIterator<K, V>)
      requires Valid()
      modifies this
      ensures fresh(tmp) && tmp.Valid()
      ensures tmp.entries == old(entries) && tmp.start == old(start) && tmp.end == old(end)
      ensures tmp.curr == old(curr)
      ensures entries == old(entries) && start == old(start) && end == old(end)
      ensures Valid() && curr == Decremented(old(curr), start)
    {
      tmp := new ConstBaseIterator<K, V>.Copy(this);
      Decrement();
    }

    /** operator==: the current positions agree; the ranges are not
        compared. */
    function Equals(rhs: ConstBaseIterator<K, V>): (r: bool)
      reads this, rhs
      ensures this == rhs ==> r
      ensures r <==> rhs.curr == curr
      ensures IsAtStart() && rhs.IsAtStart() && start == rhs.start ==> r
    {
      curr == rhs.curr
    }

    /** operator!=: the negation of operator==. */
    function NotEquals(rhs: ConstBaseIterator<K, V>): (r: bool)
      reads this, rhs
      ensures r <==> !rhs.Equals(this)
      ensures r ==> this != rhs
    {
      !Equals(rhs)
    }

    /** toStart() */
    method ToStart()
      requires Valid()
      modifies this
      ensures Valid() && IsAtStart()
      ensures entries == old(entries) && start == old(start) && end == old(end)
    {
      curr := start;
    }

    /** toEnd() */
    method ToEnd()
      requires Valid()
      modifies this
      ensures Valid() && IsAtEnd()
      ensures entries == old(entries) && start == old(start) && end == old(end)
    {
      curr := end;
    }
  }

  /** Two iterators that differ only in their ranges compare equal, and
      stepping one of them forward from inside its range makes them
      differ. */
  method EqualityIsPositionOnly() returns (before: bool, after: bool)
    ensures before && !after
  {
    var es: seq<(int, int)> := [(1, 10), (2, 20), (3, 30)];
    var a := new ConstBaseIterator<int, int>(es, 0, 3);
    var b := new ConstBaseIterator<int, int>(es, 0, 1);
    before := a.Equals(b);
    a.Increment();
    after := a.Equals(b);
  }
}
