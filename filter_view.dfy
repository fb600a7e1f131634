/**
 * `FilterView` of `boundary_condition_manager.hpp`: a lazy view of the elements of a container range
 * that satisfy a predicate. The container is a sequence that the view never changes and an iterator is
 * a position in it; the predicate is a total function of the element.
 */
module FilterViews {

  /** The first position from `i` on, before `e`, whose element satisfies `pred`; `e` when there is none. */
  function NextSatisfying<T>(s: seq<T>, pred: T -> bool, i: nat, e: nat): (r: nat)
    requires i <= e <= |s|
    ensures i <= r <= e
    ensures r < e ==> pred(s[r])
    ensures forall k :: i <= k < r ==> !pred(s[k])
    decreases e - i
  {
    if i == e || pred(s[i]) then i else NextSatisfying(s, pred, i + 1, e)
  }

  /** The elements of `s[i..e]` that satisfy `pred`, each once and in their order in `s`. */
  function Filtered<T>(s: seq<T>, pred: T -> bool, i: nat, e: nat): seq<T>
    requires i <= e <= |s|
    decreases e - i
  {
    if i == e then [] else (if pred(s[i]) then [s[i]] else []) + Filtered(s, pred, i + 1, e)
  }

  /** Skipping the elements that fail the predicate loses nothing from the filtered sequence. */
  lemma {:induction false} FilteredSkips<T>(s: seq<T>, pred: T -> bool, i: nat, e: nat)
    requires i <= e <= |s|
    ensures Filtered(s, pred, i, e) == Filtered(s, pred, NextSatisfying(s, pred, i, e), e)
    decreases e - i
  {
    if i < e && !pred(s[i]) {
      FilteredSkips(s, pred, i + 1, e);
    }
  }

  /** An element is in the filtered sequence exactly when it sits in the range and satisfies `pred`. */
  lemma {:induction false} FilteredMembers<T>(s: seq<T>, pred: T -> bool, i: nat, e: nat, x: T)
    requires i <= e <= |s|
    ensures x in Filtered(s, pred, i, e) <==> exists k :: i <= k < e && s[k] == x && pred(x)
    decreases e - i
  {
    if i < e {
      var head := if pred(s[i]) then [s[i]] else [];
      var tail := Filtered(s, pred, i + 1, e);
      assert Filtered(s, pred, i, e) == head + tail;
      FilteredMembers(s, pred, i + 1, e, x);
      if x in head + tail {
        if x in head {
          assert s[i] == x && pred(x);
        } else {
          var k :| i + 1 <= k < e && s[k] == x && pred(x);
          assert i <= k < e && s[k] == x;
        }
      }
      if exists k :: i <= k < e && s[k] == x && pred(x) {
        var k :| i <= k < e && s[k] == x && pred(x);
        if k == i {
          assert x in head;
        } else {
          assert x in tail;
        }
      }
    }
  }

  /** The filtered sequence is no longer than the range and keeps all of it when every element passes. */
  lemma {:induction false} FilteredLength<T>(s: seq<T>, pred: T -> bool, i: nat, e: nat)
    requires i <= e <= |s|
    ensures |Filtered(s, pred, i, e)| <= e - i
    ensures (forall k :: i <= k < e ==> pred(s[k])) ==> Filtered(s, pred, i, e) == s[i..e]
    decreases e - i
  {
    if i < e {
      FilteredLength(s, pred, i + 1, e);
      if forall k :: i <= k < e ==> pred(s[k]) {
        assert s[i..e] == [s[i]] + s[i + 1..e];
      }
    }
  }

  /** `FilterView<Iter, Pred>::FilterViewIterator`: a position `curr` before the range end `endPos`. */
  class FilterViewIterator<T> {
    var curr: nat
    const endPos: nat
    const elems: seq<T>
    const pred: T -> bool

    ghost predicate Valid()
      reads this
    {
      curr <= endPos <= |elems|
    }

    constructor (elems: seq<T>, curr: nat, endPos: nat, pred: T -> bool)
      requires curr <= endPos <= |elems|
      ensures Valid()
      ensures this.elems == elems && this.curr == curr && this.endPos == endPos && this.pred == pred
    {
      this.elems := elems;
      this.curr := curr;
      this.endPos := endPos;
      this.pred := pred;
    }

    /**
     * `operator++`: one step forward, then on while the element fails the predicate, stopping at the
     * range end. It never stays in place and never passes the end.
     */
    method Increment()
      requires Valid() && curr < endPos
      modifies this
      ensures Valid() && curr == NextSatisfying(elems, pred, old(curr) + 1, endPos)
    {
      curr := curr + 1;
      while curr != endPos && !pred(elems[curr])
        invariant old(curr) < curr <= endPos
        invariant NextSatisfying(elems, pred, curr, endPos) == NextSatisfying(elems, pred, old(curr) + 1, endPos)
        decreases endPos - curr
      {
        curr := curr + 1;
      }
    }

    /** `operator*`: the element at the current position, as it is in the container. */
    function Deref(): (x: T)
      reads this
      requires Valid() && curr < endPos
      ensures x == elems[curr]
    {
      elems[curr]
    }

    /** `operator!=`: only the current positions are compared. */
    function NotEqual(other: FilterViewIterator<T>): bool
      reads this, other
    {
      curr != other.curr
    }
  }

  /** `FilterView<Iter, Pred>`: the range `[first, endPos)` of `elems` filtered by `pred`. */
  class FilterView<T> {
    var beginPos: nat
    const endPos: nat
    const elems: seq<T>
    const pred: T -> bool
    /** The `begin` the view was built from, before the constructor skipped ahead. */
    ghost const first: nat

    ghost predicate Valid()
      reads this
    {
      first <= endPos <= |elems| && beginPos == NextSatisfying(elems, pred, first, endPos)
    }

    /** The constructor skips `begin_` ahead to the first element that satisfies the predicate, if any. */
    constructor (elems: seq<T>, begin: nat, endPos: nat, pred: T -> bool)
      requires begin <= endPos <= |elems|
      ensures Valid()
      ensures this.elems == elems && this.first == begin && this.endPos == endPos && this.pred == pred
      ensures beginPos == NextSatisfying(elems, pred, begin, endPos)
    {
      this.elems := elems;
      this.first := begin;
      this.endPos := endPos;
      this.pred := pred;
      this.beginPos := begin;
      new;
      while beginPos != endPos && !pred(elems[beginPos])
        invariant begin <= beginPos <= endPos
        invariant NextSatisfying(elems, pred, beginPos, endPos) == NextSatisfying(elems, pred, begin, endPos)
        decreases endPos - beginPos
      {
        beginPos := beginPos + 1;
      }
    }

    /** `begin()`: an iterator at the first satisfying position. */
    method Begin() returns (it: FilterViewIterator<T>)
      requires Valid()
      ensures fresh(it) && it.Valid()
      ensures it.elems == elems && it.curr == beginPos && it.endPos == endPos && it.pred == pred
    {
      it := new FilterViewIterator(elems, beginPos, endPos, pred);
    }

    /** `end()`: an iterator at the range end. */
    method End() returns (it: FilterViewIterator<T>)
      requires Valid()
      ensures fresh(it) && it.Valid()
      ensures it.elems == elems && it.curr == endPos && it.endPos == endPos && it.pred == pred
    {
      it := new FilterViewIterator(elems, endPos, endPos, pred);
    }
  }

  /** Visiting a satisfying element `s[c]` and moving on to the next satisfying position keeps the rest to visit. */
  lemma {:induction false} VisitStep<T>(s: seq<T>, pred: T -> bool, c: nat, e: nat, first: nat, visited: seq<T>)
    requires first <= e <= |s| && c < e && pred(s[c])
    requires visited + Filtered(s, pred, c, e) == Filtered(s, pred, first, e)
    ensures (visited + [s[c]]) + Filtered(s, pred, NextSatisfying(s, pred, c + 1, e), e) == Filtered(s, pred, first, e)
  {
    var rest := Filtered(s, pred, c + 1, e);
    assert Filtered(s, pred, c, e) == [s[c]] + rest;
    assert visited + ([s[c]] + rest) == (visited + [s[c]]) + rest;
    FilteredSkips(s, pred, c + 1, e);
  }

  /**
   * A range-based `for` over the view: from `begin()`, dereference and advance while the iterator `!=`
   * `end()`. The elements visited are exactly those of the range that satisfy the predicate, in order.
   */
  method Collect<T>(view: FilterView<T>) returns (visited: seq<T>)
    requires view.Valid()
    ensures visited == Filtered(view.elems, view.pred, view.first, view.endPos)
  {
    var it := view.Begin();
    var stop := view.End();
    FilteredSkips(view.elems, view.pred, view.first, view.endPos);
    visited := [];
    while it.NotEqual(stop)
      invariant it.Valid() && it.elems == view.elems && it.pred == view.pred && it.endPos == view.endPos
      invariant stop.curr == view.endPos && it != stop
      invariant it.curr < it.endPos ==> it.pred(it.elems[it.curr])
      invariant visited + Filtered(view.elems, view.pred, it.curr, view.endPos) ==
        Filtered(view.elems, view.pred, view.first, view.endPos)
      decreases view.endPos - it.curr
    {
      var x := it.Deref();
      VisitStep(view.elems, view.pred, it.curr, view.endPos, view.first, visited);
      visited := visited + [x];
      it.Increment();
    }
  }
}
