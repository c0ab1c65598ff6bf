/**
 * Small shared vocabulary of the scraper model: optional values, the
 * tabular output every script writes, order-preserving filtering and the
 * "try each locator in order" loop the scripts use to click a control.
 */
module Common {

  datatype Option<T> = None | Some(value: T) {
    function GetOr(default: T): T {
      if Some? then value else default
    }
  }

  /** What a script hands to its CSV writer: one header row, then data rows. */
  datatype Table = Table(header: seq<string>, rows: seq<seq<string>>)

  /** `xs` is `ys` with some elements deleted: same elements, same order. */
  predicate IsSubsequence<T(==)>(xs: seq<T>, ys: seq<T>)
    decreases |ys|
  {
    if ys == [] then xs == []
    else
      IsSubsequence(xs, ys[..|ys| - 1])
      || (xs != [] && xs[|xs| - 1] == ys[|ys| - 1]
          && IsSubsequence(xs[..|xs| - 1], ys[..|ys| - 1]))
  }

  lemma {:induction false} SubsequenceMembers<T>(xs: seq<T>, ys: seq<T>)
    requires IsSubsequence(xs, ys)
    ensures forall x :: x in xs ==> x in ys
    ensures |xs| <= |ys|
    decreases |ys|
  {
    if ys != [] {
      if IsSubsequence(xs, ys[..|ys| - 1]) {
        SubsequenceMembers(xs, ys[..|ys| - 1]);
      } else {
        SubsequenceMembers(xs[..|xs| - 1], ys[..|ys| - 1]);
        assert xs == xs[..|xs| - 1] + [xs[|xs| - 1]];
      }
    }
  }

  /** The elements of `xs` that satisfy `keep`, in their original order (a list comprehension with an `if`). */
  function Filter<T>(xs: seq<T>, keep: T -> bool): (r: seq<T>)
    ensures |r| <= |xs|
    ensures forall i :: 0 <= i < |r| ==> keep(r[i])
  {
    if xs == [] then []
    else Filter(xs[..|xs| - 1], keep) + (if keep(xs[|xs| - 1]) then [xs[|xs| - 1]] else [])
  }

  /** Filtering keeps exactly the elements that pass, and keeps them in order. */
  lemma {:induction false} FilterKeepsExactly<T>(xs: seq<T>, keep: T -> bool)
    ensures forall x :: x in Filter(xs, keep) <==> x in xs && keep(x)
    ensures IsSubsequence(Filter(xs, keep), xs)
  {
    if xs != [] {
      var init, last := xs[..|xs| - 1], xs[|xs| - 1];
      FilterKeepsExactly(init, keep);
      assert xs == init + [last];
      var r := Filter(xs, keep);
      assert xs[..|xs| - 1] == init;
      if keep(last) {
        assert r == Filter(init, keep) + [last];
        assert r[..|r| - 1] == Filter(init, keep) && r[|r| - 1] == last;
      } else {
        assert r == Filter(init, keep);
      }
    }
  }

  /** Each element mapped to a record, in order (a loop that appends exactly one row per element). */
  function Map<X, Y>(xs: seq<X>, f: X -> Y): (r: seq<Y>)
    ensures |r| == |xs|
    ensures forall i :: 0 <= i < |xs| ==> r[i] == f(xs[i])
  {
    seq(|xs|, i requires 0 <= i < |xs| => f(xs[i]))
  }

  /** Step lemma for loops that build `Map` one element at a time. */
  lemma MapStep<X, Y>(xs: seq<X>, i: nat, f: X -> Y)
    requires i < |xs|
    ensures Map(xs[..i + 1], f) == Map(xs[..i], f) + [f(xs[i])]
  {
  }

  /**
   * Each element mapped to an optional record, the absent ones dropped, in
   * order: the loops that append at most one row per element.
   */
  function FilterMap<X, Y>(xs: seq<X>, f: X -> Option<Y>): (r: seq<Y>)
    ensures |r| <= |xs|
  {
    if xs == [] then []
    else FilterMap(xs[..|xs| - 1], f) + (if f(xs[|xs| - 1]).Some? then [f(xs[|xs| - 1]).value] else [])
  }

  /** A record is produced exactly when some element maps to it. */
  lemma {:induction false} FilterMapMembers<X, Y>(xs: seq<X>, f: X -> Option<Y>)
    ensures forall y :: y in FilterMap(xs, f) <==> exists i :: 0 <= i < |xs| && f(xs[i]) == Some(y)
  {
    if xs != [] {
      var init := xs[..|xs| - 1];
      FilterMapMembers(init, f);
      forall y
        ensures y in FilterMap(xs, f) <==> exists i :: 0 <= i < |xs| && f(xs[i]) == Some(y)
      {
        if exists i :: 0 <= i < |xs| && f(xs[i]) == Some(y) {
          var i :| 0 <= i < |xs| && f(xs[i]) == Some(y);
          if i < |init| {
            assert init[i] == xs[i];
          }
        }
        if y in FilterMap(init, f) {
          var i :| 0 <= i < |init| && f(init[i]) == Some(y);
          assert xs[i] == init[i];
        }
      }
    }
  }

  /** Mapping the kept elements: a value comes out exactly when some kept element maps to it. */
  lemma FilterThenFilterMap<X, Y>(xs: seq<X>, keep: X -> bool, f: X -> Option<Y>)
    ensures forall y :: y in FilterMap(Filter(xs, keep), f) <==> exists x :: x in xs && keep(x) && f(x) == Some(y)
  {
    var kept := Filter(xs, keep);
    FilterKeepsExactly(xs, keep);
    FilterMapMembers(kept, f);
    forall y
      ensures y in FilterMap(kept, f) <==> exists x :: x in xs && keep(x) && f(x) == Some(y)
    {
      if exists x :: x in xs && keep(x) && f(x) == Some(y) {
        var x :| x in xs && keep(x) && f(x) == Some(y);
        var i :| 0 <= i < |kept| && kept[i] == x;
      }
      if y in FilterMap(kept, f) {
        var i :| 0 <= i < |kept| && f(kept[i]) == Some(y);
        assert kept[i] in kept;
      }
    }
  }

  lemma FilterMapAll<X, Y>(xs: seq<X>, f: X -> Option<Y>, holds: Y -> bool)
    requires forall i :: 0 <= i < |xs| && f(xs[i]).Some? ==> holds(f(xs[i]).value)
    ensures forall y :: y in FilterMap(xs, f) ==> holds(y)
  {
    FilterMapMembers(xs, f);
  }

  /** There are no records exactly when no element yields one. */
  lemma {:induction false} FilterMapEmpty<X, Y>(xs: seq<X>, f: X -> Option<Y>)
    ensures FilterMap(xs, f) == [] <==> forall i :: 0 <= i < |xs| ==> f(xs[i]).None?
  {
    if xs != [] {
      var init := xs[..|xs| - 1];
      FilterMapEmpty(init, f);
      assert forall i :: 0 <= i < |init| ==> init[i] == xs[i];
    }
  }

  /** The records of a concatenation are the records of each part, in order. */
  lemma {:induction false} FilterMapAppend<X, Y>(xs: seq<X>, ys: seq<X>, f: X -> Option<Y>)
    ensures FilterMap(xs + ys, f) == FilterMap(xs, f) + FilterMap(ys, f)
    decreases |ys|
  {
    if ys == [] {
      assert xs + ys == xs;
    } else {
      var init := ys[..|ys| - 1];
      FilterMapAppend(xs, init, f);
      assert (xs + ys)[..|xs + ys| - 1] == xs + init;
      assert (xs + ys)[|xs + ys| - 1] == ys[|ys| - 1];
    }
  }

  /** Step lemma for loops that build `FilterMap` one element at a time. */
  lemma FilterMapStep<X, Y>(xs: seq<X>, i: nat, f: X -> Option<Y>)
    requires i < |xs|
    ensures FilterMap(xs[..i + 1], f)
            == FilterMap(xs[..i], f) + (if f(xs[i]).Some? then [f(xs[i]).value] else [])
  {
    assert xs[..i + 1][..i] == xs[..i];
  }

  /** The items of pages 1 to `last`, page after page (a page loop that appends each page's items). */
  function PagesThrough<R>(page: nat -> seq<R>, last: nat): seq<R> {
    if last == 0 then [] else PagesThrough(page, last - 1) + page(last)
  }

  /** The items of the earlier pages come first: walking further only appends. */
  lemma {:induction false} PagesInOrder<R>(page: nat -> seq<R>, m: nat, n: nat)
    requires m <= n
    ensures PagesThrough(page, m) <= PagesThrough(page, n)
    decreases n - m
  {
    if m < n {
      PagesInOrder(page, m, n - 1);
    }
  }

  /** Page functions that agree on pages 1 to `n` give the same items through page `n`. */
  lemma {:induction false} PagesAgree<R>(f: nat -> seq<R>, g: nat -> seq<R>, n: nat)
    requires forall p :: 1 <= p <= n ==> f(p) == g(p)
    ensures PagesThrough(f, n) == PagesThrough(g, n)
  {
    if n > 0 {
      PagesAgree(f, g, n - 1);
    }
  }

  /** An item is kept exactly when it is an item of one of the pages walked through. */
  lemma {:induction false} PagesMembers<R>(page: nat -> seq<R>, n: nat)
    ensures forall r :: r in PagesThrough(page, n) <==> exists p :: 1 <= p <= n && r in page(p)
  {
    if n > 0 {
      PagesMembers(page, n - 1);
    }
  }

  /** The first element of `xs` that satisfies `p`, as BeautifulSoup's `find` returns it. */
  function FirstMatch<T(==)>(xs: seq<T>, p: T -> bool): (r: Option<T>)
    ensures r.None? <==> forall i :: 0 <= i < |xs| ==> !p(xs[i])
    ensures r.Some? ==> exists i :: 0 <= i < |xs| && xs[i] == r.value && p(xs[i])
                                    && forall j :: 0 <= j < i ==> !p(xs[j])
  {
    if xs == [] then None
    else if p(xs[0]) then Some(xs[0])
    else
      var r := FirstMatch(xs[1..], p);
      if r.Some? then
        var i :| 0 <= i < |xs[1..]| && xs[1..][i] == r.value && p(xs[1..][i])
                 && forall j :: 0 <= j < i ==> !p(xs[1..][j]);
        assert xs[i + 1] == r.value && forall j :: 1 <= j < i + 1 ==> xs[j] == xs[1..][j - 1];
        r
      else
        assert forall i :: 1 <= i < |xs| ==> xs[i] == xs[1..][i - 1];
        r
  }

  /** Some locator among the first `count` succeeds. */
  predicate AnySucceeds(count: nat, succeeds: nat -> bool) {
    exists i :: 0 <= i < count && succeeds(i)
  }

  /**
   * The locator loop shared by the click helpers: try locators 0, 1, ...
   * in order, stop at the first whose find-scroll-click succeeds, and
   * report failure only once every locator has failed.
   */
  method TryInOrder(count: nat, succeeds: nat -> bool) returns (clicked: bool, index: nat)
    ensures clicked <==> AnySucceeds(count, succeeds)
    ensures clicked ==> index < count && succeeds(index)
    ensures !clicked ==> index == count
    ensures forall j :: 0 <= j < index ==> !succeeds(j)
  {
    index := 0;
    while index < count
      invariant index <= count
      invariant forall j :: 0 <= j < index ==> !succeeds(j)
    {
      if succeeds(index) {
        return true, index;
      }
      index := index + 1;
    }
    return false, index;
  }
}
