/** Sequence helpers shared by the roster engine: the order-preserving
    filter (JavaScript's `Array.prototype.filter`) and the comma join
    (`Array.prototype.join(",")`) together with its inverse split. */
module Lists {

  /** Keeps, in order, the elements of `xs` that satisfy `p`. */
  function Filter<T(!new)>(xs: seq<T>, p: T -> bool): (r: seq<T>)
    ensures |r| <= |xs|
  {
    if |xs| == 0 then []
    else (if p(xs[0]) then [xs[0]] else []) + Filter(xs[1..], p)
  }

  /** The filter keeps exactly the elements that satisfy `p`. */
  lemma {:induction false} FilterMembers<T(!new)>(xs: seq<T>, p: T -> bool)
    ensures forall x :: x in Filter(xs, p) <==> x in xs && p(x)
  {
    if |xs| > 0 {
      FilterMembers(xs[1..], p);
      assert xs == [xs[0]] + xs[1..];
    }
  }

  /** Filtering distributes over concatenation: the kept elements of a
      prefix come before the kept elements of the suffix, so the filter
      preserves relative order. */
  lemma {:induction false} FilterAppend<T(!new)>(xs: seq<T>, ys: seq<T>, p: T -> bool)
    ensures Filter(xs + ys, p) == Filter(xs, p) + Filter(ys, p)
  {
    if |xs| == 0 {
      assert xs + ys == ys;
    } else {
      var zs := xs + ys;
      var head: seq<T> := if p(xs[0]) then [xs[0]] else [];
      assert zs[0] == xs[0];
      assert zs[1..] == xs[1..] + ys;
      FilterAppend(xs[1..], ys, p);
      assert Filter(zs, p) == head + Filter(zs[1..], p);
      assert Filter(xs, p) == head + Filter(xs[1..], p);
    }
  }

  lemma FilterSingleton<T(!new)>(x: T, p: T -> bool)
    ensures Filter([x], p) == if p(x) then [x] else []
  {
    assert [x][1..] == [];
  }

  /** One step of the filter: the first element, then the rest. */
  lemma FilterCons<T(!new)>(x: T, ys: seq<T>, p: T -> bool)
    ensures Filter([x] + ys, p) == (if p(x) then [x] else []) + Filter(ys, p)
  {
    FilterAppend([x], ys, p);
    FilterSingleton(x, p);
  }

  /** The filter keeps every occurrence of an element that satisfies `p`
      and none of one that does not: no element is dropped twice over or
      duplicated. */
  lemma {:induction false} FilterCount<T(!new)>(xs: seq<T>, p: T -> bool)
    ensures forall x :: multiset(Filter(xs, p))[x] == if p(x) then multiset(xs)[x] else 0
  {
    if |xs| > 0 {
      var x0, rest := xs[0], xs[1..];
      FilterCount(rest, p);
      var head: seq<T> := if p(x0) then [x0] else [];
      assert xs == [x0] + rest;
      assert multiset(xs) == multiset{x0} + multiset(rest);
      assert Filter(xs, p) == head + Filter(rest, p);
      assert multiset(Filter(xs, p)) == multiset(head) + multiset(Filter(rest, p));
    }
  }

  /** Filtering by a predicate and by its negation splits `xs` into two
      parts that together hold every element exactly as often as `xs`. */
  lemma {:induction false} FilterPartition<T(!new)>(xs: seq<T>, p: T -> bool, q: T -> bool)
    requires forall x :: x in xs ==> q(x) == !p(x)
    ensures multiset(Filter(xs, p)) + multiset(Filter(xs, q)) == multiset(xs)
  {
    if |xs| > 0 {
      var x0, rest := xs[0], xs[1..];
      assert forall x :: x in rest ==> x in xs;
      FilterPartition(rest, p, q);
      var fp, fq := Filter(rest, p), Filter(rest, q);
      assert multiset(fp) + multiset(fq) == multiset(rest);
      assert xs == [x0] + rest;
      assert multiset(xs) == multiset{x0} + multiset(rest);
      if p(x0) {
        assert Filter(xs, p) == [x0] + fp;
        assert Filter(xs, q) == fq;
        assert multiset([x0] + fp) == multiset{x0} + multiset(fp);
      } else {
        assert Filter(xs, p) == fp;
        assert Filter(xs, q) == [x0] + fq;
        assert multiset([x0] + fq) == multiset{x0} + multiset(fq);
      }
    }
  }

  /** The separator used for derived name lists. */
  const Separator: char := ','

  /** `xs.join(",")`: the empty list joins to the empty string, and
      consecutive elements are separated by exactly one comma. */
  function Join(xs: seq<string>): (r: string)
    ensures |xs| == 0 ==> r == ""
    ensures |xs| == 1 ==> r == xs[0]
  {
    if |xs| == 0 then ""
    else if |xs| == 1 then xs[0]
    else xs[0] + [Separator] + Join(xs[1..])
  }

  /** `s.split(",")`: the inverse of `Join` on non-empty lists whose
      elements contain no comma. Like JavaScript, it never returns the
      empty list. */
  function Split(s: string): (r: seq<string>)
    ensures |r| >= 1
  {
    if |s| == 0 then [""]
    else if s[0] == Separator then [""] + Split(s[1..])
    else
      var rest := Split(s[1..]);
      [[s[0]] + rest[0]] + rest[1..]
  }

  /** A comma-free string splits to itself. */
  lemma {:induction false} SplitPlain(a: string)
    requires Separator !in a
    ensures Split(a) == [a]
  {
    if |a| > 0 {
      SplitPlain(a[1..]);
      assert [a[0]] + a[1..] == a;
    }
  }

  /** Splitting stops at the first comma. */
  lemma {:induction false} SplitAtSeparator(a: string, b: string)
    requires Separator !in a
    ensures Split(a + [Separator] + b) == [a] + Split(b)
  {
    if |a| == 0 {
      assert a + [Separator] + b == [Separator] + b;
      assert ([Separator] + b)[1..] == b;
    } else {
      assert (a + [Separator] + b)[1..] == a[1..] + [Separator] + b;
      SplitAtSeparator(a[1..], b);
      assert [a[0]] + a[1..] == a;
    }
  }

  /** Round trip: joining a non-empty list of comma-free names and then
      splitting the result recovers the list. */
  lemma {:induction false} SplitJoin(xs: seq<string>)
    requires |xs| > 0
    requires forall x :: x in xs ==> Separator !in x
    ensures Split(Join(xs)) == xs
  {
    if |xs| == 1 {
      SplitPlain(xs[0]);
    } else {
      assert forall x :: x in xs[1..] ==> x in xs;
      SplitJoin(xs[1..]);
      SplitAtSeparator(xs[0], Join(xs[1..]));
      assert [xs[0]] + xs[1..] == xs;
    }
  }
}
