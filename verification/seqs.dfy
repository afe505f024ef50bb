/** Filtering, flattening and splitting sequences. */
module Seqs {

  function Filter<T>(keep: T -> bool, xs: seq<T>): seq<T> {
    if xs == [] then [] else (if keep(xs[0]) then [xs[0]] else []) + Filter(keep, xs[1..])
  }

  lemma {:induction false} FilterConcat<T>(keep: T -> bool, a: seq<T>, b: seq<T>)
    ensures Filter(keep, a + b) == Filter(keep, a) + Filter(keep, b)
  {
    if a == [] {
      assert a + b == b;
    } else {
      assert (a + b)[0] == a[0] && (a + b)[1..] == a[1..] + b;
      FilterConcat(keep, a[1..], b);
      Associate(if keep(a[0]) then [a[0]] else [], Filter(keep, a[1..]), Filter(keep, b));
    }
  }

  lemma FilterOne<T>(keep: T -> bool, x: T)
    ensures Filter(keep, [x]) == if keep(x) then [x] else []
  {
    assert Filter(keep, [x][1..]) == [];
  }

  lemma {:induction false} FilterMember<T>(keep: T -> bool, xs: seq<T>, x: T)
    ensures x in Filter(keep, xs) <==> x in xs && keep(x)
  {
    if xs != [] {
      FilterMember(keep, xs[1..], x);
      assert xs == [xs[0]] + xs[1..];
    }
  }

  lemma {:induction false} FilterAll<T>(keep: T -> bool, xs: seq<T>)
    requires forall x :: x in xs ==> keep(x)
    ensures Filter(keep, xs) == xs
  {
    if xs != [] {
      assert xs[0] in xs;
      FilterAll(keep, xs[1..]);
    }
  }

  lemma {:induction false} FilterNone<T>(keep: T -> bool, xs: seq<T>)
    requires forall x :: x in xs ==> !keep(x)
    ensures Filter(keep, xs) == []
  {
    if xs != [] {
      assert xs[0] in xs;
      FilterNone(keep, xs[1..]);
    }
  }

  /** A filter that keeps less, after one that keeps more, is the first alone. */
  lemma {:induction false} FilterNarrows<T(!new)>(wide: T -> bool, narrow: T -> bool, xs: seq<T>)
    requires forall x :: narrow(x) ==> wide(x)
    ensures Filter(narrow, Filter(wide, xs)) == Filter(narrow, xs)
  {
    if xs != [] {
      FilterConcat(narrow, if wide(xs[0]) then [xs[0]] else [], Filter(wide, xs[1..]));
      FilterNarrows(wide, narrow, xs[1..]);
    }
  }

  function FlatMap<A, B>(f: A -> seq<B>, xs: seq<A>): seq<B> {
    if xs == [] then [] else f(xs[0]) + FlatMap(f, xs[1..])
  }

  lemma {:induction false} FlatMapConcat<A, B>(f: A -> seq<B>, a: seq<A>, b: seq<A>)
    ensures FlatMap(f, a + b) == FlatMap(f, a) + FlatMap(f, b)
  {
    if a == [] {
      assert a + b == b;
    } else {
      assert (a + b)[0] == a[0] && (a + b)[1..] == a[1..] + b;
      FlatMapConcat(f, a[1..], b);
      Associate(f(a[0]), FlatMap(f, a[1..]), FlatMap(f, b));
    }
  }

  /** The pieces of `b` between separators, the first one continuing `current`. A last piece
      without its separator counts, an empty one does not. */
  function SplitFrom<T(==)>(current: seq<T>, b: seq<T>, sep: T): seq<seq<T>>
    decreases |b|
  {
    if b == [] then (if current == [] then [] else [current])
    else if b[0] == sep then [current] + SplitFrom([], b[1..], sep)
    else SplitFrom(current + [b[0]], b[1..], sep)
  }

  lemma {:induction false} SplitConcat<T>(current: seq<T>, a: seq<T>, b: seq<T>, sep: T)
    requires a != [] && a[|a| - 1] == sep
    ensures SplitFrom(current, a + b, sep) == SplitFrom(current, a, sep) + SplitFrom([], b, sep)
    decreases |a|
  {
    assert (a + b)[1..] == a[1..] + b;
    if |a| == 1 {
      assert a[1..] + b == b;
    } else {
      SplitConcat(if a[0] == sep then [] else current + [a[0]], a[1..], b, sep);
    }
  }

  lemma SplitAt<T>(current: seq<T>, b: seq<T>, sep: T)
    ensures SplitFrom(current, [sep] + b, sep) == [current] + SplitFrom([], b, sep)
  {
    assert ([sep] + b)[1..] == b;
  }

  lemma SplitEnd<T>(current: seq<T>, sep: T)
    ensures SplitFrom(current, [], sep) == if current == [] then [] else [current]
  {
  }

  /** Text without a separator only extends the current piece. */
  lemma {:induction false} SplitExtends<T>(current: seq<T>, a: seq<T>, b: seq<T>, sep: T)
    requires sep !in a
    ensures SplitFrom(current, a + b, sep) == SplitFrom(current + a, b, sep)
    decreases |a|
  {
    if a == [] {
      assert a + b == b && current + a == current;
    } else {
      assert (a + b)[1..] == a[1..] + b;
      SplitExtends(current + [a[0]], a[1..], b, sep);
      assert current + [a[0]] + a[1..] == current + a;
    }
  }

  lemma Associate<T>(a: seq<T>, b: seq<T>, c: seq<T>)
    ensures a + (b + c) == a + b + c
  {
  }

  ghost predicate AscendingBy<T>(less: (T, T) -> bool, a: seq<T>) {
    forall i, j :: 0 <= i < j < |a| ==> less(a[i], a[j])
  }

  ghost predicate Asymmetric<T(!new)>(less: (T, T) -> bool) {
    forall x, y :: less(x, y) ==> !less(y, x)
  }

  lemma AscendingButLast<T(!new)>(less: (T, T) -> bool, a: seq<T>, x: T)
    requires Asymmetric(less) && AscendingBy(less, a) && a != []
    ensures x in a[..|a| - 1] <==> x in a && x != a[|a| - 1]
    ensures AscendingBy(less, a[..|a| - 1]) && (x in a && x != a[|a| - 1] ==> less(x, a[|a| - 1]))
  {
    assert a == a[..|a| - 1] + [a[|a| - 1]];
  }

  lemma SomeMember<T>(b: seq<T>)
    ensures b != [] ==> b[0] in b
  {
  }

  /** Ascending lists with the same members are equal. */
  lemma {:induction false} AscendingUnique<T(!new)>(less: (T, T) -> bool, a: seq<T>, b: seq<T>)
    requires Asymmetric(less) && AscendingBy(less, a) && AscendingBy(less, b)
    requires forall x :: x in a <==> x in b
    ensures a == b
    decreases |a|
  {
    if a == [] {
      SomeMember(b);
    } else {
      var m, n := |a| - 1, |b| - 1;
      assert a[m] in a;
      assert b != [];
      assert b[n] in b;
      AscendingButLast(less, a, b[n]);
      AscendingButLast(less, b, a[m]);
      assert a[m] == b[n];
      forall x ensures x in a[..m] <==> x in b[..n] {
        AscendingButLast(less, a, x);
        AscendingButLast(less, b, x);
      }
      AscendingUnique(less, a[..m], b[..n]);
      assert a == a[..m] + [a[m]] && b == b[..n] + [b[n]];
    }
  }

  predicate IntLess(x: int, y: int) { x < y }

  ghost predicate AscendingInts(a: seq<int>) {
    forall i, j :: 0 <= i < j < |a| ==> a[i] < a[j]
  }

  lemma AscendingIntsBy(a: seq<int>)
    requires AscendingInts(a)
    ensures AscendingBy(IntLess, a) && Asymmetric(IntLess)
  {
    forall x, y | IntLess(x, y) ensures !IntLess(y, x) {}
    forall i, j | 0 <= i < j < |a| ensures IntLess(a[i], a[j]) {}
  }

  lemma AscendingIntsUnique(a: seq<int>, b: seq<int>)
    requires AscendingInts(a) && AscendingInts(b)
    requires forall x :: x in a <==> x in b
    ensures a == b
  {
    AscendingIntsBy(a);
    AscendingIntsBy(b);
    forall x: int ensures x in a <==> x in b {}
    AscendingUnique<int>(IntLess, a, b);
  }

  lemma FilterSnoc<T>(keep: T -> bool, xs: seq<T>, x: T)
    ensures Filter(keep, xs + [x]) == if keep(x) then Filter(keep, xs) + [x] else Filter(keep, xs)
  {
    FilterConcat(keep, xs, [x]);
    FilterOne(keep, x);
  }

  ghost predicate NoRepeats<T>(xs: seq<T>) {
    forall i, j :: 0 <= i < j < |xs| ==> xs[i] != xs[j]
  }

  /** One more element of an enumeration without repeats. */
  ghost function Visit<T(!new)>(visited: seq<T>, x: T): (r: seq<T>)
    requires NoRepeats(visited) && x !in visited
    ensures r == visited + [x] && NoRepeats(r)
    ensures forall y :: y in r <==> y in visited || y == x
  {
    visited + [x]
  }

  lemma {:induction false} FilterCommutes<T>(f: T -> bool, g: T -> bool, xs: seq<T>)
    ensures Filter(f, Filter(g, xs)) == Filter(g, Filter(f, xs))
    decreases |xs|
  {
    if xs != [] {
      var n := |xs| - 1;
      FilterCommutes(f, g, xs[..n]);
      assert xs == xs[..n] + [xs[n]];
      FilterSnoc(f, xs[..n], xs[n]);
      FilterSnoc(g, xs[..n], xs[n]);
      FilterSnoc(f, Filter(g, xs[..n]), xs[n]);
      FilterSnoc(g, Filter(f, xs[..n]), xs[n]);
    }
  }

  lemma FilterNothing<T>(f: T -> bool)
    ensures Filter(f, []) == []
  {
  }
}
