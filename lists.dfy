/** The array operations the core uses on rows and on client-side lists:
    `filter`, `map`, a stable sort by a numeric key (SQL `ORDER BY`), and
    the order-preserving subsequence relation that filtering establishes. */
module Lists {

  /** `xs.filter(keep)`: each value occurs in the result exactly as often as
      in `xs` when it is kept, and not at all otherwise. */
  function Filter<T(==,!new)>(xs: seq<T>, keep: T -> bool): (r: seq<T>)
    ensures |r| <= |xs|
    ensures forall x :: multiset(r)[x] == if keep(x) then multiset(xs)[x] else 0
    ensures forall x :: x in r <==> x in xs && keep(x)
  {
    if xs == [] then []
    else
      var rest := Filter(xs[1..], keep);
      assert xs == [xs[0]] + xs[1..];
      if keep(xs[0]) then [xs[0]] + rest else rest
  }

  /** Filtering a list with a known first element. */
  lemma FilterCons<T(!new)>(x: T, xs: seq<T>, keep: T -> bool)
    ensures Filter([x] + xs, keep) == if keep(x) then [x] + Filter(xs, keep) else Filter(xs, keep)
  {
    assert ([x] + xs)[0] == x;
    assert ([x] + xs)[1..] == xs;
  }

  /** `a` is an order-preserving subsequence of `b` (matched greedily, which
      is complete for this relation). */
  predicate Subseq<T(==,!new)>(a: seq<T>, b: seq<T>)
    decreases |b|
  {
    if a == [] then true
    else if b == [] then false
    else if a[0] == b[0] then Subseq(a[1..], b[1..])
    else Subseq(a, b[1..])
  }

  /** Every sequence is a subsequence of itself. */
  lemma {:induction false} SubseqRefl<T(!new)>(xs: seq<T>)
    ensures Subseq(xs, xs)
  {
    if xs != [] {
      SubseqRefl(xs[1..]);
    }
  }

  /** Filtering keeps the surviving elements in their original order. */
  lemma {:induction false} FilterIsSubseq<T(!new)>(xs: seq<T>, keep: T -> bool)
    ensures Subseq(Filter(xs, keep), xs)
  {
    if xs != [] {
      var a := Filter(xs, keep);
      FilterIsSubseq(xs[1..], keep);
      if !keep(xs[0]) && a != [] {
        assert a[0] in a;
        assert a[0] != xs[0];
      }
    }
  }

  /** A filter whose predicate holds of every element changes nothing. */
  lemma {:induction false} FilterAllKept<T(!new)>(xs: seq<T>, keep: T -> bool)
    requires forall i :: 0 <= i < |xs| ==> keep(xs[i])
    ensures Filter(xs, keep) == xs
  {
    if xs != [] {
      FilterAllKept(xs[1..], keep);
    }
  }

  /** Filtering distributes over concatenation. */
  lemma {:induction false} FilterAppend<T(!new)>(xs: seq<T>, ys: seq<T>, keep: T -> bool)
    ensures Filter(xs + ys, keep) == Filter(xs, keep) + Filter(ys, keep)
  {
    if xs == [] {
      assert xs + ys == ys;
    } else {
      assert (xs + ys)[0] == xs[0];
      assert (xs + ys)[1..] == xs[1..] + ys;
      FilterAppend(xs[1..], ys, keep);
    }
  }

  /** Dropping the first element of `a` keeps it a subsequence. */
  lemma {:induction false} SubseqTail<T(!new)>(a: seq<T>, b: seq<T>)
    requires a != [] && Subseq(a, b)
    ensures Subseq(a[1..], b)
    decreases |b|
  {
    var a' := a[1..];
    if a' != [] {
      if a[0] != b[0] {
        SubseqTail(a, b[1..]);
      }
      assert Subseq(a', b[1..]);
      if a'[0] == b[0] {
        SubseqTail(a', b[1..]);
      }
    }
  }

  /** A subsequence of a subsequence is a subsequence. */
  lemma {:induction false} SubseqTransitive<T(!new)>(a: seq<T>, b: seq<T>, c: seq<T>)
    requires Subseq(a, b) && Subseq(b, c)
    ensures Subseq(a, c)
    decreases |c|
  {
    if a != [] {
      if b[0] == c[0] {
        if a[0] == b[0] {
          SubseqTransitive(a[1..], b[1..], c[1..]);
        } else {
          SubseqTransitive(a, b[1..], c[1..]);
        }
      } else {
        SubseqTransitive(a, b, c[1..]);
        if a[0] == c[0] {
          SubseqTail(a, c[1..]);
        }
      }
    }
  }

  /** `xs.map(f)` */
  function Map<A, B>(xs: seq<A>, f: A -> B): (r: seq<B>)
    ensures |r| == |xs|
    ensures forall i :: 0 <= i < |xs| ==> r[i] == f(xs[i])
  {
    seq(|xs|, i requires 0 <= i < |xs| => f(xs[i]))
  }

  /** A value is in `xs.map(f)` iff it is the image of an element of `xs`. */
  lemma MapContains<A, B>(xs: seq<A>, f: A -> B, y: B)
    ensures y in Map(xs, f) <==> exists x :: x in xs && f(x) == y
  {
    if exists x :: x in xs && f(x) == y {
      var x :| x in xs && f(x) == y;
      var k :| 0 <= k < |xs| && xs[k] == x;
      assert Map(xs, f)[k] == y;
    }
  }

  /** Taking element `k` out of a sequence, before or after mapping, takes
      out one occurrence of it, or of its image. */
  lemma MapWithout<A, B>(ys: seq<A>, k: nat, f: A -> B)
    requires k < |ys|
    ensures multiset(ys) == multiset(ys[..k] + ys[k + 1..]) + multiset{ys[k]}
    ensures multiset(Map(ys, f)) == multiset(Map(ys[..k] + ys[k + 1..], f)) + multiset{f(ys[k])}
  {
    var before, after := ys[..k], ys[k + 1..];
    assert ys == before + ([ys[k]] + after);
    MapAppend(before, [ys[k]] + after, f);
    MapAppend([ys[k]], after, f);
    MapAppend(before, after, f);
    var mb, ma := Map(before, f), Map(after, f);
    assert Map([ys[k]], f) == [f(ys[k])];
    assert multiset(Map(ys, f)) == multiset(mb) + multiset{f(ys[k])} + multiset(ma);
  }

  /** Mapping distributes over concatenation. */
  lemma MapAppend<A, B>(a: seq<A>, b: seq<A>, f: A -> B)
    ensures Map(a + b, f) == Map(a, f) + Map(b, f)
  {
    assert forall i :: 0 <= i < |a| + |b| ==> Map(a + b, f)[i] == (Map(a, f) + Map(b, f))[i];
  }

  /** One occurrence of the same value cancels on both sides. */
  lemma MultisetCancel<T>(a: multiset<T>, b: multiset<T>, x: T)
    requires a + multiset{x} == b + multiset{x}
    ensures a == b
  {
    forall y ensures a[y] == b[y] {
      assert (a + multiset{x})[y] == (b + multiset{x})[y];
    }
  }

  /** Mapping two permutations of each other gives two permutations. */
  lemma {:induction false} MapPermutation<A(!new), B>(xs: seq<A>, ys: seq<A>, f: A -> B)
    requires multiset(xs) == multiset(ys)
    ensures multiset(Map(xs, f)) == multiset(Map(ys, f))
    decreases |xs|
  {
    if xs == [] {
      assert |ys| == |multiset(ys)| == 0;
    } else {
      var x, tail := xs[0], xs[1..];
      assert xs == [x] + tail;
      assert multiset(xs) == multiset(tail) + multiset{x};
      assert x in multiset(ys);
      var k :| 0 <= k < |ys| && ys[k] == x;
      var rest := ys[..k] + ys[k + 1..];
      MapWithout(ys, k, f);
      MultisetCancel(multiset(tail), multiset(rest), x);
      MapPermutation(tail, rest, f);
      MapAppend([x], tail, f);
      assert Map([x], f) == [f(x)];
    }
  }

  /** Permutations of each other hold the same values. */
  lemma SameElements<T>(a: seq<T>, b: seq<T>)
    requires multiset(a) == multiset(b)
    ensures forall x :: x in a <==> x in b
  {
    forall x ensures x in a <==> x in b {
      assert x in a <==> x in multiset(a);
      assert x in b <==> x in multiset(b);
    }
  }

  /** `key` does not decrease along `s`. */
  predicate SortedBy<T>(s: seq<T>, key: T -> int) {
    forall i, j :: 0 <= i < j < |s| ==> key(s[i]) <= key(s[j])
  }

  /** Inserts `x` before the first element whose key is not smaller. */
  function InsertBy<T(==,!new)>(x: T, s: seq<T>, key: T -> int): (r: seq<T>)
    ensures multiset(r) == multiset(s) + multiset{x}
    ensures |r| == |s| + 1
  {
    if s == [] || key(x) <= key(s[0]) then [x] + s
    else
      assert s == [s[0]] + s[1..];
      [s[0]] + InsertBy(x, s[1..], key)
  }

  /** Inserting into a sorted list keeps it sorted, and every key of the
      result is at least that of `x` or of the old first element. */
  lemma {:induction false} InsertBySorted<T(!new)>(x: T, s: seq<T>, key: T -> int)
    requires SortedBy(s, key)
    ensures SortedBy(InsertBy(x, s, key), key)
    ensures forall k :: 0 <= k < |s| + 1 ==>
      key(InsertBy(x, s, key)[k]) >= key(x) || (s != [] && key(InsertBy(x, s, key)[k]) >= key(s[0]))
  {
    var r := InsertBy(x, s, key);
    if s == [] || key(x) <= key(s[0]) {
      assert r == [x] + s;
      forall i, j | 0 <= i < j < |r| ensures key(r[i]) <= key(r[j]) {
        assert r[j] == s[j - 1];
        if i > 0 {
          assert r[i] == s[i - 1];
        } else {
          assert key(s[0]) <= key(s[j - 1]);
        }
      }
    } else {
      var head, tail := s[0], s[1..];
      InsertBySorted(x, tail, key);
      var rest := InsertBy(x, tail, key);
      assert r == [head] + rest;
      forall i, j | 0 <= i < j < |r| ensures key(r[i]) <= key(r[j]) {
        assert r[j] == rest[j - 1];
        if i > 0 {
          assert r[i] == rest[i - 1];
        } else if tail != [] {
          assert key(head) <= key(tail[0]);
        }
      }
      forall k | 0 <= k < |r| ensures key(r[k]) >= key(s[0]) {
        if k > 0 {
          assert r[k] == rest[k - 1];
          if tail != [] {
            assert key(head) <= key(tail[0]);
          }
        }
      }
    }
  }

  /** A stable sort of `xs` by ascending `key` (`ORDER BY key ASC`); ordering
      by descending key is sorting by the negated key. */
  function SortBy<T(==,!new)>(xs: seq<T>, key: T -> int): (r: seq<T>)
    ensures SortedBy(r, key)
    ensures multiset(r) == multiset(xs)
  {
    if xs == [] then []
    else
      var sorted := SortBy(xs[1..], key);
      InsertBySorted(xs[0], sorted, key);
      assert xs == [xs[0]] + xs[1..];
      InsertBy(xs[0], sorted, key)
  }

  /** `xs.map(x => hit(x) ? y : x)`: every element `hit` selects becomes
      `y`, every other element stays where it was. */
  function ReplaceWhere<T>(xs: seq<T>, hit: T -> bool, y: T): (r: seq<T>)
    ensures |r| == |xs|
    ensures forall i :: 0 <= i < |xs| && hit(xs[i]) ==> r[i] == y
    ensures forall i :: 0 <= i < |xs| && !hit(xs[i]) ==> r[i] == xs[i]
  {
    Map(xs, x => if hit(x) then y else x)
  }
}
