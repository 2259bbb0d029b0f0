/**
 * Sequential `java.util.stream` operations on finite sequences: `filter`,
 * `map`, `limit`, `anyMatch` and `min`. A stream over a list visits its
 * elements in list order, and every result here keeps that encounter order.
 */
module Streams {
  import opened Wrappers

  /** `filter(p)`: the elements of `s` that satisfy `p`, in encounter order. */
  function Filter<T>(s: seq<T>, p: T -> bool): (r: seq<T>)
    ensures |r| <= |s|
  {
    if s == [] then []
    else (if p(s[0]) then [s[0]] else []) + Filter(s[1..], p)
  }

  /** An element is kept by the filter exactly when it occurs in `s` and satisfies `p`. */
  lemma {:induction false} FilterMembers<T>(s: seq<T>, p: T -> bool)
    ensures forall x :: x in Filter(s, p) <==> x in s && p(x)
  {
    if s != [] {
      FilterMembers(s[1..], p);
      assert s == [s[0]] + s[1..];
    }
  }

  /**
   * The positions `i`, `i + 1`, ... of `s` whose elements satisfy `p`, in
   * increasing order.
   */
  function PositionsFrom<T>(s: seq<T>, p: T -> bool, i: nat): (r: seq<nat>)
    requires i <= |s|
    ensures forall k :: 0 <= k < |r| ==> i <= r[k] < |s| && p(s[r[k]])
    ensures forall k, l :: 0 <= k < l < |r| ==> r[k] < r[l]
    ensures forall j :: i <= j < |s| && p(s[j]) ==> j in r
    decreases |s| - i
  {
    if i == |s| then []
    else (if p(s[i]) then [i] else []) + PositionsFrom(s, p, i + 1)
  }

  /** The positions of `s` whose elements satisfy `p`, in increasing order. */
  function Positions<T>(s: seq<T>, p: T -> bool): (r: seq<nat>)
    ensures forall k :: 0 <= k < |r| ==> r[k] < |s| && p(s[r[k]])
    ensures forall k, l :: 0 <= k < l < |r| ==> r[k] < r[l]
    ensures forall j :: 0 <= j < |s| && p(s[j]) ==> j in r
  {
    PositionsFrom(s, p, 0)
  }

  /** The properties `PositionsFrom(s, p, i)` has, for a candidate `r`. */
  ghost predicate ListsPositionsFrom<T>(s: seq<T>, p: T -> bool, i: nat, r: seq<nat>) {
    && (forall k :: 0 <= k < |r| ==> i <= r[k] < |s| && p(s[r[k]]))
    && (forall k, l :: 0 <= k < l < |r| ==> r[k] < r[l])
    && (forall j :: i <= j < |s| && p(s[j]) ==> j in r)
  }

  /** When `p` holds at `i`, a candidate list starts with `i` and its tail lists the rest. */
  lemma ListsPositionsHit<T>(s: seq<T>, p: T -> bool, i: nat, r: seq<nat>)
    requires i < |s| && p(s[i]) && ListsPositionsFrom(s, p, i, r)
    ensures r != [] && r[0] == i && ListsPositionsFrom(s, p, i + 1, r[1..])
  {
    var m :| 0 <= m < |r| && r[m] == i;
    assert r[0] <= r[m];
    var rest := r[1..];
    forall j | i + 1 <= j < |s| && p(s[j])
      ensures j in rest
    {
      var n :| 0 <= n < |r| && r[n] == j;
      assert rest[n - 1] == j;
    }
    forall k | 0 <= k < |rest|
      ensures i + 1 <= rest[k]
    {
      assert r[0] < r[k + 1];
    }
  }

  /** When `p` fails at `i`, a candidate list from `i` is one from `i + 1`. */
  lemma ListsPositionsMiss<T>(s: seq<T>, p: T -> bool, i: nat, r: seq<nat>)
    requires i < |s| && !p(s[i]) && ListsPositionsFrom(s, p, i, r)
    ensures ListsPositionsFrom(s, p, i + 1, r)
  {
    forall k | 0 <= k < |r|
      ensures i + 1 <= r[k]
    {
      assert p(s[r[k]]);
    }
  }

  /**
   * The three properties of `PositionsFrom` determine it: any sequence of
   * positions from `i` on that has them is `PositionsFrom(s, p, i)`.
   */
  lemma {:induction false} PositionsFromUnique<T>(s: seq<T>, p: T -> bool, i: nat, r: seq<nat>)
    requires i <= |s| && ListsPositionsFrom(s, p, i, r)
    ensures r == PositionsFrom(s, p, i)
    decreases |s| - i
  {
    if i == |s| {
      assert r == [];
    } else if p(s[i]) {
      ListsPositionsHit(s, p, i, r);
      PositionsFromUnique(s, p, i + 1, r[1..]);
      assert r == [i] + r[1..];
    } else {
      ListsPositionsMiss(s, p, i, r);
      PositionsFromUnique(s, p, i + 1, r);
      assert [] + r == r;
    }
  }

  /** The positions where `p` holds are the one increasing sequence listing them all. */
  lemma PositionsUnique<T>(s: seq<T>, p: T -> bool, r: seq<nat>)
    requires forall k :: 0 <= k < |r| ==> r[k] < |s| && p(s[r[k]])
    requires forall k, l :: 0 <= k < l < |r| ==> r[k] < r[l]
    requires forall j :: 0 <= j < |s| && p(s[j]) ==> j in r
    ensures r == Positions(s, p)
  {
    PositionsFromUnique(s, p, 0, r);
  }

  /**
   * `r` consists of exactly the elements of `s` at the positions where `p`
   * holds, in the order of those positions: nothing omitted, nothing added,
   * relative order kept.
   */
  ghost predicate SelectedBy<T>(r: seq<T>, s: seq<T>, p: T -> bool) {
    var pos := Positions(s, p);
    |r| == |pos| && forall k :: 0 <= k < |r| ==> r[k] == s[pos[k]]
  }

  /** The predicate "the key of `x` is `k`", as a stream stage would write it. */
  function Matches<T, K(==)>(key: T -> K, k: K): T -> bool {
    x => key(x) == k
  }

  /** `map(f)`: `f` applied to every element, in encounter order. */
  function Map<T, U>(s: seq<T>, f: T -> U): (r: seq<U>)
    ensures |r| == |s|
    ensures forall i :: 0 <= i < |s| ==> r[i] == f(s[i])
  {
    if s == [] then []
    else
      var init := s[..|s| - 1];
      assert forall i :: 0 <= i < |init| ==> init[i] == s[i];
      Map(init, f) + [f(s[|s| - 1])]
  }

  /** `limit(n)`: the first `n` elements, or all of them if there are fewer. */
  function Limit<T>(s: seq<T>, n: nat): (r: seq<T>)
    ensures |r| == if |s| < n then |s| else n
    ensures r <= s
  {
    if |s| <= n then s else s[..n]
  }

  /** `anyMatch(p)`: short-circuits at the first element that satisfies `p`. */
  function AnyMatch<T>(s: seq<T>, p: T -> bool): (b: bool)
    ensures b <==> exists i :: 0 <= i < |s| && p(s[i])
  {
    if s == [] then false
    else if p(s[0]) then true
    else
      assert forall i :: 1 <= i < |s| ==> s[i] == s[1..][i - 1];
      AnyMatch(s[1..], p)
  }

  /**
   * Position `i` holds a minimum of `key` over `s`, and every earlier
   * position has a strictly larger key: `i` is the FIRST minimum.
   */
  ghost predicate IsFirstMinimum<T>(s: seq<T>, key: T -> real, i: int) {
    && 0 <= i < |s|
    && (forall j :: 0 <= j < |s| ==> key(s[i]) <= key(s[j]))
    && (forall j :: 0 <= j < i ==> key(s[j]) > key(s[i]))
  }

  /**
   * The reduction `min` performs, `(a, b) -> compare(a, b) <= 0 ? a : b`,
   * applied from position `k` on, with `best` the position kept so far.
   * Keeping the left operand on ties is what makes the first minimum win.
   */
  function MinIndexFrom<T>(s: seq<T>, key: T -> real, best: nat, k: nat): (r: nat)
    requires best < k <= |s|
    requires IsFirstMinimum(s[..k], key, best)
    ensures IsFirstMinimum(s, key, r)
    decreases |s| - k
  {
    if k == |s| then
      assert s[..k] == s;
      best
    else
      var next := if key(s[best]) <= key(s[k]) then best else k;
      assert forall j :: 0 <= j < k ==> s[..k + 1][j] == s[..k][j];
      MinIndexFrom(s, key, next, k + 1)
  }

  /** `min(comparing(key))`: empty exactly when `s` is, else the first minimum. */
  function Min<T>(s: seq<T>, key: T -> real): (r: Option<T>)
    ensures r.None? <==> s == []
    ensures r.Some? ==> exists i :: IsFirstMinimum(s, key, i) && r.value == s[i]
  {
    if s == [] then None else Some(s[MinIndexFrom(s, key, 0, 1)])
  }

  /** Filtering distributes over concatenation. */
  lemma {:induction false} FilterAppend<T>(a: seq<T>, b: seq<T>, p: T -> bool)
    ensures Filter(a + b, p) == Filter(a, p) + Filter(b, p)
  {
    if a == [] {
      assert a + b == b;
    } else {
      assert (a + b)[0] == a[0] && (a + b)[1..] == a[1..] + b;
      FilterAppend(a[1..], b, p);
      AppendAssociative(if p(a[0]) then [a[0]] else [], Filter(a[1..], p), Filter(b, p));
    }
  }

  /** Filtering a sequence that starts with `x`. */
  lemma FilterCons<T>(x: T, t: seq<T>, p: T -> bool)
    ensures Filter([x] + t, p) == (if p(x) then [x] else []) + Filter(t, p)
  {
    assert ([x] + t)[0] == x && ([x] + t)[1..] == t;
  }

  /** Filtering a sequence that ends with `x`: the stream appends `x` last, if it passes. */
  lemma FilterSnoc<T>(t: seq<T>, x: T, p: T -> bool)
    ensures Filter(t + [x], p) == Filter(t, p) + (if p(x) then [x] else [])
  {
    FilterAppend(t, [x], p);
    assert [x][1..] == [];
  }

  /** Concatenation is associative. */
  lemma AppendAssociative<T>(a: seq<T>, b: seq<T>, c: seq<T>)
    ensures a + (b + c) == (a + b) + c
  {
    assert forall i :: 0 <= i < |a| + |b| + |c| ==> (a + (b + c))[i] == ((a + b) + c)[i];
  }

  /**
   * Putting the same element `a` in front of two sequences keeps a relation
   * between their filters. `au` and `av` name `[a] + u` and `[a] + v` so that
   * a caller can pass the sequences it already has (an insertion result,
   * the sorted input) and the solver need not rebuild those concatenations.
   */
  lemma FilterConsShift<T>(a: T, u: seq<T>, v: seq<T>, w: seq<T>, p: T -> bool, au: seq<T>, av: seq<T>)
    requires au == [a] + u && av == [a] + v
    requires Filter(u, p) == Filter(v, p) + w
    ensures Filter(au, p) == Filter(av, p) + w
  {
    FilterCons(a, u, p);
    FilterCons(a, v, p);
    AppendAssociative(if p(a) then [a] else [], Filter(v, p), w);
  }

  /** A sequence none of whose elements satisfies `p` filters to nothing. */
  lemma {:induction false} FilterNone<T>(s: seq<T>, p: T -> bool)
    requires forall i :: 0 <= i < |s| ==> !p(s[i])
    ensures Filter(s, p) == []
  {
    if s != [] {
      assert forall i :: 0 <= i < |s[1..]| ==> s[1..][i] == s[i + 1];
      FilterNone(s[1..], p);
    }
  }

  /** Filtering with two predicates in a row selects by their conjunction `pq`. */
  lemma {:induction false} FilterFilter<T>(s: seq<T>, p: T -> bool, q: T -> bool, pq: T -> bool)
    requires forall x :: pq(x) == (p(x) && q(x))
    ensures Filter(Filter(s, p), q) == Filter(s, pq)
  {
    if s != [] {
      var head := if p(s[0]) then [s[0]] else [];
      FilterFilter(s[1..], p, q, pq);
      FilterAppend(head, Filter(s[1..], p), q);
      if p(s[0]) {
        assert head[1..] == [];
      }
    }
  }

  /** Predicates that agree on every element of `s` filter it alike. */
  lemma {:induction false} FilterCongruent<T>(s: seq<T>, p: T -> bool, q: T -> bool)
    requires forall i :: 0 <= i < |s| ==> p(s[i]) == q(s[i])
    ensures Filter(s, p) == Filter(s, q)
  {
    if s != [] {
      assert forall i :: 0 <= i < |s[1..]| ==> s[1..][i] == s[i + 1];
      FilterCongruent(s[1..], p, q);
    }
  }

  /** From position `i` on, the filter keeps exactly the elements at the positions where `p` holds. */
  lemma {:induction false} FilterFromSelects<T>(s: seq<T>, p: T -> bool, i: nat)
    requires i <= |s|
    ensures |Filter(s[i..], p)| == |PositionsFrom(s, p, i)|
    ensures forall k :: 0 <= k < |PositionsFrom(s, p, i)| ==> Filter(s[i..], p)[k] == s[PositionsFrom(s, p, i)[k]]
    decreases |s| - i
  {
    if i < |s| {
      FilterFromSelects(s, p, i + 1);
      var f, pos := Filter(s[i + 1..], p), PositionsFrom(s, p, i + 1);
      assert s[i..] == [s[i]] + s[i + 1..];
      FilterCons(s[i], s[i + 1..], p);
      if p(s[i]) {
        SelectionCons(s, i, f, pos);
      }
    }
  }

  /** A selection of `s` by positions stays one when position `i` goes in front. */
  lemma SelectionCons<T>(s: seq<T>, i: nat, f: seq<T>, pos: seq<nat>)
    requires i < |s| && |f| == |pos|
    requires forall k :: 0 <= k < |pos| ==> pos[k] < |s| && f[k] == s[pos[k]]
    ensures |[s[i]] + f| == |[i] + pos|
    ensures forall k :: 0 <= k < |[i] + pos| ==> ([s[i]] + f)[k] == s[([i] + pos)[k]]
  {
    forall k | 0 <= k < |[i] + pos|
      ensures ([s[i]] + f)[k] == s[([i] + pos)[k]]
    {
      if k > 0 {
        assert ([s[i]] + f)[k] == f[k - 1] && ([i] + pos)[k] == pos[k - 1];
      }
    }
  }

  /** The filter keeps exactly the elements at the positions where `p` holds. */
  lemma FilterSelects<T>(s: seq<T>, p: T -> bool)
    ensures SelectedBy(Filter(s, p), s, p)
  {
    FilterFromSelects(s, p, 0);
    assert s[0..] == s;
  }

  /**
   * `min` after `filter`: empty exactly when no element satisfies `p`;
   * otherwise an element satisfying `p` whose key is at most every other
   * such element's key and strictly below that of every earlier one.
   */
  ghost predicate IsFirstMinimumWhere<T>(s: seq<T>, p: T -> bool, key: T -> real, i: int) {
    && 0 <= i < |s| && p(s[i])
    && (forall j :: 0 <= j < |s| && p(s[j]) ==> key(s[i]) <= key(s[j]))
    && (forall j :: 0 <= j < i && p(s[j]) ==> key(s[j]) > key(s[i]))
  }

  /** A first minimum of the selected elements is a first minimum where `p` holds. */
  lemma FirstMinimumTransported<T>(s: seq<T>, p: T -> bool, key: T -> real, f: seq<T>, k: int)
    requires SelectedBy(f, s, p)
    requires IsFirstMinimum(f, key, k)
    ensures IsFirstMinimumWhere(s, p, key, Positions(s, p)[k])
  {
    var pos := Positions(s, p);
    var i := pos[k];
    forall j | 0 <= j < |s| && p(s[j])
      ensures key(s[i]) <= key(s[j]) && (j < i ==> key(s[j]) > key(s[i]))
    {
      var l :| 0 <= l < |pos| && pos[l] == j;
      assert f[l] == s[j];
      if j < i {
        assert l < k;
      }
    }
  }

  lemma MinOfFilter<T>(s: seq<T>, p: T -> bool, key: T -> real)
    ensures Min(Filter(s, p), key).None? <==> forall i :: 0 <= i < |s| ==> !p(s[i])
    ensures Min(Filter(s, p), key).Some? ==>
      exists i :: IsFirstMinimumWhere(s, p, key, i) && Min(Filter(s, p), key).value == s[i]
  {
    var f := Filter(s, p);
    FilterMembers(s, p);
    if f != [] {
      assert f[0] in f;
      var m := Min(f, key);
      var k :| IsFirstMinimum(f, key, k) && m.value == f[k];
      FilterSelects(s, p);
      FirstMinimumTransported(s, p, key, f, k);
      assert s[Positions(s, p)[k]] == f[k];
    }
  }
}
