/**
 * `sorted(comparing(key).reversed())` on a finite stream: a stable sort by
 * an integer key, largest key first. Equal keys keep their encounter order.
 */
module Sorting {
  import opened Streams

  /** Keys never increase from left to right. */
  ghost predicate Descending<T>(s: seq<T>, key: T -> int) {
    forall i, j :: 0 <= i < j < |s| ==> key(s[i]) >= key(s[j])
  }

  /**
   * Inserts `x` into the descending sequence `t` after every element whose
   * key is at least `key(x)`: behind its equals, as a stable sort must.
   */
  function Insert<T>(x: T, t: seq<T>, key: T -> int): (r: seq<T>)
    ensures multiset(r) == multiset(t) + multiset{x}
    ensures |r| == |t| + 1
  {
    if t == [] || key(x) > key(t[0]) then
      [x] + t
    else
      assert t == [t[0]] + t[1..];
      [t[0]] + Insert(x, t[1..], key)
  }

  /** Inserting into a descending sequence keeps it descending. */
  lemma {:induction false} InsertDescending<T>(x: T, t: seq<T>, key: T -> int)
    requires Descending(t, key)
    ensures Descending(Insert(x, t, key), key)
    decreases |t|
  {
    if t != [] && key(x) <= key(t[0]) {
      var rest := t[1..];
      InsertDescending(x, rest, key);
      var r := Insert(x, rest, key);
      forall j | 0 <= j < |r|
        ensures key(t[0]) >= key(r[j])
      {
        assert r[j] in multiset(r);
        if r[j] != x {
          assert r[j] in multiset(rest);
          var m :| 0 <= m < |rest| && rest[m] == r[j];
          assert t[m + 1] == r[j];
        }
      }
    }
  }

  /** Insertion sort in encounter order: each element is placed behind its equals. */
  function SortDescending<T>(s: seq<T>, key: T -> int): (r: seq<T>)
    ensures multiset(r) == multiset(s)
    ensures |r| == |s|
    ensures Descending(r, key)
  {
    if s == [] then []
    else
      assert s == s[..|s| - 1] + [s[|s| - 1]];
      var sorted := SortDescending(s[..|s| - 1], key);
      InsertDescending(s[|s| - 1], sorted, key);
      Insert(s[|s| - 1], sorted, key)
  }

  /** When `x` goes in front, every element of `t` has a smaller key, so none shares `x`'s run. */
  lemma InsertFrontStable<T>(x: T, t: seq<T>, key: T -> int, d: int)
    requires Descending(t, key)
    requires t == [] || key(x) > key(t[0])
    ensures Filter([x] + t, Matches(key, d))
         == Filter(t, Matches(key, d)) + (if key(x) == d then [x] else [])
  {
    var p := Matches(key, d);
    FilterCons(x, t, p);
    assert p(x) == (key(x) == d);
    if key(x) == d {
      forall i | 0 <= i < |t| ensures !p(t[i]) {
        assert key(t[i]) <= key(t[0]);
      }
      FilterNone(t, p);
      assert Filter([x] + t, p) == [x];
    } else {
      assert Filter([x] + t, p) == Filter(t, p);
    }
  }

  /**
   * When `x` goes behind `t[0]`, the insertion happens in the rest. This is
   * one unfolding of `Insert`, kept as a lemma of its own so that the
   * stability proof below does not unfold `Insert` beside its filters.
   */
  lemma InsertBehind<T>(x: T, t: seq<T>, key: T -> int)
    requires t != [] && key(x) <= key(t[0])
    ensures Insert(x, t, key) == [t[0]] + Insert(x, t[1..], key)
  {
  }

  /** When `x` goes behind `t[0]`, the run structure of the rest carries over. */
  lemma InsertBehindStable<T>(x: T, t: seq<T>, key: T -> int, d: int)
    requires t != [] && key(x) <= key(t[0])
    requires Filter(Insert(x, t[1..], key), Matches(key, d))
          == Filter(t[1..], Matches(key, d)) + (if key(x) == d then [x] else [])
    ensures Filter(Insert(x, t, key), Matches(key, d))
         == Filter(t, Matches(key, d)) + (if key(x) == d then [x] else [])
  {
    InsertBehind(x, t, key);
    assert t == [t[0]] + t[1..];
    FilterConsShift(t[0], Insert(x, t[1..], key), t[1..], if key(x) == d then [x] else [],
                    Matches(key, d), Insert(x, t, key), t);
  }

  /** Inserting `x` appends it to the run of its own key and leaves other runs alone. */
  lemma {:induction false} InsertStable<T>(x: T, t: seq<T>, key: T -> int, d: int)
    requires Descending(t, key)
    ensures Filter(Insert(x, t, key), Matches(key, d))
         == Filter(t, Matches(key, d)) + (if key(x) == d then [x] else [])
    decreases |t|
  {
    if t == [] || key(x) > key(t[0]) {
      InsertFrontStable(x, t, key, d);
    } else {
      assert Descending(t[1..], key);
      InsertStable(x, t[1..], key, d);
      InsertBehindStable(x, t, key, d);
    }
  }

  /**
   * Stability: for every key value `d`, the elements with key `d` appear in
   * the sorted sequence exactly as they appear in the input.
   */
  lemma {:induction false} SortStable<T>(s: seq<T>, key: T -> int, d: int)
    ensures Filter(SortDescending(s, key), Matches(key, d)) == Filter(s, Matches(key, d))
  {
    if s != [] {
      var init, last := s[..|s| - 1], s[|s| - 1];
      var sorted, p := SortDescending(init, key), Matches(key, d);
      assert SortDescending(s, key) == Insert(last, sorted, key);
      SortStable(init, key, d);
      InsertStable(last, sorted, key, d);
      assert s == init + [last];
      FilterSnoc(init, last, p);
    }
  }

  /**
   * In a descending sequence, nothing after the first `n` elements has a
   * larger key than any of those `n`.
   */
  lemma PrefixDominates<T>(s: seq<T>, n: nat, key: T -> int)
    requires Descending(s, key) && n <= |s|
    ensures forall x :: x in multiset(s) - multiset(s[..n]) ==> forall k :: 0 <= k < n ==> key(x) <= key(s[k])
  {
    var rest := s[n..];
    assert s == s[..n] + rest;
    assert multiset(s) - multiset(s[..n]) == multiset(rest);
    forall x | x in multiset(rest)
      ensures forall k :: 0 <= k < n ==> key(x) <= key(s[k])
    {
      var j :| 0 <= j < |rest| && rest[j] == x;
      assert s[n + j] == x;
    }
  }

  /**
   * After sorting, `limit(n)` leaves out nothing with a larger key than
   * anything it keeps.
   */
  lemma LimitOmitsNoLarger<T>(s: seq<T>, key: T -> int, n: nat)
    ensures forall x :: x in multiset(s) - multiset(Limit(SortDescending(s, key), n)) ==>
      forall k :: 0 <= k < |Limit(SortDescending(s, key), n)| ==> key(x) <= key(Limit(SortDescending(s, key), n)[k])
  {
    var sorted := SortDescending(s, key);
    var r := Limit(sorted, n);
    assert r == sorted[..|r|];
    PrefixDominates(sorted, |r|, key);
  }
}
