/**
 * Terminal collectors of a sequential stream: `Collectors.toMap`,
 * `Collectors.groupingBy` with a `mapping(..., toList())` downstream, and
 * `DoubleStream.summaryStatistics`. Each folds the stream from left to right.
 */
module Collectors {
  import opened Wrappers
  import opened Streams

  /** No two positions of `s` carry the same key. */
  ghost predicate DistinctKeys<T, K>(s: seq<T>, key: T -> K) {
    forall i, j :: 0 <= i < j < |s| ==> key(s[i]) != key(s[j])
  }

  /** Keys stay distinct after one more element exactly when its key is new. */
  lemma DistinctKeysSnoc<T, K>(s: seq<T>, key: T -> K)
    requires s != []
    ensures DistinctKeys(s, key) <==>
      DistinctKeys(s[..|s| - 1], key) && key(s[|s| - 1]) !in (set i | 0 <= i < |s| - 1 :: key(s[i]))
  {
    var init, x := s[..|s| - 1], s[|s| - 1];
    assert forall i :: 0 <= i < |init| ==> init[i] == s[i];
    if key(x) in (set i | 0 <= i < |s| - 1 :: key(s[i])) {
      var i :| 0 <= i < |s| - 1 && key(s[i]) == key(x);
      assert key(s[i]) == key(s[|s| - 1]);
    }
  }

  /** The exception `toMap` throws when a key turns up a second time. */
  datatype MapError<K> = DuplicateKey(key: K)

  /**
   * `toMap(key, value)`: inserts the elements one by one and fails with the
   * key of the first element whose key is already present.
   */
  function ToMap<T, K, V>(s: seq<T>, key: T -> K, value: T -> V): (r: Result<map<K, V>, MapError<K>>)
    ensures r.Success? <==> DistinctKeys(s, key)
    ensures r.Success? ==> r.value.Keys == set i | 0 <= i < |s| :: key(s[i])
    ensures r.Success? ==> forall i :: 0 <= i < |s| ==> r.value[key(s[i])] == value(s[i])
  {
    if s == [] then Success(map[])
    else
      var init, x := s[..|s| - 1], s[|s| - 1];
      assert forall i :: 0 <= i < |init| ==> init[i] == s[i];
      DistinctKeysSnoc(s, key);
      match ToMap(init, key, value)
      case Failure(e) => Failure(e)
      case Success(m) =>
        if key(x) in m then
          Failure(DuplicateKey(key(x)))
        else
          assert (set i | 0 <= i < |s| :: key(s[i])) == (set i | 0 <= i < |init| :: key(init[i])) + {key(x)};
          Success(m[key(x) := value(x)])
  }

  /**
   * On failure the key reported is that of the first element whose key
   * already occurred: the elements before it have distinct keys, and one of
   * them has the same key.
   */
  lemma {:induction false} ToMapFailure<T, K, V>(s: seq<T>, key: T -> K, value: T -> V)
    ensures ToMap(s, key, value).Failure? ==>
      exists j :: 0 < j < |s| && key(s[j]) == ToMap(s, key, value).error.key && DistinctKeys(s[..j], key)
        && exists i :: 0 <= i < j && key(s[i]) == ToMap(s, key, value).error.key
  {
    if s != [] {
      var init := s[..|s| - 1];
      ToMapFailure(init, key, value);
      match ToMap(init, key, value)
      case Failure(e) =>
        var j :| 0 < j < |init| && key(init[j]) == e.key && DistinctKeys(init[..j], key)
          && exists i :: 0 <= i < j && key(init[i]) == e.key;
        assert s[..j] == init[..j] && s[j] == init[j];
        var i :| 0 <= i < j && key(init[i]) == e.key;
        assert s[i] == init[i];
      case Success(m) =>
        if key(s[|s| - 1]) in m {
          assert s[..|s| - 1] == init;
        }
    }
  }

  /**
   * `groupingBy(classifier, mapping(mapper, toList()))`: each element's
   * mapped value is appended to the list of its class, which is created on
   * first use.
   */
  function GroupingBy<T, K, V>(s: seq<T>, classifier: T -> K, mapper: T -> V): (m: map<K, seq<V>>)
    ensures m.Keys == set i | 0 <= i < |s| :: classifier(s[i])
    ensures forall k :: k in m ==> m[k] != []
  {
    if s == [] then map[]
    else
      var init, x := s[..|s| - 1], s[|s| - 1];
      assert forall i :: 0 <= i < |init| ==> init[i] == s[i];
      var m := GroupingBy(init, classifier, mapper);
      var k := classifier(x);
      assert (set i | 0 <= i < |s| :: classifier(s[i])) == (set i | 0 <= i < |init| :: classifier(init[i])) + {k};
      m[k := (if k in m then m[k] else []) + [mapper(x)]]
  }

  /**
   * Every class's list holds the mapped values of exactly the elements of
   * that class, in encounter order; a class with no element has no entry.
   */
  lemma {:induction false} GroupingByGroups<T, K, V>(s: seq<T>, classifier: T -> K, mapper: T -> V, k: K)
    ensures k in GroupingBy(s, classifier, mapper) <==> Filter(s, Matches(classifier, k)) != []
    ensures k in GroupingBy(s, classifier, mapper) ==>
      GroupingBy(s, classifier, mapper)[k] == Map(Filter(s, Matches(classifier, k)), mapper)
  {
    if s != [] {
      var init, x := s[..|s| - 1], s[|s| - 1];
      var p := Matches(classifier, k);
      var m, g, f := GroupingBy(init, classifier, mapper), GroupingBy(s, classifier, mapper), Filter(init, p);
      GroupingByGroups(init, classifier, mapper, k);
      GroupingBySnoc(s, classifier, mapper);
      assert s == init + [x];
      FilterSnoc(init, x, p);
      assert p(x) == (classifier(x) == k);
      if classifier(x) == k {
        MapSnoc(f, x, mapper);
        assert Filter(s, p) == f + [x];
        assert g[k] == (if k in m then m[k] else []) + [mapper(x)];
        assert (if k in m then m[k] else []) == Map(f, mapper);
      } else {
        assert Filter(s, p) == f;
        assert (k in g <==> k in m) && (k in m ==> g[k] == m[k]);
      }
    }
  }

  /** One step of `groupingBy`: the last element's value goes to the end of its class's list. */
  lemma GroupingBySnoc<T, K, V>(s: seq<T>, classifier: T -> K, mapper: T -> V)
    requires s != []
    ensures var m, x := GroupingBy(s[..|s| - 1], classifier, mapper), s[|s| - 1];
      GroupingBy(s, classifier, mapper)
        == m[classifier(x) := (if classifier(x) in m then m[classifier(x)] else []) + [mapper(x)]]
  {
  }

  /** `map` over a sequence that ends with `x` ends with the image of `x`. */
  lemma MapSnoc<T, U>(f: seq<T>, x: T, mapper: T -> U)
    ensures Map(f + [x], mapper) == Map(f, mapper) + [mapper(x)]
  {
    assert (f + [x])[..|f|] == f;
  }

  /** Sequences that agree position by position on class and mapped value group alike. */
  lemma {:induction false} GroupingByCongruent<T, K, V>(s: seq<T>, t: seq<T>, classifier: T -> K, mapper: T -> V)
    requires |s| == |t|
    requires forall i :: 0 <= i < |s| ==> classifier(s[i]) == classifier(t[i]) && mapper(s[i]) == mapper(t[i])
    ensures GroupingBy(s, classifier, mapper) == GroupingBy(t, classifier, mapper)
  {
    if s != [] {
      var n := |s| - 1;
      GroupingByCongruent(s[..n], t[..n], classifier, mapper);
    }
  }

  /** The running sum, `0` for no values: the reference for the collected sum. */
  function Sum(vals: seq<real>): real {
    if vals == [] then 0.0 else vals[0] + Sum(vals[1..])
  }

  lemma {:induction false} SumAppend(a: seq<real>, b: seq<real>)
    ensures Sum(a + b) == Sum(a) + Sum(b)
  {
    if a == [] {
      assert a + b == b;
    } else {
      assert (a + b)[1..] == a[1..] + b;
      SumAppend(a[1..], b);
    }
  }

  /**
   * `DoubleSummaryStatistics`: count, sum, minimum and maximum of the values
   * accepted so far. The minimum and maximum are absent before the first
   * value (where Java reports positive and negative infinity).
   */
  datatype Statistics = Statistics(count: nat, sum: real, min: Option<real>, max: Option<real>) {

    /** Records one more value, as `accept(double)` does. */
    function Accept(v: real): (r: Statistics)
      ensures r.count == count + 1 && r.sum == sum + v
      ensures r.min.Some? && r.min.value <= v && (min.Some? ==> r.min.value <= min.value)
      ensures r.min.value == v || (min.Some? && r.min.value == min.value)
      ensures r.max.Some? && r.max.value >= v && (max.Some? ==> r.max.value >= max.value)
      ensures r.max.value == v || (max.Some? && r.max.value == max.value)
    {
      Statistics(
        count + 1,
        sum + v,
        Some(if min.Some? && min.value <= v then min.value else v),
        Some(if max.Some? && max.value >= v then max.value else v))
    }

    /** `getAverage()`: the mean of the values, or `0` when there are none. */
    function Average(): (a: real)
      ensures count > 0 ==> a * (count as real) == sum
      ensures count == 0 ==> a == 0.0
    {
      if count > 0 then sum / (count as real) else 0.0
    }
  }

  /** The statistics of no values. */
  const NoStatistics := Statistics(0, 0.0, None, None)

  /** `summaryStatistics()`: the values accepted one by one, in encounter order. */
  function SummaryStatistics(vals: seq<real>): (st: Statistics)
    ensures st.count == |vals|
    ensures st.sum == Sum(vals)
    ensures st.min.None? <==> vals == []
    ensures st.max.None? <==> vals == []
    ensures st.min.Some? ==> st.min.value in vals && forall i :: 0 <= i < |vals| ==> st.min.value <= vals[i]
    ensures st.max.Some? ==> st.max.value in vals && forall i :: 0 <= i < |vals| ==> vals[i] <= st.max.value
  {
    if vals == [] then NoStatistics
    else
      var init, v := vals[..|vals| - 1], vals[|vals| - 1];
      assert vals == init + [v];
      SumAppend(init, [v]);
      SummaryStatistics(init).Accept(v)
  }
}
