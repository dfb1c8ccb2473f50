/**
 * Sequence operations behind the managers' queries: `Array.prototype.filter`
 * and the spread of a `Set` built from a sequence (`[...new Set(s)]`).
 */
module Seqs {

  /** filter: the elements of `s` that satisfy `keep`, in their original order. */
  function Filter<T>(s: seq<T>, keep: T -> bool): (r: seq<T>)
    ensures |r| <= |s|
    ensures forall k :: 0 <= k < |r| ==> r[k] in s && keep(r[k])
    ensures forall j :: 0 <= j < |s| && keep(s[j]) ==> s[j] in r
    decreases |s|
  {
    if s == [] then []
    else
      var rest := Filter(s[1..], keep);
      if keep(s[0]) then [s[0]] + rest else rest
  }

  /** `idx` lists strictly increasing positions of `s` whose elements, in order, are `r`. */
  ghost predicate Embeds<T>(r: seq<T>, s: seq<T>, idx: seq<int>) {
    && |idx| == |r|
    && (forall k :: 0 <= k < |idx| ==> 0 <= idx[k] < |s| && r[k] == s[idx[k]])
    && (forall k, l :: 0 <= k < l < |idx| ==> idx[k] < idx[l])
  }

  /**
   * Filter is order-preserving and exact: its result is a subsequence of `s`
   * taken at exactly those positions whose element satisfies `keep`.
   */
  lemma {:induction false} FilterSelects<T>(s: seq<T>, keep: T -> bool) returns (idx: seq<int>)
    ensures Embeds(Filter(s, keep), s, idx)
    ensures forall j :: 0 <= j < |s| ==> (keep(s[j]) <==> j in idx)
    decreases |s|
  {
    if s == [] {
      idx := [];
    } else {
      var rest := Filter(s[1..], keep);
      var tail := FilterSelects(s[1..], keep);
      var shifted := Shift(rest, s, tail);
      if keep(s[0]) {
        idx := [0] + shifted;
        assert Filter(s, keep) == [s[0]] + rest;
        Prepend(rest, s, shifted);
        forall j | 0 <= j < |s| ensures keep(s[j]) <==> j in idx {
          if j > 0 {
            assert s[1..][j - 1] == s[j];
            assert j in idx <==> j in shifted;
          }
        }
      } else {
        idx := shifted;
        forall j | 0 <= j < |s| ensures keep(s[j]) <==> j in idx {
          if j > 0 {
            assert s[1..][j - 1] == s[j];
          }
        }
      }
    }
  }

  /** An embedding that avoids position 0 extends to one that also takes the first element. */
  lemma Prepend<T>(r: seq<T>, s: seq<T>, shifted: seq<int>)
    requires |s| > 0 && Embeds(r, s, shifted)
    requires forall k :: 0 <= k < |shifted| ==> shifted[k] >= 1
    ensures Embeds([s[0]] + r, s, [0] + shifted)
  {
  }

  /** An embedding of `r` into `s[1..]`, moved one position right, embeds `r` into `s`. */
  lemma Shift<T>(r: seq<T>, s: seq<T>, tail: seq<int>) returns (shifted: seq<int>)
    requires |s| > 0 && Embeds(r, s[1..], tail)
    ensures Embeds(r, s, shifted)
    ensures forall k :: 0 <= k < |shifted| ==> shifted[k] >= 1
    ensures forall j :: 1 <= j < |s| ==> (j in shifted <==> j - 1 in tail)
  {
    shifted := seq(|tail|, k requires 0 <= k < |tail| => tail[k] + 1);
    forall j | 1 <= j < |s| ensures j in shifted <==> j - 1 in tail {
      if j - 1 in tail {
        var k :| 0 <= k < |tail| && tail[k] == j - 1;
        assert shifted[k] == j;
      }
    }
  }

  /** Filtering distributes over concatenation. */
  lemma {:induction false} FilterAppend<T>(a: seq<T>, b: seq<T>, keep: T -> bool)
    ensures Filter(a + b, keep) == Filter(a, keep) + Filter(b, keep)
    decreases |a|
  {
    if a == [] {
      assert a + b == b;
    } else {
      assert (a + b)[1..] == a[1..] + b;
      FilterAppend(a[1..], b, keep);
    }
  }

  /** Filtering with two predicates that agree everywhere gives the same result. */
  lemma {:induction false} FilterCongruent<T>(s: seq<T>, keep: T -> bool, keep': T -> bool)
    requires forall x :: keep(x) == keep'(x)
    ensures Filter(s, keep) == Filter(s, keep')
    decreases |s|
  {
    if s != [] {
      FilterCongruent(s[1..], keep, keep');
    }
  }

  /** When every element is kept, filtering returns the sequence unchanged. */
  lemma {:induction false} FilterKeepsAll<T>(s: seq<T>, keep: T -> bool)
    requires forall x :: x in s ==> keep(x)
    ensures Filter(s, keep) == s
    decreases |s|
  {
    if s != [] {
      assert forall x :: x in s[1..] ==> x in s;
      FilterKeepsAll(s[1..], keep);
    }
  }

  /** The positions of `s` whose element satisfies `keep`. */
  ghost function Positions<T>(s: seq<T>, keep: T -> bool): set<int> {
    set i | 0 <= i < |s| && keep(s[i])
  }

  /** Appending one element adds its position exactly when it is kept. */
  lemma PositionsSnoc<T>(init: seq<T>, last: T, keep: T -> bool)
    ensures Positions(init + [last], keep)
         == Positions(init, keep) + (if keep(last) then {|init|} else {})
  {
    var s := init + [last];
    forall i | i in Positions(s, keep) ensures i in Positions(init, keep) + (if keep(last) then {|init|} else {}) {
      if i < |init| {
        assert s[i] == init[i];
      }
    }
    forall i | i in Positions(init, keep) ensures i in Positions(s, keep) {
      assert s[i] == init[i];
    }
    if keep(last) {
      assert s[|init|] == last;
    }
  }

  /** Filtering a single element keeps it exactly when `keep` holds of it. */
  lemma FilterSingleton<T>(x: T, keep: T -> bool)
    ensures Filter([x], keep) == if keep(x) then [x] else []
  {
    assert [x][1..] == [];
  }

  /** The length of a filter is the number of positions it keeps. */
  lemma {:induction false} FilterLength<T>(s: seq<T>, keep: T -> bool)
    ensures |Filter(s, keep)| == |Positions(s, keep)|
    decreases |s|
  {
    if s != [] {
      var init, last := s[..|s| - 1], s[|s| - 1];
      assert s == init + [last];
      FilterAppend(init, [last], keep);
      FilterSingleton(last, keep);
      FilterLength(init, keep);
      PositionsSnoc(init, last, keep);
      assert |init| !in Positions(init, keep);
    }
  }

  /** No element occurs twice. */
  predicate NoDuplicates<T(==)>(s: seq<T>) {
    forall i, j :: 0 <= i < j < |s| ==> s[i] != s[j]
  }

  /** [...new Set(s)]: the distinct elements of `s`; only how many there are is used. */
  function Distinct<T(==)>(s: seq<T>): (r: seq<T>)
    ensures NoDuplicates(r)
    ensures forall k :: 0 <= k < |r| ==> r[k] in s
    ensures forall j :: 0 <= j < |s| ==> s[j] in r
    decreases |s|
  {
    if s == [] then []
    else
      var init := s[..|s| - 1];
      var last := s[|s| - 1];
      assert s == init + [last];
      var d := Distinct(init);
      if last in d then d else d + [last]
  }

  /** A sequence without duplicates has as many elements as its set of elements. */
  lemma {:induction false} NoDuplicatesCardinality<T>(s: seq<T>)
    requires NoDuplicates(s)
    ensures |set x | x in s| == |s|
    decreases |s|
  {
    if s != [] {
      var init := s[..|s| - 1];
      var last := s[|s| - 1];
      assert s == init + [last];
      NoDuplicatesCardinality(init);
      assert last !in init;
      assert (set x | x in s) == (set x | x in init) + {last};
    }
  }

  /** The number of distinct elements is the cardinality of the set of elements. */
  lemma DistinctCardinality<T>(s: seq<T>)
    ensures |Distinct(s)| == |set x | x in s|
  {
    var d := Distinct(s);
    NoDuplicatesCardinality(d);
    assert (set x | x in d) == (set x | x in s);
  }
}
