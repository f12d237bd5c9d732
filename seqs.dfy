/**
 * Order-preserving row selection and element-wise transformation over
 * sequences: the two shapes every whole-table step of the pipeline takes.
 * A boolean-mask selection `df[mask]` is `Filter`; a list comprehension
 * `[f(x) for x in xs]` is `Map`.
 */
module Seqs {

  /** The elements of `s` that satisfy `keep`, in their original order. */
  function Filter<T>(keep: T -> bool, s: seq<T>): (r: seq<T>)
    ensures |r| <= |s|
    ensures forall x :: x in r ==> x in s && keep(x)
    ensures forall i :: 0 <= i < |s| && keep(s[i]) ==> s[i] in r
    decreases |s|
  {
    if s == [] then []
    else
      var init := Filter(keep, s[..|s| - 1]);
      assert forall i :: 0 <= i < |s| - 1 ==> s[i] == s[..|s| - 1][i];
      if keep(s[|s| - 1]) then init + [s[|s| - 1]] else init
  }

  /** `[f(x) for x in s]` */
  function Map<T, U>(f: T -> U, s: seq<T>): seq<U>
  {
    seq(|s|, i requires 0 <= i < |s| => f(s[i]))
  }

  /** The positions of `s` whose element satisfies `keep`, ascending. */
  function KeptIndices<T>(keep: T -> bool, s: seq<T>): seq<nat>
    decreases |s|
  {
    if s == [] then []
    else
      var init := KeptIndices(keep, s[..|s| - 1]);
      if keep(s[|s| - 1]) then init + [|s| - 1] else init
  }

  /**
   * `r` is the subsequence of `s` picked out by the strictly increasing
   * positions `idx`, and those positions are exactly the ones whose element
   * satisfies `keep`.
   */
  ghost predicate SelectedInOrder<T>(keep: T -> bool, s: seq<T>, idx: seq<nat>, r: seq<T>)
  {
    && |idx| == |r|
    && (forall j :: 0 <= j < |idx| ==> idx[j] < |s| && r[j] == s[idx[j]])
    && (forall j, k :: 0 <= j < k < |idx| ==> idx[j] < idx[k])
    && (forall i :: 0 <= i < |s| ==> (i in idx <==> keep(s[i])))
  }

  lemma FilterSnoc<T>(keep: T -> bool, a: seq<T>, x: T)
    ensures Filter(keep, a + [x]) == Filter(keep, a) + (if keep(x) then [x] else [])
  {
    assert (a + [x])[..|a|] == a;
  }

  /**
   * Filtering is stable: its result is exactly the ordered subsequence of
   * the elements that satisfy the predicate.
   */
  lemma {:induction false} FilterSelectsInOrder<T>(keep: T -> bool, s: seq<T>)
    ensures SelectedInOrder(keep, s, KeptIndices(keep, s), Filter(keep, s))
  {
    if s != [] {
      var init, x := s[..|s| - 1], s[|s| - 1];
      assert s == init + [x];
      FilterSelectsInOrder(keep, init);
      var idx0, r0 := KeptIndices(keep, init), Filter(keep, init);
      var idx, r := KeptIndices(keep, s), Filter(keep, s);
      FilterSnoc(keep, init, x);
      assert forall j :: 0 <= j < |idx0| ==> idx0[j] < |init|;
      if keep(x) {
        assert idx == idx0 + [|s| - 1] && r == r0 + [x];
        forall i | 0 <= i < |s|
          ensures i in idx <==> keep(s[i])
        {
          if i < |s| - 1 {
            assert s[i] == init[i];
            assert i in idx <==> i in idx0;
          }
        }
      } else {
        assert idx == idx0 && r == r0;
        forall i | 0 <= i < |s|
          ensures i in idx <==> keep(s[i])
        {
          if i < |s| - 1 {
            assert s[i] == init[i];
          } else {
            assert i !in idx0;
          }
        }
      }
    }
  }

  /** Two selections can be applied in either order with the same result. */
  lemma {:induction false} FilterCommutes<T>(p: T -> bool, q: T -> bool, s: seq<T>)
    ensures Filter(p, Filter(q, s)) == Filter(q, Filter(p, s))
  {
    if s != [] {
      var init, x := s[..|s| - 1], s[|s| - 1];
      assert s == init + [x];
      FilterCommutes(p, q, init);
      FilterSnoc(q, init, x);
      FilterSnoc(p, init, x);
      if q(x) {
        FilterSnoc(p, Filter(q, init), x);
      }
      if p(x) {
        FilterSnoc(q, Filter(p, init), x);
      }
    }
  }

  /** Selection on a two-element sequence. */
  lemma FilterPair<T>(keep: T -> bool, a: T, b: T)
    ensures Filter(keep, [a, b]) == (if keep(a) then [a] else []) + (if keep(b) then [b] else [])
  {
    FilterSnoc(keep, [], a);
    FilterSnoc(keep, [a], b);
    assert [a] + [b] == [a, b];
  }

  lemma MapSnoc<T, U>(f: T -> U, a: seq<T>, x: T)
    ensures Map(f, a + [x]) == Map(f, a) + [f(x)]
  {
  }

  /**
   * A transformation that never changes whether an element is selected can
   * be applied before or after the selection.
   */
  lemma {:induction false} FilterMapCommute<T>(keep: T -> bool, f: T -> T, s: seq<T>)
    requires forall x :: keep(f(x)) == keep(x)
    ensures Filter(keep, Map(f, s)) == Map(f, Filter(keep, s))
  {
    if s != [] {
      var init, x := s[..|s| - 1], s[|s| - 1];
      assert s == init + [x];
      MapSnoc(f, init, x);
      FilterMapCommute(keep, f, init);
      FilterSnoc(keep, Map(f, init), f(x));
      FilterSnoc(keep, init, x);
      MapSnoc(f, Filter(keep, init), x);
    }
  }
}
