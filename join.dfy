/**
 * `df.merge(zc[["zip_code", "City", "County"]], on='zip_code', how='left')`:
 * every population row is kept; each reference row with an equal key yields
 * one output row carrying that reference row's `City` and `County`.
 */
module Join {
  import opened Seqs
  import opened Records
  import opened Reference

  const ZipColumn: string := "zip_code"
  const CityColumn: string := "City"
  const CountyColumn: string := "County"

  predicate KeyMatches(row: Row, ref: KeyedRef)
  {
    ZipColumn in row && row[ZipColumn] == Str(ref.key)
  }

  /** The reference rows whose key equals the row's `zip_code`, in table order. */
  function Matches(row: Row, refs: seq<KeyedRef>): (ms: seq<KeyedRef>)
    ensures forall m :: m in ms <==> m in refs && KeyMatches(row, m)
  {
    Filter((m: KeyedRef) => KeyMatches(row, m), refs)
  }

  /** The row with the reference row's city and county in `City` and `County`. */
  function Attach(row: Row, ref: KeyedRef): (out: Row)
    ensures CityColumn in out && out[CityColumn] == Str(ref.row.city)
    ensures CountyColumn in out && out[CountyColumn] == Str(ref.row.county)
    ensures forall k :: k != CityColumn && k != CountyColumn ==> (k in out <==> k in row) && (k in row ==> out[k] == row[k])
  {
    row[CityColumn := Str(ref.row.city)][CountyColumn := Str(ref.row.county)]
  }

  /** The output rows one population row contributes to the join. */
  function JoinRow(row: Row, refs: seq<KeyedRef>): (out: seq<Row>)
    ensures |out| == if Matches(row, refs) == [] then 1 else |Matches(row, refs)|
  {
    var ms := Matches(row, refs);
    if ms == [] then [row] else Map((m: KeyedRef) => Attach(row, m), ms)
  }

  /**
   * Every matching reference row contributes a row carrying its own city
   * and county; with no match the row itself is contributed.
   */
  lemma JoinRowComplete(row: Row, refs: seq<KeyedRef>)
    ensures forall m :: m in refs && KeyMatches(row, m) ==> Attach(row, m) in JoinRow(row, refs)
    ensures Matches(row, refs) == [] ==> row in JoinRow(row, refs)
  {
    var ms := Matches(row, refs);
    forall m | m in refs && KeyMatches(row, m)
      ensures Attach(row, m) in JoinRow(row, refs)
    {
      var i :| 0 <= i < |ms| && ms[i] == m;
      assert JoinRow(row, refs)[i] == Attach(row, m);
    }
  }

  function LeftJoin(df: seq<Row>, refs: seq<KeyedRef>): (out: seq<Row>)
    ensures |out| >= |df|
    decreases |df|
  {
    if df == [] then []
    else LeftJoin(df[..|df| - 1], refs) + JoinRow(df[|df| - 1], refs)
  }

  /**
   * Nothing is dropped by the join: every population row reaches it with
   * each matching reference row's city and county, and unchanged when no
   * reference row matches.
   */
  lemma {:induction false} LeftJoinComplete(df: seq<Row>, refs: seq<KeyedRef>)
    ensures forall i, m :: 0 <= i < |df| && m in refs && KeyMatches(df[i], m) ==> Attach(df[i], m) in LeftJoin(df, refs)
    ensures forall i :: 0 <= i < |df| && Matches(df[i], refs) == [] ==> df[i] in LeftJoin(df, refs)
    decreases |df|
  {
    if df != [] {
      var init, last := df[..|df| - 1], df[|df| - 1];
      var j0, tail := LeftJoin(init, refs), JoinRow(last, refs);
      LeftJoinComplete(init, refs);
      JoinRowComplete(last, refs);
      assert LeftJoin(df, refs) == j0 + tail;
      forall i, m | 0 <= i < |df| && m in refs && KeyMatches(df[i], m)
        ensures Attach(df[i], m) in LeftJoin(df, refs)
      {
        if i < |df| - 1 {
          assert df[i] == init[i];
        }
      }
      forall i | 0 <= i < |df| && Matches(df[i], refs) == []
        ensures df[i] in LeftJoin(df, refs)
      {
        if i < |df| - 1 {
          assert df[i] == init[i];
        }
      }
    }
  }

  /** For each output row of the join, the position of the population row it came from. */
  function JoinOrigins(df: seq<Row>, refs: seq<KeyedRef>): seq<nat>
    decreases |df|
  {
    if df == [] then []
    else JoinOrigins(df[..|df| - 1], refs) + seq(|JoinRow(df[|df| - 1], refs)|, _ => |df| - 1)
  }

  /**
   * `out` is one row the join emits for `row`: the row itself when no key
   * matches, otherwise the row with the city and county of a matching
   * reference row attached.
   */
  ghost predicate JoinedFrom(out: Row, row: Row, refs: seq<KeyedRef>)
  {
    if Matches(row, refs) == [] then out == row
    else exists m :: m in refs && KeyMatches(row, m) && out == Attach(row, m)
  }

  lemma JoinRowFrom(row: Row, refs: seq<KeyedRef>)
    ensures forall out :: out in JoinRow(row, refs) ==> JoinedFrom(out, row, refs)
  {
    var ms := Matches(row, refs);
    if ms != [] {
      forall out | out in JoinRow(row, refs)
        ensures JoinedFrom(out, row, refs)
      {
        var k :| 0 <= k < |ms| && JoinRow(row, refs)[k] == out;
        assert ms[k] in ms;
      }
    }
  }

  /**
   * The origins of the join's output rows: one per output row, each a
   * position of the input, non-decreasing, and covering every position.
   */
  lemma {:induction false} JoinOriginsShape(df: seq<Row>, refs: seq<KeyedRef>)
    ensures |JoinOrigins(df, refs)| == |LeftJoin(df, refs)|
    ensures forall k :: 0 <= k < |JoinOrigins(df, refs)| ==> JoinOrigins(df, refs)[k] < |df|
    ensures forall k, l :: 0 <= k < l < |JoinOrigins(df, refs)| ==> JoinOrigins(df, refs)[k] <= JoinOrigins(df, refs)[l]
    ensures forall i :: 0 <= i < |df| ==> i in JoinOrigins(df, refs)
    decreases |df|
  {
    if df != [] {
      var init := df[..|df| - 1];
      JoinOriginsShape(init, refs);
      var o0 := JoinOrigins(init, refs);
      var n := |JoinRow(df[|df| - 1], refs)|;
      var o := JoinOrigins(df, refs);
      var added := seq(n, _ => |df| - 1);
      assert o == o0 + added;
      assert |LeftJoin(df, refs)| == |LeftJoin(init, refs)| + n;
      forall k | 0 <= k < |o|
        ensures o[k] < |df|
      {
        if k < |o0| {
          assert o[k] == o0[k];
        } else {
          assert o[k] == added[k - |o0|];
        }
      }
      forall k, l | 0 <= k < l < |o|
        ensures o[k] <= o[l]
      {
        if l < |o0| {
          assert o[k] == o0[k] && o[l] == o0[l];
        } else {
          assert o[l] == added[l - |o0|];
        }
      }
      forall i | 0 <= i < |df|
        ensures i in o
      {
        if i < |df| - 1 {
          assert i in o0;
        } else {
          assert o[|o0|] == i;
        }
      }
    }
  }

  /**
   * Every population row appears in the join, in input order: the origins
   * are non-decreasing, cover every input position, and each output row was
   * produced from the input row at its origin.
   */
  lemma {:induction false} LeftJoinKeepsEveryRowInOrder(df: seq<Row>, refs: seq<KeyedRef>)
    ensures |JoinOrigins(df, refs)| == |LeftJoin(df, refs)|
    ensures forall k :: 0 <= k < |JoinOrigins(df, refs)| ==>
      JoinOrigins(df, refs)[k] < |df| && JoinedFrom(LeftJoin(df, refs)[k], df[JoinOrigins(df, refs)[k]], refs)
    ensures forall k, l :: 0 <= k < l < |JoinOrigins(df, refs)| ==> JoinOrigins(df, refs)[k] <= JoinOrigins(df, refs)[l]
    ensures forall i :: 0 <= i < |df| ==> i in JoinOrigins(df, refs)
    decreases |df|
  {
    JoinOriginsShape(df, refs);
    if df != [] {
      var init, last := df[..|df| - 1], df[|df| - 1];
      LeftJoinKeepsEveryRowInOrder(init, refs);
      JoinRowFrom(last, refs);
      var o0, j0 := JoinOrigins(init, refs), LeftJoin(init, refs);
      var tail := JoinRow(last, refs);
      var o, j := JoinOrigins(df, refs), LeftJoin(df, refs);
      assert o == o0 + seq(|tail|, _ => |df| - 1);
      assert j == j0 + tail;
      forall k | 0 <= k < |o|
        ensures JoinedFrom(j[k], df[o[k]], refs)
      {
        if k < |o0| {
          assert o[k] == o0[k] && j[k] == j0[k];
          assert df[o0[k]] == init[o0[k]];
        } else {
          assert j[k] == tail[k - |o0|] && j[k] in tail;
        }
      }
    }
  }

  /** No two reference rows share a key. */
  ghost predicate UniqueKeys(refs: seq<KeyedRef>)
  {
    forall a, b :: 0 <= a < b < |refs| ==> refs[a].key != refs[b].key
  }

  lemma AtMostOneMatch(row: Row, refs: seq<KeyedRef>)
    requires UniqueKeys(refs)
    ensures |Matches(row, refs)| <= 1
  {
    var keep := (m: KeyedRef) => KeyMatches(row, m);
    FilterSelectsInOrder(keep, refs);
    var idx := KeptIndices(keep, refs);
    if |idx| >= 2 {
      assert idx[0] < idx[1];
      assert keep(refs[idx[0]]) && keep(refs[idx[1]]) by {
        assert idx[0] in idx && idx[1] in idx;
      }
    }
  }

  /**
   * With at most one reference row per key, one population row contributes
   * exactly one output row: itself with the matching city and county, or
   * itself unchanged when no key matches.
   */
  lemma JoinRowUnique(row: Row, refs: seq<KeyedRef>)
    requires UniqueKeys(refs)
    ensures forall m :: m in refs && KeyMatches(row, m) ==> JoinRow(row, refs) == [Attach(row, m)]
    ensures (forall m :: m in refs ==> !KeyMatches(row, m)) ==> JoinRow(row, refs) == [row]
  {
    AtMostOneMatch(row, refs);
    var ms := Matches(row, refs);
    if ms != [] {
      assert ms[0] in refs && KeyMatches(row, ms[0]) by { assert ms[0] in ms; }
      forall m | m in refs && KeyMatches(row, m)
        ensures JoinRow(row, refs) == [Attach(row, m)]
      {
        assert m in ms;
        assert ms == [m];
      }
    }
  }

  /** With at most one reference row per key, output row i is the one row population row i contributes. */
  lemma {:induction false} LeftJoinRowwise(df: seq<Row>, refs: seq<KeyedRef>)
    requires UniqueKeys(refs)
    ensures |LeftJoin(df, refs)| == |df|
    ensures forall i :: 0 <= i < |df| ==> JoinRow(df[i], refs) == [LeftJoin(df, refs)[i]]
    decreases |df|
  {
    if df != [] {
      var init, last := df[..|df| - 1], df[|df| - 1];
      var j0, tail := LeftJoin(init, refs), JoinRow(last, refs);
      var j := LeftJoin(df, refs);
      LeftJoinRowwise(init, refs);
      JoinRowUnique(last, refs);
      assert j == j0 + tail && |tail| == 1;
      forall i | 0 <= i < |df|
        ensures JoinRow(df[i], refs) == [j[i]]
      {
        if i < |df| - 1 {
          assert df[i] == init[i] && j[i] == j0[i];
        }
      }
    }
  }

  /**
   * With at most one reference row per key the join keeps the length and
   * order of its input; row i gains the city and county of the reference
   * row whose key equals its `zip_code`, and is unchanged when there is none.
   */
  lemma LeftJoinUnique(df: seq<Row>, refs: seq<KeyedRef>)
    requires UniqueKeys(refs)
    ensures |LeftJoin(df, refs)| == |df|
    ensures forall i, m :: 0 <= i < |df| && m in refs && KeyMatches(df[i], m) ==> LeftJoin(df, refs)[i] == Attach(df[i], m)
    ensures forall i :: 0 <= i < |df| && (forall m :: m in refs ==> !KeyMatches(df[i], m)) ==> LeftJoin(df, refs)[i] == df[i]
  {
    LeftJoinRowwise(df, refs);
    forall i | 0 <= i < |df|
      ensures forall m :: m in refs && KeyMatches(df[i], m) ==> LeftJoin(df, refs)[i] == Attach(df[i], m)
      ensures (forall m :: m in refs ==> !KeyMatches(df[i], m)) ==> LeftJoin(df, refs)[i] == df[i]
    {
      JoinRowUnique(df[i], refs);
    }
  }

  /**
   * When the population rows carry no `City`/`County` of their own, those
   * columns are present in joined row i exactly when some reference row has
   * the same key.
   */
  lemma CityPresentIffMatch(df: seq<Row>, refs: seq<KeyedRef>)
    requires UniqueKeys(refs)
    requires forall r :: r in df ==> CityColumn !in r && CountyColumn !in r
    ensures forall i :: 0 <= i < |df| ==>
      (CityColumn in LeftJoin(df, refs)[i] <==> exists m :: m in refs && KeyMatches(df[i], m))
    ensures forall i :: 0 <= i < |df| ==>
      (CountyColumn in LeftJoin(df, refs)[i] <==> exists m :: m in refs && KeyMatches(df[i], m))
  {
    LeftJoinUnique(df, refs);
    forall i | 0 <= i < |df|
      ensures CityColumn in LeftJoin(df, refs)[i] <==> exists m :: m in refs && KeyMatches(df[i], m)
      ensures CountyColumn in LeftJoin(df, refs)[i] <==> exists m :: m in refs && KeyMatches(df[i], m)
    {
      assert df[i] in df;
    }
  }

  /**
   * Duplicate keys multiply rows: two reference rows with the key of a
   * population row make the join emit that row twice, once per city.
   */
  lemma DuplicateKeyDoublesRow(row: Row, a: ZipRef, b: ZipRef, key: string)
    requires ZipColumn in row && row[ZipColumn] == Str(key)
    ensures LeftJoin([row], [KeyedRef(key, a), KeyedRef(key, b)]) ==
      [Attach(row, KeyedRef(key, a)), Attach(row, KeyedRef(key, b))]
  {
    var refs := [KeyedRef(key, a), KeyedRef(key, b)];
    assert Matches(row, refs) == refs by {
      var keep := (m: KeyedRef) => KeyMatches(row, m);
      FilterSnoc(keep, [refs[0]], refs[1]);
      FilterSnoc(keep, [], refs[0]);
      assert [refs[0]] + [refs[1]] == refs;
    }
    assert [row][..0] == [];
  }
}
