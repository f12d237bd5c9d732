/**
 * What raw_format.py guarantees about its output, stated over `Pipeline`.
 */
module PipelineProperties {
  import opened Seqs
  import opened Records
  import opened Reference
  import opened Join
  import opened RawFormat

  /** The first feature never contributes: replacing it changes nothing. */
  lemma FirstFeatureIgnored(f: Feature, g: Feature, rest: seq<Feature>, zc: seq<ZipRef>)
    ensures Pipeline([f] + rest, zc) == Pipeline([g] + rest, zc)
  {
    assert Census([f] + rest) == rest == Census([g] + rest);
  }

  /**
   * The population frame follows `features[1:]` one to one and in order:
   * row i is the record of feature i + 1.
   */
  lemma FrameFollowsFeatures(features: seq<Feature>)
    ensures |PopulationFrame(features)| == if |features| == 0 then 0 else |features| - 1
    ensures forall i :: 0 <= i < |PopulationFrame(features)| ==>
      PopulationFrame(features)[i] == RenameFeature(WithCentroid(features[i + 1]))
  {
  }

  /**
   * With at most one feature no population row survives the skip, the frame
   * has no `zip_code` column and the merge raises KeyError.
   */
  lemma TooFewFeatures(features: seq<Feature>, zc: seq<ZipRef>)
    requires |features| <= 1
    ensures Pipeline(features, zc) == Err(KeyError(ZipColumn))
  {
    assert Census(features) == [];
  }

  /**
   * Re-prefixing a text zip code: one character longer, starting with 'z',
   * the rest the original string; no other column changes.
   */
  lemma PrefixZipShape(r: Row)
    requires ZipIsText(r)
    ensures ZipIsText(PrefixZip(r))
    ensures |PrefixZip(r)[ZipColumn].s| == |r[ZipColumn].s| + 1
    ensures PrefixZip(r)[ZipColumn].s[0] == 'z' && PrefixZip(r)[ZipColumn].s[1..] == r[ZipColumn].s
    ensures forall k :: k != ZipColumn ==> (k in PrefixZip(r) <==> k in r) && (k in r ==> PrefixZip(r)[k] == r[k])
  {
  }

  /** Neither mask reads `zip_code`, so re-prefixing never changes a mask. */
  lemma PrefixZipKeepsMasks()
    ensures forall r :: Positive(PrefixZip(r)) == Positive(r)
    ensures forall r :: InBox(PrefixZip(r)) == InBox(r)
  {
  }

  /**
   * The output is exactly the re-prefixed joined rows with a positive
   * population inside the box, in joined order, and the two masks can be
   * applied in either order.
   */
  lemma {:induction false} OutputIsBothFilters(features: seq<Feature>, zc: seq<ZipRef>)
    requires Pipeline(features, zc).Ok?
    ensures var joined := Joined(PopulationFrame(features), zc);
      && Pipeline(features, zc).value == Filter(InBox, Filter(Positive, Map(PrefixZip, joined)))
      && Pipeline(features, zc).value == Filter(Positive, Filter(InBox, Map(PrefixZip, joined)))
  {
    var joined := Joined(PopulationFrame(features), zc);
    PrefixZipKeepsMasks();
    FilterMapCommute(Positive, PrefixZip, joined);
    FilterCommutes(InBox, Positive, Map(PrefixZip, joined));
  }

  /** Every row of `Filter(InBox, Map(PrefixZip, positive))` comes from a positive, in-box row and is marked. */
  lemma {:induction false} SelectedRowsQualify(positive: seq<Row>)
    requires forall j :: j in positive ==> Positive(j) && ZipIsText(j)
    ensures forall r: Row :: r in Filter(InBox, Map(PrefixZip, positive)) ==>
      && Positive(r) && InBox(r)
      && ZipIsText(r) && |r[ZipColumn].s| >= 1 && r[ZipColumn].s[0] == 'z'
      && exists j :: j in positive && InBox(j) && r == PrefixZip(j)
  {
    var marked := Map(PrefixZip, positive);
    PrefixZipKeepsMasks();
    forall r: Row | r in Filter(InBox, marked)
      ensures Positive(r) && InBox(r) && ZipIsText(r) && |r[ZipColumn].s| >= 1 && r[ZipColumn].s[0] == 'z'
      ensures exists j :: j in positive && InBox(j) && r == PrefixZip(j)
    {
      var i :| 0 <= i < |marked| && marked[i] == r;
      assert positive[i] in positive;
      PrefixZipShape(positive[i]);
    }
  }

  /**
   * Every output row has a positive population, lies in the box (bounds
   * included) and carries a 'z'-marked text zip code; conversely every
   * joined row with a positive population inside the box reaches the output.
   */
  lemma {:induction false} OutputInvariants(features: seq<Feature>, zc: seq<ZipRef>)
    requires Pipeline(features, zc).Ok?
    ensures forall r: Row :: r in Pipeline(features, zc).value ==>
      && Positive(r) && InBox(r)
      && ZipIsText(r) && |r[ZipColumn].s| >= 1 && r[ZipColumn].s[0] == 'z'
    ensures forall r :: r in Pipeline(features, zc).value ==>
      exists j :: j in Joined(PopulationFrame(features), zc) && Positive(j) && InBox(j) && r == PrefixZip(j)
    ensures forall j :: j in Joined(PopulationFrame(features), zc) && Positive(j) && InBox(j) ==>
      PrefixZip(j) in Pipeline(features, zc).value
  {
    var joined := Joined(PopulationFrame(features), zc);
    var positive := Filter(Positive, joined);
    var marked := Map(PrefixZip, positive);
    var out := Pipeline(features, zc).value;
    assert out == Filter(InBox, marked);
    SelectedRowsQualify(positive);
    PrefixZipKeepsMasks();
    forall j | j in joined && Positive(j) && InBox(j)
      ensures PrefixZip(j) in out
    {
      var i :| 0 <= i < |positive| && positive[i] == j;
      assert marked[i] == PrefixZip(j);
    }
  }

  /**
   * When every reference row keyed "01062" is written unprefixed, the only
   * reference row the join can use for that key is the "Florence" one.
   */
  lemma AmbiguousKeyIsFlorence(m: KeyedRef, zc: seq<ZipRef>)
    requires forall r :: r in zc && NormaliseKey(r.zipCode) == AmbiguousZip ==> r.zipCode == AmbiguousZip
    requires m in ReferenceRows(zc) && m.key == AmbiguousZip
    ensures m.row.city == KeptCity
  {
    var keyed := WithKeys(zc);
    assert m in keyed;
    var i :| 0 <= i < |keyed| && keyed[i] == m;
    assert zc[i] in zc;
  }

  /** One joined row keyed "01062" that carries a city carries "Florence". */
  lemma JoinedRowIsFlorence(out: Row, row: Row, zc: seq<ZipRef>)
    requires forall r :: r in zc && NormaliseKey(r.zipCode) == AmbiguousZip ==> r.zipCode == AmbiguousZip
    requires CityColumn !in row && JoinedFrom(out, row, ReferenceRows(zc))
    requires ZipColumn in out && out[ZipColumn] == Str(AmbiguousZip) && CityColumn in out
    ensures out[CityColumn] == Str(KeptCity)
  {
    var refs := ReferenceRows(zc);
    if Matches(row, refs) != [] {
      var m :| m in refs && KeyMatches(row, m) && out == Attach(row, m);
      assert out[ZipColumn] == row[ZipColumn];
      AmbiguousKeyIsFlorence(m, zc);
    }
  }

  /**
   * When the ambiguous zip is listed only unprefixed, a joined row keyed
   * "01062" can only have received the "Florence" city.
   */
  lemma AmbiguousZipJoinsFlorence(df: seq<Row>, zc: seq<ZipRef>)
    requires forall r :: r in zc && NormaliseKey(r.zipCode) == AmbiguousZip ==> r.zipCode == AmbiguousZip
    requires forall r :: r in df ==> CityColumn !in r
    ensures forall out :: (out in LeftJoin(df, ReferenceRows(zc)) && ZipColumn in out &&
      out[ZipColumn] == Str(AmbiguousZip) && CityColumn in out) ==> out[CityColumn] == Str(KeptCity)
  {
    var refs := ReferenceRows(zc);
    var joined := LeftJoin(df, refs);
    var origins := JoinOrigins(df, refs);
    LeftJoinKeepsEveryRowInOrder(df, refs);
    forall out | out in joined && ZipColumn in out && out[ZipColumn] == Str(AmbiguousZip) && CityColumn in out
      ensures out[CityColumn] == Str(KeptCity)
    {
      var k :| 0 <= k < |joined| && joined[k] == out;
      assert df[origins[k]] in df;
      JoinedRowIsFlorence(out, df[origins[k]], zc);
    }
  }

  /**
   * The exception misses prefixed raw values: two reference rows both
   * written "ZIP Code 01062" survive it, and a population row keyed "01062"
   * is emitted twice by the join, once per city.
   */
  lemma PrefixedDuplicateMultiplies(row: Row, cityA: string, countyA: string, cityB: string, countyB: string)
    requires ZipColumn in row && row[ZipColumn] == Str(AmbiguousZip)
    ensures var zc := [ZipRef(ZipPrefix + AmbiguousZip, cityA, countyA), ZipRef(ZipPrefix + AmbiguousZip, cityB, countyB)];
      LeftJoin([row], ReferenceRows(zc)) ==
        [Attach(row, KeyedRef(AmbiguousZip, zc[0])), Attach(row, KeyedRef(AmbiguousZip, zc[1]))]
  {
    var zc := [ZipRef(ZipPrefix + AmbiguousZip, cityA, countyA), ZipRef(ZipPrefix + AmbiguousZip, cityB, countyB)];
    var a, b := KeyedRef(AmbiguousZip, zc[0]), KeyedRef(AmbiguousZip, zc[1]);
    PrefixedAmbiguousZipEscapes(cityA, countyA);
    PrefixedAmbiguousZipEscapes(cityB, countyB);
    assert WithKeys(zc) == [a, b];
    FilterSnoc(KeepRef, [], a);
    FilterSnoc(KeepRef, [a], b);
    assert [a] + [b] == [a, b];
    assert ReferenceRows(zc) == [a, b];
    DuplicateKeyDoublesRow(row, zc[0], zc[1], AmbiguousZip);
  }

  /** The only columns the feature table renames, and the only names it gives. */
  lemma FeatureFieldNames()
    ensures forall k :: k in Sources(FeatureFields) ==> k == "name" || k == "B01003001" || k == "B01003001, Error"
    ensures forall k :: k in Targets(FeatureFields) ==> k == ZipColumn || k == PopulationColumn || k == "pop_error"
  {
  }

  /** The feature table applied to a row is three single renames in table order. */
  lemma RenameFeatureSteps(w: Row)
    ensures RenameFeature(w) ==
      RenameField(RenameField(RenameField(w, "name", ZipColumn), "B01003001", PopulationColumn), "B01003001, Error", "pop_error")
  {
    var t1, t2 := FeatureFields[1..], FeatureFields[2..];
    assert t1[1..] == t2 && t2[1..] == [];
  }

  /**
   * The renamed part of a feature's record: the zip name, the count and its
   * error under their canonical names; the source names are gone.
   */
  lemma FeatureRecordRenamed(f: Feature)
    ensures var r, p := RenameFeature(WithCentroid(f)), f.properties;
      && ("name" in p ==> ZipColumn in r && r[ZipColumn] == p["name"])
      && ("B01003001" in p ==> PopulationColumn in r && r[PopulationColumn] == p["B01003001"])
      && ("B01003001, Error" in p ==> "pop_error" in r && r["pop_error"] == p["B01003001, Error"])
      && "name" !in r && "B01003001" !in r && "B01003001, Error" !in r
  {
    var w := WithCentroid(f);
    RenameFeatureSteps(w);
    assert |"name"| == 4 && |"B01003001"| == 9 && |"B01003001, Error"| == 16;
    assert ZipColumn[0] != "B01003001"[0] && PopulationColumn[0] != "B01003001"[0];
    assert forall k :: k == "name" || k == "B01003001" || k == "B01003001, Error" ==> (k in w <==> k in f.properties) && (k in w ==> w[k] == f.properties[k]);
  }

  /** The centroid columns of a feature's record are the feature's centroid. */
  lemma FeatureRecordCentroid(f: Feature)
    ensures var r := RenameFeature(WithCentroid(f));
      && LongitudeColumn in r && r[LongitudeColumn] == Longitude(f)
      && LatitudeColumn in r && r[LatitudeColumn] == Latitude(f)
  {
    RenameFeatureSteps(WithCentroid(f));
    assert |LongitudeColumn| == 9 && |LatitudeColumn| == 8;
    assert LongitudeColumn[0] != "B01003001"[0] && LongitudeColumn[0] != "pop_error"[0];
  }

  /** Every property the table does not name and the centroid does not overwrite is kept as it was. */
  lemma FeatureRecordKept(f: Feature)
    ensures var r, p := RenameFeature(WithCentroid(f)), f.properties;
      forall k :: k !in {"name", "B01003001", "B01003001, Error", ZipColumn, PopulationColumn, "pop_error", LongitudeColumn, LatitudeColumn} ==>
        (k in r <==> k in p) && (k in p ==> r[k] == p[k])
  {
    var w := WithCentroid(f);
    TablesWellFormed();
    RenameSpec(w, FeatureFields);
    FeatureFieldNames();
    forall k | k !in {"name", "B01003001", "B01003001, Error", ZipColumn, PopulationColumn, "pop_error", LongitudeColumn, LatitudeColumn}
      ensures (k in RenameFeature(w) <==> k in f.properties) && (k in f.properties ==> RenameFeature(w)[k] == f.properties[k])
    {
      assert k !in Sources(FeatureFields) && k !in Targets(FeatureFields);
      assert (k in w <==> k in f.properties) && (k in w ==> w[k] == f.properties[k]);
    }
  }

  /**
   * A matched row after the `city`/`county` rename: the reference row's city
   * and county under the canonical names, every other column as it was.
   */
  lemma MatchedRecord(row: Row, m: KeyedRef)
    ensures var j := RenameReference(Attach(row, m));
      && "city" in j && j["city"] == Str(m.row.city)
      && "county" in j && j["county"] == Str(m.row.county)
      && CityColumn !in j && CountyColumn !in j
      && (forall k :: k !in {CityColumn, CountyColumn, "city", "county"} ==>
            (k in j <==> k in row) && (k in row ==> j[k] == row[k]))
  {
    var a := Attach(row, m);
    var city, county := Str(m.row.city), Str(m.row.county);
    var s1 := (a - {CityColumn})["city" := city];
    var s2 := (s1 - {CountyColumn})["county" := county];
    assert ReferenceFields[1..] == [(CountyColumn, "county")];
    assert Rename(a, ReferenceFields) == Rename(s1, ReferenceFields[1..]);
    assert Rename(s1, ReferenceFields[1..]) == s2 by {
      assert ReferenceFields[1..][1..] == [];
    }
    assert CountyColumn[0] != "city"[0] && CityColumn[0] != "county"[0];
  }

  /** An unmatched row without `City`/`County` columns is not changed by the rename. */
  lemma UnmatchedRecord(row: Row)
    requires CityColumn !in row && CountyColumn !in row
    ensures RenameReference(row) == row
  {
  }

  /**
   * A scenario feature: zip name `zip`, population `population`, and none
   * of the columns the join adds or renames.
   */
  ghost predicate ZipFeature(f: Feature, zip: string, population: real)
  {
    && "name" in f.properties && f.properties["name"] == Str(zip)
    && "B01003001" in f.properties && f.properties["B01003001"] == Num(population)
    && CityColumn !in f.properties && CountyColumn !in f.properties
  }

  lemma ZipFeatureRecord(f: Feature, zip: string, population: real)
    requires ZipFeature(f, zip, population)
    ensures var r := RenameFeature(WithCentroid(f));
      && ZipColumn in r && r[ZipColumn] == Str(zip)
      && PopulationColumn in r && r[PopulationColumn] == Num(population)
      && CityColumn !in r && CountyColumn !in r
      && LongitudeColumn in r && r[LongitudeColumn] == Num(f.centroid.lon)
      && LatitudeColumn in r && r[LatitudeColumn] == Num(f.centroid.lat)
  {
    FeatureRecordRenamed(f);
    FeatureRecordCentroid(f);
    FeatureRecordKept(f);
  }

  lemma ScenarioReference(zip: string, city: string, county: string)
    requires forall i :: 0 <= i < |zip| ==> zip[i] != 'Z'
    ensures ReferenceRows([ZipRef(ZipPrefix + zip, city, county)]) ==
      [KeyedRef(zip, ZipRef(ZipPrefix + zip, city, county))]
  {
    var m := KeyedRef(zip, ZipRef(ZipPrefix + zip, city, county));
    PrefixedKeyNormalised(zip);
    assert WithKeys([m.row]) == [m];
    assert (ZipPrefix + zip)[0] != AmbiguousZip[0];
    FilterSnoc(KeepRef, [], m);
  }

  lemma ScenarioJoin(r1: Row, r2: Row, m: KeyedRef)
    requires KeyMatches(r1, m) && !KeyMatches(r2, m)
    requires CityColumn !in r2 && CountyColumn !in r2
    ensures Map(RenameReference, LeftJoin([r1, r2], [m])) == [RenameReference(Attach(r1, m)), r2]
  {
    LeftJoinUnique([r1, r2], [m]);
    UnmatchedRecord(r2);
  }

  /** Lines 18-32 of the scenario: two rows after the join, the first one matched. */
  lemma ScenarioJoined(state: Feature, inside: Feature, outside: Feature,
                       zipIn: string, zipOut: string, city: string, county: string)
    requires ZipFeature(inside, zipIn, 500.0) && ZipFeature(outside, zipOut, 300.0)
    requires zipIn != zipOut && forall i :: 0 <= i < |zipIn| ==> zipIn[i] != 'Z'
    ensures var zc := [ZipRef(ZipPrefix + zipIn, city, county)];
      var r1, r2 := RenameFeature(WithCentroid(inside)), RenameFeature(WithCentroid(outside));
      && HasColumn(PopulationFrame([state, inside, outside]), ZipColumn)
      && Joined(PopulationFrame([state, inside, outside]), zc) == [RenameReference(Attach(r1, KeyedRef(zipIn, zc[0]))), r2]
  {
    var features := [state, inside, outside];
    var zc := [ZipRef(ZipPrefix + zipIn, city, county)];
    var m := KeyedRef(zipIn, zc[0]);
    var r1, r2 := RenameFeature(WithCentroid(inside)), RenameFeature(WithCentroid(outside));
    ZipFeatureRecord(inside, zipIn, 500.0);
    ZipFeatureRecord(outside, zipOut, 300.0);
    assert Census(features) == [inside, outside];
    assert PopulationFrame(features) == [r1, r2];
    assert r1 in PopulationFrame(features);
    ScenarioReference(zipIn, city, county);
    ScenarioJoin(r1, r2, m);
  }

  /** Lines 35-42 of the scenario: both rows are positive, only the first is in the box. */
  lemma ScenarioFilters(j1: Row, r2: Row)
    requires Positive(j1) && Positive(r2) && ZipIsText(j1) && ZipIsText(r2)
    requires InBox(j1) && !InBox(r2)
    ensures Filter(Positive, [j1, r2]) == [j1, r2]
    ensures Filter(InBox, Map(PrefixZip, [j1, r2])) == [PrefixZip(j1)]
  {
    FilterPair(Positive, j1, r2);
    var p1, p2 := PrefixZip(j1), PrefixZip(r2);
    assert Map(PrefixZip, [j1, r2]) == [p1, p2];
    assert InBox(p1) && !InBox(p2);
    FilterPair(InBox, p1, p2);
  }

  /** Line 32 of the scenario: the matched row keeps its masks and gains city and county. */
  lemma ScenarioMatchedRow(r1: Row, m: KeyedRef)
    requires Positive(r1) && ZipIsText(r1) && InBox(r1)
    ensures var j1 := RenameReference(Attach(r1, m));
      && Positive(j1) && ZipIsText(j1) && InBox(j1)
      && j1[ZipColumn] == r1[ZipColumn] && j1[PopulationColumn] == r1[PopulationColumn]
      && "city" in j1 && j1["city"] == Str(m.row.city)
      && "county" in j1 && j1["county"] == Str(m.row.county)
  {
    MatchedRecord(r1, m);
  }

  /** Once the join is known, the rest of the script only filters and re-prefixes. */
  lemma PipelineAfterJoin(features: seq<Feature>, zc: seq<ZipRef>, joined: seq<Row>)
    requires HasColumn(PopulationFrame(features), ZipColumn)
    requires Joined(PopulationFrame(features), zc) == joined
    requires HasColumn(joined, PopulationColumn) && PopulationComparable(joined)
    requires AllZipsText(Filter(Positive, joined))
    ensures Pipeline(features, zc) == Ok(Filter(InBox, Map(PrefixZip, Filter(Positive, joined))))
  {
  }

  /** Lines 35-42 of the scenario: of two positive joined rows only the one in the box is output. */
  lemma ScenarioOutput(features: seq<Feature>, zc: seq<ZipRef>, j1: Row, r2: Row)
    requires HasColumn(PopulationFrame(features), ZipColumn)
    requires Joined(PopulationFrame(features), zc) == [j1, r2]
    requires Positive(j1) && Positive(r2) && ZipIsText(j1) && ZipIsText(r2)
    requires InBox(j1) && !InBox(r2)
    ensures Pipeline(features, zc) == Ok([PrefixZip(j1)])
  {
    ScenarioFilters(j1, r2);
    assert j1 in [j1, r2];
    PipelineAfterJoin(features, zc, [j1, r2]);
  }

  /**
   * The end-to-end scenario: a state rollup and two zip features, one
   * inside the box with population 500 and one outside with population 300,
   * and one reference row, written with the "ZIP Code " prefix, matching the
   * first. The output holds exactly one row: the in-box zip, marked, with
   * population 500 and the joined city and county.
   */
  lemma {:induction false} EndToEnd(state: Feature, inside: Feature, outside: Feature,
                                    zipIn: string, zipOut: string, city: string, county: string)
    requires ZipFeature(inside, zipIn, 500.0) && ZipFeature(outside, zipOut, 300.0)
    requires zipIn != zipOut && forall i :: 0 <= i < |zipIn| ==> zipIn[i] != 'Z'
    requires LonMin <= inside.centroid.lon <= LonMax && LatMin <= inside.centroid.lat <= LatMax
    requires !(LonMin <= outside.centroid.lon <= LonMax && LatMin <= outside.centroid.lat <= LatMax)
    ensures var result := Pipeline([state, inside, outside], [ZipRef(ZipPrefix + zipIn, city, county)]);
      && result.Ok? && |result.value| == 1
      && ZipColumn in result.value[0] && result.value[0][ZipColumn] == Str("z" + zipIn)
      && PopulationColumn in result.value[0] && result.value[0][PopulationColumn] == Num(500.0)
      && "city" in result.value[0] && result.value[0]["city"] == Str(city)
      && "county" in result.value[0] && result.value[0]["county"] == Str(county)
  {
    var features := [state, inside, outside];
    var zc := [ZipRef(ZipPrefix + zipIn, city, county)];
    var m := KeyedRef(zipIn, zc[0]);
    var r1, r2 := RenameFeature(WithCentroid(inside)), RenameFeature(WithCentroid(outside));
    ZipFeatureRecord(inside, zipIn, 500.0);
    ZipFeatureRecord(outside, zipOut, 300.0);
    ScenarioJoined(state, inside, outside, zipIn, zipOut, city, county);
    ScenarioMatchedRow(r1, m);
    var j1 := RenameReference(Attach(r1, m));
    ScenarioOutput(features, zc, j1, r2);
    PrefixZipShape(j1);
  }
}
