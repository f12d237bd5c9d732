/**
 * The record-reshaping script raw_format.py: census zip-code features and
 * the zip-code reference table become flat population records for the
 * Greater Boston bounding box.
 *
 * The whole-table steps are functions composed by `Pipeline`; the script
 * itself, which rebinds `df` step by step and assigns columns in place, is
 * the method `RunRawFormat`, proved to compute `Pipeline`.
 */
module RawFormat {
  import opened Seqs
  import opened Records
  import opened Reference
  import opened Join

  /** A feature's centroid, taken as given (longitude, latitude). */
  datatype Point = Point(lon: real, lat: real)

  /** A census feature: its properties and the centroid of its geometry. */
  datatype Feature = Feature(properties: Row, centroid: Point)

  /** The Python exceptions the script can raise on malformed input. */
  datatype Failure = KeyError(column: string) | AttributeError(column: string) | TypeError(column: string)

  datatype Result<T> = Ok(value: T) | Err(failure: Failure)

  const LonMin: real := -71.3
  const LonMax: real := -70.6
  const LatMin: real := 42.0
  const LatMax: real := 42.75

  const PopulationColumn: string := "population"
  const LongitudeColumn: string := "longitude"
  const LatitudeColumn: string := "latitude"

  /** `g['features'][1:]`: every feature but the state-wide first one, in order. */
  function Census(features: seq<Feature>): (census: seq<Feature>)
    ensures |census| == if |features| == 0 then 0 else |features| - 1
    ensures forall i :: 0 <= i < |census| ==> census[i] == features[i + 1]
  {
    if features == [] then [] else features[1..]
  }

  function Properties(f: Feature): Row
  {
    f.properties
  }

  function Longitude(f: Feature): Value
  {
    Num(f.centroid.lon)
  }

  function Latitude(f: Feature): Value
  {
    Num(f.centroid.lat)
  }

  /** A feature's properties with its centroid in the `longitude`/`latitude` columns. */
  function WithCentroid(f: Feature): (r: Row)
    ensures LongitudeColumn in r && r[LongitudeColumn] == Num(f.centroid.lon)
    ensures LatitudeColumn in r && r[LatitudeColumn] == Num(f.centroid.lat)
    ensures forall k :: k != LongitudeColumn && k != LatitudeColumn ==>
      (k in r <==> k in f.properties) && (k in f.properties ==> r[k] == f.properties[k])
  {
    f.properties[LongitudeColumn := Longitude(f)][LatitudeColumn := Latitude(f)]
  }

  function RenameFeature(r: Row): Row
  {
    Rename(r, FeatureFields)
  }

  function RenameReference(r: Row): Row
  {
    Rename(r, ReferenceFields)
  }

  /** The population frame after centroids and canonical names (lines 18-26). */
  function PopulationFrame(features: seq<Feature>): seq<Row>
  {
    Map(RenameFeature, Map(WithCentroid, Census(features)))
  }

  /** A frame built from rows has a column when some row has that key. */
  predicate HasColumn(rows: seq<Row>, column: string)
  {
    exists r :: r in rows && column in r
  }

  /** The frame after the left join and the `city`/`county` rename (lines 31-32). */
  function Joined(df: seq<Row>, zc: seq<ZipRef>): seq<Row>
  {
    Map(RenameReference, LeftJoin(df, ReferenceRows(zc)))
  }

  /** No population cell holds text, so `df.population > 0` can be evaluated. */
  predicate PopulationComparable(rows: seq<Row>)
  {
    forall r: Row :: r in rows && PopulationColumn in r ==> r[PopulationColumn].Num?
  }

  /** The mask `df.population > 0`; a missing cell compares false. */
  predicate Positive(r: Row)
  {
    PopulationColumn in r && r[PopulationColumn].Num? && r[PopulationColumn].x > 0.0
  }

  predicate ZipIsText(r: Row)
  {
    ZipColumn in r && r[ZipColumn].Str?
  }

  predicate AllZipsText(rows: seq<Row>)
  {
    forall r :: r in rows ==> ZipIsText(r)
  }

  function ZipText(r: Row): string
  {
    if ZipIsText(r) then r[ZipColumn].s else ""
  }

  function Marked(z: string): Value
  {
    Str("z" + z)
  }

  /** One row of `df["zip_code"] = ["z" + z for z in zip_code]`. */
  function PrefixZip(r: Row): (out: Row)
    ensures ZipIsText(r) ==> ZipIsText(out) && out[ZipColumn].s == "z" + r[ZipColumn].s
    ensures !ZipIsText(r) ==> out == r
  {
    if ZipIsText(r) then r[ZipColumn := Marked(r[ZipColumn].s)] else r
  }

  /** The mask of line 42: both coordinates inside the box, bounds included. */
  predicate InBox(r: Row)
  {
    && LongitudeColumn in r && r[LongitudeColumn].Num?
    && LatitudeColumn in r && r[LatitudeColumn].Num?
    && LonMin <= r[LongitudeColumn].x <= LonMax
    && LatMin <= r[LatitudeColumn].x <= LatMax
  }

  /**
   * Lines 35-42 on a joined frame whose positive rows have text zip codes:
   * the rows kept are in the box, marked, and no more than the frame had.
   */
  lemma SelectedRows(joined: seq<Row>)
    requires AllZipsText(Filter(Positive, joined))
    ensures var out := Filter(InBox, Map(PrefixZip, Filter(Positive, joined)));
      && (forall x :: x in out ==> InBox(x) && ZipIsText(x))
      && |out| <= |joined|
  {
    var positive := Filter(Positive, joined);
    var marked := Map(PrefixZip, positive);
    forall x | x in marked
      ensures ZipIsText(x)
    {
      var i :| 0 <= i < |marked| && marked[i] == x;
      assert positive[i] in positive;
    }
  }

  /** The whole transformation of raw_format.py, lines 18-42. */
  function Pipeline(features: seq<Feature>, zc: seq<ZipRef>): (r: Result<seq<Row>>)
    ensures r.Ok? ==> forall x :: x in r.value ==> InBox(x) && ZipIsText(x)
    ensures r.Ok? ==> |r.value| <= |Joined(PopulationFrame(features), zc)|
  {
    var df := PopulationFrame(features);
    if !HasColumn(df, ZipColumn) then Err(KeyError(ZipColumn))
    else
      var joined := Joined(df, zc);
      if !HasColumn(joined, PopulationColumn) then Err(AttributeError(PopulationColumn))
      else if !PopulationComparable(joined) then Err(TypeError(PopulationColumn))
      else
        var positive := Filter(Positive, joined);
        if !AllZipsText(positive) then Err(TypeError(ZipColumn))
        else
          SelectedRows(joined);
          Ok(Filter(InBox, Map(PrefixZip, positive)))
  }

  /**
   * `df[column] = values`: row i gets `values[i]` in `column`; every other
   * column of every row is untouched.
   */
  method AssignColumn(rows: seq<Row>, column: string, values: seq<Value>) returns (out: seq<Row>)
    requires |values| == |rows|
    ensures |out| == |rows|
    ensures forall i :: 0 <= i < |rows| ==> column in out[i] && out[i][column] == values[i]
    ensures forall i, k :: 0 <= i < |rows| && k != column ==>
      (k in out[i] <==> k in rows[i]) && (k in rows[i] ==> out[i][k] == rows[i][k])
  {
    out := rows;
    var i := 0;
    while i < |rows|
      invariant 0 <= i <= |rows| && |out| == |rows|
      invariant forall j :: 0 <= j < i ==> out[j] == rows[j][column := values[j]]
      invariant forall j :: i <= j < |rows| ==> out[j] == rows[j]
    {
      out := out[i := out[i][column := values[i]]];
      i := i + 1;
    }
  }

  /** A row is determined by one column's value and all the others. */
  lemma UpdateDetermined(m: Row, n: Row, column: string, v: Value)
    requires column in m && m[column] == v
    requires forall k :: k != column ==> (k in m <==> k in n) && (k in n ==> m[k] == n[k])
    ensures m == n[column := v]
  {
  }

  /**
   * Lines 19-25: the frame of feature properties, then the `longitude` and
   * `latitude` columns assigned from the centroids.
   */
  method CentroidFrame(census: seq<Feature>) returns (df: seq<Row>)
    ensures df == Map(WithCentroid, census)
  {
    df := Map(Properties, census);
    df := AssignColumn(df, LongitudeColumn, Map(Longitude, census));
    var withLon := df;
    df := AssignColumn(df, LatitudeColumn, Map(Latitude, census));
    forall i | 0 <= i < |census|
      ensures df[i] == WithCentroid(census[i])
    {
      UpdateDetermined(withLon[i], census[i].properties, LongitudeColumn, Longitude(census[i]));
      UpdateDetermined(df[i], withLon[i], LatitudeColumn, Latitude(census[i]));
    }
  }

  /** Lines 36-38: the `zip_code` column reassigned with the "z" marker. */
  method MarkZipCodes(df: seq<Row>) returns (out: seq<Row>)
    requires AllZipsText(df)
    ensures out == Map(PrefixZip, df)
  {
    var zips := Map(ZipText, df);
    out := AssignColumn(df, ZipColumn, Map(Marked, zips));
    forall i | 0 <= i < |df|
      ensures out[i] == PrefixZip(df[i])
    {
      assert df[i] in df;
      UpdateDetermined(out[i], df[i], ZipColumn, Marked(zips[i]));
    }
  }

  /** raw_format.py run on already-loaded inputs. */
  method RunRawFormat(features: seq<Feature>, zc: seq<ZipRef>) returns (result: Result<seq<Row>>)
    ensures result == Pipeline(features, zc)
  {
    var census := Census(features);
    var df := CentroidFrame(census);
    df := Map(RenameFeature, df);
    var refs := Dedup(WithKeys(zc));
    if !HasColumn(df, ZipColumn) {
      return Err(KeyError(ZipColumn));
    }
    df := Map(RenameReference, LeftJoin(df, refs));
    if !HasColumn(df, PopulationColumn) {
      return Err(AttributeError(PopulationColumn));
    }
    if !PopulationComparable(df) {
      return Err(TypeError(PopulationColumn));
    }
    df := Filter(Positive, df);
    if !AllZipsText(df) {
      return Err(TypeError(ZipColumn));
    }
    df := MarkZipCodes(df);
    df := Filter(InBox, df);
    result := Ok(df);
  }
}
