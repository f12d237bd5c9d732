/**
 * A data-frame row as a mapping from column name to cell value, and the
 * column relabelling (`DataFrame.rename(columns=...)`) driven by an explicit
 * field-mapping table.
 *
 * A key missing from a row stands for pandas' NaN cell: the row has no value
 * in that column.
 */
module Records {

  datatype Value = Str(s: string) | Num(x: real)

  type Row = map<string, Value>

  /** A field-mapping table: (source column, canonical column) pairs. */
  type FieldMap = seq<(string, string)>

  /** Feature properties to canonical population-record columns. */
  const FeatureFields: FieldMap :=
    [("name", "zip_code"), ("B01003001", "population"), ("B01003001, Error", "pop_error")]

  /** Joined reference columns to canonical columns. */
  const ReferenceFields: FieldMap := [("City", "city"), ("County", "county")]

  function Sources(table: FieldMap): set<string>
  {
    set p | p in table :: p.0
  }

  function Targets(table: FieldMap): set<string>
  {
    set p | p in table :: p.1
  }

  /**
   * No column is renamed twice, no two columns receive the same name, and no
   * canonical name is itself renamed.
   */
  ghost predicate WellFormed(table: FieldMap)
  {
    && (forall i, j :: 0 <= i < j < |table| ==> table[i].0 != table[j].0 && table[i].1 != table[j].1)
    && (forall i, j :: 0 <= i < |table| && 0 <= j < |table| ==> table[i].0 != table[j].1)
  }

  function RenameField(row: Row, from: string, to: string): Row
  {
    if from in row then (row - {from})[to := row[from]] else row
  }

  /** Relabels the columns of one row as `table` says. */
  function Rename(row: Row, table: FieldMap): Row
    decreases |table|
  {
    if table == [] then row
    else Rename(RenameField(row, table[0].0, table[0].1), table[1..])
  }

  /** The first pair of a table and the pairs after it, as sets. */
  lemma TableCons(table: FieldMap)
    requires table != []
    ensures Sources(table) == {table[0].0} + Sources(table[1..])
    ensures Targets(table) == {table[0].1} + Targets(table[1..])
    ensures forall p :: p in table ==> p == table[0] || p in table[1..]
  {
    forall p | p in table
      ensures p == table[0] || p in table[1..]
    {
      var j :| 0 <= j < |table| && table[j] == p;
      if j > 0 { assert table[1..][j - 1] == p; }
    }
  }

  /** In a well-formed table, no later pair mentions either name of the first. */
  lemma RestAvoidsFirst(table: FieldMap)
    requires table != [] && WellFormed(table)
    ensures WellFormed(table[1..])
    ensures forall p :: p in table[1..] ==>
      p.0 != table[0].0 && p.1 != table[0].1 && p.0 != table[0].1 && p.1 != table[0].0
  {
    var rest := table[1..];
    forall p | p in rest
      ensures p.0 != table[0].0 && p.1 != table[0].1 && p.0 != table[0].1 && p.1 != table[0].0
    {
      var j :| 0 <= j < |rest| && rest[j] == p;
      assert table[j + 1] == p;
    }
  }

  /**
   * Under a well-formed table: every source column disappears; each
   * canonical column carries the value of its source column (or keeps its
   * own value when the source is absent); every other column is untouched.
   */
  lemma {:induction false} RenameSpec(row: Row, table: FieldMap)
    requires WellFormed(table)
    ensures forall p :: p in table ==> p.0 !in Rename(row, table)
    ensures forall p :: p in table ==>
      (p.1 in Rename(row, table) <==> p.0 in row || p.1 in row)
    ensures forall p :: p in table && p.0 in row ==> Rename(row, table)[p.1] == row[p.0]
    ensures forall p :: p in table && p.0 !in row && p.1 in row ==> Rename(row, table)[p.1] == row[p.1]
    ensures forall k :: k !in Sources(table) && k !in Targets(table) ==>
      (k in Rename(row, table) <==> k in row) && (k in row ==> Rename(row, table)[k] == row[k])
    decreases |table|
  {
    if table != [] {
      var from, to, rest := table[0].0, table[0].1, table[1..];
      var step := RenameField(row, from, to);
      var out := Rename(row, table);
      assert out == Rename(step, rest);
      RestAvoidsFirst(table);
      RenameSpec(step, rest);
      TableCons(table);
      forall p | p in table
        ensures p.0 !in out && (p.1 in out <==> p.0 in row || p.1 in row)
        ensures p.0 in row ==> out[p.1] == row[p.0]
        ensures p.0 !in row && p.1 in row ==> out[p.1] == row[p.1]
      {
        if p != table[0] {
          assert p in rest;
        }
      }
      forall k | k !in Sources(table) && k !in Targets(table)
        ensures (k in out <==> k in row) && (k in row ==> out[k] == row[k])
      {
        assert k != from && k != to && k !in Sources(rest) && k !in Targets(rest);
      }
    }
  }

  /** Both tables used by the pipeline are well formed. */
  lemma TablesWellFormed()
    ensures WellFormed(FeatureFields) && WellFormed(ReferenceFields)
  {
    assert WellFormed(FeatureFields) by {
      assert |FeatureFields[0].0| == 4 && |FeatureFields[0].1| == 8;
      assert |FeatureFields[1].0| == 9 && |FeatureFields[1].1| == 10;
      assert |FeatureFields[2].0| == 16 && |FeatureFields[2].1| == 9;
      assert FeatureFields[1].0[0] != FeatureFields[2].1[0];
    }
    assert WellFormed(ReferenceFields) by {
      assert |ReferenceFields[0].0| == 4 && |ReferenceFields[0].1| == 4;
      assert |ReferenceFields[1].0| == 6 && |ReferenceFields[1].1| == 6;
      assert ReferenceFields[0].0[0] != ReferenceFields[0].1[0];
      assert ReferenceFields[1].0[0] != ReferenceFields[1].1[0];
    }
  }
}
