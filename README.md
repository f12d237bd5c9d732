# raw_format.py, modelled in Dafny

`raw_format.py` turns two inputs into one population table for Greater Boston:

- a census GeoJSON feature collection with one feature per Massachusetts zip code, after a first feature for the whole state;
- a zip-code reference table with columns `ZIP Code`, `City` and `County`.

The script does this:

1. It drops the state feature and builds a frame from the feature properties.
2. It attaches each feature's centroid as `longitude`/`latitude`.
3. It renames `name`, `B01003001` and `B01003001, Error` to `zip_code`, `population` and `pop_error`.
4. It strips `"ZIP Code "` from the reference keys.
5. It applies the duplicate-key exception for zip 01062.
6. It left-joins `City`/`County` onto the population rows and renames them to `city`/`county`.
7. It drops rows whose population is not positive.
8. It re-marks every zip code as `"z" + zip`.
9. It keeps the rows whose centroid lies in the box longitude [-71.3, -70.6], latitude [42, 42.75], bounds included.

The model has these parts:

- A data-frame row is a `map<string, Value>`. `Value` is text or a number. A missing key is pandas' NaN cell.
- Each whole-table step is a function over `seq<Row>`:
  - boolean masks are `Seqs.Filter`;
  - list comprehensions are `Seqs.Map`;
  - `rename` is `Records.Rename`, driven by an explicit field-mapping table;
  - `merge` is `Join.LeftJoin`.
- `RawFormat.Pipeline` composes the steps.
- The script itself rebinds `df` and assigns columns in place. It is `RawFormat.RunRawFormat`, which threads the frame through `AssignColumn`, a loop that writes one column row by row. The method is proved to compute `Pipeline`.
- The script can fail on malformed input. Those Python exceptions are `Failure` values:
  - `KeyError` at the merge when no row has a `zip_code` (this covers any input with at most one feature);
  - `AttributeError` when no row has a `population`;
  - `TypeError` when a population is text;
  - `TypeError` when a surviving zip code is not text.

Files:

- `seqs.dfy`: stable filter and map, with the lemmas about order and commutation.
- `text.dfy`: `str.replace(pat, '')`.
- `records.dfy`: rows and the rename table.
- `reference.dfy`: key normalisation and the 01062 exception.
- `join.dfy`: the left join.
- `raw_format.dfy`: the stages, `Pipeline` and the script method.
- `pipeline_properties.dfy`: what the output satisfies.

## Where the code and the design description differ

The model follows the code in each case.

- **Duplicate-key exception.** The code tests the raw `ZIP Code` column against `"01062"`, not the normalised key. A raw value written `"ZIP Code 01062"` therefore escapes the exception, whatever its city. Two such rows both reach the join, and the join then emits a population row keyed 01062 twice. `PrefixedAmbiguousZipEscapes` and `PrefixedDuplicateMultiplies` show this. The design says only the Florence row survives. That holds only when the 01062 rows are written without the prefix (`AmbiguousZipResolved`, `AmbiguousZipJoinsFlorence`). It is not known whether the real table writes this key with or without the prefix, so this is recorded here and not as a defect.
- **Duplicate keys in the join.** The design asks for no silent row multiplication. The code's merge emits one row per matching reference row (`DuplicateKeyDoublesRow`).
- **Fewer than two features.** The design asks for a format error. The code fails with a `KeyError` at the merge (`TooFewFeatures`).
- **Zip-code shape.** The design promises that the marked zip is followed by exactly five digits. The code only prepends `"z"` to whatever string the `name` property held. The model proves that shape (`PrefixZipShape`) and nothing about digits.

## Model

| member | source | states |
|---|---|---|
| `Seqs.Filter` | 6_linear_programming/data/data/raw/raw_format.py:30-42 | A boolean-mask selection keeps only rows satisfying the mask, keeps every row that does, and never grows the frame |
| `Seqs.FilterSelectsInOrder` | 6_linear_programming/data/data/raw/raw_format.py:30-42 | A mask selection is exactly the ordered subsequence at the strictly increasing positions whose rows satisfy the mask |
| `Seqs.FilterCommutes` | 6_linear_programming/data/data/raw/raw_format.py:35-42 | Two masks applied in either order give the same frame |
| `Seqs.FilterMapCommute` | 6_linear_programming/data/data/raw/raw_format.py:35-42 | A per-row rewrite that never changes a mask commutes with that mask |
| `Text.RemoveAll` | 6_linear_programming/data/data/raw/raw_format.py:29 | `str.replace(pat, '')` never lengthens the string |
| `Text.RemoveAllNoOccurrence` | 6_linear_programming/data/data/raw/raw_format.py:29 | A string without the pattern is returned unchanged |
| `Text.RemoveAllShortens` | 6_linear_programming/data/data/raw/raw_format.py:29 | A string containing the pattern comes back strictly shorter |
| `Text.RemoveAllUnchangedIff` | 6_linear_programming/data/data/raw/raw_format.py:29 | The replacement leaves a string unchanged if and only if the pattern does not occur in it |
| `Text.LeadingOccurrenceRemoved` | 6_linear_programming/data/data/raw/raw_format.py:29 | A leading occurrence is deleted and the scan continues after it |
| `Text.NoFirstCharNoOccurrence` | 6_linear_programming/data/data/raw/raw_format.py:29 | A string without the pattern's first character cannot contain the pattern |
| `Records.RenameSpec` | 6_linear_programming/data/data/raw/raw_format.py:26 | Under a well-formed mapping table, every source column is gone, each canonical column holds its source's value, and all other columns are untouched |
| `Records.TablesWellFormed` | 6_linear_programming/data/data/raw/raw_format.py:26-32 | The feature rename table and the City/County rename table are both well formed |
| `Records.Rename` | 6_linear_programming/data/data/raw/raw_format.py:26 | `DataFrame.rename(columns=...)` on one row: the table's pairs applied in order, each moving a present source column's value to its canonical name (characterised by `Records.RenameSpec`) |
| `Reference.NormaliseKey` | 6_linear_programming/data/data/raw/raw_format.py:29 | The key is no longer than the raw value, and equals it exactly when the raw value does not contain "ZIP Code " |
| `Reference.WithKeys` | 6_linear_programming/data/data/raw/raw_format.py:29 | The new key column has one normalised key per reference row, and the row is kept alongside it |
| `Reference.KeepRef` | 6_linear_programming/data/data/raw/raw_format.py:30 | The line-30 mask: a reference row is kept unless its raw `ZIP Code` is "01062" and its City is not "Florence" |
| `Reference.Dedup` | 6_linear_programming/data/data/raw/raw_format.py:30 | Kept rows have raw ZIP Code other than "01062" or city "Florence"; every row with another raw key, and every Florence row, survives |
| `Reference.PrefixedKeyNormalised` | 6_linear_programming/data/data/raw/raw_format.py:29 | "ZIP Code " followed by a string without 'Z' normalises to that string |
| `Reference.PrefixedAmbiguousZipEscapes` | 6_linear_programming/data/data/raw/raw_format.py:29-30 | A raw "ZIP Code 01062" gets key "01062" but is kept by the exception whatever its city |
| `Reference.AmbiguousZipResolved` | 6_linear_programming/data/data/raw/raw_format.py:29-30 | Every surviving row with raw ZIP Code "01062" has city Florence, and an unprefixed Florence 01062 row survives with key "01062" |
| `Join.Matches` | 6_linear_programming/data/data/raw/raw_format.py:31 | A reference row is a match exactly when it is in the table and its key equals the row's zip_code |
| `Join.Attach` | 6_linear_programming/data/data/raw/raw_format.py:31 | A joined row carries the reference row's city in `City` and county in `County`; every other column is the population row's own |
| `Join.JoinRow` | 6_linear_programming/data/data/raw/raw_format.py:31 | A population row yields one output row when nothing matches, else one per match |
| `Join.JoinRowComplete` | 6_linear_programming/data/data/raw/raw_format.py:31 | Every matching reference row contributes a row carrying its own City/County, and an unmatched row is contributed unchanged |
| `Join.LeftJoin` | 6_linear_programming/data/data/raw/raw_format.py:31 | The left join never loses rows |
| `Join.LeftJoinComplete` | 6_linear_programming/data/data/raw/raw_format.py:31 | Every population row reaches the join once with each matching reference row's City/County, and unchanged when nothing matches |
| `Join.JoinRowFrom` | 6_linear_programming/data/data/raw/raw_format.py:31 | Each row emitted for a population row is either that row unchanged (no match) or that row with a matching reference row's City/County |
| `Join.LeftJoinKeepsEveryRowInOrder` | 6_linear_programming/data/data/raw/raw_format.py:31 | Every population row appears in the join, in input order, and every output row derives from its origin row |
| `Join.AtMostOneMatch` | 6_linear_programming/data/data/raw/raw_format.py:31 | With unique keys, a row has at most one match |
| `Join.JoinRowUnique` | 6_linear_programming/data/data/raw/raw_format.py:31 | With unique keys, a population row contributes exactly one row: with the matching City/County, or unchanged when nothing matches |
| `Join.LeftJoinRowwise` | 6_linear_programming/data/data/raw/raw_format.py:31 | With unique keys, the join has one row per population row, row i being what population row i contributes |
| `Join.LeftJoinUnique` | 6_linear_programming/data/data/raw/raw_format.py:31 | With unique keys, the join keeps length and order; a matched row gains that match's City/County, and an unmatched row is unchanged |
| `Join.CityPresentIffMatch` | 6_linear_programming/data/data/raw/raw_format.py:31-32 | With unique keys, City and County are present in joined row i exactly when some reference row has its key |
| `Join.DuplicateKeyDoublesRow` | 6_linear_programming/data/data/raw/raw_format.py:31 | Two reference rows with the same key make the join emit the population row twice, once per city |
| `RawFormat.Census` | 6_linear_programming/data/data/raw/raw_format.py:18 | `features[1:]`: one fewer feature (none for an empty list), feature i being input i + 1 |
| `RawFormat.WithCentroid` | 6_linear_programming/data/data/raw/raw_format.py:19-25 | A feature's row holds its centroid in `longitude` and `latitude` and every other property unchanged |
| `RawFormat.Positive` | 6_linear_programming/data/data/raw/raw_format.py:35 | The mask `df.population > 0`: a row passes only with a numeric population above zero; a missing cell fails |
| `RawFormat.PrefixZip` | 6_linear_programming/data/data/raw/raw_format.py:36-38 | A text zip code z becomes "z" + z, a row without a text zip code is untouched, and no other column changes |
| `RawFormat.InBox` | 6_linear_programming/data/data/raw/raw_format.py:42 | The mask of the Greater Boston box (bounds of lines 9-10): -71.3 <= longitude <= -70.6 and 42 <= latitude <= 42.75, bounds included; a missing coordinate fails |
| `RawFormat.Pipeline` | 6_linear_programming/data/data/raw/raw_format.py:18-42 | The whole script on loaded inputs; a successful result holds only rows inside the box with text zip codes and never more rows than the joined frame |
| `RawFormat.AssignColumn` | 6_linear_programming/data/data/raw/raw_format.py:24-25 | Assigning a column gives row i the i-th value in that column and leaves every other column of every row untouched |
| `RawFormat.CentroidFrame` | 6_linear_programming/data/data/raw/raw_format.py:19-25 | The property frame with the longitude and latitude columns assigned is the per-feature properties-plus-centroid rows |
| `RawFormat.MarkZipCodes` | 6_linear_programming/data/data/raw/raw_format.py:36-38 | Dropping and reassigning zip_code as "z" + zip re-marks every row's zip code and nothing else |
| `RawFormat.RunRawFormat` | 6_linear_programming/data/data/raw/raw_format.py:18-42 | The step-by-step script computes exactly the staged pipeline, including where it raises |
| `PipelineProperties.FirstFeatureIgnored` | 6_linear_programming/data/data/raw/raw_format.py:18 | The first feature never contributes: replacing it leaves the result unchanged |
| `PipelineProperties.FrameFollowsFeatures` | 6_linear_programming/data/data/raw/raw_format.py:18-26 | The population frame corresponds one to one and in order to `features[1:]` |
| `PipelineProperties.TooFewFeatures` | 6_linear_programming/data/data/raw/raw_format.py:18-31 | With at most one feature the merge raises KeyError on zip_code |
| `PipelineProperties.PrefixZipShape` | 6_linear_programming/data/data/raw/raw_format.py:38 | A marked zip is one character longer, starts with 'z', has the original as its remainder, and no other column changes |
| `PipelineProperties.PrefixZipKeepsMasks` | 6_linear_programming/data/data/raw/raw_format.py:35-42 | Re-marking the zip never changes the population mask or the box mask |
| `PipelineProperties.OutputIsBothFilters` | 6_linear_programming/data/data/raw/raw_format.py:35-42 | The output equals the re-marked joined rows filtered by population then box, and equally by box then population |
| `PipelineProperties.OutputInvariants` | 6_linear_programming/data/data/raw/raw_format.py:9-42 | Output rows are exactly the re-marked joined rows with population > 0 and -71.3 <= longitude <= -70.6, 42 <= latitude <= 42.75, each with a 'z'-marked zip |
| `PipelineProperties.AmbiguousKeyIsFlorence` | 6_linear_programming/data/data/raw/raw_format.py:29-31 | If 01062 is never written with the prefix, the only reference row keyed 01062 left for the join is a Florence one |
| `PipelineProperties.AmbiguousZipJoinsFlorence` | 6_linear_programming/data/data/raw/raw_format.py:30-31 | Under the same condition, a joined row keyed 01062 can only carry City Florence |
| `PipelineProperties.PrefixedDuplicateMultiplies` | 6_linear_programming/data/data/raw/raw_format.py:29-31 | Two "ZIP Code 01062" reference rows both survive the exception, and a 01062 population row is emitted twice |
| `PipelineProperties.FeatureRecordRenamed` | 6_linear_programming/data/data/raw/raw_format.py:26 | A feature's `name`, `B01003001` and `B01003001, Error` properties reappear as `zip_code`, `population` and `pop_error`, and the source names are gone |
| `PipelineProperties.FeatureRecordCentroid` | 6_linear_programming/data/data/raw/raw_format.py:22-25 | A feature's record holds its centroid in `longitude` and `latitude` |
| `PipelineProperties.FeatureRecordKept` | 6_linear_programming/data/data/raw/raw_format.py:19-26 | Every other property of a feature is carried into its record unchanged |
| `PipelineProperties.MatchedRecord` | 6_linear_programming/data/data/raw/raw_format.py:31-32 | A matched row ends with the reference city/county as `city`/`county` and no `City`/`County`; other columns are unchanged |
| `PipelineProperties.UnmatchedRecord` | 6_linear_programming/data/data/raw/raw_format.py:32 | An unmatched row without City/County is left unchanged by the rename |
| `PipelineProperties.EndToEnd` | 6_linear_programming/data/data/raw/raw_format.py:18-42 | State rollup plus an in-box zip (pop 500) and a zip outside the box by either coordinate, on any side (pop 300), with one matching prefixed reference row, gives exactly one row: the in-box zip, marked, pop 500, with the joined city and county |

## Left out

- Reading `ma_pop.geojson` and `zip_codes.csv` and writing `ma_population.csv` (lines 13-15 and 45) are file I/O. The model starts from loaded features and reference rows and ends with the output rows. The CSV header, the column order (drop-and-reassign moves `zip_code` last) and the dropped row index are not modelled.
- The centroid computation (`shape(...).centroid`, lines 23-25) is a call into a geometry library. Each `Feature` carries its centroid as a given `Point`.
- Coordinates and the box bounds are Python floats. They are compared here as exact decimals (`real`). A coordinate that differs from a bound only beyond double precision may compare differently in the script.
- A JSON `null` property is modelled as an absent key. Pandas would still create the column for it.
- Booleans and nested values in properties are not modelled. A property is text or a number.
- The model assumes that no property is already named `zip_code`, `population`, `pop_error`, `City`, `County`, `city` or `county`. For such collisions pandas produces duplicate or suffixed columns, and the model overwrites instead.
- When a merge key column holds only numbers, pandas refuses to merge it with the text reference keys (ValueError). In the model a numeric key simply never matches.
- Empty cells in the reference table are not modelled. Pandas reads them as NaN, and a NaN `ZIP Code` would make `z.replace` raise. `ZipRef` fields are always strings.
- RemoveAll: only a non-empty pattern is modelled. The script only ever removes the fixed `"ZIP Code "`.
- The design's error taxonomy (IOError, FormatError, GeometryError, WriteError), its area-weighted centroid requirement and its rejection of extra duplicate keys are not modelled. The script implements none of them.
