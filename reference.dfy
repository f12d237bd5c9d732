/**
 * The zip-code reference table: key normalisation and the one duplicate-key
 * exception (zip 01062 is listed under two cities).
 */
module Reference {
  import opened Text
  import opened Seqs

  /** One row of the reference table, columns `ZIP Code`, `City`, `County`. */
  datatype ZipRef = ZipRef(zipCode: string, city: string, county: string)

  /** A reference row together with its added `zip_code` column. */
  datatype KeyedRef = KeyedRef(key: string, row: ZipRef)

  const ZipPrefix: string := "ZIP Code "
  const AmbiguousZip: string := "01062"
  const KeptCity: string := "Florence"

  /** `z.replace("ZIP Code ", '')` */
  function NormaliseKey(raw: string): (key: string)
    ensures |key| <= |raw|
    ensures key == raw <==> !Contains(raw, ZipPrefix)
  {
    RemoveAllUnchangedIff(raw, ZipPrefix);
    RemoveAll(raw, ZipPrefix)
  }

  /** `zc["zip_code"] = [z.replace("ZIP Code ", '') for z in zc["ZIP Code"]]` */
  function WithKeys(zc: seq<ZipRef>): (r: seq<KeyedRef>)
    ensures |r| == |zc|
    ensures forall i :: 0 <= i < |zc| ==> r[i].row == zc[i] && r[i].key == NormaliseKey(zc[i].zipCode)
  {
    seq(|zc|, i requires 0 <= i < |zc| => KeyedRef(NormaliseKey(zc[i].zipCode), zc[i]))
  }

  /**
   * The row mask of the duplicate-key exception, written as the script
   * writes it: it reads the raw `ZIP Code` column, not the normalised key.
   */
  predicate KeepRef(r: KeyedRef)
  {
    r.row.zipCode != AmbiguousZip || (r.row.zipCode == AmbiguousZip && r.row.city == KeptCity)
  }

  /**
   * Keeps exactly the rows whose raw `ZIP Code` is not "01062" or whose city
   * is "Florence", in their original order; every other row survives as is.
   */
  function Dedup(refs: seq<KeyedRef>): (r: seq<KeyedRef>)
    ensures forall x :: x in r ==> x in refs && (x.row.zipCode != AmbiguousZip || x.row.city == KeptCity)
    ensures forall i :: 0 <= i < |refs| && refs[i].row.zipCode != AmbiguousZip ==> refs[i] in r
    ensures forall i :: 0 <= i < |refs| && refs[i].row.city == KeptCity ==> refs[i] in r
  {
    Filter(KeepRef, refs)
  }

  /** The reference rows the join sees. */
  function ReferenceRows(zc: seq<ZipRef>): seq<KeyedRef>
  {
    Dedup(WithKeys(zc))
  }

  /** A key that carries the prefix loses it, whatever follows. */
  lemma {:induction false} PrefixedKeyNormalised(digits: string)
    requires forall i :: 0 <= i < |digits| ==> digits[i] != 'Z'
    ensures NormaliseKey(ZipPrefix + digits) == digits
  {
    LeadingOccurrenceRemoved(ZipPrefix, digits);
    NoFirstCharNoOccurrence(digits, ZipPrefix);
    RemoveAllNoOccurrence(digits, ZipPrefix);
  }

  /**
   * The exception never catches a prefixed raw value: a row whose raw
   * `ZIP Code` is "ZIP Code 01062" is kept whatever its city, although its
   * key is "01062".
   */
  lemma PrefixedAmbiguousZipEscapes(city: string, county: string)
    ensures var r := KeyedRef(NormaliseKey(ZipPrefix + AmbiguousZip), ZipRef(ZipPrefix + AmbiguousZip, city, county));
      r.key == AmbiguousZip && KeepRef(r)
  {
    PrefixedKeyNormalised(AmbiguousZip);
    assert (ZipPrefix + AmbiguousZip)[0] != AmbiguousZip[0];
  }

  /**
   * With the ambiguous zip listed unprefixed under "Florence" and under
   * another city, only the "Florence" row remains after the exception.
   */
  lemma {:induction false} AmbiguousZipResolved(zc: seq<ZipRef>)
    ensures forall x :: x in ReferenceRows(zc) && x.row.zipCode == AmbiguousZip ==> x.row.city == KeptCity
    ensures forall i :: 0 <= i < |zc| && zc[i].zipCode == AmbiguousZip && zc[i].city == KeptCity ==>
      KeyedRef(AmbiguousZip, zc[i]) in ReferenceRows(zc)
  {
    var keyed := WithKeys(zc);
    forall i | 0 <= i < |zc| && zc[i].zipCode == AmbiguousZip && zc[i].city == KeptCity
      ensures KeyedRef(AmbiguousZip, zc[i]) in ReferenceRows(zc)
    {
      RemoveAllNoOccurrence(AmbiguousZip, ZipPrefix);
      assert keyed[i] == KeyedRef(AmbiguousZip, zc[i]);
    }
  }
}
