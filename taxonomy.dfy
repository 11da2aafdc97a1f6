/**
 * The eBird taxonomy as an ordered table of rows, and the first-hit search
 * that every lookup in the scripts performs over it: walk the rows in table
 * order and stop at the first one the criterion accepts.
 */
module Taxonomy {
  import opened Common
  import opened Text

  /** One row of the taxonomy (the CSV columns `SCIENTIFIC_NAME`,
      `COMMON_NAME`, `SPECIES_CODE`, or the JSON keys `sciName`, `comName`,
      `speciesCode`). */
  datatype Row = Row(scientificName: string, commonName: string, speciesCode: string)

  /** The criteria the scripts test rows against. */
  datatype Key =
    | Scientific(name: string)           // scientific names equal ignoring case
    | CommonName(name: string)           // common names equal ignoring case
    | GenusPrefix(genus: string)         // lowered scientific name starts with the lowered genus
    | EitherName(sci: string, com: string)  // either of the first two

  predicate Hit(row: Row, key: Key) {
    match key
    case Scientific(name) => EqualsIgnoreCase(row.scientificName, name)
    case CommonName(name) => EqualsIgnoreCase(row.commonName, name)
    case GenusPrefix(genus) => StartsWith(Lower(row.scientificName), Lower(genus))
    case EitherName(sci, com) =>
      EqualsIgnoreCase(row.scientificName, sci) || EqualsIgnoreCase(row.commonName, com)
  }

  /** The index of the first row at or after `from` that `key` accepts. */
  function FirstHitFrom(table: seq<Row>, key: Key, from: nat): (r: Option<nat>)
    requires from <= |table|
    ensures r.Some? ==> from <= r.value < |table| && Hit(table[r.value], key)
    ensures r.Some? ==> forall j :: from <= j < r.value ==> !Hit(table[j], key)
    ensures r.None? ==> forall j :: from <= j < |table| ==> !Hit(table[j], key)
    decreases |table| - from
  {
    if from == |table| then None
    else if Hit(table[from], key) then Some(from)
    else FirstHitFrom(table, key, from + 1)
  }

  /** The index of the first row of the table that `key` accepts. */
  function FirstHit(table: seq<Row>, key: Key): Option<nat> {
    FirstHitFrom(table, key, 0)
  }

  /** The first accepted row is the only index the search can return. */
  lemma FirstHitIs(table: seq<Row>, key: Key, i: nat)
    requires i < |table| && Hit(table[i], key)
    requires forall j :: 0 <= j < i ==> !Hit(table[j], key)
    ensures FirstHit(table, key) == Some(i)
  {
  }

  /** The search finds nothing exactly when no row is accepted. */
  lemma FirstHitNone(table: seq<Row>, key: Key)
    ensures FirstHit(table, key).None? <==> forall j :: 0 <= j < |table| ==> !Hit(table[j], key)
  {
  }

  /** Two criteria that accept the same rows find the same row. */
  lemma FirstHitSameRows(table: seq<Row>, k1: Key, k2: Key)
    requires forall j :: 0 <= j < |table| ==> Hit(table[j], k1) == Hit(table[j], k2)
    ensures FirstHit(table, k1) == FirstHit(table, k2)
  {
    var r := FirstHit(table, k1);
    if r.Some? {
      FirstHitIs(table, k2, r.value);
    } else {
      FirstHitNone(table, k1);
      FirstHitNone(table, k2);
    }
  }

  /** A scientific-name or genus criterion does not care about the case of
      the name it is given. */
  lemma HitIgnoresKeyCase(row: Row, name: string)
    ensures Hit(row, Scientific(Lower(name))) == Hit(row, Scientific(name))
    ensures Hit(row, GenusPrefix(Lower(name))) == Hit(row, GenusPrefix(name))
  {
    LowerIdempotent(name);
  }

  /** One `for row in taxonomy_data: if <criterion>: return ...` loop: the
      index of the row it returns from, or None when it runs to the end. */
  method FindRow(table: seq<Row>, key: Key) returns (r: Option<nat>)
    ensures r == FirstHit(table, key)
  {
    var i := 0;
    while i < |table|
      invariant 0 <= i <= |table|
      invariant forall j :: 0 <= j < i ==> !Hit(table[j], key)
    {
      if Hit(table[i], key) {
        FirstHitIs(table, key, i);
        return Some(i);
      }
      i := i + 1;
    }
    FirstHitNone(table, key);
    return None;
  }
}
