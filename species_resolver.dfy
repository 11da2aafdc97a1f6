/**
 * `get_ebird_species_code`: the four-tier search for a bird's eBird species
 * code. Each tier walks the whole taxonomy in table order and the first row
 * it accepts wins; a later tier runs only when every earlier one found
 * nothing. The tiers are the scientific name, the common name, the listed
 * alternative common names, and the genus (first word of the scientific
 * name) as a prefix of the scientific name; all comparisons ignore case.
 */
module SpeciesResolver {
  import opened Common
  import opened Text
  import opened Taxonomy

  /** Alternative common names, keyed by the name the guide uses. The key
      'Asian Koel' is listed twice; as in a Python dict literal, the later
      entry is the one in force. */
  const CommonNameVariants: map<string, seq<string>> := map[
    "Blue Rock Pigeon" := ["Rock Pigeon", "Rock Dove", "Common Pigeon"],
    "Little Brown Dove" := ["Laughing Dove", "Senegal Dove", "Palm Dove"],
    "Asian Koel" := ["Common Koel", "Eastern Koel"],
    "White-breasted Kingfisher" := ["White-throated Kingfisher", "Smyrna Kingfisher"],
    "House Swift" := ["Little Swift", "Asian House Swift"],
    "Large Grey Babbler" := ["Large Gray Babbler", "Malcolm's Babbler"],
    "Large-billed Crow" := ["Jungle Crow", "Large-billed Crow", "Indian Jungle Crow"],
    "House Crow" := ["Indian House Crow", "Common House Crow"],
    "Indian Grey Hornbill" := ["Indian Gray Hornbill", "Common Grey Hornbill"],
    "Indian Roller" := ["Blue Jay", "Northern Roller", "European Roller"],
    "Spotted Dove" := ["Spilopelia chinensis", "Pearl-necked Dove"],
    "Black Drongo" := ["King Crow"],
    "Common Myna" := ["Indian Myna", "Common Mynah"],
    "Red-vented Bulbul" := ["Common Bulbul"],
    "Oriental Magpie-Robin" := ["Magpie Robin", "Dyal Bird"],
    "House Sparrow" := ["Indian Sparrow"],
    "Asian Koel" := ["Koel", "Common Koel"],
    "Greater Coucal" := ["Crow Pheasant", "Common Coucal"],
    "Red-wattled Lapwing" := ["Did-he-do-it Bird"],
    "Rose-ringed Parakeet" := ["Ring-necked Parakeet"],
    "Indian Robin" := ["Black Robin", "Indian Black Robin"],
    "Cattle Egret" := ["Buff-backed Heron"],
    "Black Kite" := ["Pariah Kite"],
    "Shikra" := ["Little Banded Goshawk"],
    "White-breasted Waterhen" := ["White-breasted Water Hen", "Common Waterhen"]
  ]

  /** The later of the two 'Asian Koel' entries is the one in force. */
  lemma AsianKoelVariants()
    ensures "Asian Koel" in CommonNameVariants
    ensures CommonNameVariants["Asian Koel"] == ["Koel", "Common Koel"]
  {
  }

  /** The variant tier: the variants are tried in list order, and for the
      first variant that some row's common name matches, the first such row. */
  function VariantHit(table: seq<Row>, variants: seq<string>): (r: Option<nat>)
    ensures r.Some? ==> r.value < |table|
  {
    if variants == [] then None
    else
      var first := FirstHit(table, CommonName(variants[0]));
      if first.Some? then first else VariantHit(table, variants[1..])
  }

  /** The variant tier misses exactly when no variant matches any row. */
  lemma {:induction false} VariantHitNone(table: seq<Row>, variants: seq<string>)
    ensures VariantHit(table, variants).None? <==> forall k, j :: 0 <= k < |variants| && 0 <= j < |table| ==>
      !Hit(table[j], CommonName(variants[k]))
    decreases |variants|
  {
    if variants != [] {
      FirstHitNone(table, CommonName(variants[0]));
      if FirstHit(table, CommonName(variants[0])).None? {
        VariantHitNone(table, variants[1..]);
        assert forall k :: 1 <= k < |variants| ==> variants[k] == variants[1..][k - 1];
      }
    }
  }

  /** The variants listed for a common name; a name that is not literally a
      key (case and spacing included) has none. */
  function VariantsOf(common: string): seq<string> {
    if common in CommonNameVariants then CommonNameVariants[common] else []
  }

  /** The index of the row whose code is returned, tier by tier; None when
      every tier misses or when the genus tier cannot take the first word of
      a blank scientific name (Python raises IndexError there, and the
      handler turns it into the final `return None`). */
  function ChosenRow(table: seq<Row>, common: string, variants: seq<string>, latin: string): (r: Option<nat>)
    ensures r.Some? ==> r.value < |table|
  {
    var bySci := FirstHit(table, Scientific(latin));
    if bySci.Some? then bySci
    else
      var byCommon := FirstHit(table, CommonName(common));
      if byCommon.Some? then byCommon
      else
        var byVariant := VariantHit(table, variants);
        if byVariant.Some? then byVariant
        else
          match FirstToken(latin)
          case None => None
          case Some(genus) => FirstHit(table, GenusPrefix(genus))
  }

  /** The code `get_ebird_species_code` returns, given the taxonomy the run
      fetched (None when it could not be fetched). */
  function Resolve(taxonomy: Option<seq<Row>>, common: string, latin: string): Option<string> {
    ResolveWith(taxonomy, common, VariantsOf(common), latin)
  }

  /** `Resolve` with the variant list of `common` already looked up. */
  function ResolveWith(taxonomy: Option<seq<Row>>, common: string, variants: seq<string>, latin: string): Option<string> {
    if taxonomy.None? || taxonomy.value == [] then None
    else
      var table := taxonomy.value;
      match ChosenRow(table, common, variants, latin)
      case None => None
      case Some(i) => Some(table[i].speciesCode)
  }

  /** The four tiers as the script runs them: one loop per tier, returning
      from the first accepted row. */
  method GetEbirdSpeciesCode(taxonomy: Option<seq<Row>>, common: string, latin: string)
    returns (code: Option<string>)
    ensures code == Resolve(taxonomy, common, latin)
  {
    if taxonomy.None? || taxonomy.value == [] {
      return None;
    }
    var table := taxonomy.value;
    var hit := FindRow(table, Scientific(latin));
    if hit.Some? {
      return Some(table[hit.value].speciesCode);
    }
    hit := FindRow(table, CommonName(common));
    if hit.Some? {
      return Some(table[hit.value].speciesCode);
    }
    var variants := VariantsOf(common);
    var k := 0;
    while k < |variants|
      invariant 0 <= k <= |variants|
      invariant VariantHit(table, variants[k..]) == VariantHit(table, variants)
    {
      hit := FindRow(table, CommonName(variants[k]));
      if hit.Some? {
        VariantHitHere(table, variants, k);
        return Some(table[hit.value].speciesCode);
      }
      VariantHitHere(table, variants, k);
      k := k + 1;
    }
    var genus := FirstToken(latin);
    if genus.None? {
      return None;
    }
    hit := FindRow(table, GenusPrefix(genus.value));
    if hit.Some? {
      return Some(table[hit.value].speciesCode);
    }
    return None;
  }

  /** The variant tier from position `k` on: the `k`th variant's first row
      if it matches any, else the tier from `k + 1` on. */
  lemma VariantHitHere(table: seq<Row>, variants: seq<string>, k: nat)
    requires k < |variants|
    ensures FirstHit(table, CommonName(variants[k])).Some? ==>
      VariantHit(table, variants[k..]) == FirstHit(table, CommonName(variants[k]))
    ensures FirstHit(table, CommonName(variants[k])).None? ==>
      VariantHit(table, variants[k..]) == VariantHit(table, variants[k + 1..])
  {
    assert variants[k..][0] == variants[k];
    assert variants[k..][1..] == variants[k + 1..];
  }

  /** Without a taxonomy, or with an empty one, there is no code. */
  lemma NoTaxonomyNoCode(common: string, latin: string)
    ensures Resolve(None, common, latin) == None
    ensures Resolve(Some([]), common, latin) == None
  {
  }

  /** Tier one: the first row whose scientific name matches decides the
      result, whatever the common names say. */
  lemma ResolveByScientificName(table: seq<Row>, common: string, latin: string, i: nat)
    requires i < |table| && Hit(table[i], Scientific(latin))
    requires forall j :: 0 <= j < i ==> !Hit(table[j], Scientific(latin))
    ensures Resolve(Some(table), common, latin) == Some(table[i].speciesCode)
  {
    FirstHitIs(table, Scientific(latin), i);
  }

  /** Tier two runs only when no row matches scientifically, and returns
      the first row whose common name matches. */
  lemma ResolveByCommonName(table: seq<Row>, common: string, latin: string, i: nat)
    requires forall j :: 0 <= j < |table| ==> !Hit(table[j], Scientific(latin))
    requires i < |table| && Hit(table[i], CommonName(common))
    requires forall j :: 0 <= j < i ==> !Hit(table[j], CommonName(common))
    ensures Resolve(Some(table), common, latin) == Some(table[i].speciesCode)
  {
    FirstHitNone(table, Scientific(latin));
    FirstHitIs(table, CommonName(common), i);
  }

  /** Tier three: only for a name that is literally a key of the variants
      table; the first variant that matches some row picks the first row it
      matches. */
  lemma ResolveByVariant(table: seq<Row>, common: string, latin: string, k: nat, i: nat)
    requires forall j :: 0 <= j < |table| ==> !Hit(table[j], Scientific(latin))
    requires forall j :: 0 <= j < |table| ==> !Hit(table[j], CommonName(common))
    requires k < |VariantsOf(common)|
    requires forall m, j :: 0 <= m < k && 0 <= j < |table| ==>
      !Hit(table[j], CommonName(VariantsOf(common)[m]))
    requires i < |table| && Hit(table[i], CommonName(VariantsOf(common)[k]))
    requires forall j :: 0 <= j < i ==> !Hit(table[j], CommonName(VariantsOf(common)[k]))
    ensures Resolve(Some(table), common, latin) == Some(table[i].speciesCode)
  {
    FirstHitNone(table, Scientific(latin));
    FirstHitNone(table, CommonName(common));
    VariantHitAt(table, VariantsOf(common), k, i);
  }

  /** The variant search lands on the first row of the first variant that
      matches anything. */
  lemma {:induction false} VariantHitAt(table: seq<Row>, variants: seq<string>, k: nat, i: nat)
    requires k < |variants|
    requires forall m, j :: 0 <= m < k && 0 <= j < |table| ==> !Hit(table[j], CommonName(variants[m]))
    requires i < |table| && Hit(table[i], CommonName(variants[k]))
    requires forall j :: 0 <= j < i ==> !Hit(table[j], CommonName(variants[k]))
    ensures VariantHit(table, variants) == Some(i)
    decreases k
  {
    if k == 0 {
      FirstHitIs(table, CommonName(variants[0]), i);
    } else {
      FirstHitNone(table, CommonName(variants[0]));
      assert forall j :: 0 <= j < |table| ==> !Hit(table[j], CommonName(variants[0]));
      var tail := variants[1..];
      assert forall m :: 0 <= m < |tail| ==> tail[m] == variants[m + 1];
      VariantHitAt(table, tail, k - 1, i);
    }
  }

  /** Tier four: when every earlier tier misses, the first row whose lowered
      scientific name starts with the lowered first word of `latin`. */
  lemma ResolveByGenus(table: seq<Row>, common: string, latin: string, i: nat)
    requires forall j :: 0 <= j < |table| ==> !Hit(table[j], Scientific(latin))
    requires forall j :: 0 <= j < |table| ==> !Hit(table[j], CommonName(common))
    requires forall m, j :: 0 <= m < |VariantsOf(common)| && 0 <= j < |table| ==>
      !Hit(table[j], CommonName(VariantsOf(common)[m]))
    requires FirstToken(latin).Some?
    requires i < |table| && Hit(table[i], GenusPrefix(FirstToken(latin).value))
    requires forall j :: 0 <= j < i ==> !Hit(table[j], GenusPrefix(FirstToken(latin).value))
    ensures Resolve(Some(table), common, latin) == Some(table[i].speciesCode)
  {
    FirstHitNone(table, Scientific(latin));
    FirstHitNone(table, CommonName(common));
    var variants := VariantsOf(common);
    VariantHitNone(table, variants);
    var genus := FirstToken(latin).value;
    FirstHitIs(table, GenusPrefix(genus), i);
    assert ChosenRow(table, common, variants, latin) == Some(i);
  }

  /** A blank scientific name that reaches the genus tier yields no code. */
  lemma ResolveBlankLatin(table: seq<Row>, common: string, latin: string)
    requires AllSpace(latin)
    requires forall j :: 0 <= j < |table| ==> !Hit(table[j], Scientific(latin))
    requires forall j :: 0 <= j < |table| ==> !Hit(table[j], CommonName(common))
    requires forall m, j :: 0 <= m < |VariantsOf(common)| && 0 <= j < |table| ==>
      !Hit(table[j], CommonName(VariantsOf(common)[m]))
    ensures Resolve(Some(table), common, latin) == None
  {
    FirstHitNone(table, Scientific(latin));
    FirstHitNone(table, CommonName(common));
    VariantHitNone(table, VariantsOf(common));
  }

  /** Any code returned is the species code of some row of the table. */
  lemma ResolvedCodeIsFromTable(taxonomy: Option<seq<Row>>, common: string, latin: string)
    requires Resolve(taxonomy, common, latin).Some?
    ensures taxonomy.Some?
    ensures exists i :: 0 <= i < |taxonomy.value| && taxonomy.value[i].speciesCode == Resolve(taxonomy, common, latin).value
  {
    var i := ChosenRow(taxonomy.value, common, VariantsOf(common), latin).value;
    assert taxonomy.value[i].speciesCode == Resolve(taxonomy, common, latin).value;
  }

  /** No code is found exactly when the taxonomy is missing or empty, or
      every tier misses (the genus tier counting as a miss for a blank
      scientific name). */
  lemma ResolveNoneIff(taxonomy: Option<seq<Row>>, common: string, latin: string)
    ensures Resolve(taxonomy, common, latin).None? <==>
      taxonomy.None? || taxonomy.value == [] ||
      ((forall j :: 0 <= j < |taxonomy.value| ==> !Hit(taxonomy.value[j], Scientific(latin)))
       && (forall j :: 0 <= j < |taxonomy.value| ==> !Hit(taxonomy.value[j], CommonName(common)))
       && (forall m, j :: 0 <= m < |VariantsOf(common)| && 0 <= j < |taxonomy.value| ==>
             !Hit(taxonomy.value[j], CommonName(VariantsOf(common)[m])))
       && (FirstToken(latin).Some? ==> forall j :: 0 <= j < |taxonomy.value| ==>
             !Hit(taxonomy.value[j], GenusPrefix(FirstToken(latin).value))))
  {
    if taxonomy.Some? && taxonomy.value != [] {
      ChosenRowNoneIff(taxonomy.value, common, VariantsOf(common), latin);
    }
  }

  /** Every tier misses exactly when no row matches any of them. */
  lemma ChosenRowNoneIff(table: seq<Row>, common: string, variants: seq<string>, latin: string)
    ensures ChosenRow(table, common, variants, latin).None? <==>
      ((forall j :: 0 <= j < |table| ==> !Hit(table[j], Scientific(latin)))
       && (forall j :: 0 <= j < |table| ==> !Hit(table[j], CommonName(common)))
       && (forall m, j :: 0 <= m < |variants| && 0 <= j < |table| ==>
             !Hit(table[j], CommonName(variants[m])))
       && (FirstToken(latin).Some? ==> forall j :: 0 <= j < |table| ==>
             !Hit(table[j], GenusPrefix(FirstToken(latin).value))))
  {
    FirstHitNone(table, Scientific(latin));
    FirstHitNone(table, CommonName(common));
    VariantHitNone(table, variants);
    if FirstToken(latin).Some? {
      FirstHitNone(table, GenusPrefix(FirstToken(latin).value));
    }
  }

  /** The case of the scientific name never changes the result: tier one
      compares it ignoring case and tier four lowers its first word. */
  lemma ResolveIgnoresLatinCase(taxonomy: Option<seq<Row>>, common: string, latin: string)
    ensures Resolve(taxonomy, common, Lower(latin)) == Resolve(taxonomy, common, latin)
  {
    if taxonomy.Some? && taxonomy.value != [] {
      ChosenRowIgnoresLatinCase(taxonomy.value, common, VariantsOf(common), latin);
    }
  }

  /** The row chosen, for any list of variants, does not depend on the case
      of the Latin name. */
  lemma ChosenRowIgnoresLatinCase(table: seq<Row>, common: string, variants: seq<string>, latin: string)
    ensures ChosenRow(table, common, variants, Lower(latin)) == ChosenRow(table, common, variants, latin)
  {
    ScientificTierIgnoresCase(table, latin);
    GenusTierIgnoresCase(table, latin);
    ChosenRowSameTiers(table, common, variants, Lower(latin), latin);
  }

  /** Two scientific names that pick the same rows in tiers one and four
      pick the same row overall. */
  lemma ChosenRowSameTiers(table: seq<Row>, common: string, variants: seq<string>, latin1: string, latin2: string)
    requires FirstHit(table, Scientific(latin1)) == FirstHit(table, Scientific(latin2))
    requires FirstToken(latin1).None? == FirstToken(latin2).None?
    requires FirstToken(latin2).Some? ==>
      FirstHit(table, GenusPrefix(FirstToken(latin1).value)) == FirstHit(table, GenusPrefix(FirstToken(latin2).value))
    ensures ChosenRow(table, common, variants, latin1) == ChosenRow(table, common, variants, latin2)
  {
  }

  /** A lowered Latin name finds the same row by scientific name. */
  lemma ScientificTierIgnoresCase(table: seq<Row>, latin: string)
    ensures FirstHit(table, Scientific(Lower(latin))) == FirstHit(table, Scientific(latin))
  {
    forall j | 0 <= j < |table|
      ensures Hit(table[j], Scientific(Lower(latin))) == Hit(table[j], Scientific(latin))
    {
      HitIgnoresKeyCase(table[j], latin);
    }
    FirstHitSameRows(table, Scientific(Lower(latin)), Scientific(latin));
  }

  /** The genus taken from a lowered Latin name finds the same row. */
  lemma GenusTierIgnoresCase(table: seq<Row>, latin: string)
    ensures FirstToken(Lower(latin)).None? == FirstToken(latin).None?
    ensures FirstToken(latin).Some? ==>
      FirstHit(table, GenusPrefix(FirstToken(Lower(latin)).value)) == FirstHit(table, GenusPrefix(FirstToken(latin).value))
  {
    FirstTokenLower(latin);
    if FirstToken(latin).Some? {
      var genus := FirstToken(latin).value;
      forall j | 0 <= j < |table|
        ensures Hit(table[j], GenusPrefix(Lower(genus))) == Hit(table[j], GenusPrefix(genus))
      {
        HitIgnoresKeyCase(table[j], genus);
      }
      FirstHitSameRows(table, GenusPrefix(Lower(genus)), GenusPrefix(genus));
    }
  }

  /** The guide's own test bird: a table holding the Black Kite resolves
      'Black Kite' / 'Milvus migrans' to its code through tier one. */
  lemma BlackKiteResolves(before: seq<Row>, code: string, after: seq<Row>)
    requires forall j :: 0 <= j < |before| ==> !Hit(before[j], Scientific("Milvus migrans"))
    ensures Resolve(Some(before + [Row("Milvus migrans", "Black Kite", code)] + after),
                    "Black Kite", "Milvus migrans") == Some(code)
  {
    var table := before + [Row("Milvus migrans", "Black Kite", code)] + after;
    assert table[|before|] == Row("Milvus migrans", "Black Kite", code);
    ResolveByScientificName(table, "Black Kite", "Milvus migrans", |before|);
  }
}
