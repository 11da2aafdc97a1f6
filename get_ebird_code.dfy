/**
 * `get_ebird_code.py`: a single-pass species lookup over the JSON taxonomy,
 * and variants of `get_best_image` and `download_image` that differ from
 * the batch script's in when they give up.
 */
module GetEbirdCode {
  import opened Common
  import opened Text
  import opened Web
  import opened Media
  import opened Files
  import opened Download
  import opened Taxonomy

  /** The reply to the JSON taxonomy request: an exception before any reply,
      or a status and, when the body decodes to a list of entries that all
      carry the three keys, those entries (None when `.json()` or an entry
      lookup would raise). */
  datatype TaxonomyReply =
    | NoTaxonomyReply
    | TaxonomyReply(status: int, entries: Option<seq<Row>>)

  /** The code `get_species_code` returns: from the first entry whose
      scientific name or common name matches, ignoring case. */
  function SpeciesCodeOf(reply: TaxonomyReply, species: string, scientificName: string): Option<string> {
    if reply.NoTaxonomyReply? || reply.status != 200 || reply.entries.None? then None
    else
      var entries := reply.entries.value;
      match FirstHit(entries, EitherName(scientificName, species))
      case None => None
      case Some(i) => Some(entries[i].speciesCode)
  }

  /** `get_species_code`: one loop over the entries, returning from the first
      entry that matches either name. */
  method GetSpeciesCode(reply: TaxonomyReply, species: string, scientificName: string)
    returns (code: Option<string>)
    ensures code == SpeciesCodeOf(reply, species, scientificName)
  {
    if reply.NoTaxonomyReply? || reply.status != 200 || reply.entries.None? {
      return None;
    }
    var entries := reply.entries.value;
    for i := 0 to |entries|
      invariant forall j :: 0 <= j < i ==> !Hit(entries[j], EitherName(scientificName, species))
    {
      var entry := entries[i];
      if EqualsIgnoreCase(entry.scientificName, scientificName) || EqualsIgnoreCase(entry.commonName, species) {
        FirstHitIs(entries, EitherName(scientificName, species), i);
        return Some(entry.speciesCode);
      }
    }
    FirstHitNone(entries, EitherName(scientificName, species));
    return None;
  }

  /** Because the pass is single, an earlier entry matching only by common
      name beats a later entry matching by scientific name. */
  lemma EarlierCommonNameWins(entries: seq<Row>, species: string, scientificName: string, i: nat, j: nat)
    requires i < j < |entries|
    requires EqualsIgnoreCase(entries[i].commonName, species)
    requires EqualsIgnoreCase(entries[j].scientificName, scientificName)
    requires forall k :: 0 <= k < i ==> !Hit(entries[k], EitherName(scientificName, species))
    ensures SpeciesCodeOf(TaxonomyReply(200, Some(entries)), species, scientificName)
      == Some(entries[i].speciesCode)
  {
    FirstHitIs(entries, EitherName(scientificName, species), i);
  }

  /** No code comes back exactly when the request raised, the status is not
      200, the body could not be read, or no entry matches either name. */
  lemma SpeciesCodeNoneIff(reply: TaxonomyReply, species: string, scientificName: string)
    ensures SpeciesCodeOf(reply, species, scientificName).None? <==>
      reply.NoTaxonomyReply? || reply.status != 200 || reply.entries.None? ||
      forall j :: 0 <= j < |reply.entries.value| ==>
        !EqualsIgnoreCase(reply.entries.value[j].scientificName, scientificName)
        && !EqualsIgnoreCase(reply.entries.value[j].commonName, species)
  {
    if reply.TaxonomyReply? && reply.status == 200 && reply.entries.Some? {
      FirstHitNone(reply.entries.value, EitherName(scientificName, species));
    }
  }

  /** When no entry carries the common name, the single pass picks the same
      entry as the first tier of the batch script's resolver. */
  lemma SinglePassIsScientificTier(entries: seq<Row>, species: string, scientificName: string)
    requires forall j :: 0 <= j < |entries| ==> !Hit(entries[j], CommonName(species))
    ensures FirstHit(entries, EitherName(scientificName, species)) == FirstHit(entries, Scientific(scientificName))
  {
    FirstHitSameRows(entries, EitherName(scientificName, species), Scientific(scientificName));
  }

  /** `get_best_image` of this script: like the batch script's, except that
      the species page must answer exactly 200. */
  function GetBestImageStrict(code: string, web: string -> Reply): (r: Option<ImageRecord>)
    ensures r.Some? ==> Describes(r.value, r.value.catalogId)
    ensures r.Some? ==> r.value.catalogId != [] && AllDigits(r.value.catalogId)
    ensures r.Some? ==> web(SpeciesPageUrl(code)).Reply? && web(SpeciesPageUrl(code)).status == 200
  {
    var page := web(SpeciesPageUrl(code));
    if page.Unreachable? || page.status != 200 then None
    else
      match FirstAssetId(page.text)
      case Some(id) => ImageFromAsset(id, web)
      case None => ImageFromCatalog(code, web)
  }

  /** An asset on the species page is the one described; a details reply
      other than 200 still gives a record, with placeholder metadata. */
  lemma StrictImageFromSpeciesPage(code: string, web: string -> Reply, id: string)
    requires web(SpeciesPageUrl(code)).Reply? && web(SpeciesPageUrl(code)).status == 200
    requires FirstAssetId(web(SpeciesPageUrl(code)).text) == Some(id)
    ensures GetBestImageStrict(code, web).Some? ==> GetBestImageStrict(code, web).value.catalogId == id
    ensures web(DetailsUrl(id)).Reply? && web(DetailsUrl(id)).status != 200 ==>
      GetBestImageStrict(code, web) == Some(Placeholder(id))
    ensures web(DetailsUrl(id)).Reply? && web(DetailsUrl(id)).status == 200 && web(DetailsUrl(id)).fields.Some? ==>
      GetBestImageStrict(code, web) == Some(FromDetails(id, web(DetailsUrl(id)).fields.value))
  {
  }

  /** With no asset on the species page, a hit in the catalog always carries
      placeholder metadata, and no hit there means no record. */
  lemma StrictImageFromCatalog(code: string, web: string -> Reply)
    requires web(SpeciesPageUrl(code)).Reply? && web(SpeciesPageUrl(code)).status == 200
    requires FirstAssetId(web(SpeciesPageUrl(code)).text).None?
    ensures GetBestImageStrict(code, web).Some? ==>
      GetBestImageStrict(code, web) == Some(Placeholder(GetBestImageStrict(code, web).value.catalogId))
    ensures GetBestImageStrict(code, web).None? <==>
      (web(CatalogUrl(code)).Unreachable? || web(CatalogUrl(code)).status != 200
       || FirstAssetId(web(CatalogUrl(code)).text).None?)
  {
  }

  /** `download_image` of this script: an exception removes the partial file;
      an empty file is reported but left in place; otherwise the credit file
      is written. */
  method DownloadImageChecked(fs: FileSystem, stream: Stream, filename: string, credit: ImageRecord)
    returns (ok: bool)
    modifies fs
    ensures ok <==> Completes(stream) && Written(stream.chunks) != []
    ensures ok ==> fs.files == old(fs.files)[filename := Bytes(Written(stream.chunks))]
                                            [CreditPath(filename) := Text(CreditText(credit))]
    ensures Completes(stream) && !ok ==> fs.files == old(fs.files)[filename := Bytes([])]
    ensures !Completes(stream) ==> fs.files == old(fs.files) - {filename}
  {
    if !OpensFile(stream) {
      fs.RemoveIfExists(filename);
      return false;
    }
    var downloaded := SaveChunks(fs, filename, stream.chunks);
    if stream.interrupted {
      fs.RemoveIfExists(filename);
      assert fs.files == old(fs.files) - {filename};
      return false;
    }
    if !fs.Exists(filename) {
      return false;
    }
    if Size(fs.files[filename]) == 0 {
      return false;
    }
    fs.WriteText(CreditPath(filename), CreditText(credit));
    return true;
  }
}
