/**
 * Macaulay Library media as both download scripts handle it: the asset id
 * scanned out of a page, the image record built around it, and the credit
 * file written next to a downloaded image.
 */
module Media {
  import opened Common
  import opened Text
  import opened Web

  /** The CDN address every image URL starts with; the asset id follows it. */
  const CdnAssetPrefix := "https://cdn.download.ams.birds.cornell.edu/api/v1/asset/"
  const License := "Macaulay Library \U{A9} Cornell Lab of Ornithology"
  const UnknownPhotographer := "Unknown"
  const UnknownLocation := "Unknown location"

  function SpeciesPageUrl(code: string): string {
    "https://ebird.org/species/" + code
  }

  function DetailsUrl(id: string): string {
    "https://search.macaulaylibrary.org/api/v1/asset/" + id
  }

  function CatalogUrl(code: string): string {
    "https://search.macaulaylibrary.org/catalog/search?taxonCode=" + code + "&sort=rating_desc&mediaType=photo"
  }

  /** The largest rendition of an asset. */
  function AssetUrl(id: string): string {
    CdnAssetPrefix + id + "/2400"
  }

  /** `\d`, for ASCII digits. */
  predicate IsDigit(c: char) {
    '0' <= c <= '9'
  }

  predicate AllDigits(s: string) {
    forall i :: 0 <= i < |s| ==> IsDigit(s[i])
  }

  /** `\d+` at the start of `s`, taken greedily (empty when there is no digit). */
  function DigitRun(s: string): (r: string)
    ensures |r| <= |s| && r == s[..|r|]
    ensures AllDigits(r)
    ensures |r| < |s| ==> !IsDigit(s[|r|])
  {
    if s == [] || !IsDigit(s[0]) then [] else [s[0]] + DigitRun(s[1..])
  }

  /** The digit run stops at the first non-digit, whatever follows. */
  lemma DigitRunStops(digits: string, t: string)
    requires AllDigits(digits)
    requires t != [] && !IsDigit(t[0])
    ensures DigitRun(digits + t) == digits
  {
    if digits != [] {
      assert (digits + t)[1..] == digits[1..] + t;
      DigitRunStops(digits[1..], t);
    }
  }

  /** The pattern `<CdnAssetPrefix>(\d+)` matches at index `i`. */
  predicate AssetAt(s: string, i: nat) {
    OccursAt(s, CdnAssetPrefix, i) && i + |CdnAssetPrefix| < |s| && IsDigit(s[i + |CdnAssetPrefix|])
  }

  /** The leftmost match of the pattern at or after `from`. */
  function FirstAssetFrom(s: string, from: nat): (r: Option<nat>)
    requires from <= |s|
    ensures r.Some? ==> from <= r.value < |s| && AssetAt(s, r.value)
    ensures r.Some? ==> forall j :: from <= j < r.value ==> !AssetAt(s, j)
    ensures r.None? ==> forall j :: from <= j < |s| ==> !AssetAt(s, j)
    decreases |s| - from
  {
    if from == |s| then None
    else if AssetAt(s, from) then Some(from)
    else FirstAssetFrom(s, from + 1)
  }

  /** `re.findall(prefix + r'(\d+)', text)[0]`, or None when there is no match. */
  function FirstAssetId(text: string): (r: Option<string>)
    ensures r.Some? ==> r.value != [] && AllDigits(r.value)
  {
    match FirstAssetFrom(text, 0)
    case None => None
    case Some(i) => Some(DigitRun(text[i + |CdnAssetPrefix|..]))
  }

  /** The id is read back out of the URL built from it. */
  lemma AssetUrlRoundTrip(id: string)
    requires id != [] && AllDigits(id)
    ensures FirstAssetId(AssetUrl(id)) == Some(id)
  {
    var url := AssetUrl(id);
    assert url[..|CdnAssetPrefix|] == CdnAssetPrefix;
    assert url[|CdnAssetPrefix|] == id[0];
    assert AssetAt(url, 0);
    assert url[|CdnAssetPrefix|..] == id + "/2400";
    DigitRunStops(id, "/2400");
  }

  /** The record both `get_best_image` functions return. */
  datatype ImageRecord = ImageRecord(
    url: string,
    photographer: string,
    year: string,
    location: string,
    catalogId: string,
    license: string)

  /** `details.get(key, default)`. */
  function Get(details: map<string, string>, key: string, default: string): string {
    if key in details then details[key] else default
  }

  /** The record for an asset whose details could not be read. */
  function Placeholder(id: string): (r: ImageRecord)
    ensures r.url == AssetUrl(id) && r.catalogId == id && r.license == License
    ensures r.photographer == UnknownPhotographer && r.year == "" && r.location == UnknownLocation
  {
    ImageRecord(AssetUrl(id), UnknownPhotographer, "", UnknownLocation, id, License)
  }

  /** The record filled from the asset's details, field by field with the same
      defaults as the placeholder. */
  function FromDetails(id: string, details: map<string, string>): (r: ImageRecord)
    ensures r.url == AssetUrl(id) && r.catalogId == id && r.license == License
  {
    ImageRecord(
      AssetUrl(id),
      Get(details, "userDisplayName", UnknownPhotographer),
      Get(details, "yearCreated", ""),
      Get(details, "locationLine2", UnknownLocation),
      id,
      License)
  }

  /** A field that is present is taken as given; a missing one gets the
      placeholder's value, so with no details at all the filled record is
      the placeholder. */
  lemma FromDetailsDefaults(id: string, details: map<string, string>)
    ensures FromDetails(id, map[]) == Placeholder(id)
    ensures "userDisplayName" in details ==> FromDetails(id, details).photographer == details["userDisplayName"]
    ensures "yearCreated" in details ==> FromDetails(id, details).year == details["yearCreated"]
    ensures "locationLine2" in details ==> FromDetails(id, details).location == details["locationLine2"]
    ensures "userDisplayName" !in details ==> FromDetails(id, details).photographer == UnknownPhotographer
    ensures "locationLine2" !in details ==> FromDetails(id, details).location == UnknownLocation
    ensures "yearCreated" !in details ==> FromDetails(id, details).year == ""
  {
  }

  /** A record that names an asset: its URL is the asset's largest rendition
      and it carries the library's license. */
  predicate Describes(r: ImageRecord, id: string) {
    r.url == AssetUrl(id) && r.catalogId == id && r.license == License
  }

  /** The details step for an asset found on the species page: the details
      request raising gives no record, an unreadable body gives no record
      (`.json()` or `.get` raises), a 200 gives the filled record, and any
      other status the placeholder. */
  function ImageFromAsset(id: string, web: string -> Reply): (r: Option<ImageRecord>)
    ensures r.Some? ==> Describes(r.value, id)
  {
    var details := web(DetailsUrl(id));
    if details.Unreachable? then None
    else if details.status == 200 then
      match details.fields
      case None => None
      case Some(d) => Some(FromDetails(id, d))
    else Some(Placeholder(id))
  }

  /** The catalog fallback: a 200 page with an asset gives the placeholder for
      its first asset; anything else gives no record. */
  function ImageFromCatalog(code: string, web: string -> Reply): (r: Option<ImageRecord>)
    ensures r.Some? ==> r.value == Placeholder(r.value.catalogId)
    ensures r.Some? ==> (web(CatalogUrl(code)).Reply? && web(CatalogUrl(code)).status == 200
                         && FirstAssetId(web(CatalogUrl(code)).text) == Some(r.value.catalogId))
  {
    var catalog := web(CatalogUrl(code));
    if catalog.Unreachable? || catalog.status != 200 then None
    else
      match FirstAssetId(catalog.text)
      case None => None
      case Some(id) => Some(Placeholder(id))
  }

  /** The credit file's text: "photographer - location", the license, and
      "ML" with the catalog id, on three lines. */
  function CreditText(r: ImageRecord): string {
    r.photographer + " - " + r.location + "\n" + r.license + "\nML" + r.catalogId
  }

  /** When no field holds a line break, the credit text splits back into its
      three lines. */
  lemma CreditTextLines(r: ImageRecord)
    requires '\n' !in r.photographer && '\n' !in r.location
    requires '\n' !in r.license && '\n' !in r.catalogId
    ensures SplitOn(CreditText(r), "\n") ==
      [r.photographer + " - " + r.location, r.license, "ML" + r.catalogId]
  {
    var first := r.photographer + " - " + r.location;
    var last := "ML" + r.catalogId;
    assert '\n' !in first by {
      forall i | 0 <= i < |first| ensures first[i] != '\n' {
        if i >= |r.photographer| + 3 {
          assert first[i] == r.location[i - |r.photographer| - 3];
        } else if i >= |r.photographer| {
          assert first[i] == " - "[i - |r.photographer|];
        } else {
          assert first[i] == r.photographer[i];
        }
      }
    }
    assert '\n' !in last by {
      forall i | 0 <= i < |last| ensures last[i] != '\n' {
        if i >= 2 {
          assert last[i] == r.catalogId[i - 2];
        }
      }
    }
    assert CreditText(r) == first + "\n" + (r.license + "\n" + last);
    FindCharAtEnd(first, '\n');
    SplitAtFirst(first, "\n", r.license + "\n" + last);
    FindCharAtEnd(r.license, '\n');
    SplitAtFirst(r.license, "\n", last);
    SplitWithoutSeparator(last, '\n');
  }

  /** `filename.replace('.jpg', '_credit.txt')`. */
  function CreditPath(filename: string): string {
    ReplaceAll(filename, ".jpg", "_credit.txt")
  }

  /** An image path ending in its only ".jpg" gets the credit file beside it. */
  lemma CreditPathOfJpg(base: string)
    requires NoOccurrence(base, ".jpg")
    ensures CreditPath(base + ".jpg") == base + "_credit.txt"
  {
    var s := base + ".jpg";
    forall j | 0 <= j < |base|
      ensures !OccursAt(s, ".jpg", j)
    {
      if j + 4 <= |base| {
        assert s[j..j + 4] == base[j..j + 4];
        assert !OccursAt(base, ".jpg", j);
      } else {
        // the occurrence would have to put one of 'j', 'p', 'g' on the final '.'
        var k := |base| - j;
        assert s[|base|] == '.';
        assert ".jpg"[k] != '.';
        assert s[j..j + 4][k] == s[|base|];
      }
    }
    assert OccursAt(s, ".jpg", |base|);
    FindFromAt(s, ".jpg", 0, |base|);
    ReplaceAtEnd(base, ".jpg", "_credit.txt");
  }

  /** A path without ".jpg" is its own credit path: the credit text would be
      written over the image itself. */
  lemma CreditPathWithoutJpg(filename: string)
    requires NoOccurrence(filename, ".jpg")
    ensures CreditPath(filename) == filename
  {
    FindFromSpec(filename, ".jpg", 0);
  }
}
