/**
 * `credit_test.py`: a debugging variant of `get_best_image` that scrapes the
 * eBird species page and the Macaulay Library asset page instead of calling
 * the details API, and the one-line credit it formats from the result.
 *
 * HTML parsing is not modelled: `select(html, query)` stands for what
 * `soup.select_one(query)` (or `soup.find` for the two `div` lookups)
 * finds in a page, if anything.
 */
module CreditTest {
  import opened Common
  import opened Text
  import opened Web
  import opened Media

  /** An element found in a page: its `src` attribute, if it has one, and
      its text. */
  datatype Tag = Tag(src: Option<string>, text: string)

  /** The dictionary `get_best_image_debug` returns. */
  datatype DebugRecord = DebugRecord(
    url: string,
    photographer: string,
    date: string,
    location: string,
    catalogId: string,
    rightsHolder: string,
    license: string)

  /** Where the species page is searched for its main image, in order. */
  const ImageSelectors: seq<string> := [
    ".SpeciesHeader img[src*=\"cdn.download.ams.birds.cornell.edu\"]",
    ".MediaFeed-main img",
    "img[src*=\"ML25502811\"]"
  ]

  /** Where the asset page is searched for the photographer, in order. */
  const PhotographerSelectors: seq<string> := [
    "div.MediaInfo span.MediaInfo-photographer",
    "span.MediaInfo-photographer",
    ".AssetInfo span[class*=\"photographer\"]",
    ".Photo-credit",
    ".Asset-credit"
  ]

  /** `soup.find('div', class_='MediaInfo-location')` and the date lookup. */
  const LocationQuery := "div.MediaInfo-location"
  const DateQuery := "div.MediaInfo-date"

  /** The asset used when the species page shows no usable image. */
  const FallbackAssetId := "25502811"
  const AssetMarker := "/asset/"
  const DebugLicense := "Macaulay Library at the Cornell Lab of Ornithology"
  const NoImageInformation := "No image information available"

  function AssetPageUrl(id: string): string {
    "https://macaulaylibrary.org/asset/" + id
  }

  /** The largest rendition, on the second version of the CDN's API. */
  function V2AssetUrl(id: string): string {
    "https://cdn.download.ams.birds.cornell.edu/api/v2/asset/" + id + "/2400"
  }

  /** `img.get('src', '')`. */
  function SrcOf(tag: Tag): string {
    if tag.src.Some? then tag.src.value else ""
  }

  /** `src.split('/asset/')[-1].split('/')[0]` (see `LastPieceIsLastOfSplit`
      and `UpToIsFirstPiece`). */
  function AssetIdFromSrc(src: string): (id: string)
    ensures '/' !in id
  {
    UpTo(LastPiece(src, AssetMarker), '/')
  }

  /** When `src` holds "/asset/", the id is what follows the last cut that
      `split` makes there, up to the next '/': no further cut lies after it. */
  lemma AssetIdFromSrcShape(src: string)
    requires Contains(src, AssetMarker)
    ensures var k := |src| - |LastPiece(src, AssetMarker)|;
      var id := AssetIdFromSrc(src);
      |AssetMarker| <= k && OccursAt(src, AssetMarker, k - |AssetMarker|)
      && NoOccurrence(src[k..], AssetMarker)
      && k + |id| <= |src| && id == src[k..k + |id|]
      && (k + |id| < |src| ==> src[k + |id|] == '/')
  {
    var piece := LastPiece(src, AssetMarker);
    var k := |src| - |piece|;
    LastPieceIsSuffix(src, AssetMarker, k);
    LastPieceAvoidsSeparator(src, AssetMarker);
    LastPieceFollowsCut(src, AssetMarker, k - |AssetMarker|);
    var id := UpTo(piece, '/');
    UpToShape(piece, '/');
    assert piece == src[k..];
    assert piece[..|id|] == src[k..k + |id|];
    if k + |id| < |src| {
      assert piece[|id|] == src[k + |id|];
    }
  }

  /** The asset id the image loop settles on: the first selector that finds
      an element whose source holds "/asset/"; a found element without one
      does not stop the search. */
  function AssetFromImages(html: string, select: (string, string) -> Option<Tag>, selectors: seq<string>)
    : (r: Option<string>)
    ensures r.Some? ==> '/' !in r.value
  {
    if selectors == [] then None
    else
      var found := select(html, selectors[0]);
      if found.Some? && Contains(SrcOf(found.value), AssetMarker) then Some(AssetIdFromSrc(SrcOf(found.value)))
      else AssetFromImages(html, select, selectors[1..])
  }

  /** The image loop settles on no id exactly when no selector finds an
      element whose source holds "/asset/". */
  lemma {:induction false} AssetFromImagesNone(html: string, select: (string, string) -> Option<Tag>, selectors: seq<string>)
    ensures AssetFromImages(html, select, selectors).None? <==> forall k :: 0 <= k < |selectors| ==>
      (select(html, selectors[k]).None? || !Contains(SrcOf(select(html, selectors[k]).value), AssetMarker))
    decreases |selectors|
  {
    if selectors != [] {
      AssetFromImagesNone(html, select, selectors[1..]);
      assert forall k :: 1 <= k < |selectors| ==> selectors[k] == selectors[1..][k - 1];
    }
  }

  /** The first selector that finds an image with an asset source decides
      the asset id. */
  lemma {:induction false} AssetFromImagesFirst(
    html: string, select: (string, string) -> Option<Tag>, selectors: seq<string>, k: nat)
    requires k < |selectors| && select(html, selectors[k]).Some?
    requires Contains(SrcOf(select(html, selectors[k]).value), AssetMarker)
    requires forall j :: 0 <= j < k ==>
      (select(html, selectors[j]).None? || !Contains(SrcOf(select(html, selectors[j]).value), AssetMarker))
    ensures AssetFromImages(html, select, selectors) == Some(AssetIdFromSrc(SrcOf(select(html, selectors[k]).value)))
    decreases k
  {
    if k > 0 {
      AssetFromImagesFirst(html, select, selectors[1..], k - 1);
    }
  }

  /** The photographer the second loop settles on: the stripped text of the
      element the first selector that finds anything finds, even when that
      text is blank. */
  function PhotographerFrom(html: string, select: (string, string) -> Option<Tag>, selectors: seq<string>)
    : (r: Option<string>)
    ensures r.None? <==> forall k :: 0 <= k < |selectors| ==> select(html, selectors[k]).None?
  {
    if selectors == [] then None
    else
      var found := select(html, selectors[0]);
      if found.Some? then Some(Strip(found.value.text))
      else
        var later := PhotographerFrom(html, select, selectors[1..]);
        assert forall k :: 1 <= k < |selectors| ==> selectors[k] == selectors[1..][k - 1];
        later
  }

  /** The first selector that finds an element decides the photographer. */
  lemma {:induction false} PhotographerFromFirst(
    html: string, select: (string, string) -> Option<Tag>, selectors: seq<string>, k: nat)
    requires k < |selectors| && select(html, selectors[k]).Some?
    requires forall j :: 0 <= j < k ==> select(html, selectors[j]).None?
    ensures PhotographerFrom(html, select, selectors) == Some(Strip(select(html, selectors[k]).value.text))
    decreases k
  {
    if k > 0 {
      PhotographerFromFirst(html, select, selectors[1..], k - 1);
    }
  }

  /** `if not photographer: photographer = 'Unknown'`. */
  function OrUnknown(photographer: Option<string>): (r: string)
    ensures r != []
    ensures photographer.Some? && photographer.value != [] ==> r == photographer.value
    ensures photographer.None? || photographer.value == [] ==> r == UnknownPhotographer
  {
    if photographer.None? || photographer.value == [] then UnknownPhotographer else photographer.value
  }

  /** The stripped text of what `query` finds, or `default`. */
  function TextOr(html: string, select: (string, string) -> Option<Tag>, query: string, default: string): string {
    match select(html, query)
    case Some(tag) => Strip(tag.text)
    case None => default
  }

  /** The record built from the asset page. */
  function RecordFromAssetPage(id: string, html: string, select: (string, string) -> Option<Tag>): DebugRecord {
    var photographer := OrUnknown(PhotographerFrom(html, select, PhotographerSelectors));
    DebugRecord(
      V2AssetUrl(id),
      photographer,
      TextOr(html, select, DateQuery, ""),
      TextOr(html, select, LocationQuery, UnknownLocation),
      id,
      photographer,
      DebugLicense)
  }

  /** The fields read from the asset page, with their defaults: no
      photographer element at all, or a blank one found first, gives
      "Unknown"; a missing date element gives ""; a missing location element
      gives "Unknown location"; an element that is found gives its stripped
      text. */
  lemma AssetPageDefaults(id: string, html: string, select: (string, string) -> Option<Tag>)
    ensures (forall k :: 0 <= k < |PhotographerSelectors| ==> select(html, PhotographerSelectors[k]).None?)
      ==> RecordFromAssetPage(id, html, select).photographer == UnknownPhotographer
    ensures PhotographerFrom(html, select, PhotographerSelectors) == Some([])
      ==> RecordFromAssetPage(id, html, select).photographer == UnknownPhotographer
    ensures select(html, DateQuery).None? ==> RecordFromAssetPage(id, html, select).date == ""
    ensures select(html, DateQuery).Some? ==>
      RecordFromAssetPage(id, html, select).date == Strip(select(html, DateQuery).value.text)
    ensures select(html, LocationQuery).None? ==> RecordFromAssetPage(id, html, select).location == UnknownLocation
    ensures select(html, LocationQuery).Some? ==>
      RecordFromAssetPage(id, html, select).location == Strip(select(html, LocationQuery).value.text)
  {
  }

  /** The result of `get_best_image_debug`: None when either page request
      raises or answers with an error status, the fallback asset when the
      species page has no usable image. */
  function DebugImage(code: string, web: string -> Reply, select: (string, string) -> Option<Tag>)
    : Option<DebugRecord>
  {
    var page := web(SpeciesPageUrl(code));
    if page.Unreachable? || RaisesForStatus(page.status) then None
    else
      var id := match AssetFromImages(page.text, select, ImageSelectors)
        case Some(a) => a
        case None => FallbackAssetId;
      var assetPage := web(AssetPageUrl(id));
      if assetPage.Unreachable? || RaisesForStatus(assetPage.status) then None
      else Some(RecordFromAssetPage(id, assetPage.text, select))
  }

  /** The first loop of `get_best_image_debug`, with the fallback after it. */
  method FindAssetId(html: string, select: (string, string) -> Option<Tag>) returns (assetId: string)
    ensures AssetFromImages(html, select, ImageSelectors).Some? ==>
      assetId == AssetFromImages(html, select, ImageSelectors).value
    ensures AssetFromImages(html, select, ImageSelectors).None? ==> assetId == FallbackAssetId
  {
    var mediaLink := false;
    assetId := "";
    for k := 0 to |ImageSelectors|
      invariant !mediaLink
      invariant AssetFromImages(html, select, ImageSelectors[k..]) == AssetFromImages(html, select, ImageSelectors)
    {
      var img := select(html, ImageSelectors[k]);
      if img.Some? {
        var src := SrcOf(img.value);
        if Contains(src, AssetMarker) {
          assetId := AssetIdFromSrc(src);
          mediaLink := true;
          break;
        }
      }
    }
    if !mediaLink {
      assetId := FallbackAssetId;
    }
  }

  /** The second loop of `get_best_image_debug`: the first selector that
      finds an element gives the photographer, blank or not. */
  method FindPhotographer(html: string, select: (string, string) -> Option<Tag>)
    returns (photographer: Option<string>)
    ensures photographer == PhotographerFrom(html, select, PhotographerSelectors)
  {
    photographer := None;
    for k := 0 to |PhotographerSelectors|
      invariant photographer.None?
      invariant PhotographerFrom(html, select, PhotographerSelectors[k..])
        == PhotographerFrom(html, select, PhotographerSelectors)
    {
      var elem := select(html, PhotographerSelectors[k]);
      if elem.Some? {
        photographer := Some(Strip(elem.value.text));
        break;
      }
    }
  }

  /** `get_best_image_debug`. */
  method GetBestImageDebug(code: string, web: string -> Reply, select: (string, string) -> Option<Tag>)
    returns (r: Option<DebugRecord>)
    ensures r == DebugImage(code, web, select)
  {
    var page := web(SpeciesPageUrl(code));
    if page.Unreachable? || RaisesForStatus(page.status) {
      return None;
    }
    var assetId := FindAssetId(page.text, select);
    assert assetId == match AssetFromImages(page.text, select, ImageSelectors)
      case Some(a) => a
      case None => FallbackAssetId;
    var assetPage := web(AssetPageUrl(assetId));
    if assetPage.Unreachable? || RaisesForStatus(assetPage.status) {
      return None;
    }
    var html := assetPage.text;
    var photographer := FindPhotographer(html, select);
    var name := OrUnknown(photographer);
    var date := TextOr(html, select, DateQuery, "");
    var location := TextOr(html, select, LocationQuery, UnknownLocation);
    r := Some(DebugRecord(V2AssetUrl(assetId), name, date, location, assetId, name, DebugLicense));
  }

  /** Whatever the pages hold, a record names a photographer, credits the
      same person as rights holder, and points at the rendition of the asset
      it was built for: either one read from the species page or the
      fallback. */
  lemma DebugImageShape(code: string, web: string -> Reply, select: (string, string) -> Option<Tag>)
    requires DebugImage(code, web, select).Some?
    ensures var r := DebugImage(code, web, select).value;
      r.photographer != [] && r.rightsHolder == r.photographer
      && r.url == V2AssetUrl(r.catalogId) && r.license == DebugLicense
      && web(SpeciesPageUrl(code)).Reply? && !RaisesForStatus(web(SpeciesPageUrl(code)).status)
      && web(AssetPageUrl(r.catalogId)).Reply? && !RaisesForStatus(web(AssetPageUrl(r.catalogId)).status)
      && (r.catalogId == FallbackAssetId
          || AssetFromImages(web(SpeciesPageUrl(code)).text, select, ImageSelectors) == Some(r.catalogId))
  {
  }

  /** When the image search settles on no id (no selector finds an image,
      or none of the images found has an asset source), the fallback asset
      is used. */
  lemma DebugImageFallback(code: string, web: string -> Reply, select: (string, string) -> Option<Tag>)
    requires web(SpeciesPageUrl(code)).Reply? && !RaisesForStatus(web(SpeciesPageUrl(code)).status)
    requires AssetFromImages(web(SpeciesPageUrl(code)).text, select, ImageSelectors).None?
    requires web(AssetPageUrl(FallbackAssetId)).Reply?
    requires !RaisesForStatus(web(AssetPageUrl(FallbackAssetId)).status)
    ensures DebugImage(code, web, select).Some?
    ensures DebugImage(code, web, select).value.catalogId == FallbackAssetId
  {
  }

  /** A blank photographer element ends the search all the same, and the
      record then says "Unknown". */
  lemma BlankPhotographerIsUnknown(html: string, select: (string, string) -> Option<Tag>, id: string)
    requires select(html, PhotographerSelectors[0]).Some?
    requires AllSpace(select(html, PhotographerSelectors[0]).value.text)
    ensures RecordFromAssetPage(id, html, select).photographer == UnknownPhotographer
  {
    StripShape(select(html, PhotographerSelectors[0]).value.text);
  }

  /** `photographer.split('(')[0].strip()` when the name holds '(', the name
      itself otherwise. */
  function CleanPhotographer(photographer: string): (r: string)
    ensures '(' in photographer ==> '(' !in r
    ensures '(' !in photographer ==> r == photographer
  {
    if '(' in photographer then
      var head := UpTo(photographer, '(');
      StripShape(head);
      Strip(head)
    else photographer
  }

  /** Cleaning a name twice changes nothing more. */
  lemma CleanPhotographerIdempotent(photographer: string)
    ensures CleanPhotographer(CleanPhotographer(photographer)) == CleanPhotographer(photographer)
  {
  }

  /** A name followed by a parenthesised remark is cut back to the name. */
  lemma CleanPhotographerCut(name: string, remark: string)
    requires '(' !in name
    ensures CleanPhotographer(name + "(" + remark) == Strip(name)
  {
    var p := name + "(" + remark;
    assert p[|name|] == '(';
    UpToStopsAt(name, '(', remark);
  }

  /** `format_credit`. */
  function FormatCredit(info: Option<DebugRecord>): (line: string)
    ensures info.None? ==> line == NoImageInformation
  {
    match info
    case None => NoImageInformation
    case Some(r) =>
      CleanPhotographer(r.photographer) + " / " + DebugLicense + " (ML" + r.catalogId + ")"
  }

  /** A photographer field carrying a parenthesised link is credited by the
      name before it; one without is credited as it stands. */
  lemma FormatCreditDropsRemark(r: DebugRecord, name: string, remark: string)
    requires '(' !in name
    ensures r.photographer == name + "(" + remark ==>
      FormatCredit(Some(r)) == Strip(name) + " / " + DebugLicense + " (ML" + r.catalogId + ")"
    ensures r.photographer == name ==>
      FormatCredit(Some(r)) == name + " / " + DebugLicense + " (ML" + r.catalogId + ")"
  {
    if r.photographer == name + "(" + remark {
      CleanPhotographerCut(name, remark);
    }
  }
}
