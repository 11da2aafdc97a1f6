/**
 * `download_ebird_images.py`: for every bird of the guide, find its eBird
 * species code, pick an image of it, download the image and write the
 * credit file beside it; then the same for the Cattle Egret under a fixed
 * code; and tally successes and failures.
 */
module DownloadEbirdImages {
  import opened Common
  import opened Text
  import opened Web
  import opened Media
  import opened Files
  import opened Download
  import opened Taxonomy
  import opened BirdEntries
  import opened SpeciesResolver

  /** `get_best_image`: the first asset on the species page (after
      `raise_for_status`), else the first asset of the catalog search. */
  function GetBestImage(code: string, web: string -> Reply): (r: Option<ImageRecord>)
    ensures r.Some? ==> Describes(r.value, r.value.catalogId)
    ensures r.Some? ==> r.value.catalogId != [] && AllDigits(r.value.catalogId)
  {
    var page := web(SpeciesPageUrl(code));
    if page.Unreachable? || RaisesForStatus(page.status) then None
    else
      match FirstAssetId(page.text)
      case Some(id) => ImageFromAsset(id, web)
      case None => ImageFromCatalog(code, web)
  }

  /** A species page that cannot be fetched, or whose status is an error,
      gives no image: the catalog is never consulted. */
  lemma BestImageNeedsSpeciesPage(code: string, web: string -> Reply)
    requires web(SpeciesPageUrl(code)).Unreachable? || RaisesForStatus(web(SpeciesPageUrl(code)).status)
    ensures GetBestImage(code, web) == None
  {
  }

  /** An asset on the species page is the one described: with its details
      when they come back with status 200, as a placeholder when they come
      back with any other status. */
  lemma BestImageFromSpeciesPage(code: string, web: string -> Reply, id: string)
    requires web(SpeciesPageUrl(code)).Reply? && !RaisesForStatus(web(SpeciesPageUrl(code)).status)
    requires FirstAssetId(web(SpeciesPageUrl(code)).text) == Some(id)
    ensures GetBestImage(code, web).Some? ==> GetBestImage(code, web).value.catalogId == id
    ensures web(DetailsUrl(id)).Reply? && web(DetailsUrl(id)).status != 200 ==>
      GetBestImage(code, web) == Some(Placeholder(id))
    ensures web(DetailsUrl(id)).Reply? && web(DetailsUrl(id)).status == 200 && web(DetailsUrl(id)).fields.Some? ==>
      GetBestImage(code, web) == Some(FromDetails(id, web(DetailsUrl(id)).fields.value))
  {
  }

  /** Without an asset on the species page, only the catalog search can give
      an image, and then always with placeholder metadata. */
  lemma BestImageFromCatalog(code: string, web: string -> Reply)
    requires web(SpeciesPageUrl(code)).Reply? && !RaisesForStatus(web(SpeciesPageUrl(code)).status)
    requires FirstAssetId(web(SpeciesPageUrl(code)).text).None?
    ensures GetBestImage(code, web).Some? ==>
      GetBestImage(code, web) == Some(Placeholder(GetBestImage(code, web).value.catalogId))
      && web(CatalogUrl(code)).Reply? && web(CatalogUrl(code)).status == 200
    ensures GetBestImage(code, web).None? <==>
      (web(CatalogUrl(code)).Unreachable? || web(CatalogUrl(code)).status != 200
       || FirstAssetId(web(CatalogUrl(code)).text).None?)
  {
  }

  /** `download_image` succeeds on this stream: nothing raised and the file
      it wrote is not empty. */
  predicate Saves(st: Stream) {
    Completes(st) && Written(st.chunks) != []
  }

  /** The files after `download_image` wrote `credit`'s image from `st` to
      `path`: the image and its credit file when it succeeded, the image
      file removed when it did not. */
  function AfterDownload(files: map<string, Content>, path: string, credit: ImageRecord, st: Stream)
    : map<string, Content>
  {
    if Saves(st) then files[path := Bytes(Written(st.chunks))][CreditPath(path) := Text(CreditText(credit))]
    else files - {path}
  }

  /** Only the image file and its credit file can change. */
  lemma AfterDownloadFrame(files: map<string, Content>, path: string, credit: ImageRecord, st: Stream)
    ensures SameOutside(files, AfterDownload(files, path, credit, st), FilePair(path))
  {
  }

  /** An image path and the credit path beside it. */
  function FilePair(path: string): set<string> {
    {path, CreditPath(path)}
  }

  /** `download_image`: stream the image into `filename`; if the file is not
      empty, write the credit file and succeed; otherwise, and on any
      exception, remove the image file and fail. */
  method DownloadImage(fs: FileSystem, stream: Stream, filename: string, credit: ImageRecord)
    returns (ok: bool)
    modifies fs
    ensures ok <==> Completes(stream) && Written(stream.chunks) != []
    ensures ok ==> fs.files == old(fs.files)[filename := Bytes(Written(stream.chunks))]
                                            [CreditPath(filename) := Text(CreditText(credit))]
    ensures !ok ==> fs.files == old(fs.files) - {filename}
  {
    if !OpensFile(stream) {
      // raise_for_status or int(content-length) raised
      fs.RemoveIfExists(filename);
      return false;
    }
    var downloaded := SaveChunks(fs, filename, stream.chunks);
    if stream.interrupted {
      fs.RemoveIfExists(filename);
      assert fs.files == old(fs.files) - {filename};
      return false;
    }
    if fs.Exists(filename) && Size(fs.files[filename]) > 0 {
      fs.WriteText(CreditPath(filename), CreditText(credit));
      return true;
    }
    fs.RemoveIfExists(filename);
    assert fs.files == old(fs.files) - {filename};
    return false;
  }

  /** `bird['common_name'].lower().replace(' ', '-') + '.jpg'`. */
  function ImageFileName(common: string): string {
    ReplaceAll(Lower(common), " ", "-") + ".jpg"
  }

  /** The image file name of a bird never holds a space. */
  lemma ImageFileNameHasNoSpace(common: string)
    ensures ' ' !in ImageFileName(common)
  {
    ReplaceCharRemovesIt(Lower(common), ' ', "-");
  }

  function ImagePath(imagesDir: string, common: string): string {
    imagesDir + "/" + ImageFileName(common)
  }

  const CattleEgretCode := "categr2"
  const CattleEgretName := "Cattle Egret"

  function CattleEgretPath(imagesDir: string): string {
    imagesDir + "/cattle-egret.jpg"
  }

  /** How one bird of the batch ended. */
  datatype Outcome = AlreadyPresent | Downloaded | NoSpeciesCode | NoImage | DownloadFailed

  predicate Succeeded(o: Outcome) {
    o.AlreadyPresent? || o.Downloaded?
  }

  /** The reason recorded in `failed_birds` for a failure. */
  function Reason(o: Outcome): string
    requires !Succeeded(o)
  {
    match o
    case NoSpeciesCode => "No species code found"
    case NoImage => "No image found"
    case DownloadFailed => "Download failed"
  }

  /** One entry of `failed_birds`. */
  datatype Failure = Failure(bird: string, reason: string)

  /** How many outcomes are successes. */
  function Successes(outcomes: seq<Outcome>): nat {
    if outcomes == [] then 0
    else Successes(outcomes[..|outcomes| - 1]) + (if Succeeded(outcomes[|outcomes| - 1]) then 1 else 0)
  }

  /** The failures, in order, each with the name of its bird: outcome `k`
      belongs to the bird named `names[k]`. */
  function Failures(names: seq<string>, outcomes: seq<Outcome>): seq<Failure>
    requires |outcomes| <= |names|
  {
    if outcomes == [] then []
    else
      var n := |outcomes| - 1;
      Failures(names, outcomes[..n])
        + (if Succeeded(outcomes[n]) then [] else [Failure(names[n], Reason(outcomes[n]))])
  }

  /** Every outcome is counted exactly once, as a success or as a failure. */
  lemma {:induction false} TallyAddsUp(names: seq<string>, outcomes: seq<Outcome>)
    requires |outcomes| <= |names|
    ensures Successes(outcomes) + |Failures(names, outcomes)| == |outcomes|
    decreases |outcomes|
  {
    if outcomes != [] {
      var n := |outcomes| - 1;
      TallyAddsUp(names, outcomes[..n]);
    }
  }

  /** Every recorded reason is one of the three the script prints. */
  lemma {:induction false} FailureReasons(names: seq<string>, outcomes: seq<Outcome>)
    requires |outcomes| <= |names|
    ensures forall f :: f in Failures(names, outcomes) ==>
      f.reason in ["No species code found", "No image found", "Download failed"]
    decreases |outcomes|
  {
    if outcomes != [] {
      var n := |outcomes| - 1;
      FailureReasons(names, outcomes[..n]);
    }
  }

  function CommonNames(birds: seq<BirdQuery>): (names: seq<string>)
    ensures |names| == |birds|
    ensures forall k :: 0 <= k < |birds| ==> names[k] == birds[k].commonName
  {
    if birds == [] then [] else [birds[0].commonName] + CommonNames(birds[1..])
  }

  /** What each outcome says about the lookups and the download made for
      the bird: no code (or an empty one), no image for the code, or an image
      whose stream then saved a file or did not. */
  predicate Explains(o: Outcome, code: Option<string>, web: string -> Reply, streams: string -> Stream) {
    match o
    case AlreadyPresent => true
    case NoSpeciesCode => code.None? || code.value == ""
    case NoImage => code.Some? && code.value != "" && GetBestImage(code.value, web).None?
    case Downloaded =>
      code.Some? && code.value != "" && GetBestImage(code.value, web).Some?
      && Saves(streams(GetBestImage(code.value, web).value.url))
    case DownloadFailed =>
      code.Some? && code.value != "" && GetBestImage(code.value, web).Some?
      && !Saves(streams(GetBestImage(code.value, web).value.url))
  }

  /** The files after the step for one bird with image path `path` ended in
      `o`: unchanged unless a download was attempted, and then as
      `download_image` left them. */
  function AfterStep(files: map<string, Content>, path: string, o: Outcome, code: Option<string>,
                     web: string -> Reply, streams: string -> Stream): map<string, Content>
    requires Explains(o, code, web, streams)
  {
    if o.Downloaded? || o.DownloadFailed? then
      var img := GetBestImage(code.value, web).value;
      AfterDownload(files, path, img, streams(img.url))
    else files
  }

  /** The step for one bird touches at most its image file and the credit
      file beside it. */
  lemma AfterStepFrame(files: map<string, Content>, path: string, o: Outcome, code: Option<string>,
                       web: string -> Reply, streams: string -> Stream)
    requires Explains(o, code, web, streams)
    ensures SameOutside(files, AfterStep(files, path, o, code, web, streams), FilePair(path))
  {
    if o.Downloaded? || o.DownloadFailed? {
      var img := GetBestImage(code.value, web).value;
      AfterDownloadFrame(files, path, img, streams(img.url));
    }
  }

  /** The image step shared by the loop and the Cattle Egret step. */
  method FetchImage(fs: FileSystem, path: string, code: string,
                    web: string -> Reply, streams: string -> Stream)
    returns (o: Outcome)
    modifies fs
    ensures code != "" ==> Explains(o, Some(code), web, streams)
    ensures o.NoImage? || o.Downloaded? || o.DownloadFailed?
    ensures o.NoImage? <==> GetBestImage(code, web).None?
    ensures o.NoImage? ==> fs.files == old(fs.files)
    ensures !o.NoImage? ==>
      var img := GetBestImage(code, web).value;
      (o.Downloaded? <==> Saves(streams(img.url)))
      && fs.files == AfterDownload(old(fs.files), path, img, streams(img.url))
  {
    var info := GetBestImage(code, web);
    if info.None? {
      return NoImage;
    }
    var ok := DownloadImage(fs, streams(info.value.url), path, info.value);
    o := if ok then Downloaded else DownloadFailed;
  }

  /** One pass of `main`'s loop: an image already on disk counts as done;
      otherwise look up the code, then the image, then download it. */
  method ProcessBird(fs: FileSystem, imagesDir: string, bird: BirdQuery,
                     taxonomy: Option<seq<Row>>, web: string -> Reply, streams: string -> Stream)
    returns (o: Outcome)
    modifies fs
    ensures Explains(o, Resolve(taxonomy, bird.commonName, bird.latinName), web, streams)
    ensures o.AlreadyPresent? <==> old(fs.Exists(ImagePath(imagesDir, bird.commonName)))
    ensures fs.files == AfterStep(old(fs.files), ImagePath(imagesDir, bird.commonName), o,
                                  Resolve(taxonomy, bird.commonName, bird.latinName), web, streams)
  {
    var path := ImagePath(imagesDir, bird.commonName);
    if fs.Exists(path) {
      return AlreadyPresent;
    }
    var code := GetEbirdSpeciesCode(taxonomy, bird.commonName, bird.latinName);
    if code.None? || code.value == "" {
      // `if not species_code` also rejects an empty code
      return NoSpeciesCode;
    }
    o := FetchImage(fs, path, code.value, web, streams);
  }

  /** The Cattle Egret step after the loop: the fixed code "categr2" and the
      fixed file "cattle-egret.jpg". */
  method ProcessCattleEgret(fs: FileSystem, imagesDir: string,
                            web: string -> Reply, streams: string -> Stream)
    returns (o: Outcome)
    modifies fs
    ensures Explains(o, Some(CattleEgretCode), web, streams)
    ensures o.AlreadyPresent? <==> old(fs.Exists(CattleEgretPath(imagesDir)))
    ensures fs.files == AfterStep(old(fs.files), CattleEgretPath(imagesDir), o, Some(CattleEgretCode), web, streams)
  {
    if fs.Exists(CattleEgretPath(imagesDir)) {
      return AlreadyPresent;
    }
    o := FetchImage(fs, CattleEgretPath(imagesDir), CattleEgretCode, web, streams);
  }

  /** The image paths and credit paths of the first birds of the guide. */
  function BirdPaths(imagesDir: string, birds: seq<BirdQuery>): set<string> {
    if birds == [] then {}
    else BirdPaths(imagesDir, birds[..|birds| - 1]) + FilePair(ImagePath(imagesDir, birds[|birds| - 1].commonName))
  }

  /** One bird's step took the files from `before` to `after` with image path
      `path` and ended in `o`: the outcome is explained by the lookups and
      the download, it is "already present" exactly when the image file
      existed, and the files changed as that outcome says. */
  ghost predicate BirdStep(before: map<string, Content>, after: map<string, Content>, path: string,
                           o: Outcome, code: Option<string>, web: string -> Reply, streams: string -> Stream) {
    Explains(o, code, web, streams)
    && (o.AlreadyPresent? <==> path in before)
    && after == AfterStep(before, path, o, code, web, streams)
  }

  /** `main`'s loop over the birds of the guide: every bird gets exactly one
      outcome, and `states[k]` are the files before step `k`; each step
      follows from the files before it as `BirdStep` says. Successes are
      counted and failures listed with their reason, and no file other than
      the birds' image and credit files changes. */
  method RunBirds(fs: FileSystem, imagesDir: string, birds: seq<BirdQuery>,
                  taxonomy: Option<seq<Row>>, web: string -> Reply, streams: string -> Stream)
    returns (successCount: nat, failed: seq<Failure>, ghost outcomes: seq<Outcome>,
             ghost states: seq<map<string, Content>>)
    modifies fs
    ensures |outcomes| == |birds| && |states| == |birds| + 1
    ensures states[0] == old(fs.files) && fs.files == states[|birds|]
    ensures forall k :: 0 <= k < |birds| ==>
      BirdStep(states[k], states[k + 1], ImagePath(imagesDir, birds[k].commonName), outcomes[k],
               Resolve(taxonomy, birds[k].commonName, birds[k].latinName), web, streams)
    ensures successCount == Successes(outcomes)
    ensures failed == Failures(CommonNames(birds) + [CattleEgretName], outcomes)
    ensures SameOutside(old(fs.files), fs.files, BirdPaths(imagesDir, birds))
  {
    ghost var names := CommonNames(birds) + [CattleEgretName];
    successCount := 0;
    failed := [];
    outcomes := [];
    states := [fs.files];
    for i := 0 to |birds|
      invariant |outcomes| == i && |states| == i + 1
      invariant states[0] == old(fs.files) && states[i] == fs.files
      invariant successCount == Successes(outcomes)
      invariant failed == Failures(names, outcomes)
      invariant forall k :: 0 <= k < i ==>
        BirdStep(states[k], states[k + 1], ImagePath(imagesDir, birds[k].commonName), outcomes[k],
                 Resolve(taxonomy, birds[k].commonName, birds[k].latinName), web, streams)
      invariant SameOutside(old(fs.files), fs.files, BirdPaths(imagesDir, birds[..i]))
    {
      var bird := birds[i];
      ghost var before := fs.files;
      var o := ProcessBird(fs, imagesDir, bird, taxonomy, web, streams);
      BirdStepFrame(old(fs.files), before, fs.files, imagesDir, birds, i, o, taxonomy, web, streams);
      Tally(names, outcomes, o, successCount, failed);
      StepsSoFar(imagesDir, birds, taxonomy, web, streams, outcomes, states, o, fs.files);
      if Succeeded(o) {
        successCount := successCount + 1;
      } else {
        failed := failed + [Failure(bird.commonName, Reason(o))];
      }
      outcomes := outcomes + [o];
      states := states + [fs.files];
    }
    assert birds[..|birds|] == birds;
  }

  /** `main`'s loop and the Cattle Egret step: every bird gets exactly one
      outcome, and `states[k]` are the files before step `k`; each step is
      explained by its own lookups, by whether its image file existed and by
      whether its download succeeded, and it changes the files as that says.
      Successes are counted and failures listed with their reason, so that
      the summary's two numbers add up to the number of birds plus one; and
      no file other than the birds' image and credit files changes.
      `taxonomy` is what `fetch_taxonomy` returned for the run. */
  method RunBatch(fs: FileSystem, imagesDir: string, birds: seq<BirdQuery>,
                  taxonomy: Option<seq<Row>>, web: string -> Reply, streams: string -> Stream)
    returns (successCount: nat, failed: seq<Failure>, ghost outcomes: seq<Outcome>,
             ghost states: seq<map<string, Content>>)
    modifies fs
    ensures |outcomes| == |birds| + 1 && |states| == |birds| + 2
    ensures states[0] == old(fs.files) && fs.files == states[|birds| + 1]
    ensures forall k :: 0 <= k < |birds| ==>
      BirdStep(states[k], states[k + 1], ImagePath(imagesDir, birds[k].commonName), outcomes[k],
               Resolve(taxonomy, birds[k].commonName, birds[k].latinName), web, streams)
    ensures BirdStep(states[|birds|], states[|birds| + 1], CattleEgretPath(imagesDir), outcomes[|birds|],
                     Some(CattleEgretCode), web, streams)
    ensures successCount == Successes(outcomes)
    ensures failed == Failures(CommonNames(birds) + [CattleEgretName], outcomes)
    ensures successCount + |failed| == |birds| + 1
    ensures forall k :: 0 <= k < |birds| ==>
      Explains(outcomes[k], Resolve(taxonomy, birds[k].commonName, birds[k].latinName), web, streams)
    ensures Explains(outcomes[|birds|], Some(CattleEgretCode), web, streams)
    ensures SameOutside(old(fs.files), fs.files, BirdPaths(imagesDir, birds) + FilePair(CattleEgretPath(imagesDir)))
  {
    ghost var names := CommonNames(birds) + [CattleEgretName];
    successCount, failed, outcomes, states := RunBirds(fs, imagesDir, birds, taxonomy, web, streams);
    ghost var before := fs.files;
    var o := ProcessCattleEgret(fs, imagesDir, web, streams);
    AfterStepFrame(before, CattleEgretPath(imagesDir), o, Some(CattleEgretCode), web, streams);
    SameOutsideTrans(old(fs.files), before, fs.files, BirdPaths(imagesDir, birds), FilePair(CattleEgretPath(imagesDir)));
    Tally(names, outcomes, o, successCount, failed);
    if Succeeded(o) {
      successCount := successCount + 1;
    } else {
      failed := failed + [Failure(CattleEgretName, Reason(o))];
    }
    LastStep(imagesDir, birds, taxonomy, web, streams, outcomes, states, o, fs.files);
    outcomes := outcomes + [o];
    states := states + [fs.files];
    TallyAddsUp(names, outcomes);
  }

  /** The files kept by the first `i` birds' steps stay kept after bird `i`'s
      step, outside the paths of the first `i + 1` birds. */
  lemma BirdStepFrame(start: map<string, Content>, before: map<string, Content>, after: map<string, Content>,
                      imagesDir: string, birds: seq<BirdQuery>, i: nat, o: Outcome,
                      taxonomy: Option<seq<Row>>, web: string -> Reply, streams: string -> Stream)
    requires i < |birds|
    requires SameOutside(start, before, BirdPaths(imagesDir, birds[..i]))
    requires Explains(o, Resolve(taxonomy, birds[i].commonName, birds[i].latinName), web, streams)
    requires after == AfterStep(before, ImagePath(imagesDir, birds[i].commonName), o,
                                Resolve(taxonomy, birds[i].commonName, birds[i].latinName), web, streams)
    ensures SameOutside(start, after, BirdPaths(imagesDir, birds[..i + 1]))
  {
    var path := ImagePath(imagesDir, birds[i].commonName);
    AfterStepFrame(before, path, o, Resolve(taxonomy, birds[i].commonName, birds[i].latinName), web, streams);
    SameOutsideTrans(start, before, after, BirdPaths(imagesDir, birds[..i]), FilePair(path));
    assert birds[..i + 1][..i] == birds[..i];
  }

  /** The steps recorded so far, with one more appended, each follow from
      the files before them. */
  lemma StepsSoFar(imagesDir: string, birds: seq<BirdQuery>, taxonomy: Option<seq<Row>>,
                   web: string -> Reply, streams: string -> Stream,
                   outcomes: seq<Outcome>, states: seq<map<string, Content>>,
                   o: Outcome, after: map<string, Content>)
    requires |outcomes| < |birds| && |states| == |outcomes| + 1
    requires forall k :: 0 <= k < |outcomes| ==>
      BirdStep(states[k], states[k + 1], ImagePath(imagesDir, birds[k].commonName), outcomes[k],
               Resolve(taxonomy, birds[k].commonName, birds[k].latinName), web, streams)
    requires var n := |outcomes|;
      BirdStep(states[n], after, ImagePath(imagesDir, birds[n].commonName), o,
               Resolve(taxonomy, birds[n].commonName, birds[n].latinName), web, streams)
    ensures forall k :: 0 <= k < |outcomes| + 1 ==>
      BirdStep((states + [after])[k], (states + [after])[k + 1], ImagePath(imagesDir, birds[k].commonName),
               (outcomes + [o])[k], Resolve(taxonomy, birds[k].commonName, birds[k].latinName), web, streams)
  {
    var s := states + [after];
    var os := outcomes + [o];
    forall k | 0 <= k < |outcomes| + 1
      ensures BirdStep(s[k], s[k + 1], ImagePath(imagesDir, birds[k].commonName), os[k],
                       Resolve(taxonomy, birds[k].commonName, birds[k].latinName), web, streams)
    {
      assert s[k] == states[k];
      if k < |outcomes| {
        assert s[k + 1] == states[k + 1] && os[k] == outcomes[k];
      } else {
        assert s[k + 1] == after && os[k] == o;
      }
    }
  }

  /** The Cattle Egret step, appended after the birds' steps, and every step
      explains its outcome. */
  lemma LastStep(imagesDir: string, birds: seq<BirdQuery>, taxonomy: Option<seq<Row>>,
                 web: string -> Reply, streams: string -> Stream,
                 outcomes: seq<Outcome>, states: seq<map<string, Content>>,
                 o: Outcome, after: map<string, Content>)
    requires |outcomes| == |birds| && |states| == |birds| + 1
    requires forall k :: 0 <= k < |birds| ==>
      BirdStep(states[k], states[k + 1], ImagePath(imagesDir, birds[k].commonName), outcomes[k],
               Resolve(taxonomy, birds[k].commonName, birds[k].latinName), web, streams)
    requires BirdStep(states[|birds|], after, CattleEgretPath(imagesDir), o, Some(CattleEgretCode), web, streams)
    ensures forall k :: 0 <= k < |birds| ==>
      BirdStep((states + [after])[k], (states + [after])[k + 1], ImagePath(imagesDir, birds[k].commonName),
               (outcomes + [o])[k], Resolve(taxonomy, birds[k].commonName, birds[k].latinName), web, streams)
      && Explains((outcomes + [o])[k], Resolve(taxonomy, birds[k].commonName, birds[k].latinName), web, streams)
    ensures BirdStep((states + [after])[|birds|], (states + [after])[|birds| + 1], CattleEgretPath(imagesDir),
                     (outcomes + [o])[|birds|], Some(CattleEgretCode), web, streams)
  {
    var s := states + [after];
    var os := outcomes + [o];
    forall k | 0 <= k < |birds|
      ensures BirdStep(s[k], s[k + 1], ImagePath(imagesDir, birds[k].commonName), os[k],
                       Resolve(taxonomy, birds[k].commonName, birds[k].latinName), web, streams)
        && Explains(os[k], Resolve(taxonomy, birds[k].commonName, birds[k].latinName), web, streams)
    {
      assert s[k] == states[k] && s[k + 1] == states[k + 1] && os[k] == outcomes[k];
    }
    assert s[|birds|] == states[|birds|] && s[|birds| + 1] == after && os[|birds|] == o;
  }

  /** One step of the tally: appending an outcome adds one success or one
      failure named after its bird. */
  lemma Tally(names: seq<string>, outcomes: seq<Outcome>, o: Outcome,
              successCount: nat, failed: seq<Failure>)
    requires |outcomes| < |names|
    requires successCount == Successes(outcomes)
    requires failed == Failures(names, outcomes)
    ensures Successes(outcomes + [o]) == successCount + (if Succeeded(o) then 1 else 0)
    ensures Failures(names, outcomes + [o]) ==
      failed + (if Succeeded(o) then [] else [Failure(names[|outcomes|], Reason(o))])
  {
    assert (outcomes + [o])[..|outcomes|] == outcomes;
  }
}
