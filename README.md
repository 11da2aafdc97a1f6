# Bird guide image fetcher, modelled in Dafny

The bird guide's `scripts/` directory holds three Python scripts. This project models their decision core.

`download_ebird_images.py` runs a batch over the guide:

- It scans the LaTeX source for `\birdentry{common}{\textit{latin}}` entries.
- It brings each Latin name up to date through a fixed table of taxonomic renames.
- It resolves each bird to an eBird species code with a four-tier search over the eBird taxonomy table:
  1. the scientific name, ignoring case;
  2. the common name, ignoring case;
  3. a fixed table of alternative common names;
  4. the genus, as a prefix of the scientific name.
- It picks an image from the species page, or from the Macaulay Library catalog.
- It streams the image to disk and writes a three-line credit file beside it.
- It counts successes and lists failures, including a separately handled Cattle Egret step.

`get_ebird_code.py` is a standalone variant with three differences:

- it resolves a species code in a single pass over the JSON taxonomy;
- its image lookup insists on a 200 status;
- its download keeps an empty file instead of deleting it.

`credit_test.py` is a scraping variant of the image lookup. It searches the species page and the asset page with CSS selectors and formats a one-line credit.

The model treats the outside world as given values:

- **Web requests.** Every request is answered by `web: string -> Reply`. A reply is a status, a body and the body's JSON fields, or `Unreachable` for an exception before any reply.
- **Image downloads.** Each download is given as a `Stream` of byte chunks that may be refused or break off.
- **The taxonomy.** It is the `Option<seq<Row>>` that the run's fetch produced.
- **HTML selectors.** What a selector finds in a page is given by `select(html, query)`.
- **The filesystem.** It is a class `Files.FileSystem` whose `files` map each path to the bytes or text last written there. The download methods change it in place.

Behaviour that follows the code rather than a looser reading of it:

- **`raise_for_status`** raises only for statuses 400 to 599. Any other status, including 3xx and 204, goes on as the script does.
- **The `not species_code` test in `main`** also rejects an empty code.
- **A blank Latin name** that reaches the genus tier makes `split()[0]` raise. The handler then returns None.
- **The two `'Asian Koel'` keys.** The second list, `['Koel', 'Common Koel']`, is the one in force.
- **`src.split('/asset/')[-1]`** is the text after the last cut that `split` makes. `split` cuts from left to right without overlap, so for `"x/asset/asset/123/"` the last piece is the rest of the string after the first `/asset/`, `asset/123/`. The id is therefore `asset`, not the number after the second occurrence.
- **The credit file** always has the three lines `photographer - location`, the license, and `ML` + the catalog id. Empty fields are not dropped, and the date and rights holder do not appear in it.
- **A file name without ".jpg"** is its own credit path, so the credit text would replace the image.

## Model

| member | source | states |
|---|---|---|
| BirdEntries.Normalize | scripts/download_ebird_images.py:133 | `TAXONOMIC_UPDATES.get(latin, latin)` over the literal table. Its properties are stated by NormalizeIdempotent and NormalizeWaterhen. |
| BirdEntries.NormalizeIdempotent | scripts/download_ebird_images.py:14-63 | Normalising a Latin name twice gives the same name as normalising it once. Every renamed value in the table is either not a key or is mapped to itself. |
| BirdEntries.NormalizeWaterhen | scripts/download_ebird_images.py:17 | The Waterhen's old name `Amaurornis phoenicurus` becomes `Zapornia phoenicurus`, and the new name is left as it is. |
| BirdEntries.MatchEntry | scripts/download_ebird_images.py:125-126 | A match of the entry pattern at the start of the text spans at least one character and no more than the text. Neither captured group holds `}`. |
| BirdEntries.MatchEntrySound | scripts/download_ebird_images.py:125-126 | A match covers exactly `\birdentry{X}{\textit{Y}` for its two groups X and Y. |
| BirdEntries.MatchEntryComplete | scripts/download_ebird_images.py:125-126 | An entry whose groups hold no `}` is always matched, with exactly those groups and length, whatever text follows. |
| BirdEntries.Matches | scripts/download_ebird_images.py:126-129 | `re.finditer` for the entry pattern: try a match at each position from left to right, and resume after a match. Its properties are stated by MatchesAfterEntry and ExtractRendered. |
| BirdEntries.MatchesAfterEntry | scripts/download_ebird_images.py:126-129 | `finditer` over a complete entry followed by more text yields that entry's match first, then resumes after it and yields exactly the matches of the rest. |
| BirdEntries.QueriesAt | scripts/download_ebird_images.py:128-137 | The i-th record is built from the i-th match: its common name is group 1 and its Latin name is group 2 passed through `TAXONOMIC_UPDATES.get`. |
| BirdEntries.ExtractBirdInfo | scripts/download_ebird_images.py:119-138 | The method's loop over the matches of `finditer` returns one record per non-overlapping match, left to right. Each record is `(X, TAXONOMIC_UPDATES.get(Y, Y))` for the match's groups X and Y. |
| BirdEntries.ExtractedNamesAreClean | scripts/download_ebird_images.py:125-137 | No extracted common name holds `}`. Every extracted Latin name is already in its current form, so normalising it again changes nothing. |
| BirdEntries.ExtractRendered | scripts/download_ebird_images.py:119-138 | Extracting from the markup of a list of birds gives back the same birds, in order, with their Latin names normalised. |
| Taxonomy.FirstHit | scripts/download_ebird_images.py:150-154 | The first accepted row of the whole table. FirstHitIs and FirstHitNone state its properties. |
| Taxonomy.FirstHitFrom | scripts/download_ebird_images.py:150-154 | A linear search for the first row at or after an index that the criterion accepts. It returns that row's index, or None when no row from there on is accepted. |
| Taxonomy.FirstHitIs | scripts/download_ebird_images.py:150-154 | If row i is accepted and no earlier row is, the search returns i. |
| Taxonomy.FirstHitNone | scripts/download_ebird_images.py:150-154 | The search finds nothing if and only if no row is accepted. |
| Taxonomy.FirstHitSameRows | scripts/get_ebird_code.py:30-36 | Two criteria that accept the same rows find the same row. |
| Taxonomy.HitIgnoresKeyCase | scripts/download_ebird_images.py:152 | The scientific-name criterion and the genus criterion give the same answer for a name and for its lowered form. |
| Taxonomy.FindRow | scripts/download_ebird_images.py:150-154 | One `for row in taxonomy_data` loop with an early return. The index it returns from is the first accepted row. |
| SpeciesResolver.AsianKoelVariants | scripts/download_ebird_images.py:69-83 | Of the two `'Asian Koel'` keys, the later one (line 83) is in force, with the list `['Koel', 'Common Koel']`. |
| SpeciesResolver.VariantHit | scripts/download_ebird_images.py:163-168 | A hit of the variant tier is an index of the table. |
| SpeciesResolver.VariantHitNone | scripts/download_ebird_images.py:163-168 | The variant tier finds nothing if and only if no variant matches any row's common name, ignoring case. |
| SpeciesResolver.VariantHitHere | scripts/download_ebird_images.py:164-168 | From the k-th variant on, the search returns that variant's first matching row if it has one, and otherwise goes on with the next variant. |
| SpeciesResolver.VariantsOf | scripts/download_ebird_images.py:163-164 | The variant list of a common name: `COMMON_NAME_VARIANTS[common_name]` when it is a key, and no variants otherwise. |
| SpeciesResolver.ChosenRow | scripts/download_ebird_images.py:140-183 | The row chosen by the four tiers, when there is one, is an index of the table. |
| SpeciesResolver.Resolve | scripts/download_ebird_images.py:140-183 | `get_ebird_species_code` as a function of the run's taxonomy. Its properties are stated by the ResolveBy lemmas, ResolveNoneIff and ResolveIgnoresLatinCase. |
| SpeciesResolver.ResolveWith | scripts/download_ebird_images.py:140-183 | Resolve with the variant list given: no code without a non-empty taxonomy, otherwise the code of the chosen row. |
| SpeciesResolver.GetEbirdSpeciesCode | scripts/download_ebird_images.py:140-183 | The method's four loops with early returns give exactly the code that the tiered resolution `Resolve` describes. |
| SpeciesResolver.NoTaxonomyNoCode | scripts/download_ebird_images.py:143-146 | When the taxonomy is missing or empty, no code is returned. |
| SpeciesResolver.ResolveByScientificName | scripts/download_ebird_images.py:150-154 | The first row whose scientific name matches, ignoring case, decides the result, whatever the common names say. |
| SpeciesResolver.ResolveByCommonName | scripts/download_ebird_images.py:157-160 | When no row matches scientifically, the first row whose common name matches, ignoring case, decides the result. |
| SpeciesResolver.ResolveByVariant | scripts/download_ebird_images.py:163-168 | This tier applies only when the common name is literally a key of the variants table and both earlier tiers miss. The first variant, in list order, that matches some row picks the first row it matches. |
| SpeciesResolver.VariantHitAt | scripts/download_ebird_images.py:163-168 | The variant search lands on the first matching row of the first variant that matches at all. |
| SpeciesResolver.ResolveByGenus | scripts/download_ebird_images.py:171-175 | When the first three tiers miss, the result is the first row whose lowered scientific name starts with the lowered first whitespace token of the Latin name. |
| SpeciesResolver.ResolveBlankLatin | scripts/download_ebird_images.py:171-183 | An empty or blank Latin name that reaches the genus tier yields None. |
| SpeciesResolver.ResolvedCodeIsFromTable | scripts/download_ebird_images.py:140-183 | Any code returned is the species code of some row of the table. |
| SpeciesResolver.ChosenRowNoneIff | scripts/download_ebird_images.py:150-175 | For any table and list of variants, all four tiers miss if and only if no row matches the scientific name, none matches the common name, none matches any variant, and, when the Latin name has a first word, none matches that genus. |
| SpeciesResolver.ResolveNoneIff | scripts/download_ebird_images.py:140-183 | No code is returned if and only if one of these holds: the taxonomy is missing or empty; or every tier misses, with the genus tier counting as a miss for a blank Latin name. |
| SpeciesResolver.ResolveIgnoresLatinCase | scripts/download_ebird_images.py:152 | Lowering the Latin name never changes the code returned. |
| SpeciesResolver.ScientificTierIgnoresCase | scripts/download_ebird_images.py:152 | The scientific-name tier picks the same row for a Latin name and for its lowered form. |
| SpeciesResolver.GenusTierIgnoresCase | scripts/download_ebird_images.py:171-173 | Lowering the Latin name neither creates nor removes its first word, and the genus tier picks the same row for both forms. |
| SpeciesResolver.ChosenRowSameTiers | scripts/download_ebird_images.py:150-175 | Two Latin names that agree on tiers one and four pick the same row overall; tiers two and three do not look at the Latin name. |
| SpeciesResolver.ChosenRowIgnoresLatinCase | scripts/download_ebird_images.py:171-173 | For any list of variants, the row chosen does not depend on the case of the Latin name. |
| SpeciesResolver.BlackKiteResolves | scripts/credit_test.py:120-125 | A table holding the Black Kite under `Milvus migrans` resolves the test bird to that row's code, provided no earlier row matches `Milvus migrans` scientifically. |
| Text.FirstToken | scripts/download_ebird_images.py:171 | `split()[0]` is absent exactly when the name is blank; otherwise it is a non-empty run of non-space characters. |
| Text.FirstTokenShape | scripts/download_ebird_images.py:171 | `split()[0]` follows nothing but whitespace in the name, and it ends at whitespace or at the end of the name. |
| Text.Lower | scripts/download_ebird_images.py:152 | `lower()` keeps the length and lowers each character in place. |
| Text.LowerIdempotent | scripts/download_ebird_images.py:152 | Lowering twice is lowering once. |
| Text.Strip | scripts/credit_test.py:69 | `str.strip()`. Its properties are stated by StripShape and StripIdempotent. |
| Text.TrimLeftShape | scripts/credit_test.py:69 | The left half of `strip()`: what remains is a suffix, everything cut off is whitespace, and what remains does not start with whitespace. |
| Text.TrimRightShape | scripts/credit_test.py:69 | The right half of `strip()`: what remains is a prefix, everything cut off is whitespace, and what remains does not end with whitespace. |
| Text.StripShape | scripts/credit_test.py:69 | `strip()` gives a slice of the text with only whitespace around it, and the result neither starts nor ends with whitespace. |
| Text.StripIdempotent | scripts/credit_test.py:113 | Stripping a stripped text changes nothing. |
| Text.TakeTokenShape | scripts/download_ebird_images.py:171 | The first word is a prefix holding no whitespace, and it ends at whitespace or at the end of the text. |
| Text.FindFromSpec | scripts/credit_test.py:35 | The search for a substring returns an occurrence with none before it from the start position, or None when there is no occurrence from there on. |
| Text.ContainsIff | scripts/credit_test.py:35 | `'/asset/' in src` holds if and only if the text has an occurrence of the pattern. |
| Text.SplitOn | scripts/credit_test.py:36 | `split(sep)` always gives at least one piece. |
| Text.SplitOnPiecesAvoidSeparator | scripts/credit_test.py:36 | No piece of `split(sep)` contains `sep`. |
| Text.LastPiece | scripts/credit_test.py:36 | `split(sep)[-1]`, computed by cutting at the first occurrence until none is left. LastPieceIsLastOfSplit and SplitOnLast state its properties. |
| Text.LastPieceIsLastOfSplit | scripts/credit_test.py:36 | The text after the last cut is `split(sep)[-1]`. |
| Text.SplitOnLast | scripts/credit_test.py:36 | The last piece of `split(sep)` is a suffix of the string. It is preceded by `sep` when there was a cut, and is the whole string when there was none. |
| Text.UpTo | scripts/credit_test.py:36 | `split(c)[0]`: the result never holds `c` and is no longer than the input. |
| Text.UpToShape | scripts/credit_test.py:36 | The text up to a character is a prefix that stops right at the first occurrence of that character, or at the end of the text. |
| Text.UpToIsFirstPiece | scripts/credit_test.py:113 | The text up to the first occurrence of a character is `split(c)[0]`. |
| Text.ReplaceAll | scripts/download_ebird_images.py:331 | `str.replace`, as the pieces of `split(target)` joined with the replacement. JoinSplitOn and ReplaceCharRemovesIt state its properties. |
| Text.JoinSplitOn | scripts/download_ebird_images.py:331 | Joining the pieces of `split(sep)` with `sep` gives back the string. This is the basis of `replace`. |
| Text.ReplaceCharRemovesIt | scripts/download_ebird_images.py:331 | Replacing a character with a string that does not contain it leaves no occurrence of that character. |
| Media.DigitRun | scripts/download_ebird_images.py:200 | `\d+` is taken greedily: a prefix made of digits only, followed by a non-digit or by the end of the text. |
| Media.DigitRunStops | scripts/download_ebird_images.py:200 | The digit run stops at the first non-digit, whatever follows it. |
| Media.FirstAssetFrom | scripts/download_ebird_images.py:200 | The leftmost position at which the CDN prefix is followed by a digit. |
| Media.FirstAssetId | scripts/download_ebird_images.py:200-203 | `findall(...)[0]`, when there is one, is a non-empty run of ASCII digits. |
| Media.AssetUrlRoundTrip | scripts/get_ebird_code.py:65-77 | Scanning the image URL built from an id reads back that same id. |
| Media.Placeholder | scripts/get_ebird_code.py:84-93 | The record for an asset without details has the following fields: url = prefix + id + `/2400`, photographer `Unknown`, year `''`, location `Unknown location`, and the library license. |
| Media.FromDetails | scripts/get_ebird_code.py:74-83 | The record filled from details keeps the asset's url, catalog id and license. |
| Media.FromDetailsDefaults | scripts/get_ebird_code.py:78-80 | A key that is present is taken as given. Each missing key gets the placeholder's default: `Unknown`, `''` and `Unknown location`. With no keys at all, the record is the placeholder. |
| Media.ImageFromAsset | scripts/download_ebird_images.py:206-229 | A record from the details step always describes the asset found on the species page. |
| Media.ImageFromCatalog | scripts/download_ebird_images.py:232-251 | A catalog hit requires a 200 reply with an asset on the page. It always carries placeholder metadata for that page's first asset. |
| Media.CreditText | scripts/download_ebird_images.py:286-290 | The three-line credit text. Its shape is stated by CreditTextLines. |
| Media.CreditTextLines | scripts/download_ebird_images.py:286-290 | The credit text splits back into its three lines `photographer - location`, the license, and `ML` + id, when no field holds a line break. |
| Media.CreditPath | scripts/download_ebird_images.py:285 | `filename.replace('.jpg', '_credit.txt')`. Its behaviour is stated by CreditPathOfJpg and CreditPathWithoutJpg. |
| Media.CreditPathOfJpg | scripts/download_ebird_images.py:285 | An image path whose only `.jpg` is its ending gets the credit file `<base>_credit.txt` beside it. |
| Media.CreditPathWithoutJpg | scripts/download_ebird_images.py:285 | A path without `.jpg` is its own credit path. |
| Files.FileSystem.Create | scripts/download_ebird_images.py:271 | `open(path, 'wb')` leaves that file empty and changes no other file. |
| Files.FileSystem.Append | scripts/download_ebird_images.py:274 | `f.write(chunk)` appends the chunk to that file only. |
| Files.FileSystem.WriteText | scripts/download_ebird_images.py:291-292 | Writing the credit file replaces that one file's content with the text. |
| Files.FileSystem.RemoveIfExists | scripts/download_ebird_images.py:296-297 | `if os.path.exists(p): os.remove(p)` removes exactly that path. |
| Download.Written | scripts/download_ebird_images.py:271-275 | What the file holds after the chunk loop: the chunks written one after another. WrittenEmptyIff states when it is empty. |
| Download.Counted | scripts/download_ebird_images.py:269-275 | The `downloaded` counter. CountedIsWrittenSize ties it to the file size. |
| Download.SaveChunks | scripts/download_ebird_images.py:271-275 | After the chunk loop, the file holds the chunks in order, no other file has changed, and `downloaded` is the summed length of the non-empty chunks. |
| Download.CountedIsWrittenSize | scripts/get_ebird_code.py:140-147 | The `downloaded` counter equals the size of the file written. |
| Download.WrittenEmptyIff | scripts/download_ebird_images.py:283 | The file is empty if and only if every chunk was empty. |
| Web.RaisesForStatus | scripts/download_ebird_images.py:198 | `raise_for_status()` raises only for statuses 400 to 599. |
| DownloadEbirdImages.GetBestImage | scripts/download_ebird_images.py:185-255 | A record always describes its own asset: its url is that asset's largest rendition and it carries the license. Its catalog id is a non-empty digit string. |
| DownloadEbirdImages.BestImageNeedsSpeciesPage | scripts/download_ebird_images.py:197-198 | A species page that cannot be fetched, or whose status is 4xx or 5xx, gives no image; the catalog is never tried. |
| DownloadEbirdImages.BestImageFromSpeciesPage | scripts/download_ebird_images.py:200-229 | An asset on the species page is the one described. A 200 details reply fills the record from its fields; any other status gives the placeholder. |
| DownloadEbirdImages.BestImageFromCatalog | scripts/download_ebird_images.py:230-255 | With no asset on the species page, an image comes only from a 200 catalog page holding an asset, and then with placeholder metadata. No image comes back if and only if that catalog page fails, is not 200, or has no asset. |
| DownloadEbirdImages.AfterDownloadFrame | scripts/download_ebird_images.py:257-304 | `download_image` changes at most the image file and the credit file beside it. |
| DownloadEbirdImages.DownloadImage | scripts/download_ebird_images.py:257-304 | The method returns True if and only if the stream completes and the file is non-empty. Then the file holds the chunks and the credit file holds the credit text. Otherwise the image file is removed and nothing else changes. |
| DownloadEbirdImages.ImageFileName | scripts/download_ebird_images.py:331 | `common_name.lower().replace(' ', '-') + '.jpg'`. ImageFileNameHasNoSpace states its property. |
| DownloadEbirdImages.ImageFileNameHasNoSpace | scripts/download_ebird_images.py:331 | A bird's image file name never contains a space. |
| DownloadEbirdImages.TallyAddsUp | scripts/download_ebird_images.py:324-381 | Every outcome is counted once, as a success or as a failure. |
| DownloadEbirdImages.FailureReasons | scripts/download_ebird_images.py:341-373 | Every recorded reason is one of "No species code found", "No image found" and "Download failed". |
| DownloadEbirdImages.FetchImage | scripts/download_ebird_images.py:345-358 | The step reports "no image" if and only if the image lookup gives no record, and then no file changes. Otherwise it reports a download exactly when `download_image` succeeds on that image's stream, and the files are as `download_image` leaves them: the image and its credit file written, or the image file removed. |
| DownloadEbirdImages.ProcessBird | scripts/download_ebird_images.py:327-358 | An existing image file counts as already present. Otherwise the outcome is explained by the resolved code, the image lookup and the download: no code or an empty one; no image; a download whose stream saved a non-empty file; or one whose stream did not. Only a download attempt changes files, and then exactly as `download_image` does. |
| DownloadEbirdImages.ProcessCattleEgret | scripts/download_ebird_images.py:360-381 | The same as ProcessBird, with the fixed code `categr2` and the file `cattle-egret.jpg`. |
| DownloadEbirdImages.RunBirds | scripts/download_ebird_images.py:324-358 | The loop gives every bird one outcome. Step k goes from the files `states[k]` to `states[k+1]`: its outcome is "already present" exactly when the bird's image file existed before the step. Otherwise the outcome is explained by the bird's lookups and by whether its download saved a file, and the files change exactly as that outcome says. Successes are counted and failures listed, and files outside the birds' paths keep their content. |
| DownloadEbirdImages.StepsSoFar | scripts/download_ebird_images.py:324-358 | Appending a step that follows from the last recorded files keeps every recorded step consistent with the files before and after it. |
| DownloadEbirdImages.RunBatch | scripts/download_ebird_images.py:306-381 | Every bird, plus the Cattle Egret, gets exactly one outcome. Step k goes from the files `states[k]` to `states[k+1]`, with `states[0]` the files before the run and the last state the files after it. Each outcome is "already present" exactly when that image file existed before its step. Otherwise it is explained by the bird's lookups and by whether its download saved a file, and the files change exactly as that says. `success_count` counts the successes, and `failed_birds` lists the failures with their reasons, in order. `success_count + len(failed_birds)` equals the number of birds plus one. No file other than the birds' image and credit files changes. |
| DownloadEbirdImages.Tally | scripts/download_ebird_images.py:335-358 | Appending one outcome adds either one success or one failure named after its bird. |
| DownloadEbirdImages.AfterStepFrame | scripts/download_ebird_images.py:327-358 | The step for one bird changes at most that bird's image file and its credit file. |
| DownloadEbirdImages.BirdStepFrame | scripts/download_ebird_images.py:327-358 | After the steps for the first i + 1 birds, every file outside their image and credit paths is as it was before the loop. |
| GetEbirdCode.SpeciesCodeOf | scripts/get_ebird_code.py:10-46 | The code `get_species_code` returns. Its properties are stated by SpeciesCodeNoneIff, EarlierCommonNameWins and SinglePassIsScientificTier. |
| GetEbirdCode.GetSpeciesCode | scripts/get_ebird_code.py:10-46 | The single-pass loop returns the code of the first entry whose scientific name or common name matches, ignoring case. It returns None on an exception or a status other than 200. |
| GetEbirdCode.EarlierCommonNameWins | scripts/get_ebird_code.py:30-36 | An earlier entry matching only by common name beats a later entry matching by scientific name. |
| GetEbirdCode.SpeciesCodeNoneIff | scripts/get_ebird_code.py:25-46 | No code is returned if and only if one of these holds: the request raised; the status is not 200; the body could not be read; or no entry matches either name. |
| GetEbirdCode.SinglePassIsScientificTier | scripts/get_ebird_code.py:30-36 | When no entry carries the common name, the single pass picks the same entry as the batch resolver's first tier. |
| GetEbirdCode.GetBestImageStrict | scripts/get_ebird_code.py:48-121 | A record describes its own digit-string asset, and it is only produced after a species page that answered exactly 200. |
| GetEbirdCode.StrictImageFromSpeciesPage | scripts/get_ebird_code.py:63-93 | An asset on the species page is the one described. A non-200 details reply gives the placeholder; a 200 reply fills the record from its fields. |
| GetEbirdCode.StrictImageFromCatalog | scripts/get_ebird_code.py:94-121 | With no asset on the species page, a catalog hit carries placeholder metadata. No record comes back if and only if the catalog page fails, is not 200, or has no asset. |
| GetEbirdCode.DownloadImageChecked | scripts/get_ebird_code.py:123-194 | The method returns True if and only if the stream completes and the file is non-empty; then the credit file is written. An empty file is reported but left in place. An exception removes the file. |
| CreditTest.AssetIdFromSrc | scripts/credit_test.py:36 | The id never contains `/`. |
| CreditTest.AssetIdFromSrcShape | scripts/credit_test.py:35-36 | When `src` holds `/asset/`, the id is the text right after the last cut `split` makes there, up to the next `/` or the end. No further `/asset/` follows that cut. |
| CreditTest.AssetFromImages | scripts/credit_test.py:25-38 | An id the image loop settles on never contains `/`. |
| CreditTest.AssetFromImagesNone | scripts/credit_test.py:25-38 | The image loop settles on no id if and only if no selector finds an element whose `src` (default `''`) holds `/asset/`. |
| CreditTest.AssetFromImagesFirst | scripts/credit_test.py:25-38 | The first selector that finds an element with an asset `src` decides the id. Found elements without one do not stop the search. |
| CreditTest.PhotographerFrom | scripts/credit_test.py:59-71 | The photographer loop finds nothing if and only if no selector finds an element. |
| CreditTest.PhotographerFromFirst | scripts/credit_test.py:59-71 | The first selector that finds an element decides the photographer: that element's stripped text, even when it is blank. |
| CreditTest.OrUnknown | scripts/credit_test.py:73-78 | The photographer is never empty: a non-empty name that was found is kept, and a missing or empty one becomes exactly `Unknown`. |
| CreditTest.AssetPageDefaults | scripts/credit_test.py:59-92 | The photographer is `Unknown` when no selector finds an element or the element found first is blank. The date is the stripped text of its element, or `''` when there is none. The location is the stripped text of its element, or `Unknown location` when there is none. |
| CreditTest.FindAssetId | scripts/credit_test.py:24-45 | The loop with `break` yields the id the image search settles on, or `25502811` when there is none. |
| CreditTest.FindPhotographer | scripts/credit_test.py:59-71 | The loop with `break` yields exactly what the photographer search settles on. |
| CreditTest.TextOr | scripts/credit_test.py:87-88 | `elem.text.strip() if elem else default` for one query. |
| CreditTest.RecordFromAssetPage | scripts/credit_test.py:84-92 | The record built from the asset page. Its fields are stated by AssetPageDefaults and DebugImageShape. |
| CreditTest.DebugImage | scripts/credit_test.py:8-103 | The result of `get_best_image_debug`. Its properties are stated by DebugImageShape, DebugImageFallback and BlankPhotographerIsUnknown. |
| CreditTest.GetBestImageDebug | scripts/credit_test.py:8-103 | The method returns exactly the record `DebugImage` describes. It returns None when either page raises or has an error status. |
| CreditTest.DebugImageShape | scripts/credit_test.py:84-92 | A record names a non-empty photographer, who is also the rights holder. Its url is the v2 rendition of its catalog id. Its id is either the one read from the species page or the fallback, and both page requests succeeded. |
| CreditTest.DebugImageFallback | scripts/credit_test.py:30-45 | When the image search settles on no id, because no selector finds an image or no image found has `/asset/` in its `src`, the record is built for asset `25502811`. |
| CreditTest.BlankPhotographerIsUnknown | scripts/credit_test.py:67-78 | A blank photographer element found first ends the search, and the record then says `Unknown`. |
| CreditTest.CleanPhotographer | scripts/credit_test.py:111-113 | A name holding `(` is cut to a text without `(`. A name without `(` is used unchanged. |
| CreditTest.CleanPhotographerIdempotent | scripts/credit_test.py:111-113 | Cleaning a cleaned name changes nothing. |
| CreditTest.CleanPhotographerCut | scripts/credit_test.py:112-113 | `name(remark` is cut back to the stripped name. |
| CreditTest.FormatCredit | scripts/credit_test.py:107-108 | No record gives exactly "No image information available". |
| CreditTest.FormatCreditDropsRemark | scripts/credit_test.py:110-115 | The credit line is the name before any parenthesised remark, stripped, then ` / Macaulay Library at the Cornell Lab of Ornithology (ML`, the id and `)`. A name without `(` stands as it is. |

## Left out

- HTTP itself, the request headers and the eBird API key: each request is answered by a given `Reply` or `Stream`. The `getpass` prompts are not modelled.
- CSV and JSON decoding. The taxonomy is a sequence of rows with the three fields. A JSON body is its string-valued fields, or None when `.json()` would raise. A value that is not a string, such as a numeric `yearCreated` or a null `userDisplayName`, is therefore treated as missing and gets the default. Python copies the raw value instead, so a null name would give `None - …` in the credit text.
- `GetEbirdCode.SpeciesCodeOf` treats any entry lacking `sciName` or `comName` as making the whole body unreadable. The script's short-circuit `or` would still accept an earlier entry that matches by `sciName`.
- `fetch_taxonomy` and `TAXONOMY_CACHE`, because they only memoise one network fetch. The model takes the table the run obtained. The script's retry on the next bird after a failed fetch is not modelled.
- BeautifulSoup's CSS selector evaluation, `find_all` and `prettify`. What each selector finds is a given function of the page.
- The general regular-expression engine. Only the two fixed patterns are modelled, as hand-written scans: the `\birdentry` entry and the CDN prefix followed by digits.
- Unicode-aware `lower()` and `\d`. Both are ASCII here; `isspace()` uses Python's full list of whitespace characters.
- Progress percentages, `print` and `traceback` output, because they are float arithmetic and console output only.
- The test-driver `main` functions of `get_ebird_code.py` and `credit_test.py`, because they are hard-coded Shikra and Black Kite checks. The Black Kite lookup is covered by `SpeciesResolver.BlackKiteResolves`.
- Paths and directories: `Path` arithmetic, `mkdir`, and the location of `latex/bird_guide.tex`. The images directory is a string prefix, and reading the `.tex` file is replaced by its content.
- An exception raised while writing the credit file, or while `os.remove` runs in `get_ebird_code.py`.
- `Files.Size` counts one byte per character of a text file instead of its encoded length; only image files, which hold bytes, are measured.
- html/script.js, the page's user-interface handlers, because it is not part of the download logic.
- The individual entries of the two literal tables are not restated one by one. `NormalizeIdempotent`, `NormalizeWaterhen` and `AsianKoelVariants` state what is proved about them.
