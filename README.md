# Thumbnail extractor of the Reckful VOD archive, in Dafny

This project models `ThumbnailExtractor`, the part of the archive migration
that puts one thumbnail per archived video into an output directory under
the canonical name `video-<id>.<extension>`. The thumbnails come from two
metadata shapes:

- **Video tower cards** carry a local thumbnail file. The extractor copies
  that file under the canonical name, keeping the file's own extension.
- **Legacy archive records** carry a primary URL and candidate URLs ranked
  by preference. A selection policy (`getBestThumbnailUrl`) checks the
  record and picks its URL. The extractor then fetches and decodes the
  image and re-encodes it under the canonical name.

A third operation, `findByVideoId`, finds a thumbnail that was already
extracted. It searches a list of directories in order, and in each
directory it tries `.jpg` before `.jpeg`.

The modules split the source's single class by concern:

- `Text` holds the Kotlin string operations the source uses:
  `substringAfterLast`, `contains`, `endsWith` and `removePrefix`.
- `Records` holds the input records and the disk's values.
- `Selection` holds the legacy selection policy.
- `Naming` holds the canonical name, and how a video id and an extension
  are derived from each kind of record.
- `Lookup` holds both `findByVideoId` overloads.
- `Extraction` holds the two passes.

The disk is a map from the paths that exist to their bytes. A path is the
directory it is resolved against plus the file's name. The pure parts of
the source are functions, with lemmas about them. The two passes change
the disk one record at a time. They are methods of the class
`ThumbnailExtractor`, which holds the disk in the field `files`. Each
method is proved to leave exactly the state that a fold over the records
describes: `TowerCardsRun` for the tower cards, `LegacyRun` for the legacy
records. The lemmas state what the source promises about those folds:

- which records write, and what each one writes;
- that nothing else changes;
- that a second pass is a no-op;
- where a pass aborts.

Fetching and decoding a URL (`ImageIO.read(URL(...))`) is the parameter
`read: string -> Option<Image>`. `None` stands for a fetch that throws.
Re-encoding (`ImageIO.write`) is the parameter
`write: (Image, string) -> Bytes`. A fatal selection stops the legacy pass
with `Aborted(index, BadRecord(error))`, where the source throws. A
failed copy stops the tower-card pass with `Aborted(index, CopyFailed(error))`.

How the Kotlin code behaves at its edges, as the model states it:

- Among equal maximal preferences, Kotlin's `maxBy` keeps the first one
  (`Selection.MaxByPreference`).
- A local file's extension is the text after the last "." of its name, and
  empty when the name has none. This is Kotlin's `File.extension`.
- A URL's extension is the text after its last ".", and the whole URL when
  it has none. This is `substringAfterLast(".")` with its default.
- An empty candidate list is fatal, because `maxBy` throws.

## Model

| member | source | states |
|---|---|---|
| Text.SubstringAfterLast | src/main/kotlin/org/reckful/archive/extractors/ThumbnailExtractor.kt:19 | Kotlin's `substringAfterLast(delimiter, missing)`; stated by SubstringAfterLastSplits and AfterLastOfJoin: the fallback without the delimiter, otherwise the delimiter-free text after its last occurrence |
| Text.Contains | src/main/kotlin/org/reckful/archive/extractors/ThumbnailExtractor.kt:60 | Kotlin's `contains`; stated by ContainsIffOccurs: true exactly when the substring occurs at some position |
| Text.EndsWith | src/main/kotlin/org/reckful/archive/extractors/ThumbnailExtractor.kt:65 | Kotlin's `endsWith`: the string's last characters are the suffix; used by PngIsNotJpeg, EndsWithJoin and ExtensionOfSuffix |
| Selection.LastSegment | src/main/kotlin/org/reckful/archive/extractors/ThumbnailExtractor.kt:60 | the URL's text after its last "/" (the whole URL without one); stated by ResolutionInFileName and SubstringAfterLastSplits |
| Selection.IsJpegUrl | src/main/kotlin/org/reckful/archive/extractors/ThumbnailExtractor.kt:65 | the URL ends in ".jpg" or ".jpeg"; stated by PngIsNotJpeg and SelectedExtensionIsJpeg |
| Selection.BestThumbnailUrl | src/main/kotlin/org/reckful/archive/extractors/ThumbnailExtractor.kt:49-71 | `getBestThumbnailUrl`, with its checks in the source's order; stated by BestThumbnailUrlSound, PassingChecksIsSelected, WrongResolutionFails and NoThumbnailExactlyForSentinel |
| Naming.CommonFileName | src/main/kotlin/org/reckful/archive/extractors/ThumbnailExtractor.kt:73-75 | `getCommonFileName`, `video-<id>.<ext>`; stated by CommonFileNameParts and CommonFileNameInjective |
| Naming.TowerCardVideoId | src/main/kotlin/org/reckful/archive/extractors/ThumbnailExtractor.kt:19 | a card's video id, the link's text after its last "/"; stated by TowerCardVideoIdIsLastSegment |
| Naming.LegacyVideoId | src/main/kotlin/org/reckful/archive/extractors/ThumbnailExtractor.kt:32 | a legacy record's video id, its id with one leading "v" removed; stated by LegacyVideoIdStripsOneV |
| Naming.FileExtension | src/main/kotlin/org/reckful/archive/extractors/ThumbnailExtractor.kt:20 | Kotlin's `File.extension`, empty without a dot; stated by FileExtensionHasNoDot |
| Naming.UrlExtension | src/main/kotlin/org/reckful/archive/extractors/ThumbnailExtractor.kt:33 | a URL's text after its last ".", the whole URL without one; stated by ExtensionOfSuffix and SelectedExtensionIsJpeg |
| Lookup.JpgPath | src/main/kotlin/org/reckful/archive/extractors/ThumbnailExtractor.kt:81-86 | the `.jpg` candidate `dir/video-<id>.jpg` that the lookup tries first; stated by FindInDirectory |
| Lookup.JpegPath | src/main/kotlin/org/reckful/archive/extractors/ThumbnailExtractor.kt:81-86 | the `.jpeg` candidate `dir/video-<id>.jpeg` that the lookup tries second; stated by FindInDirectory |
| Extraction.TowerCardTarget | src/main/kotlin/org/reckful/archive/extractors/ThumbnailExtractor.kt:19-21 | a card's target `outDir/video-<id>.<thumbnail extension>`; stated by TowerCardTargetNaming |
| Extraction.LegacyTarget | src/main/kotlin/org/reckful/archive/extractors/ThumbnailExtractor.kt:32-34 | a legacy record's target `outDir/video-<id without v>.<URL extension>`; stated by LegacyTargetIsLookupCandidate and JpegExampleTarget |
| Text.LastIndexOf | src/main/kotlin/org/reckful/archive/extractors/ThumbnailExtractor.kt:19 | the index of the last occurrence is -1 or a position of the string |
| Text.LastIndexOfIsLast | src/main/kotlin/org/reckful/archive/extractors/ThumbnailExtractor.kt:19 | the index found holds the character and no later position does, so -1 means the character is absent |
| Text.SubstringAfterLastSplits | src/main/kotlin/org/reckful/archive/extractors/ThumbnailExtractor.kt:19 | without the delimiter `substringAfterLast` gives the fallback; with it, the string is prefix + delimiter + result, and the result holds no delimiter |
| Text.AfterLastOfJoin | src/main/kotlin/org/reckful/archive/extractors/ThumbnailExtractor.kt:33 | the text after the last delimiter of `p + c + r` is `r` whenever `r` holds no delimiter (the inverse of the split) |
| Text.RemovePrefix | src/main/kotlin/org/reckful/archive/extractors/ThumbnailExtractor.kt:32 | `removePrefix`: when the string starts with the prefix, prefix + result is the string; otherwise the string is unchanged |
| Text.ContainsIffOccurs | src/main/kotlin/org/reckful/archive/extractors/ThumbnailExtractor.kt:60 | `contains` holds exactly when the substring occurs at some position |
| Selection.MaxByPreference | src/main/kotlin/org/reckful/archive/extractors/ThumbnailExtractor.kt:51 | `maxBy` on a non-empty list yields a position of the list |
| Selection.MaxByPreferenceIsFirstMaximal | src/main/kotlin/org/reckful/archive/extractors/ThumbnailExtractor.kt:51 | the chosen entry's preference is at least every entry's, and strictly above every earlier entry's (first maximum wins) |
| Selection.BestThumbnailUrlSound | src/main/kotlin/org/reckful/archive/extractors/ThumbnailExtractor.kt:49-71 | an empty list is fatal; a primary URL that is no maximal-preference URL is a fatal mismatch naming it and the first maximal-preference URL; a selected URL is the primary URL, of maximal preference, not the sentinel, with 640x360 in its last segment and a .jpg/.jpeg ending |
| Selection.PassingChecksIsSelected | src/main/kotlin/org/reckful/archive/extractors/ThumbnailExtractor.kt:60-70 | for every consistent, non-sentinel primary URL with 640x360 in its last segment: a .jpg/.jpeg URL is selected as the primary URL itself, and any other is rejected for its format |
| Selection.NoThumbnailExactlyForSentinel | src/main/kotlin/org/reckful/archive/extractors/ThumbnailExtractor.kt:50-58 | "no thumbnail" is returned if and only if the list is non-empty, the primary URL equals the max-preference URL and it is the processing sentinel |
| Selection.SentinelWouldFailFormat | src/main/kotlin/org/reckful/archive/extractors/ThumbnailExtractor.kt:56-68 | the sentinel passes the resolution check but is not a JPEG, so only the order of the checks keeps it from being fatal |
| Selection.PrimaryMustBeMaxPreference | src/main/kotlin/org/reckful/archive/extractors/ThumbnailExtractor.kt:50-54 | primary "A" with candidates A:1 and B:5 fails with a mismatch between "A" and "B" |
| Selection.PngIsUnexpectedFormat | src/main/kotlin/org/reckful/archive/extractors/ThumbnailExtractor.kt:65-68 | a consistent `https://x/foo_640x360.png` fails for its format |
| Selection.WrongResolutionFails | src/main/kotlin/org/reckful/archive/extractors/ThumbnailExtractor.kt:60-63 | a consistent non-sentinel URL whose last segment nowhere holds 640x360 fails for its resolution |
| Selection.PngIsNotJpeg | src/main/kotlin/org/reckful/archive/extractors/ThumbnailExtractor.kt:65 | a URL ending in .png ends in neither .jpg nor .jpeg |
| Selection.ResolutionInFileName | src/main/kotlin/org/reckful/archive/extractors/ThumbnailExtractor.kt:60 | a file name holding 640x360 passes the resolution check under any directory |
| Selection.ExtensionOfSuffix | src/main/kotlin/org/reckful/archive/extractors/ThumbnailExtractor.kt:33 | a URL ending in "." + a dot-free extension has exactly that extension |
| Selection.SelectedExtensionIsJpeg | src/main/kotlin/org/reckful/archive/extractors/ThumbnailExtractor.kt:33 | a selected URL is the record's primary URL, and its extension is "jpg" or "jpeg" |
| Naming.TowerCardVideoIdIsLastSegment | src/main/kotlin/org/reckful/archive/extractors/ThumbnailExtractor.kt:19 | a tower card's id holds no "/"; it is the whole link when the link has no "/", and otherwise the link ends in "/" + id |
| Naming.LegacyVideoIdStripsOneV | src/main/kotlin/org/reckful/archive/extractors/ThumbnailExtractor.kt:32 | a legacy id loses exactly one leading "v" when it has one, and is kept as it is otherwise |
| Naming.FileExtensionHasNoDot | src/main/kotlin/org/reckful/archive/extractors/ThumbnailExtractor.kt:20 | a file's extension holds no ".", and is empty when the name has none |
| Naming.CommonFileNameParts | src/main/kotlin/org/reckful/archive/extractors/ThumbnailExtractor.kt:73-75 | from `video-<id>.<ext>`, with a dot-free extension, the extension and the id can be read back |
| Naming.CommonFileNameInjective | src/main/kotlin/org/reckful/archive/extractors/ThumbnailExtractor.kt:73-75 | distinct (id, dot-free extension) pairs never share a canonical name |
| Lookup.FindInDirectory | src/main/kotlin/org/reckful/archive/extractors/ThumbnailExtractor.kt:80-88 | a match exists if and only if the directory holds the .jpg or the .jpeg name; the match is an existing file of that directory, and the .jpg name wins when both exist |
| Lookup.FindByVideoId | src/main/kotlin/org/reckful/archive/extractors/ThumbnailExtractor.kt:11-13 | nothing is found if and only if no directory holds either name; otherwise the result is the per-directory match of the first directory that holds one |
| Lookup.FindByVideoIdFirstDirectory | src/main/kotlin/org/reckful/archive/extractors/ThumbnailExtractor.kt:11-13 | whichever directory is the first to hold the video, the lookup returns that directory's match |
| Extraction.Copy | src/main/kotlin/org/reckful/archive/extractors/ThumbnailExtractor.kt:23 | `copyTo` succeeds if and only if the source exists and the target does not; then the target holds the source's bytes and nothing else changes; otherwise it names the reason |
| Extraction.TowerCardTargetNaming | src/main/kotlin/org/reckful/archive/extractors/ThumbnailExtractor.kt:19-21 | the copy keeps its thumbnail's extension; two cards share a target if and only if their ids and their thumbnails' extensions agree |
| Extraction.TowerCardStep | src/main/kotlin/org/reckful/archive/extractors/ThumbnailExtractor.kt:16-24 | a successful card step only adds files and leaves the card settled (no thumbnail, or its target exists) |
| Extraction.TowerCardsRun | src/main/kotlin/org/reckful/archive/extractors/ThumbnailExtractor.kt:15-26 | a pass never removes or changes an existing file, and aborts only at a card of the list, on a failed copy |
| Extraction.TowerCardStepEffect | src/main/kotlin/org/reckful/archive/extractors/ThumbnailExtractor.kt:17-23 | a card without thumbnail or with an existing target changes nothing; otherwise exactly the target appears with the source's bytes, or the copy fails for a missing source |
| Extraction.TowerCardsRunSettles | src/main/kotlin/org/reckful/archive/extractors/ThumbnailExtractor.kt:15-26 | after a completed pass every card with a thumbnail has its target on disk |
| Extraction.TowerCardsRunNoOp | src/main/kotlin/org/reckful/archive/extractors/ThumbnailExtractor.kt:22 | on a disk where every card is settled, a pass completes and changes nothing |
| Extraction.TowerCardsRunIdempotent | src/main/kotlin/org/reckful/archive/extractors/ThumbnailExtractor.kt:15-26 | a second pass over the same cards completes and changes nothing |
| Extraction.TowerCardsRunWritesOnlyTargets | src/main/kotlin/org/reckful/archive/extractors/ThumbnailExtractor.kt:21-23 | every file a pass adds is some card's target and holds that card's thumbnail bytes |
| Extraction.TowerCardStepWritesOnlyTarget | src/main/kotlin/org/reckful/archive/extractors/ThumbnailExtractor.kt:21-23 | one more card adds at most its own target, as a copy of its thumbnail |
| Extraction.CopiedByKept | src/main/kotlin/org/reckful/archive/extractors/ThumbnailExtractor.kt:22-23 | a copy already made stays intact while the disk only grows |
| Extraction.TowerCardsAbortIsFinal | src/main/kotlin/org/reckful/archive/extractors/ThumbnailExtractor.kt:23 | once a pass has aborted, the remaining cards change nothing |
| Extraction.LegacyStep | src/main/kotlin/org/reckful/archive/extractors/ThumbnailExtractor.kt:29-45 | a record step fails if and only if its selection is fatal; a successful step only adds files and leaves the record settled |
| Extraction.LegacyRun | src/main/kotlin/org/reckful/archive/extractors/ThumbnailExtractor.kt:28-47 | a pass never removes or changes an existing file, and aborts only at a record of the list, on a bad record |
| Extraction.LegacyStepEffect | src/main/kotlin/org/reckful/archive/extractors/ThumbnailExtractor.kt:30-44 | a fatal selection is returned as the error; "no thumbnail", an existing target or a failed fetch change nothing; otherwise exactly the target appears, holding the image re-encoded in the URL's extension |
| Extraction.LegacyTargetIsLookupCandidate | src/main/kotlin/org/reckful/archive/extractors/ThumbnailExtractor.kt:32-34 | a selected record's target is the .jpg or the .jpeg name that the lookup tries |
| Extraction.LegacyRunCompletesWithoutFatal | src/main/kotlin/org/reckful/archive/extractors/ThumbnailExtractor.kt:28-30 | a legacy pass completes if and only if no record's selection is fatal |
| Extraction.LegacyRunAbortsAtFirstFatal | src/main/kotlin/org/reckful/archive/extractors/ThumbnailExtractor.kt:28-30 | an aborted pass stops at the first record with a fatal selection, reports that record's error and keeps only what the earlier records wrote |
| Extraction.LegacyRunSettles | src/main/kotlin/org/reckful/archive/extractors/ThumbnailExtractor.kt:28-47 | after a completed pass every record is settled: no thumbnail, its target exists, or its fetch fails |
| Extraction.LegacyRunNoOp | src/main/kotlin/org/reckful/archive/extractors/ThumbnailExtractor.kt:36 | on a disk where every record is settled, a pass completes and changes nothing |
| Extraction.LegacyRunIdempotent | src/main/kotlin/org/reckful/archive/extractors/ThumbnailExtractor.kt:28-47 | a second pass over the same records, against the same remote content, completes and changes nothing |
| Extraction.LegacyRunWritesOnlyTargets | src/main/kotlin/org/reckful/archive/extractors/ThumbnailExtractor.kt:34-44 | every file a pass adds is the target of a selected record whose fetch succeeded, holding that image re-encoded |
| Extraction.LegacyStepWritesOnlyTarget | src/main/kotlin/org/reckful/archive/extractors/ThumbnailExtractor.kt:34-44 | one more record adds at most its own target, holding its fetched image |
| Extraction.FetchedByKept | src/main/kotlin/org/reckful/archive/extractors/ThumbnailExtractor.kt:36 | a fetched thumbnail stays intact while the disk only grows |
| Extraction.LegacyAbortIsFinal | src/main/kotlin/org/reckful/archive/extractors/ThumbnailExtractor.kt:30 | once a pass has aborted, the remaining records change nothing |
| Extraction.ReachableRecordIsWritten | src/main/kotlin/org/reckful/archive/extractors/ThumbnailExtractor.kt:28-47 | record `v12345` with the reachable `https://x/foo_640x360.jpg` yields exactly `video-12345.jpg`, written as "jpg" |
| Extraction.SelectedJpegExample | src/main/kotlin/org/reckful/archive/extractors/ThumbnailExtractor.kt:49-71 | that record passes the selection policy |
| Extraction.JpegExampleTarget | src/main/kotlin/org/reckful/archive/extractors/ThumbnailExtractor.kt:32-34 | that record's extension is "jpg" and its target is `video-12345.jpg` |
| Extraction.UnreachableRecordIsSkipped | src/main/kotlin/org/reckful/archive/extractors/ThumbnailExtractor.kt:38-43 | a record whose fetch fails (a 404, say) writes nothing and the pass goes on |
| Extraction.ThumbnailExtractor.constructor | src/main/kotlin/org/reckful/archive/extractors/ThumbnailExtractor.kt:9 | the extractor works against the given disk |
| Extraction.ThumbnailExtractor.CopyTo | src/main/kotlin/org/reckful/archive/extractors/ThumbnailExtractor.kt:23 | the disk afterwards is what `Copy` describes; a failed copy changes nothing |
| Extraction.ThumbnailExtractor.ExtractFromTowerCards | src/main/kotlin/org/reckful/archive/extractors/ThumbnailExtractor.kt:15-26 | the loop ends with the disk and outcome of `TowerCardsRun` over the old disk |
| Extraction.ThumbnailExtractor.ExtractRecord | src/main/kotlin/org/reckful/archive/extractors/ThumbnailExtractor.kt:29-45 | one record's work leaves the disk `LegacyStep` describes, and changes nothing when it reports a fatal selection |
| Extraction.ThumbnailExtractor.ExtractFromOldArchiveInfo | src/main/kotlin/org/reckful/archive/extractors/ThumbnailExtractor.kt:28-47 | the loop ends with the disk and outcome of `LegacyRun` over the old disk |

## Left out

- The progress and warning lines printed while fetching (`println`) are not modelled. They are logging only.
- Networking, image decoding and image encoding are the parameters `read` and `write`. The model assumes each returns the same result for the same input. The idempotence of the legacy pass is therefore stated only for the same remote content.
- ImageIO's own failure modes are not modelled. `ImageIO.read` returns `null` for an unknown format, and `ImageIO.write` may find no writer for the extension. The model treats every fetch either as an image or as a failure that skips the record.
- Real file system behaviour is not modelled: parent-directory creation by `copyTo`, permissions, and I/O errors other than a missing source. A path is only its directory and name, with no normalisation.
- The `TargetExists` error of `copyTo` is modelled in `Copy`, but the pass never reaches it, because it checks that the target does not exist first.
- The parsers that produce `OldArchiveVodInfo` and `VideoTowerCard` are not part of this model. Preferences are integers, and floating-point comparison is not modelled.
- Exception types are not distinguished. `NoSuchElementException` from `maxBy` and `IllegalStateException` from the checks both become a fatal `SelectionError` that aborts the pass. The record's index in `Aborted` is added by the model so that the abort point can be stated.
- Extension case folding is not modelled: extensions are kept literally, as the source keeps them.
