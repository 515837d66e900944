/**
 The policy that picks the thumbnail URL of a legacy archive record
 (`getBestThumbnailUrl`): the primary URL must be the URL of the candidate
 with the highest preference; the processing placeholder means "no
 thumbnail"; anything else must be a 640x360 JPEG.
 */
module Selection {
  import opened Text
  import opened Records

  /** The placeholder image Twitch serves while a video is still processing. */
  const Sentinel: string := "https://vod-secure.twitch.tv/_404" + "/" + "404_processing_640x360.png"

  /** The resolution marker every real legacy thumbnail carries in its file name. */
  const Resolution: string := "640x360"

  /** Why a record breaks the assumptions the migration was written against. */
  datatype SelectionError =
    | NoThumbnails
    | PreferenceMismatch(primary: string, maxPreference: string)
    | UnexpectedResolution(url: string)
    | UnexpectedFormat(url: string)

  /** What the policy decides for one record; `Fatal` stops the whole run. */
  datatype Selection = Selected(url: string) | NoThumbnail | Fatal(error: SelectionError)

  /** Some entry with the highest preference has this URL. */
  ghost predicate IsMaxPreferenceUrl(ts: seq<Thumbnail>, url: string) {
    exists k :: 0 <= k < |ts| && ts[k].url == url &&
      forall j :: 0 <= j < |ts| ==> ts[j].preference <= ts[k].preference
  }

  /**
   Kotlin's `maxBy { it.preference }`: the position of the FIRST entry
   whose preference is maximal (a later entry replaces the running maximum
   only when it is strictly larger).
   */
  function MaxByPreference(ts: seq<Thumbnail>): (k: nat)
    requires |ts| > 0
    ensures k < |ts|
    decreases |ts|
  {
    if |ts| == 1 then 0
    else
      var k := MaxByPreference(ts[..|ts| - 1]);
      if ts[k].preference < ts[|ts| - 1].preference then |ts| - 1 else k
  }

  /** `MaxByPreference` picks an entry of maximal preference, and no earlier entry is as good. */
  lemma {:induction false} MaxByPreferenceIsFirstMaximal(ts: seq<Thumbnail>)
    requires |ts| > 0
    ensures forall j :: 0 <= j < |ts| ==> ts[j].preference <= ts[MaxByPreference(ts)].preference
    ensures forall j :: 0 <= j < MaxByPreference(ts) ==> ts[j].preference < ts[MaxByPreference(ts)].preference
    decreases |ts|
  {
    if |ts| > 1 {
      var init := ts[..|ts| - 1];
      MaxByPreferenceIsFirstMaximal(init);
      assert forall j :: 0 <= j < |init| ==> init[j] == ts[j];
    }
  }

  /** The last path segment of a URL. */
  function LastSegment(url: string): string {
    SubstringAfterLast(url, '/', url)
  }

  /** A JPEG by name. */
  predicate IsJpegUrl(url: string) {
    EndsWith(url, ".jpg") || EndsWith(url, ".jpeg")
  }

  /** `getBestThumbnailUrl`, with its checks in the source's order. */
  function BestThumbnailUrl(info: OldArchiveVodInfo): Selection {
    if |info.thumbnails| == 0 then Fatal(NoThumbnails)
    else
      var primary := info.thumbnail;
      var maxPreferenceUrl := info.thumbnails[MaxByPreference(info.thumbnails)].url;
      if primary != maxPreferenceUrl then Fatal(PreferenceMismatch(primary, maxPreferenceUrl))
      else if primary == Sentinel then NoThumbnail
      else if !Contains(LastSegment(primary), Resolution) then Fatal(UnexpectedResolution(primary))
      else if !IsJpegUrl(primary) then Fatal(UnexpectedFormat(primary))
      else Selected(primary)
  }

  /**
   What the policy guarantees: an empty candidate list is fatal; a primary
   URL that is not the URL of a maximal-preference candidate is a fatal
   mismatch; and a selected URL is the primary URL, of maximal preference,
   not the sentinel, with 640x360 in its file name and a JPEG extension.
   */
  lemma BestThumbnailUrlSound(info: OldArchiveVodInfo)
    ensures |info.thumbnails| == 0 ==> BestThumbnailUrl(info) == Fatal(NoThumbnails)
    ensures 0 < |info.thumbnails| && !IsMaxPreferenceUrl(info.thumbnails, info.thumbnail) ==>
              BestThumbnailUrl(info).Fatal? && BestThumbnailUrl(info).error.PreferenceMismatch? &&
              BestThumbnailUrl(info).error.primary == info.thumbnail &&
              BestThumbnailUrl(info).error.maxPreference == info.thumbnails[MaxByPreference(info.thumbnails)].url
    ensures BestThumbnailUrl(info).Selected? ==>
              var url := BestThumbnailUrl(info).url;
              && url == info.thumbnail
              && IsMaxPreferenceUrl(info.thumbnails, url)
              && url != Sentinel
              && (exists k :: OccursAt(LastSegment(url), Resolution, k))
              && IsJpegUrl(url)
  {
    if 0 < |info.thumbnails| {
      MaxByPreferenceIsFirstMaximal(info.thumbnails);
      var k := MaxByPreference(info.thumbnails);
      assert info.thumbnails[k].url == info.thumbnail ==> IsMaxPreferenceUrl(info.thumbnails, info.thumbnail);
      ContainsIffOccurs(LastSegment(info.thumbnail), Resolution);
    }
  }

  /** A URL ending in `.png` is not a JPEG by name. */
  lemma PngIsNotJpeg(url: string)
    requires EndsWith(url, ".png")
    ensures !IsJpegUrl(url)
  {
    assert url[|url| - 3] == 'p' && url[|url| - 2] == 'n';
  }

  /** A file name under some directory that holds the resolution marker passes the resolution check. */
  lemma ResolutionInFileName(dir: string, file: string, k: nat)
    requires '/' !in file
    requires OccursAt(file, Resolution, k)
    ensures Contains(LastSegment(dir + ['/'] + file), Resolution)
  {
    AfterLastOfJoin(dir, '/', file, dir + ['/'] + file);
    ContainsIffOccurs(file, Resolution);
  }

  /**
   "No thumbnail" is decided by the exact sentinel URL alone, once the
   primary URL agrees with the preferred candidate.
   */
  lemma NoThumbnailExactlyForSentinel(info: OldArchiveVodInfo)
    ensures BestThumbnailUrl(info) == NoThumbnail <==>
              && 0 < |info.thumbnails|
              && info.thumbnail == info.thumbnails[MaxByPreference(info.thumbnails)].url
              && info.thumbnail == Sentinel
  {
  }

  /** The sentinel, split at its last "/". */
  lemma SentinelParts()
    ensures var dir, file := "https://vod-secure.twitch.tv/_404", "404_processing_640x360.png";
            && Sentinel == dir + ['/'] + file
            && '/' !in file && OccursAt(file, Resolution, 15)
            && EndsWith(file, ".png")
  {
    var dir, file := "https://vod-secure.twitch.tv/_404", "404_processing_640x360.png";
    assert file[15..22] == Resolution;
    assert file[|file| - 4..] == ".png";
  }

  /** Appending to the front keeps a suffix. */
  lemma EndsWithJoin(dir: string, file: string, suffix: string)
    requires EndsWith(file, suffix)
    ensures EndsWith(dir + ['/'] + file, suffix)
  {
    var url := dir + ['/'] + file;
    assert url[|url| - |suffix|..] == file[|file| - |suffix|..];
  }

  /**
   The sentinel passes the resolution check but would fail the format
   check: only because "no thumbnail" is decided first is it not fatal.
   */
  lemma SentinelWouldFailFormat()
    ensures !IsJpegUrl(Sentinel) && Contains(LastSegment(Sentinel), Resolution)
  {
    var dir, file := "https://vod-secure.twitch.tv/_404", "404_processing_640x360.png";
    SentinelParts();
    ResolutionInFileName(dir, file, 15);
    EndsWithJoin(dir, file, ".png");
    PngIsNotJpeg(Sentinel);
  }

  /** The mismatch example: primary "A" but "B" has the higher preference. */
  lemma PrimaryMustBeMaxPreference()
    ensures BestThumbnailUrl(OldArchiveVodInfo("v1", "A", [Thumbnail("A", 1), Thumbnail("B", 5)]))
            == Fatal(PreferenceMismatch("A", "B"))
  {
    var ts := [Thumbnail("A", 1), Thumbnail("B", 5)];
    assert ts[..1] == [Thumbnail("A", 1)];
    assert MaxByPreference(ts) == 1;
  }

  /** A consistent 640x360 URL ending in `.png`, such as `https://x/foo_640x360.png`, is rejected for its format. */
  lemma PngIsUnexpectedFormat()
    ensures var url := "https://x" + "/" + "foo_640x360.png";
            BestThumbnailUrl(OldArchiveVodInfo("v1", url, [Thumbnail(url, 10)])) == Fatal(UnexpectedFormat(url))
  {
    var dir, file := "https://x", "foo_640x360.png";
    assert file[4..11] == Resolution;
    assert file[|file| - 4..] == ".png";
    ResolutionInFileName(dir, file, 4);
    EndsWithJoin(dir, file, ".png");
    PngIsNotJpeg(dir + "/" + file);
  }

  /** A consistent non-sentinel URL whose file name lacks 640x360 is rejected for its resolution. */
  lemma WrongResolutionFails(info: OldArchiveVodInfo)
    requires 0 < |info.thumbnails|
    requires info.thumbnail == info.thumbnails[MaxByPreference(info.thumbnails)].url
    requires info.thumbnail != Sentinel
    requires forall k :: !OccursAt(LastSegment(info.thumbnail), Resolution, k)
    ensures BestThumbnailUrl(info) == Fatal(UnexpectedResolution(info.thumbnail))
  {
    ContainsIffOccurs(LastSegment(info.thumbnail), Resolution);
  }

  /**
   A consistent, non-sentinel primary URL with 640x360 in its file name is
   selected exactly when it names a JPEG, and is otherwise rejected for its
   format.
   */
  lemma PassingChecksIsSelected(info: OldArchiveVodInfo)
    requires 0 < |info.thumbnails|
    requires info.thumbnail == info.thumbnails[MaxByPreference(info.thumbnails)].url
    requires info.thumbnail != Sentinel
    requires exists k :: OccursAt(LastSegment(info.thumbnail), Resolution, k)
    ensures IsJpegUrl(info.thumbnail) ==> BestThumbnailUrl(info) == Selected(info.thumbnail)
    ensures !IsJpegUrl(info.thumbnail) ==> BestThumbnailUrl(info) == Fatal(UnexpectedFormat(info.thumbnail))
  {
    ContainsIffOccurs(LastSegment(info.thumbnail), Resolution);
  }

  /** The extension of a URL ending in ".<ext>", where `ext` holds no dot, is `ext`. */
  lemma ExtensionOfSuffix(url: string, ext: string)
    requires '.' !in ext
    requires EndsWith(url, "." + ext)
    ensures SubstringAfterLast(url, '.', url) == ext
  {
    var p := url[..|url| - |ext| - 1];
    assert url[|url| - |ext| - 1..] == "." + ext;
    assert url == p + ['.'] + ext;
    AfterLastOfJoin(p, '.', ext, url);
  }

  /** A selected URL is the record's primary URL, and its extension is "jpg" or "jpeg". */
  lemma SelectedExtensionIsJpeg(info: OldArchiveVodInfo)
    requires BestThumbnailUrl(info).Selected?
    ensures BestThumbnailUrl(info).url == info.thumbnail
    ensures SubstringAfterLast(info.thumbnail, '.', info.thumbnail) in {"jpg", "jpeg"}
  {
    var url := info.thumbnail;
    BestThumbnailUrlSound(info);
    if EndsWith(url, ".jpg") {
      ExtensionOfSuffix(url, "jpg");
    } else {
      ExtensionOfSuffix(url, "jpeg");
    }
  }
}
