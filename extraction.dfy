/**
 The two materialisation passes of the thumbnail extractor.

 The disk is a map from the paths that exist to their bytes. A pass runs
 over its records in order; a record either leaves the disk alone, adds
 exactly its canonical target, or aborts the whole pass. Each pass is given
 twice: as a pure fold over the records (`TowerCardsRun`, `LegacyRun`), about
 which the lemmas speak, and as a loop in `ThumbnailExtractor` that updates
 the disk in place and is proved to end in the state the fold describes.
 The existence of a target is the only record of work done, so a pass that
 completed leaves nothing for a second pass to do.
 */
module Extraction {
  import opened Text
  import opened Records
  import opened Selection
  import opened Naming
  import opened Lookup

  /** Why Kotlin's `File.copyTo` (without overwrite) refuses. */
  datatype CopyError = NoSuchSource(source: Path) | TargetExists(target: Path)

  /** Why a pass stopped early. */
  datatype Failure = CopyFailed(copyError: CopyError) | BadRecord(selectionError: SelectionError)

  datatype Outcome = Completed | Aborted(index: nat, failure: Failure)

  /** The disk at the end of a pass, and how the pass ended. */
  datatype Run = Run(files: map<Path, Bytes>, outcome: Outcome)

  /** Every file of `before` is still in `after`, with the same bytes. */
  ghost predicate Extends(before: map<Path, Bytes>, after: map<Path, Bytes>) {
    forall p :: p in before ==> p in after && after[p] == before[p]
  }

  /** `after` is `before` with only `target` possibly changed. */
  ghost predicate OnlyChanges(before: map<Path, Bytes>, after: map<Path, Bytes>, target: Path) {
    forall p :: p != target ==> (p in after <==> p in before) && (p in before ==> after[p] == before[p])
  }

  // ---------------------------------------------------------------------
  // Tower cards: local copies

  /** `File.copyTo(target)`: the source must exist and the target must not. */
  function Copy(files: map<Path, Bytes>, source: Path, target: Path): (r: Result<map<Path, Bytes>, CopyError>)
    ensures r.Ok? <==> source in files && target !in files
    ensures r.Ok? ==> target in r.value && r.value[target] == files[source] && OnlyChanges(files, r.value, target)
    ensures r.Err? ==> r.error == if source !in files then NoSuchSource(source) else TargetExists(target)
  {
    if source !in files then Err(NoSuchSource(source))
    else if target in files then Err(TargetExists(target))
    else Ok(files[target := files[source]])
  }

  /** Where a tower card's thumbnail goes: `outDir/video-<id>.<the thumbnail's own extension>`. */
  function TowerCardTarget(link: string, thumbnail: Path, outDir: string): Path {
    Path(outDir, CommonFileName(TowerCardVideoId(link), FileExtension(thumbnail)))
  }

  /**
   The copy keeps its thumbnail's extension, and two cards share a target
   only when their links end in the same video id and their thumbnails have
   the same extension.
   */
  lemma TowerCardTargetNaming(link1: string, thumbnail1: Path, link2: string, thumbnail2: Path, outDir: string)
    ensures FileExtension(TowerCardTarget(link1, thumbnail1, outDir)) == FileExtension(thumbnail1)
    ensures TowerCardTarget(link1, thumbnail1, outDir) == TowerCardTarget(link2, thumbnail2, outDir) <==>
              TowerCardVideoId(link1) == TowerCardVideoId(link2) && FileExtension(thumbnail1) == FileExtension(thumbnail2)
  {
    FileExtensionHasNoDot(thumbnail1);
    FileExtensionHasNoDot(thumbnail2);
    CommonFileNameParts(TowerCardVideoId(link1), FileExtension(thumbnail1));
    if TowerCardTarget(link1, thumbnail1, outDir) == TowerCardTarget(link2, thumbnail2, outDir) {
      CommonFileNameInjective(TowerCardVideoId(link1), FileExtension(thumbnail1), TowerCardVideoId(link2), FileExtension(thumbnail2));
    }
  }

  /** One iteration of `extractFromTowerCards`. */
  function TowerCardStep(files: map<Path, Bytes>, card: VideoTowerCard, outDir: string): (r: Result<map<Path, Bytes>, CopyError>)
    ensures r.Ok? ==> Extends(files, r.value) && TowerCardSettled(r.value, card, outDir)
  {
    match card.thumbnail
    case None => Ok(files)
    case Some(source) =>
      var target := TowerCardTarget(card.link, source, outDir);
      if target in files then Ok(files) else Copy(files, source, target)
  }

  /** `extractFromTowerCards` as a fold over the cards; a failed copy aborts the pass. */
  function TowerCardsRun(files: map<Path, Bytes>, cards: seq<VideoTowerCard>, outDir: string): (run: Run)
    ensures Extends(files, run.files)
    ensures run.outcome.Aborted? ==> run.outcome.index < |cards| && run.outcome.failure.CopyFailed?
    decreases |cards|
  {
    if |cards| == 0 then Run(files, Completed)
    else
      var prev := TowerCardsRun(files, cards[..|cards| - 1], outDir);
      if prev.outcome.Aborted? then prev
      else match TowerCardStep(prev.files, cards[|cards| - 1], outDir)
        case Ok(next) => Run(next, Completed)
        case Err(e) => Run(prev.files, Aborted(|cards| - 1, CopyFailed(e)))
  }

  /**
   What one card does: a card without a thumbnail, or one whose target
   exists, leaves the disk as it is; otherwise exactly the target appears,
   holding the source's bytes, or the copy fails because the source is missing.
   */
  lemma TowerCardStepEffect(files: map<Path, Bytes>, card: VideoTowerCard, outDir: string)
    ensures card.thumbnail.None? ==> TowerCardStep(files, card, outDir) == Ok(files)
    ensures card.thumbnail.Some? && TowerCardTarget(card.link, card.thumbnail.value, outDir) in files ==>
              TowerCardStep(files, card, outDir) == Ok(files)
    ensures card.thumbnail.Some? && TowerCardTarget(card.link, card.thumbnail.value, outDir) !in files ==>
              var target := TowerCardTarget(card.link, card.thumbnail.value, outDir);
              var r := TowerCardStep(files, card, outDir);
              if card.thumbnail.value in files then
                r.Ok? && target in r.value && r.value[target] == files[card.thumbnail.value] && OnlyChanges(files, r.value, target)
              else
                r == Err(NoSuchSource(card.thumbnail.value))
  {
  }

  /** The card leaves nothing to do on this disk. */
  predicate TowerCardSettled(files: map<Path, Bytes>, card: VideoTowerCard, outDir: string) {
    card.thumbnail.None? || TowerCardTarget(card.link, card.thumbnail.value, outDir) in files
  }

  /** After a completed pass every card with a thumbnail has its target on disk. */
  lemma {:induction false} TowerCardsRunSettles(files: map<Path, Bytes>, cards: seq<VideoTowerCard>, outDir: string)
    requires TowerCardsRun(files, cards, outDir).outcome.Completed?
    ensures forall k :: 0 <= k < |cards| ==> TowerCardSettled(TowerCardsRun(files, cards, outDir).files, cards[k], outDir)
    decreases |cards|
  {
    if |cards| > 0 {
      var n := |cards| - 1;
      var init := cards[..n];
      var prev := TowerCardsRun(files, init, outDir);
      TowerCardsRunSettles(files, init, outDir);
      var last := TowerCardsRun(files, cards, outDir).files;
      assert Extends(prev.files, last);
      forall k | 0 <= k < |cards| ensures TowerCardSettled(last, cards[k], outDir) {
        if k < n {
          assert cards[k] == init[k];
          assert TowerCardSettled(prev.files, cards[k], outDir);
        }
      }
    }
  }

  /** On a disk where every card is settled, a pass completes and changes nothing. */
  lemma {:induction false} TowerCardsRunNoOp(files: map<Path, Bytes>, cards: seq<VideoTowerCard>, outDir: string)
    requires forall k :: 0 <= k < |cards| ==> TowerCardSettled(files, cards[k], outDir)
    ensures TowerCardsRun(files, cards, outDir) == Run(files, Completed)
    decreases |cards|
  {
    if |cards| > 0 {
      var init := cards[..|cards| - 1];
      forall k | 0 <= k < |init| ensures TowerCardSettled(files, init[k], outDir) {
        assert init[k] == cards[k];
      }
      TowerCardsRunNoOp(files, init, outDir);
      assert TowerCardSettled(files, cards[|cards| - 1], outDir);
    }
  }

  /** Running `extractFromTowerCards` a second time over the same cards changes nothing. */
  lemma TowerCardsRunIdempotent(files: map<Path, Bytes>, cards: seq<VideoTowerCard>, outDir: string)
    requires TowerCardsRun(files, cards, outDir).outcome.Completed?
    ensures var once := TowerCardsRun(files, cards, outDir).files;
            TowerCardsRun(once, cards, outDir) == Run(once, Completed)
  {
    TowerCardsRunSettles(files, cards, outDir);
    TowerCardsRunNoOp(TowerCardsRun(files, cards, outDir).files, cards, outDir);
  }

  /** `p` is the card's target and holds the same bytes as the card's thumbnail. */
  ghost predicate CopiedBy(files: map<Path, Bytes>, card: VideoTowerCard, outDir: string, p: Path) {
    && card.thumbnail.Some?
    && p == TowerCardTarget(card.link, card.thumbnail.value, outDir)
    && p in files && card.thumbnail.value in files
    && files[p] == files[card.thumbnail.value]
  }

  /** A copy already made survives any later growth of the disk. */
  lemma CopiedByKept(before: map<Path, Bytes>, after: map<Path, Bytes>, card: VideoTowerCard, outDir: string, p: Path)
    requires Extends(before, after) && CopiedBy(before, card, outDir, p)
    ensures CopiedBy(after, card, outDir, p)
  {
    assert after[p] == before[p] && after[card.thumbnail.value] == before[card.thumbnail.value];
  }

  /** A tower-card pass writes nothing but card targets, each a copy of its card's thumbnail. */
  lemma {:induction false} TowerCardsRunWritesOnlyTargets(files: map<Path, Bytes>, cards: seq<VideoTowerCard>, outDir: string)
    ensures var run := TowerCardsRun(files, cards, outDir);
            forall p :: p in run.files && p !in files ==> exists k :: 0 <= k < |cards| && CopiedBy(run.files, cards[k], outDir, p)
    decreases |cards|
  {
    if |cards| > 0 {
      var n := |cards| - 1;
      var prev := TowerCardsRun(files, cards[..n], outDir);
      TowerCardsRunWritesOnlyTargets(files, cards[..n], outDir);
      if prev.outcome.Completed? && TowerCardStep(prev.files, cards[n], outDir).Ok? {
        TowerCardStepWritesOnlyTarget(files, prev.files, cards, outDir);
      }
    }
  }

  /** The inductive step of `TowerCardsRunWritesOnlyTargets`: the last card adds at most its own target. */
  lemma TowerCardStepWritesOnlyTarget(files: map<Path, Bytes>, before: map<Path, Bytes>, cards: seq<VideoTowerCard>, outDir: string)
    requires |cards| > 0
    requires forall p :: p in before && p !in files ==> exists k :: 0 <= k < |cards| - 1 && CopiedBy(before, cards[k], outDir, p)
    requires TowerCardStep(before, cards[|cards| - 1], outDir).Ok?
    ensures var after := TowerCardStep(before, cards[|cards| - 1], outDir).value;
            forall p :: p in after && p !in files ==> exists k :: 0 <= k < |cards| && CopiedBy(after, cards[k], outDir, p)
  {
    var n := |cards| - 1;
    var after := TowerCardStep(before, cards[n], outDir).value;
    TowerCardStepEffect(before, cards[n], outDir);
    forall p | p in after && p !in files ensures exists k :: 0 <= k < |cards| && CopiedBy(after, cards[k], outDir, p) {
      if p in before {
        var k :| 0 <= k < n && CopiedBy(before, cards[k], outDir, p);
        CopiedByKept(before, after, cards[k], outDir, p);
      } else {
        assert CopiedBy(after, cards[n], outDir, p);
      }
    }
  }

  /** Once a tower-card pass has aborted on a prefix, the rest of the cards change nothing. */
  lemma {:induction false} TowerCardsAbortIsFinal(files: map<Path, Bytes>, cards: seq<VideoTowerCard>, m: nat, outDir: string)
    requires m <= |cards|
    requires TowerCardsRun(files, cards[..m], outDir).outcome.Aborted?
    ensures TowerCardsRun(files, cards, outDir) == TowerCardsRun(files, cards[..m], outDir)
    decreases |cards| - m
  {
    if m < |cards| {
      var init := cards[..|cards| - 1];
      assert init[..m] == cards[..m];
      TowerCardsAbortIsFinal(files, init, m, outDir);
    } else {
      assert cards[..m] == cards;
    }
  }

  // ---------------------------------------------------------------------
  // Legacy records: remote fetches

  /** Where a legacy record's selected URL goes: `outDir/video-<id without "v">.<url extension>`. */
  function LegacyTarget(id: string, url: string, outDir: string): Path {
    Path(outDir, CommonFileName(LegacyVideoId(id), UrlExtension(url)))
  }

  /**
   One iteration of `extractFromOldArchiveInfo`. `read` stands for fetching
   and decoding the URL (`None` when that throws); `write` for re-encoding
   the image in the named format.
   */
  function LegacyStep(files: map<Path, Bytes>, info: OldArchiveVodInfo, outDir: string,
                      read: string -> Option<Image>, write: (Image, string) -> Bytes): (r: Result<map<Path, Bytes>, SelectionError>)
    ensures r.Ok? ==> Extends(files, r.value) && LegacySettled(r.value, info, outDir, read)
    ensures r.Err? <==> BestThumbnailUrl(info).Fatal?
  {
    match BestThumbnailUrl(info)
    case Fatal(e) => Err(e)
    case NoThumbnail => Ok(files)
    case Selected(url) =>
      var target := LegacyTarget(info.id, url, outDir);
      if target in files then Ok(files)
      else match read(url)
        case None => Ok(files)
        case Some(image) => Ok(files[target := write(image, UrlExtension(url))])
  }

  /** `extractFromOldArchiveInfo` as a fold over the records; a fatal selection aborts the pass. */
  function LegacyRun(files: map<Path, Bytes>, infos: seq<OldArchiveVodInfo>, outDir: string,
                     read: string -> Option<Image>, write: (Image, string) -> Bytes): (run: Run)
    ensures Extends(files, run.files)
    ensures run.outcome.Aborted? ==> run.outcome.index < |infos| && run.outcome.failure.BadRecord?
    decreases |infos|
  {
    if |infos| == 0 then Run(files, Completed)
    else
      var prev := LegacyRun(files, infos[..|infos| - 1], outDir, read, write);
      if prev.outcome.Aborted? then prev
      else match LegacyStep(prev.files, infos[|infos| - 1], outDir, read, write)
        case Ok(next) => Run(next, Completed)
        case Err(e) => Run(prev.files, Aborted(|infos| - 1, BadRecord(e)))
  }

  /**
   What one record does: a fatal selection is an error; "no thumbnail", an
   existing target and a failed fetch all leave the disk as it is; otherwise
   exactly the target appears, holding the re-encoded image.
   */
  lemma LegacyStepEffect(files: map<Path, Bytes>, info: OldArchiveVodInfo, outDir: string,
                         read: string -> Option<Image>, write: (Image, string) -> Bytes)
    ensures BestThumbnailUrl(info).Fatal? <==> LegacyStep(files, info, outDir, read, write).Err?
    ensures BestThumbnailUrl(info).Fatal? ==> LegacyStep(files, info, outDir, read, write) == Err(BestThumbnailUrl(info).error)
    ensures BestThumbnailUrl(info) == NoThumbnail ==> LegacyStep(files, info, outDir, read, write) == Ok(files)
    ensures BestThumbnailUrl(info).Selected? ==>
              var url := BestThumbnailUrl(info).url;
              var target := LegacyTarget(info.id, url, outDir);
              var r := LegacyStep(files, info, outDir, read, write);
              if target in files || read(url).None? then r == Ok(files)
              else r.Ok? && target in r.value && r.value[target] == write(read(url).value, UrlExtension(url))
                   && OnlyChanges(files, r.value, target)
  {
  }

  /**
   A selected record's target is one of the two names the lookup tries, so
   a thumbnail fetched by the legacy pass is found by `findByVideoId`.
   */
  lemma LegacyTargetIsLookupCandidate(info: OldArchiveVodInfo, outDir: string)
    requires BestThumbnailUrl(info).Selected?
    ensures var target := LegacyTarget(info.id, BestThumbnailUrl(info).url, outDir);
            target == JpgPath(outDir, LegacyVideoId(info.id)) || target == JpegPath(outDir, LegacyVideoId(info.id))
  {
    SelectedExtensionIsJpeg(info);
  }

  /** The record leaves nothing to do on this disk, with this fetch. */
  predicate LegacySettled(files: map<Path, Bytes>, info: OldArchiveVodInfo, outDir: string, read: string -> Option<Image>) {
    match BestThumbnailUrl(info)
    case Fatal(_) => false
    case NoThumbnail => true
    case Selected(url) => LegacyTarget(info.id, url, outDir) in files || read(url).None?
  }

  /** No record among the first `i` has a fatal selection. */
  ghost predicate NoFatalBefore(infos: seq<OldArchiveVodInfo>, i: int) {
    forall j :: 0 <= j < i && j < |infos| ==> !BestThumbnailUrl(infos[j]).Fatal?
  }

  /** A legacy pass completes exactly when no record's selection is fatal. */
  lemma {:induction false} LegacyRunCompletesWithoutFatal(files: map<Path, Bytes>, infos: seq<OldArchiveVodInfo>, outDir: string,
                                                          read: string -> Option<Image>, write: (Image, string) -> Bytes)
    ensures LegacyRun(files, infos, outDir, read, write).outcome.Completed? <==> NoFatalBefore(infos, |infos|)
    decreases |infos|
  {
    if |infos| > 0 {
      var n := |infos| - 1;
      var init := infos[..n];
      var prev := LegacyRun(files, init, outDir, read, write);
      var run := LegacyRun(files, infos, outDir, read, write);
      LegacyRunCompletesWithoutFatal(files, init, outDir, read, write);
      assert NoFatalBefore(init, n) <==> NoFatalBefore(infos, n) by {
        assert forall j :: 0 <= j < n ==> init[j] == infos[j];
      }
      if prev.outcome.Aborted? {
        assert run == prev;
      } else {
        var step := LegacyStep(prev.files, infos[n], outDir, read, write);
        assert run.outcome.Completed? <==> step.Ok?;
      }
    }
  }

  /**
   A legacy pass that aborts does so at the first record whose selection is
   fatal, with that record's error, keeping what the records before it wrote.
   */
  lemma {:induction false} LegacyRunAbortsAtFirstFatal(files: map<Path, Bytes>, infos: seq<OldArchiveVodInfo>, outDir: string,
                                                       read: string -> Option<Image>, write: (Image, string) -> Bytes)
    requires LegacyRun(files, infos, outDir, read, write).outcome.Aborted?
    ensures var run := LegacyRun(files, infos, outDir, read, write);
            var i := run.outcome.index;
            && BestThumbnailUrl(infos[i]) == Fatal(run.outcome.failure.selectionError)
            && NoFatalBefore(infos, i)
            && run.files == LegacyRun(files, infos[..i], outDir, read, write).files
    decreases |infos|
  {
    var n := |infos| - 1;
    var init := infos[..n];
    var prev := LegacyRun(files, init, outDir, read, write);
    if prev.outcome.Aborted? {
      LegacyRunAbortsAtFirstFatal(files, init, outDir, read, write);
      var i := prev.outcome.index;
      assert init[i] == infos[i];
      assert init[..i] == infos[..i];
      assert forall j :: 0 <= j < i ==> init[j] == infos[j];
    } else {
      LegacyRunCompletesWithoutFatal(files, init, outDir, read, write);
      LegacyStepEffect(prev.files, infos[n], outDir, read, write);
      assert forall j :: 0 <= j < n ==> init[j] == infos[j];
    }
  }

  /** After a completed legacy pass every record is settled. */
  lemma {:induction false} LegacyRunSettles(files: map<Path, Bytes>, infos: seq<OldArchiveVodInfo>, outDir: string,
                                            read: string -> Option<Image>, write: (Image, string) -> Bytes)
    requires LegacyRun(files, infos, outDir, read, write).outcome.Completed?
    ensures forall k :: 0 <= k < |infos| ==> LegacySettled(LegacyRun(files, infos, outDir, read, write).files, infos[k], outDir, read)
    decreases |infos|
  {
    if |infos| > 0 {
      var init := infos[..|infos| - 1];
      var prev := LegacyRun(files, init, outDir, read, write);
      LegacyRunSettles(files, init, outDir, read, write);
      var last := LegacyRun(files, infos, outDir, read, write).files;
      forall k | 0 <= k < |infos| ensures LegacySettled(last, infos[k], outDir, read) {
        if k < |infos| - 1 {
          assert infos[k] == init[k];
          assert LegacySettled(prev.files, infos[k], outDir, read);
        }
      }
    }
  }

  /** On a disk where every record is settled, a legacy pass completes and changes nothing. */
  lemma {:induction false} LegacyRunNoOp(files: map<Path, Bytes>, infos: seq<OldArchiveVodInfo>, outDir: string,
                                         read: string -> Option<Image>, write: (Image, string) -> Bytes)
    requires forall k :: 0 <= k < |infos| ==> LegacySettled(files, infos[k], outDir, read)
    ensures LegacyRun(files, infos, outDir, read, write) == Run(files, Completed)
    decreases |infos|
  {
    if |infos| > 0 {
      var init := infos[..|infos| - 1];
      forall k | 0 <= k < |init| ensures LegacySettled(files, init[k], outDir, read) {
        assert init[k] == infos[k];
      }
      LegacyRunNoOp(files, init, outDir, read, write);
      assert LegacySettled(files, infos[|infos| - 1], outDir, read);
    }
  }

  /**
   Running `extractFromOldArchiveInfo` again over the same records, against
   the same remote content, changes nothing: fetched targets exist, and the
   fetches that failed fail again.
   */
  lemma LegacyRunIdempotent(files: map<Path, Bytes>, infos: seq<OldArchiveVodInfo>, outDir: string,
                            read: string -> Option<Image>, write: (Image, string) -> Bytes)
    requires LegacyRun(files, infos, outDir, read, write).outcome.Completed?
    ensures var once := LegacyRun(files, infos, outDir, read, write).files;
            LegacyRun(once, infos, outDir, read, write) == Run(once, Completed)
  {
    LegacyRunSettles(files, infos, outDir, read, write);
    LegacyRunNoOp(LegacyRun(files, infos, outDir, read, write).files, infos, outDir, read, write);
  }

  /** `p` is the record's selected target and holds its fetched image, re-encoded. */
  ghost predicate FetchedBy(files: map<Path, Bytes>, info: OldArchiveVodInfo, outDir: string,
                            read: string -> Option<Image>, write: (Image, string) -> Bytes, p: Path) {
    && BestThumbnailUrl(info).Selected?
    && p == LegacyTarget(info.id, BestThumbnailUrl(info).url, outDir)
    && read(BestThumbnailUrl(info).url).Some?
    && p in files
    && files[p] == write(read(BestThumbnailUrl(info).url).value, UrlExtension(BestThumbnailUrl(info).url))
  }

  /** A legacy pass writes nothing but selected targets whose fetch succeeded. */
  lemma {:induction false} LegacyRunWritesOnlyTargets(files: map<Path, Bytes>, infos: seq<OldArchiveVodInfo>, outDir: string,
                                                     read: string -> Option<Image>, write: (Image, string) -> Bytes)
    ensures var run := LegacyRun(files, infos, outDir, read, write);
            forall p :: p in run.files && p !in files ==>
              exists k :: 0 <= k < |infos| && FetchedBy(run.files, infos[k], outDir, read, write, p)
    decreases |infos|
  {
    if |infos| > 0 {
      var n := |infos| - 1;
      var prev := LegacyRun(files, infos[..n], outDir, read, write);
      LegacyRunWritesOnlyTargets(files, infos[..n], outDir, read, write);
      if prev.outcome.Completed? && LegacyStep(prev.files, infos[n], outDir, read, write).Ok? {
        LegacyStepWritesOnlyTarget(files, prev.files, infos, outDir, read, write);
      }
    }
  }

  /** A fetched image survives any later growth of the disk. */
  lemma FetchedByKept(before: map<Path, Bytes>, after: map<Path, Bytes>, info: OldArchiveVodInfo, outDir: string,
                      read: string -> Option<Image>, write: (Image, string) -> Bytes, p: Path)
    requires Extends(before, after) && FetchedBy(before, info, outDir, read, write, p)
    ensures FetchedBy(after, info, outDir, read, write, p)
  {
    assert after[p] == before[p];
  }

  /** The inductive step of `LegacyRunWritesOnlyTargets`: the last record adds at most its own target. */
  lemma LegacyStepWritesOnlyTarget(files: map<Path, Bytes>, before: map<Path, Bytes>, infos: seq<OldArchiveVodInfo>, outDir: string,
                                   read: string -> Option<Image>, write: (Image, string) -> Bytes)
    requires |infos| > 0
    requires forall p :: p in before && p !in files ==>
               exists k :: 0 <= k < |infos| - 1 && FetchedBy(before, infos[k], outDir, read, write, p)
    requires LegacyStep(before, infos[|infos| - 1], outDir, read, write).Ok?
    ensures var after := LegacyStep(before, infos[|infos| - 1], outDir, read, write).value;
            forall p :: p in after && p !in files ==>
              exists k :: 0 <= k < |infos| && FetchedBy(after, infos[k], outDir, read, write, p)
  {
    var n := |infos| - 1;
    var after := LegacyStep(before, infos[n], outDir, read, write).value;
    LegacyStepEffect(before, infos[n], outDir, read, write);
    forall p | p in after && p !in files
      ensures exists k :: 0 <= k < |infos| && FetchedBy(after, infos[k], outDir, read, write, p)
    {
      if p in before {
        var k :| 0 <= k < n && FetchedBy(before, infos[k], outDir, read, write, p);
        FetchedByKept(before, after, infos[k], outDir, read, write, p);
      } else {
        assert FetchedBy(after, infos[n], outDir, read, write, p);
      }
    }
  }

  /** Once a legacy pass has aborted on a prefix, the rest of the records change nothing. */
  lemma {:induction false} LegacyAbortIsFinal(files: map<Path, Bytes>, infos: seq<OldArchiveVodInfo>, m: nat, outDir: string,
                                              read: string -> Option<Image>, write: (Image, string) -> Bytes)
    requires m <= |infos|
    requires LegacyRun(files, infos[..m], outDir, read, write).outcome.Aborted?
    ensures LegacyRun(files, infos, outDir, read, write) == LegacyRun(files, infos[..m], outDir, read, write)
    decreases |infos| - m
  {
    if m < |infos| {
      var init := infos[..|infos| - 1];
      assert init[..m] == infos[..m];
      LegacyAbortIsFinal(files, init, m, outDir, read, write);
    } else {
      assert infos[..m] == infos;
    }
  }

  /** A well-formed record, `v12345` with `https://x/foo_640x360.jpg`, whose image can be fetched yields `video-12345.jpg`. */
  lemma ReachableRecordIsWritten(files: map<Path, Bytes>, outDir: string, image: Image,
                                 read: string -> Option<Image>, write: (Image, string) -> Bytes)
    requires read("https://x" + "/" + "foo_640x360.jpg") == Some(image)
    requires Path(outDir, "video-12345.jpg") !in files
    ensures var url := "https://x" + "/" + "foo_640x360.jpg";
            var info := OldArchiveVodInfo("v12345", url, [Thumbnail(url, 10)]);
            LegacyRun(files, [info], outDir, read, write)
            == Run(files[Path(outDir, "video-12345.jpg") := write(image, "jpg")], Completed)
  {
    var url := "https://x" + "/" + "foo_640x360.jpg";
    var info := OldArchiveVodInfo("v12345", url, [Thumbnail(url, 10)]);
    SelectedJpegExample();
    JpegExampleTarget(outDir);
    assert [info][..0] == [];
    LegacyStepEffect(files, info, outDir, read, write);
  }

  /** The record above passes the selection policy. */
  lemma SelectedJpegExample()
    ensures var url := "https://x" + "/" + "foo_640x360.jpg";
            BestThumbnailUrl(OldArchiveVodInfo("v12345", url, [Thumbnail(url, 10)])) == Selected(url)
  {
    var dir, file := "https://x", "foo_640x360.jpg";
    var url := dir + "/" + file;
    assert file[4..11] == Resolution;
    assert file[|file| - 4..] == ".jpg";
    ResolutionInFileName(dir, file, 4);
    EndsWithJoin(dir, file, ".jpg");
    assert IsJpegUrl(url);
    assert |url| != |Sentinel|;
  }

  /** The record above goes to `video-12345.jpg`, written as "jpg". */
  lemma JpegExampleTarget(outDir: string)
    ensures UrlExtension("https://x" + "/" + "foo_640x360.jpg") == "jpg"
    ensures LegacyTarget("v12345", "https://x" + "/" + "foo_640x360.jpg", outDir) == Path(outDir, "video-12345.jpg")
  {
    var dir, file := "https://x", "foo_640x360.jpg";
    assert file[|file| - 4..] == ".jpg";
    EndsWithJoin(dir, file, ".jpg");
    ExtensionOfSuffix(dir + "/" + file, "jpg");
    assert "v12345"[..1] == "v";
    assert LegacyVideoId("v12345") == "12345";
  }

  /** When the fetch fails (a 404, say) nothing is written and the pass goes on to the next record. */
  lemma UnreachableRecordIsSkipped(files: map<Path, Bytes>, infos: seq<OldArchiveVodInfo>, k: nat, outDir: string,
                                   read: string -> Option<Image>, write: (Image, string) -> Bytes)
    requires k < |infos|
    requires LegacyRun(files, infos[..k], outDir, read, write).outcome.Completed?
    requires BestThumbnailUrl(infos[k]).Selected?
    requires read(BestThumbnailUrl(infos[k]).url).None?
    ensures LegacyRun(files, infos[..k + 1], outDir, read, write) == LegacyRun(files, infos[..k], outDir, read, write)
  {
    assert infos[..k + 1][..k] == infos[..k];
    LegacyStepEffect(LegacyRun(files, infos[..k], outDir, read, write).files, infos[k], outDir, read, write);
  }

  // ---------------------------------------------------------------------
  // The extractor and the disk it works against

  class ThumbnailExtractor {
    /** The files that exist, with their bytes. */
    var files: map<Path, Bytes>

    constructor (files: map<Path, Bytes>)
      ensures this.files == files
    {
      this.files := files;
    }

    /** `source.copyTo(target)`: on success the target holds the source's bytes; on failure nothing changes. */
    method CopyTo(source: Path, target: Path) returns (error: Option<CopyError>)
      modifies this
      ensures Copy(old(files), source, target) == if error.None? then Ok(files) else Err(error.value)
      ensures error.Some? ==> files == old(files)
    {
      if source !in files {
        return Some(NoSuchSource(source));
      }
      if target in files {
        return Some(TargetExists(target));
      }
      files := files[target := files[source]];
      return None;
    }

    /** `extractFromTowerCards`: copies each card's thumbnail to its canonical name unless that exists. */
    method ExtractFromTowerCards(cards: seq<VideoTowerCard>, outDir: string) returns (outcome: Outcome)
      modifies this
      ensures Run(files, outcome) == TowerCardsRun(old(files), cards, outDir)
    {
      var i := 0;
      while i < |cards|
        invariant 0 <= i <= |cards|
        invariant TowerCardsRun(old(files), cards[..i], outDir) == Run(files, Completed)
      {
        assert cards[..i + 1][..i] == cards[..i];
        var card := cards[i];
        if card.thumbnail.None? {
          i := i + 1;
          continue;
        }
        var thumbnail := card.thumbnail.value;
        var outputFile := TowerCardTarget(card.link, thumbnail, outDir);
        if outputFile !in files {
          var error := CopyTo(thumbnail, outputFile);
          if error.Some? {
            TowerCardsAbortIsFinal(old(files), cards, i + 1, outDir);
            return Aborted(i, CopyFailed(error.value));
          }
        }
        i := i + 1;
      }
      assert cards[..i] == cards;
      return Completed;
    }

    /**
     The body of `extractFromOldArchiveInfo`'s loop for one record: a fatal
     selection is returned as the error; otherwise the selected thumbnail is
     fetched to its canonical name unless that exists or the fetch fails.
     */
    method ExtractRecord(info: OldArchiveVodInfo, outDir: string,
                         read: string -> Option<Image>, write: (Image, string) -> Bytes)
      returns (error: Option<SelectionError>)
      modifies this
      ensures LegacyStep(old(files), info, outDir, read, write) == if error.None? then Ok(files) else Err(error.value)
      ensures error.Some? ==> files == old(files)
    {
      var selection := BestThumbnailUrl(info);
      if selection.Fatal? {
        return Some(selection.error);
      }
      if selection.NoThumbnail? {
        return None;
      }
      var bestThumbnailUrl := selection.url;
      var extension := UrlExtension(bestThumbnailUrl);
      var outputFile := LegacyTarget(info.id, bestThumbnailUrl, outDir);
      if outputFile !in files {
        var image := read(bestThumbnailUrl);
        if image.None? {
          return None;
        }
        files := files[outputFile := write(image.value, extension)];
      }
      return None;
    }

    /**
     `extractFromOldArchiveInfo`: fetches each record's selected thumbnail
     to its canonical name unless that exists; a failed fetch skips the
     record, a fatal selection ends the pass.
     */
    method ExtractFromOldArchiveInfo(infos: seq<OldArchiveVodInfo>, outDir: string,
                                     read: string -> Option<Image>, write: (Image, string) -> Bytes)
      returns (outcome: Outcome)
      modifies this
      ensures Run(files, outcome) == LegacyRun(old(files), infos, outDir, read, write)
    {
      var index := 0;
      while index < |infos|
        invariant 0 <= index <= |infos|
        invariant LegacyRun(old(files), infos[..index], outDir, read, write) == Run(files, Completed)
      {
        assert infos[..index + 1][..index] == infos[..index];
        var error := ExtractRecord(infos[index], outDir, read, write);
        if error.Some? {
          LegacyAbortIsFinal(old(files), infos, index + 1, outDir, read, write);
          return Aborted(index, BadRecord(error.value));
        }
        index := index + 1;
      }
      assert infos[..index] == infos;
      return Completed;
    }
  }
}
