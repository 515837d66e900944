/**
 How the extractor names its output (`getCommonFileName`) and how it
 derives a video id and an extension from each kind of record.
 */
module Naming {
  import opened Text
  import opened Records

  /** The canonical output name `video-<id>.<extension>`. */
  function CommonFileName(videoId: string, extension: string): string {
    "video-" + videoId + "." + extension
  }

  /** A tower card's video id: the link's text after its last "/". */
  function TowerCardVideoId(link: string): string {
    SubstringAfterLast(link, '/', link)
  }

  /** A legacy record's video id: its id with one leading "v" removed. */
  function LegacyVideoId(id: string): string {
    RemovePrefix(id, "v")
  }

  /** Kotlin's `File.extension`: the name's text after its last ".". */
  function FileExtension(file: Path): string {
    SubstringAfterLast(file.name, '.', "")
  }

  /**
   A tower card's video id is the link's last path segment: it holds no
   "/", and it is the whole link when the link has no "/".
   */
  lemma TowerCardVideoIdIsLastSegment(link: string)
    ensures '/' !in TowerCardVideoId(link)
    ensures '/' !in link ==> TowerCardVideoId(link) == link
    ensures '/' in link ==> EndsWith(link, "/" + TowerCardVideoId(link))
  {
    var id := TowerCardVideoId(link);
    SubstringAfterLastSplits(link, '/', link);
    if '/' in link {
      assert link[|link| - |id| - 1..] == "/" + id;
    }
  }

  /** At most one leading "v" is removed from a legacy id. */
  lemma LegacyVideoIdStripsOneV(id: string)
    ensures LegacyVideoId(id) == id || "v" + LegacyVideoId(id) == id
    ensures |id| > 0 && id[0] == 'v' ==> LegacyVideoId(id) == id[1..]
    ensures (|id| == 0 || id[0] != 'v') ==> LegacyVideoId(id) == id
  {
  }

  /** A file's extension holds no dot, and is empty when its name has none. */
  lemma FileExtensionHasNoDot(file: Path)
    ensures '.' !in FileExtension(file)
    ensures '.' !in file.name ==> FileExtension(file) == ""
  {
    SubstringAfterLastSplits(file.name, '.', "");
  }

  /** A URL's extension as the legacy path takes it: the text after its last "." (the whole URL if none). */
  function UrlExtension(url: string): string {
    SubstringAfterLast(url, '.', url)
  }

  /**
   A canonical name gives its parts back: the written file's own extension
   is the one it was named with, and the id is what sits between "video-"
   and the final ".", provided the extension holds no dot.
   */
  lemma CommonFileNameParts(videoId: string, extension: string)
    requires '.' !in extension
    ensures SubstringAfterLast(CommonFileName(videoId, extension), '.', "") == extension
    ensures var name := CommonFileName(videoId, extension);
            name[6..|name| - |extension| - 1] == videoId
  {
    var name := CommonFileName(videoId, extension);
    assert name == ("video-" + videoId) + ['.'] + extension;
    AfterLastOfJoin("video-" + videoId, '.', extension, "");
  }

  /** Different videos, or different dot-free extensions, never share an output name. */
  lemma CommonFileNameInjective(id1: string, ext1: string, id2: string, ext2: string)
    requires '.' !in ext1 && '.' !in ext2
    requires CommonFileName(id1, ext1) == CommonFileName(id2, ext2)
    ensures id1 == id2 && ext1 == ext2
  {
    CommonFileNameParts(id1, ext1);
    CommonFileNameParts(id2, ext2);
  }
}
