/**
 Locating an already extracted thumbnail (both `findByVideoId` overloads):
 directories are searched in order, and within one directory the `.jpg`
 name is tried before the `.jpeg` one. The disk is the map from the paths
 that exist to their contents; looking changes nothing.
 */
module Lookup {
  import opened Records
  import opened Naming

  /** The `.jpg` candidate of a video in a directory. */
  function JpgPath(dir: string, videoId: string): Path {
    Path(dir, CommonFileName(videoId, "jpg"))
  }

  /** The `.jpeg` candidate of a video in a directory. */
  function JpegPath(dir: string, videoId: string): Path {
    Path(dir, CommonFileName(videoId, "jpeg"))
  }

  /** The directory holds a thumbnail of the video under either canonical name. */
  predicate HoldsThumbnail(files: map<Path, Bytes>, dir: string, videoId: string) {
    JpgPath(dir, videoId) in files || JpegPath(dir, videoId) in files
  }

  /** Position `k` is the first directory of `dirs` that holds a thumbnail of the video. */
  ghost predicate FirstHolding(files: map<Path, Bytes>, dirs: seq<string>, videoId: string, k: int) {
    && 0 <= k < |dirs|
    && HoldsThumbnail(files, dirs[k], videoId)
    && forall j :: 0 <= j < k ==> !HoldsThumbnail(files, dirs[j], videoId)
  }

  /** `File.findByVideoId`: the first existing candidate name in one directory. */
  function FindInDirectory(files: map<Path, Bytes>, dir: string, videoId: string): (r: Option<Path>)
    ensures r.Some? <==> HoldsThumbnail(files, dir, videoId)
    ensures r.Some? ==> r.value in files && r.value.dir == dir
    ensures r.Some? ==> r.value == JpgPath(dir, videoId) || r.value == JpegPath(dir, videoId)
    ensures JpgPath(dir, videoId) in files ==> r == Some(JpgPath(dir, videoId))
  {
    if JpgPath(dir, videoId) in files then Some(JpgPath(dir, videoId))
    else if JpegPath(dir, videoId) in files then Some(JpegPath(dir, videoId))
    else None
  }

  /** `findByVideoId(videoId, directories)`: the first directory's match, in list order. */
  function FindByVideoId(files: map<Path, Bytes>, videoId: string, dirs: seq<string>): (r: Option<Path>)
    ensures r.None? <==> forall j :: 0 <= j < |dirs| ==> !HoldsThumbnail(files, dirs[j], videoId)
    ensures r.Some? ==> exists k :: FirstHolding(files, dirs, videoId, k) && r == FindInDirectory(files, dirs[k], videoId)
    decreases |dirs|
  {
    if |dirs| == 0 then None
    else
      var here := FindInDirectory(files, dirs[0], videoId);
      if here.Some? then
        assert FirstHolding(files, dirs, videoId, 0);
        here
      else
        var rest := FindByVideoId(files, videoId, dirs[1..]);
        if rest.Some? then FirstHoldingLater(files, dirs, videoId, rest); rest
        else rest
  }

  /** A first match among the later directories is the first match overall when the first directory holds none. */
  lemma FirstHoldingLater(files: map<Path, Bytes>, dirs: seq<string>, videoId: string, r: Option<Path>)
    requires 0 < |dirs| && !HoldsThumbnail(files, dirs[0], videoId)
    requires exists k :: FirstHolding(files, dirs[1..], videoId, k) && r == FindInDirectory(files, dirs[1..][k], videoId)
    ensures exists k :: FirstHolding(files, dirs, videoId, k) && r == FindInDirectory(files, dirs[k], videoId)
  {
    var k :| FirstHolding(files, dirs[1..], videoId, k) && r == FindInDirectory(files, dirs[1..][k], videoId);
    assert FirstHolding(files, dirs, videoId, k + 1);
  }

  /** The match found is unique: whichever directory holds the video first, that is where the lookup points. */
  lemma FindByVideoIdFirstDirectory(files: map<Path, Bytes>, videoId: string, dirs: seq<string>, k: nat)
    requires FirstHolding(files, dirs, videoId, k)
    ensures FindByVideoId(files, videoId, dirs) == FindInDirectory(files, dirs[k], videoId)
    ensures FindByVideoId(files, videoId, dirs).value.dir == dirs[k]
  {
    var r := FindByVideoId(files, videoId, dirs);
    var k' :| FirstHolding(files, dirs, videoId, k') && r == FindInDirectory(files, dirs[k'], videoId);
    assert k' == k;
  }
}
