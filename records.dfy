/**
 The values the thumbnail extractor works on: the two parsed metadata
 records, file paths and their contents, and the decoded image that the
 image library hands back.
 */
module Records {

  datatype Option<T> = None | Some(value: T)

  datatype Result<T, E> = Ok(value: T) | Err(error: E)

  newtype byte = x: int | 0 <= x < 256

  type Bytes = seq<byte>

  /** A file: the directory it is resolved against and its own name. */
  datatype Path = Path(dir: string, name: string)

  /** One candidate thumbnail of a legacy record; a higher preference is better. */
  datatype Thumbnail = Thumbnail(url: string, preference: int)

  /** A legacy archive record: its id ("v" + video id), primary thumbnail URL and the ranked candidates. */
  datatype OldArchiveVodInfo = OldArchiveVodInfo(id: string, thumbnail: string, thumbnails: seq<Thumbnail>)

  /** A video tower card: the video's link and, when there is one, its local thumbnail file. */
  datatype VideoTowerCard = VideoTowerCard(link: string, thumbnail: Option<Path>)

  /** A decoded picture; the model never looks inside it. */
  type Image(==)
}
