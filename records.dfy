/** The two persisted entities of the favourite-list service, the request
    bodies the routes accept, the validation rules the entity schema
    declares, and the shape of an HTTP response. */
module Records {

  datatype Option<+T> = None | Some(value: T) {
    /** The carried value, or `default` when absent. */
    function GetOr(default: T): T {
      if Some? then value else default
    }
  }

  /** A row of the `lists` table. Dates are instants on an integer time line. */
  datatype FavoriteList = FavoriteList(id: nat, description: string, date: int)

  /** A row of the `videos` table; `listId` is the foreign key of the
      one-to-many association from a list to its videos. */
  datatype Video = Video(id: nat, description: string, title: string, url: string, listId: nat)

  /** A JSON body sent for a list: each attribute the entity defines, `None`
      when the key is absent. Keys the entity does not define are dropped by
      the ORM and have no counterpart here. */
  datatype ListBody = ListBody(id: Option<nat>, description: Option<string>, date: Option<int>)

  /** A JSON body sent for a video, including the association's `listId`. */
  datatype VideoBody = VideoBody(
    id: Option<nat>,
    description: Option<string>,
    title: Option<string>,
    url: Option<string>,
    listId: Option<nat>)

  const LIST_DESCRIPTION_MIN: nat := 3
  const LIST_DESCRIPTION_MAX: nat := 45
  const VIDEO_TEXT_MIN: nat := 5
  const VIDEO_TEXT_MAX: nat := 45

  /** The `len: [lo, hi]` validator: both bounds inclusive. */
  predicate LengthWithin(s: string, lo: nat, hi: nat) {
    lo <= |s| <= hi
  }

  predicate ListDescriptionOk(s: string) {
    LengthWithin(s, LIST_DESCRIPTION_MIN, LIST_DESCRIPTION_MAX)
  }

  /** The rule shared by a video's description and its title. */
  predicate VideoTextOk(s: string) {
    LengthWithin(s, VIDEO_TEXT_MIN, VIDEO_TEXT_MAX)
  }

  /** A stored list satisfies its schema (the date is never null in a row). */
  predicate ValidList(l: FavoriteList) {
    ListDescriptionOk(l.description)
  }

  /** A stored video satisfies its schema; `isUrl` is the URL validator. */
  predicate ValidVideo(v: Video, isUrl: string -> bool) {
    VideoTextOk(v.description) && VideoTextOk(v.title) && isUrl(v.url)
  }

  /** The JSON a route sends back. */
  datatype Body =
    | Message(text: string)
    | ListJson(list: FavoriteList, videos: seq<Video>)
    | ListsJson(lists: seq<FavoriteList>)
    | VideosJson(videos: seq<Video>)
    | VideoJson(video: Video)
    | NoBody

  datatype Response = Response(status: nat, body: Body)

  /** What every route answers when the storage layer throws. */
  const SERVER_ERROR := Response(500, Message("some error occured"))
}
