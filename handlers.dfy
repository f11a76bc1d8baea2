/** The route handlers of the service as functions of the stored tables.
    A read-only route yields a `Response`; a route that writes yields the
    tables after the request together with the response (`Step`). Every
    storage error the handlers catch becomes `SERVER_ERROR`. */
module Handlers {
  import opened Records
  import opened Query

  /** The two tables and, for each, the id the engine hands out next. */
  datatype Db = Db(
    lists: map<nat, FavoriteList>,
    videos: map<nat, Video>,
    nextListId: nat,
    nextVideoId: nat)

  datatype Step = Step(db: Db, response: Response)

  /** Freshly created tables: no rows, ids counting from 1. */
  const EMPTY := Db(map[], map[], 1, 1)

  /** Each row is stored under its own id, below the next id of its table,
      and satisfies its schema. */
  predicate Valid(db: Db, isUrl: string -> bool) {
    && (forall k :: k in db.lists ==> db.lists[k].id == k && k < db.nextListId && ValidList(db.lists[k]))
    && (forall k :: k in db.videos ==> db.videos[k].id == k && k < db.nextVideoId && ValidVideo(db.videos[k], isUrl))
  }

  /** The id a create uses: the one the body names, else the next one. */
  function ChosenId(requested: Option<nat>, next: nat): nat {
    requested.GetOr(next)
  }

  /** The next id once `id` has been inserted: ids are never handed out twice. */
  function Advance(next: nat, id: nat): nat {
    if id < next then next else id + 1
  }

  /** All lists in table order. */
  function AllLists(db: Db): seq<FavoriteList> {
    Rows(db.lists, db.nextListId)
  }

  /** The rows of `vs` whose foreign key is `listId`. */
  function OwnedBy(vs: seq<Video>, listId: nat): seq<Video> {
    if |vs| == 0 then []
    else (if vs[0].listId == listId then [vs[0]] else []) + OwnedBy(vs[1..], listId)
  }

  /** The rows of `vs` with id `vid`. */
  function WithId(vs: seq<Video>, vid: nat): seq<Video> {
    if |vs| == 0 then []
    else (if vs[0].id == vid then [vs[0]] else []) + WithId(vs[1..], vid)
  }

  /** The association traversal `list.getVideos()` of the list with id `listId`. */
  function VideosOf(db: Db, listId: nat): seq<Video> {
    OwnedBy(Rows(db.videos, db.nextVideoId), listId)
  }

  /** `list.getVideos({ where: { id: vid } })` followed by `shift()`: the
      first associated video with that id, if any. */
  function Lookup(db: Db, listId: nat, vid: nat): Option<Video> {
    var found := WithId(VideosOf(db, listId), vid);
    if |found| == 0 then None else Some(found[0])
  }

  // ---------------------------------------------------------------- /sync

  /** GET /sync: drops and recreates both tables. */
  function Sync(): Step {
    Step(EMPTY, Response(201, Message("tables created")))
  }

  // ---------------------------------------------------------------- lists

  /** GET /lists: `minDate` keeps the lists dated strictly after it; a
      non-empty `sortBy` orders ascending on that column, and a name that is
      not a column makes the query fail. */
  function QueryLists(db: Db, minDate: Option<int>, sortBy: Option<string>): Response {
    var rows := AllLists(db);
    var kept := if minDate.Some? then After(rows, minDate.value) else rows;
    if sortBy.None? || sortBy.value == "" then Response(200, ListsJson(kept))
    else match ParseColumn(sortBy.value)
      case None => SERVER_ERROR
      case Some(c) => Response(200, ListsJson(SortBy(c, kept)))
  }

  /** GET /lists/:lid: the list together with its videos. */
  function FetchList(db: Db, lid: nat): Response {
    if lid in db.lists then Response(200, ListJson(db.lists[lid], VideosOf(db, db.lists[lid].id)))
    else Response(404, Message("list not found"))
  }

  /** POST /lists: the schema rejects a missing or badly sized description
      and a missing date; an id already taken violates the primary key. */
  function CreateList(db: Db, body: ListBody): Step {
    if body.description.None? || body.date.None? || !ListDescriptionOk(body.description.value) then
      Step(db, SERVER_ERROR)
    else
      var id := ChosenId(body.id, db.nextListId);
      if id in db.lists then Step(db, SERVER_ERROR)
      else
        var l := FavoriteList(id, body.description.value, body.date.value);
        Step(db.(lists := db.lists[id := l], nextListId := Advance(db.nextListId, id)),
             Response(201, Message("list created")))
  }

  /** PUT /lists/:lid: writes only `description` and `date`. When the list is
      missing, the else branch refers to an `err` that is not in scope; the
      ReferenceError it throws is caught and answered with 500, so the 404
      written in that branch is never sent. */
  function UpdateList(db: Db, lid: nat, body: ListBody): Step {
    if lid !in db.lists then Step(db, SERVER_ERROR)
    else if body.description.Some? && !ListDescriptionOk(body.description.value) then Step(db, SERVER_ERROR)
    else
      var l := db.lists[lid];
      var l' := l.(description := body.description.GetOr(l.description), date := body.date.GetOr(l.date));
      Step(db.(lists := db.lists[lid := l']), Response(200, Message("list updated")))
  }

  /** DELETE /lists/:lid: removes the list row only. */
  function DestroyList(db: Db, lid: nat): Step {
    if lid in db.lists then Step(db.(lists := db.lists - {lid}), Response(200, Message("list deleted")))
    else Step(db, Response(404, Message("list not found")))
  }

  // ---------------------------------------------------------------- videos

  /** GET /lists/:lid/videos. */
  function FetchVideos(db: Db, lid: nat): Response {
    if lid in db.lists then Response(200, VideosJson(VideosOf(db, db.lists[lid].id)))
    else Response(404, Message("list not found"))
  }

  /** GET /lists/:lid/videos/:vid: a video the list does not own is sent as
      an empty 200 body. */
  function FetchVideo(db: Db, lid: nat, vid: nat): Response {
    if lid !in db.lists then Response(404, Message("not found"))
    else match Lookup(db, db.lists[lid].id, vid)
      case Some(v) => Response(200, VideoJson(v))
      case None => Response(200, NoBody)
  }

  /** The fields the body gives pass their validators. */
  predicate VideoPatchOk(body: VideoBody, isUrl: string -> bool) {
    && (body.description.Some? ==> VideoTextOk(body.description.value))
    && (body.title.Some? ==> VideoTextOk(body.title.value))
    && (body.url.Some? ==> isUrl(body.url.value))
  }

  /** POST /lists/:lid/videos: the foreign key is set from the list found,
      whatever `listId` the body carried. */
  function CreateVideo(db: Db, isUrl: string -> bool, lid: nat, body: VideoBody): Step {
    if lid !in db.lists then Step(db, Response(404, Message("list not found")))
    else if body.description.None? || body.title.None? || body.url.None? || !VideoPatchOk(body, isUrl) then
      Step(db, SERVER_ERROR)
    else
      var id := ChosenId(body.id, db.nextVideoId);
      if id in db.videos then Step(db, SERVER_ERROR)
      else
        var v := Video(id, body.description.value, body.title.value, body.url.value, db.lists[lid].id);
        Step(db.(videos := db.videos[id := v], nextVideoId := Advance(db.nextVideoId, id)),
             Response(200, Message("video created")))
  }

  /** PUT /lists/:lid/videos/:vid: every attribute of the body is written
      except the primary key, which the ORM refuses to overwrite. The code
      tests the array `videos` (always truthy) instead of `video`, so a video
      the list does not own makes `video.update` throw, which is answered
      with 500; the 404 of that branch is never sent. */
  function UpdateVideo(db: Db, isUrl: string -> bool, lid: nat, vid: nat, body: VideoBody): Step {
    if lid !in db.lists then Step(db, Response(404, Message("list not found")))
    else match Lookup(db, db.lists[lid].id, vid)
      case None => Step(db, SERVER_ERROR)
      case Some(v) =>
        if !VideoPatchOk(body, isUrl) then Step(db, SERVER_ERROR)
        else
          var v' := v.(description := body.description.GetOr(v.description),
                       title := body.title.GetOr(v.title),
                       url := body.url.GetOr(v.url),
                       listId := body.listId.GetOr(v.listId));
          Step(db.(videos := db.videos[v.id := v']), Response(201, Message("video modified")))
  }

  /** DELETE /lists/:lid/videos/:vid: only a video the list owns is removed. */
  function DestroyVideo(db: Db, lid: nat, vid: nat): Step {
    if lid !in db.lists then Step(db, Response(404, Message("list not found")))
    else match Lookup(db, db.lists[lid].id, vid)
      case None => Step(db, Response(404, Message("video not found")))
      case Some(v) => Step(db.(videos := db.videos - {v.id}), Response(202, Message("video deleted")))
  }

  // ---------------------------------------------------------------- routing

  /** One HTTP request, by route. */
  datatype Request =
    | GetSync
    | GetLists(minDate: Option<int>, sortBy: Option<string>)
    | GetList(lid: nat)
    | PostList(listBody: ListBody)
    | PutList(lid: nat, listBody: ListBody)
    | DeleteList(lid: nat)
    | GetVideos(lid: nat)
    | GetVideo(lid: nat, vid: nat)
    | PostVideo(lid: nat, videoBody: VideoBody)
    | PutVideo(lid: nat, vid: nat, videoBody: VideoBody)
    | DeleteVideo(lid: nat, vid: nat)

  /** Read-only routes. */
  predicate IsRead(req: Request) {
    req.GetLists? || req.GetList? || req.GetVideos? || req.GetVideo?
  }

  /** Dispatches a request to its handler. */
  function Handle(db: Db, isUrl: string -> bool, req: Request): Step {
    match req
    case GetSync => Sync()
    case GetLists(minDate, sortBy) => Step(db, QueryLists(db, minDate, sortBy))
    case GetList(lid) => Step(db, FetchList(db, lid))
    case PostList(body) => CreateList(db, body)
    case PutList(lid, body) => UpdateList(db, lid, body)
    case DeleteList(lid) => DestroyList(db, lid)
    case GetVideos(lid) => Step(db, FetchVideos(db, lid))
    case GetVideo(lid, vid) => Step(db, FetchVideo(db, lid, vid))
    case PostVideo(lid, body) => CreateVideo(db, isUrl, lid, body)
    case PutVideo(lid, vid, body) => UpdateVideo(db, isUrl, lid, vid, body)
    case DeleteVideo(lid, vid) => DestroyVideo(db, lid, vid)
  }

  /** The tables after serving `reqs` one after another. */
  function Run(db: Db, isUrl: string -> bool, reqs: seq<Request>): Db
    decreases |reqs|
  {
    if |reqs| == 0 then db else Run(Handle(db, isUrl, reqs[0]).db, isUrl, reqs[1..])
  }
}
