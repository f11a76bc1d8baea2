/** The service's persisted state as an object: the two tables and their id
    counters, updated in place by the writing routes. Each method follows
    its route handler step by step and is proved to have exactly the effect
    and the answer that `Handlers` gives for it. The read-only routes are the
    functions of `Handlers` applied to `State()`. */
module Service {
  import opened Records
  import H = Handlers
  import P = Properties

  class Store {
    var lists: map<nat, FavoriteList>
    var videos: map<nat, Video>
    var nextListId: nat
    var nextVideoId: nat
    /** The URL validator of the video schema. */
    const isUrl: string -> bool

    /** The tables as a value. */
    function State(): H.Db
      reads this
    {
      H.Db(lists, videos, nextListId, nextVideoId)
    }

    ghost predicate Valid()
      reads this
    {
      H.Valid(State(), isUrl)
    }

    /** Tables that `GET /sync` has just created. */
    constructor (isUrl: string -> bool)
      ensures State() == H.EMPTY && this.isUrl == isUrl
      ensures Valid()
    {
      lists, videos := map[], map[];
      nextListId, nextVideoId := 1, 1;
      this.isUrl := isUrl;
    }

    /** GET /sync. */
    method Sync() returns (r: Response)
      modifies this
      ensures H.Step(State(), r) == H.Sync()
      ensures Valid()
    {
      lists, videos := map[], map[];
      nextListId, nextVideoId := 1, 1;
      r := Response(201, Message("tables created"));
    }

    /** POST /lists. */
    method CreateList(body: ListBody) returns (r: Response)
      requires Valid()
      modifies this
      ensures H.Step(State(), r) == H.CreateList(old(State()), body)
      ensures Valid()
    {
      if body.description.None? || body.date.None? || !ListDescriptionOk(body.description.value) {
        r := SERVER_ERROR;
        return;
      }
      var id := if body.id.Some? then body.id.value else nextListId;
      if id in lists {
        r := SERVER_ERROR;
        return;
      }
      lists := lists[id := FavoriteList(id, body.description.value, body.date.value)];
      if nextListId <= id {
        nextListId := id + 1;
      }
      r := Response(201, Message("list created"));
    }

    /** PUT /lists/:lid. */
    method UpdateList(lid: nat, body: ListBody) returns (r: Response)
      requires Valid()
      modifies this
      ensures H.Step(State(), r) == H.UpdateList(old(State()), lid, body)
      ensures Valid()
    {
      if lid !in lists {
        // the not-found branch throws on an undefined `err`
        r := SERVER_ERROR;
        return;
      }
      var list := lists[lid];
      if body.description.Some? {
        if !ListDescriptionOk(body.description.value) {
          r := SERVER_ERROR;
          return;
        }
        list := list.(description := body.description.value);
      }
      if body.date.Some? {
        list := list.(date := body.date.value);
      }
      lists := lists[lid := list];
      r := Response(200, Message("list updated"));
    }

    /** DELETE /lists/:lid. */
    method DeleteList(lid: nat) returns (r: Response)
      requires Valid()
      modifies this
      ensures H.Step(State(), r) == H.DestroyList(old(State()), lid)
      ensures Valid()
    {
      if lid in lists {
        lists := lists - {lid};
        r := Response(200, Message("list deleted"));
      } else {
        r := Response(404, Message("list not found"));
      }
    }

    /** POST /lists/:lid/videos. */
    method CreateVideo(lid: nat, body: VideoBody) returns (r: Response)
      requires Valid()
      modifies this
      ensures H.Step(State(), r) == H.CreateVideo(old(State()), isUrl, lid, body)
      ensures Valid()
    {
      if lid !in lists {
        r := Response(404, Message("list not found"));
        return;
      }
      var listId := lists[lid].id;
      if body.description.None? || body.title.None? || body.url.None? || !H.VideoPatchOk(body, isUrl) {
        r := SERVER_ERROR;
        return;
      }
      var id := if body.id.Some? then body.id.value else nextVideoId;
      if id in videos {
        r := SERVER_ERROR;
        return;
      }
      videos := videos[id := Video(id, body.description.value, body.title.value, body.url.value, listId)];
      if nextVideoId <= id {
        nextVideoId := id + 1;
      }
      r := Response(200, Message("video created"));
    }

    /** PUT /lists/:lid/videos/:vid. */
    method UpdateVideo(lid: nat, vid: nat, body: VideoBody) returns (r: Response)
      requires Valid()
      modifies this
      ensures H.Step(State(), r) == H.UpdateVideo(old(State()), isUrl, lid, vid, body)
      ensures Valid()
    {
      ghost var before := State();
      if lid !in lists {
        r := Response(404, Message("list not found"));
        return;
      }
      var found := H.Lookup(State(), lists[lid].id, vid);
      if found.None? || !H.VideoPatchOk(body, isUrl) {
        // with no video found, `video.update` throws on `undefined`
        r := SERVER_ERROR;
        return;
      }
      var video := found.value;
      if body.description.Some? {
        video := video.(description := body.description.value);
      }
      if body.title.Some? {
        video := video.(title := body.title.value);
      }
      if body.url.Some? {
        video := video.(url := body.url.value);
      }
      if body.listId.Some? {
        video := video.(listId := body.listId.value);
      }
      videos := videos[found.value.id := video];
      r := Response(201, Message("video modified"));
      P.UpdateVideoPreservesValid(before, isUrl, lid, vid, body);
    }

    /** DELETE /lists/:lid/videos/:vid. */
    method DeleteVideo(lid: nat, vid: nat) returns (r: Response)
      requires Valid()
      modifies this
      ensures H.Step(State(), r) == H.DestroyVideo(old(State()), lid, vid)
      ensures Valid()
    {
      ghost var before := State();
      if lid !in lists {
        r := Response(404, Message("list not found"));
        return;
      }
      var found := H.Lookup(State(), lists[lid].id, vid);
      if found.None? {
        r := Response(404, Message("video not found"));
        return;
      }
      videos := videos - {found.value.id};
      r := Response(202, Message("video deleted"));
      P.DestroyVideoPreservesValid(before, isUrl, lid, vid);
    }
  }

  /** A client of the store: a repeated DELETE of a list answers 404 and
      leaves the tables as the first DELETE left them. */
  method DeleteListTwice(isUrl: string -> bool, body: ListBody) returns (first: Response, second: Response)
    requires P.ListBodyOk(body) && body.id.None?
    ensures first == Response(200, Message("list deleted"))
    ensures second == Response(404, Message("list not found"))
  {
    var store := new Store(isUrl);
    var created := store.CreateList(body);
    assert 1 in store.lists;
    first := store.DeleteList(1);
    ghost var afterFirst := store.State();
    second := store.DeleteList(1);
    assert store.State() == afterFirst;
  }
}
