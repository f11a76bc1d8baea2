/** What the route handlers promise: presence checks, ownership scoping of
    videos, the field whitelist of the list update, the forced foreign key
    of the video create, the list query's filter and order, the schema
    checks, and the store invariant every request keeps. */
module Properties {
  import opened Records
  import opened Query
  import opened Handlers

  // ---------------------------------------------------------------- association queries

  lemma {:induction false} OwnedByMember(vs: seq<Video>, listId: nat, v: Video)
    ensures v in OwnedBy(vs, listId) <==> v in vs && v.listId == listId
  {
    if |vs| > 0 {
      OwnedByMember(vs[1..], listId, v);
      assert vs == [vs[0]] + vs[1..];
    }
  }

  lemma {:induction false} WithIdMember(vs: seq<Video>, vid: nat, v: Video)
    ensures v in WithId(vs, vid) <==> v in vs && v.id == vid
  {
    if |vs| > 0 {
      WithIdMember(vs[1..], vid, v);
      assert vs == [vs[0]] + vs[1..];
    }
  }

  lemma {:induction false} OwnedByDistinct(vs: seq<Video>, listId: nat)
    requires Distinct(vs)
    ensures Distinct(OwnedBy(vs, listId))
  {
    if |vs| > 0 {
      var rest := vs[1..];
      assert Distinct(rest) by {
        forall i, j | 0 <= i < j < |rest| ensures rest[i] != rest[j] {
          assert rest[i] == vs[i + 1] && rest[j] == vs[j + 1];
        }
      }
      OwnedByDistinct(rest, listId);
      if vs[0].listId == listId {
        var t := OwnedBy(rest, listId);
        OwnedByMember(rest, listId, vs[0]);
        assert vs[0] !in rest;
        forall i, j | 0 <= i < j < |[vs[0]] + t| ensures ([vs[0]] + t)[i] != ([vs[0]] + t)[j] {
          if i == 0 {
            assert ([vs[0]] + t)[j] == t[j - 1] && t[j - 1] in t;
          } else {
            assert ([vs[0]] + t)[i] == t[i - 1] && ([vs[0]] + t)[j] == t[j - 1];
          }
        }
      }
    }
  }

  /** The association of a list yields exactly the stored videos whose
      foreign key is that list's id, each once. */
  lemma VideosOfExact(db: Db, isUrl: string -> bool, listId: nat)
    requires Valid(db, isUrl)
    ensures forall v :: v in VideosOf(db, listId) <==> v in db.videos.Values && v.listId == listId
    ensures Distinct(VideosOf(db, listId))
  {
    var rows := Rows(db.videos, db.nextVideoId);
    forall v ensures v in VideosOf(db, listId) <==> v in db.videos.Values && v.listId == listId {
      OwnedByMember(rows, listId, v);
      RowsMember(db.videos, db.nextVideoId, v);
    }
    RowsDistinct(db.videos, db.nextVideoId);
    OwnedByDistinct(rows, listId);
  }

  /** Ownership scoping: looking a video up through a list finds it exactly
      when it is stored and its foreign key is that list's id. */
  lemma LookupOwned(db: Db, isUrl: string -> bool, listId: nat, vid: nat)
    requires Valid(db, isUrl)
    ensures Lookup(db, listId, vid) ==
      if vid in db.videos && db.videos[vid].listId == listId then Some(db.videos[vid]) else None
  {
    VideosOfExact(db, isUrl, listId);
    var found := WithId(VideosOf(db, listId), vid);
    if vid in db.videos && db.videos[vid].listId == listId {
      WithIdMember(VideosOf(db, listId), vid, db.videos[vid]);
    }
    if |found| > 0 {
      WithIdMember(VideosOf(db, listId), vid, found[0]);
      assert found[0] in db.videos.Values;
    }
  }

  // ---------------------------------------------------------------- GET routes

  /** The lists a query with `minDate` keeps. */
  predicate Selected(l: FavoriteList, minDate: Option<int>) {
    minDate.Some? ==> l.date > minDate.value
  }

  /** GET /lists answers with exactly the stored lists dated after
      `minDate` (all of them without it), each once, ascending on the
      `sortBy` column when one is named; an unknown column gives 500. */
  lemma QueryListsSpec(db: Db, isUrl: string -> bool, minDate: Option<int>, sortBy: Option<string>)
    requires Valid(db, isUrl)
    ensures var r := QueryLists(db, minDate, sortBy);
      && (r == SERVER_ERROR <==> sortBy.Some? && sortBy.value != "" && ParseColumn(sortBy.value).None?)
      && (r != SERVER_ERROR ==>
            && r.status == 200 && r.body.ListsJson?
            && (forall l :: l in r.body.lists <==> l in db.lists.Values && Selected(l, minDate))
            && Distinct(r.body.lists)
            && (sortBy.Some? && sortBy.value != "" ==> Sorted(ParseColumn(sortBy.value).value, r.body.lists)))
  {
    var rows := AllLists(db);
    RowsDistinct(db.lists, db.nextListId);
    var kept := if minDate.Some? then After(rows, minDate.value) else rows;
    forall l ensures l in kept <==> l in db.lists.Values && Selected(l, minDate) {
      RowsMember(db.lists, db.nextListId, l);
      if minDate.Some? {
        AfterMember(rows, minDate.value, l);
      }
    }
    if minDate.Some? {
      AfterDistinct(rows, minDate.value);
    }
    if sortBy.Some? && sortBy.value != "" && ParseColumn(sortBy.value).Some? {
      var c := ParseColumn(sortBy.value).value;
      SortByCorrect(c, kept);
      SortByDistinct(c, kept);
      forall l ensures l in SortBy(c, kept) <==> l in kept {
        assert l in SortBy(c, kept) <==> l in multiset(SortBy(c, kept));
      }
    }
  }

  /** A table scan comes in ascending id order. */
  lemma {:induction false} RowsAscending(m: map<nat, FavoriteList>, bound: nat)
    requires forall k :: k in m ==> m[k].id == k
    ensures Sorted(IdColumn, Rows(m, bound))
  {
    if bound > 0 {
      RowsAscending(m, bound - 1);
      var s := Rows(m, bound - 1);
      if bound - 1 in m {
        var r := s + [m[bound - 1]];
        forall i, j | 0 <= i < j < |r| ensures r[i].id <= r[j].id {
          if j == |s| {
            assert r[i] == s[i] && s[i] in s;
            RowsMember(m, bound - 1, s[i]);
          } else {
            assert r[i] == s[i] && r[j] == s[j];
          }
        }
      }
    }
  }

  /** The `minDate` filter keeps the order of the rows it keeps. */
  lemma {:induction false} AfterSorted(c: Column, ls: seq<FavoriteList>, minDate: int)
    requires Sorted(c, ls)
    ensures Sorted(c, After(ls, minDate))
  {
    if |ls| > 0 {
      var rest := ls[1..];
      assert Sorted(c, rest) by {
        forall i, j | 0 <= i < j < |rest| ensures Leq(c, rest[i], rest[j]) {
          assert rest[i] == ls[i + 1] && rest[j] == ls[j + 1];
        }
      }
      AfterSorted(c, rest, minDate);
      if ls[0].date > minDate {
        var t := After(rest, minDate);
        forall j | 0 <= j < |t| ensures Leq(c, ls[0], t[j]) {
          assert t[j] in t;
          AfterMember(rest, minDate, t[j]);
          var k :| 0 <= k < |rest| && rest[k] == t[j];
          assert ls[k + 1] == t[j];
        }
        SortedCons(c, ls[0], t);
      }
    }
  }

  /** Without `sortBy`, GET /lists answers in the model's scan order,
      ascending on id, with or without `minDate`. */
  lemma QueryListsIdOrder(db: Db, isUrl: string -> bool, minDate: Option<int>, sortBy: Option<string>)
    requires Valid(db, isUrl)
    requires sortBy.None? || sortBy.value == ""
    ensures QueryLists(db, minDate, sortBy).body.ListsJson?
    ensures Sorted(IdColumn, QueryLists(db, minDate, sortBy).body.lists)
  {
    RowsAscending(db.lists, db.nextListId);
    if minDate.Some? {
      AfterSorted(IdColumn, AllLists(db), minDate.value);
    }
  }

  /** GET /lists/:lid: 200 with the list and exactly its videos when the id
      is stored, 404 "list not found" otherwise. */
  lemma FetchListSpec(db: Db, isUrl: string -> bool, lid: nat)
    requires Valid(db, isUrl)
    ensures lid !in db.lists ==> FetchList(db, lid) == Response(404, Message("list not found"))
    ensures lid in db.lists ==>
      var r := FetchList(db, lid);
      && r.status == 200 && r.body.ListJson? && r.body.list == db.lists[lid]
      && (forall v :: v in r.body.videos <==> v in db.videos.Values && v.listId == lid)
      && Distinct(r.body.videos)
  {
    VideosOfExact(db, isUrl, lid);
  }

  /** GET /lists/:lid/videos: exactly the videos whose `listId` is `lid`. */
  lemma FetchVideosSpec(db: Db, isUrl: string -> bool, lid: nat)
    requires Valid(db, isUrl)
    ensures lid !in db.lists ==> FetchVideos(db, lid) == Response(404, Message("list not found"))
    ensures lid in db.lists ==>
      var r := FetchVideos(db, lid);
      && r.status == 200 && r.body.VideosJson?
      && (forall v :: v in r.body.videos <==> v in db.videos.Values && v.listId == lid)
      && Distinct(r.body.videos)
  {
    VideosOfExact(db, isUrl, lid);
  }

  /** GET /lists/:lid/videos/:vid sends the video only when its id is `vid`
      and its `listId` is `lid`; any other video, stored or not, gives a 200
      without a body. A missing list gives 404 "not found". */
  lemma FetchVideoSpec(db: Db, isUrl: string -> bool, lid: nat, vid: nat)
    requires Valid(db, isUrl)
    ensures lid !in db.lists ==> FetchVideo(db, lid, vid) == Response(404, Message("not found"))
    ensures lid in db.lists ==>
      FetchVideo(db, lid, vid) ==
        if vid in db.videos && db.videos[vid].listId == lid then Response(200, VideoJson(db.videos[vid]))
        else Response(200, NoBody)
  {
    if lid in db.lists {
      LookupOwned(db, isUrl, lid, vid);
    }
  }

  // ---------------------------------------------------------------- list writes

  /** A body the list schema accepts. */
  predicate ListBodyOk(body: ListBody) {
    body.description.Some? && body.date.Some? && ListDescriptionOk(body.description.value)
  }

  /** POST /lists succeeds exactly when the body passes the schema and its
      id, if any, is free; it then adds one list and nothing else. Any
      failure is a 500 that leaves the tables as they were. */
  lemma CreateListSpec(db: Db, isUrl: string -> bool, body: ListBody)
    requires Valid(db, isUrl)
    ensures var s := CreateList(db, body);
      && (s.response == Response(201, Message("list created")) <==>
            ListBodyOk(body) && (body.id.Some? ==> body.id.value !in db.lists))
      && (s.response.status != 201 ==> s == Step(db, SERVER_ERROR))
    ensures var s := CreateList(db, body);
      var id := ChosenId(body.id, db.nextListId);
      s.response.status == 201 ==>
        && id !in db.lists && s.db.lists.Keys == db.lists.Keys + {id}
        && (forall k :: k in db.lists ==> s.db.lists[k] == db.lists[k])
        && s.db.lists[id] == FavoriteList(id, body.description.value, body.date.value)
        && s.db.videos == db.videos && s.db.nextVideoId == db.nextVideoId
        && FetchList(s.db, id).status == 200 && FetchList(s.db, id).body.list == s.db.lists[id]
  {
  }

  /** A description outside [3, 45] characters or a missing date is refused
      with 500 and nothing is stored. */
  lemma CreateListRejectsInvalid(db: Db, body: ListBody)
    requires body.date.None? || body.description.None? || !(3 <= |body.description.value| <= 45)
    ensures CreateList(db, body) == Step(db, SERVER_ERROR)
  {
  }

  /** PUT /lists/:lid on a stored list writes only `description` and `date`:
      the list keeps its id, every other list and every video is untouched,
      and an invalid description is refused with 500. */
  lemma UpdateListSpec(db: Db, isUrl: string -> bool, lid: nat, body: ListBody)
    requires Valid(db, isUrl)
    requires lid in db.lists
    ensures var s := UpdateList(db, lid, body);
      && (s.response == Response(200, Message("list updated")) <==>
            (body.description.Some? ==> ListDescriptionOk(body.description.value)))
      && (s.response.status != 200 ==> s == Step(db, SERVER_ERROR))
    ensures var s := UpdateList(db, lid, body);
      var l := db.lists[lid];
      s.response.status == 200 ==>
        && s.db.lists.Keys == db.lists.Keys
        && (forall k :: k in db.lists && k != lid ==> s.db.lists[k] == db.lists[k])
        && s.db.lists[lid].id == lid
        && s.db.lists[lid].description == body.description.GetOr(l.description)
        && s.db.lists[lid].date == body.date.GetOr(l.date)
        && s.db.videos == db.videos
        && s.db.nextListId == db.nextListId && s.db.nextVideoId == db.nextVideoId
  {
  }

  /** The list update ignores a body `id`: two bodies that differ only
      there have the same effect and answer. */
  lemma UpdateListIgnoresId(db: Db, lid: nat, body: ListBody, other: Option<nat>)
    ensures UpdateList(db, lid, body) == UpdateList(db, lid, body.(id := other))
  {
  }

  /** PUT /lists/:lid on a missing list answers 500 (not 404) and changes
      nothing, because its not-found branch throws a ReferenceError. */
  lemma UpdateListMissingIsServerError(db: Db, lid: nat, body: ListBody)
    requires lid !in db.lists
    ensures UpdateList(db, lid, body) == Step(db, SERVER_ERROR)
  {
  }

  /** DELETE /lists/:lid removes exactly that list; the other lists, all
      videos and the id counters stay as they are. */
  lemma DestroyListSpec(db: Db, lid: nat)
    ensures lid !in db.lists ==> DestroyList(db, lid) == Step(db, Response(404, Message("list not found")))
    ensures lid in db.lists ==>
      var s := DestroyList(db, lid);
      && s.response == Response(200, Message("list deleted"))
      && s.db.lists.Keys == db.lists.Keys - {lid}
      && (forall k :: k in s.db.lists ==> s.db.lists[k] == db.lists[k])
      && s.db.videos == db.videos
      && s.db.nextListId == db.nextListId && s.db.nextVideoId == db.nextVideoId
  {
  }

  /** A second DELETE of the same list answers 404 and changes nothing. */
  lemma DestroyListTwice(db: Db, lid: nat)
    ensures var once := DestroyList(db, lid).db;
      DestroyList(once, lid) == Step(once, Response(404, Message("list not found")))
  {
  }

  /** Once a list is deleted, every route through its id finds nothing:
      the reads and the video writes answer 404 and change nothing, and
      PUT /lists/:lid answers 500 through its not-found branch. */
  lemma DeletedListHidesVideos(db: Db, isUrl: string -> bool, lid: nat, vid: nat,
                               body: VideoBody, listBody: ListBody)
    requires lid in db.lists
    ensures var gone := DestroyList(db, lid).db;
      && UpdateList(gone, lid, listBody) == Step(gone, SERVER_ERROR)
      && DestroyList(gone, lid) == Step(gone, Response(404, Message("list not found")))
      && CreateVideo(gone, isUrl, lid, body) == Step(gone, Response(404, Message("list not found")))
      && FetchList(gone, lid) == Response(404, Message("list not found"))
      && FetchVideos(gone, lid) == Response(404, Message("list not found"))
      && FetchVideo(gone, lid, vid) == Response(404, Message("not found"))
      && UpdateVideo(gone, isUrl, lid, vid, body) == Step(gone, Response(404, Message("list not found")))
      && DestroyVideo(gone, lid, vid) == Step(gone, Response(404, Message("list not found")))
  {
  }

  // ---------------------------------------------------------------- video writes

  /** A body the video schema accepts on create. */
  predicate VideoBodyOk(body: VideoBody, isUrl: string -> bool) {
    && body.description.Some? && body.title.Some? && body.url.Some?
    && VideoTextOk(body.description.value) && VideoTextOk(body.title.value) && isUrl(body.url.value)
  }

  /** POST /lists/:lid/videos: a missing list gives 404; otherwise the
      request succeeds exactly when the body passes the schema and its id,
      if any, is free, and then adds one video owned by `lid`, reachable
      through that list, and nothing else. */
  lemma CreateVideoSpec(db: Db, isUrl: string -> bool, lid: nat, body: VideoBody)
    requires Valid(db, isUrl)
    ensures lid !in db.lists ==> CreateVideo(db, isUrl, lid, body) == Step(db, Response(404, Message("list not found")))
    ensures lid in db.lists ==>
      var s := CreateVideo(db, isUrl, lid, body);
      && (s.response == Response(200, Message("video created")) <==>
            VideoBodyOk(body, isUrl) && (body.id.Some? ==> body.id.value !in db.videos))
      && (s.response.status != 200 ==> s == Step(db, SERVER_ERROR))
    ensures lid in db.lists ==>
      var s := CreateVideo(db, isUrl, lid, body);
      var id := ChosenId(body.id, db.nextVideoId);
      s.response.status == 200 ==>
        && id !in db.videos && s.db.videos.Keys == db.videos.Keys + {id}
        && (forall k :: k in db.videos ==> s.db.videos[k] == db.videos[k])
        && s.db.videos[id] == Video(id, body.description.value, body.title.value, body.url.value, lid)
        && s.db.lists == db.lists && s.db.nextListId == db.nextListId
  {
  }

  /** The created video is the one GET /lists/:lid/videos/:vid then finds. */
  lemma CreatedVideoIsVisible(db: Db, isUrl: string -> bool, lid: nat, body: VideoBody)
    requires Valid(db, isUrl)
    requires CreateVideo(db, isUrl, lid, body).response.status == 200
    ensures var s := CreateVideo(db, isUrl, lid, body);
      var id := ChosenId(body.id, db.nextVideoId);
      FetchVideo(s.db, lid, id) == Response(200, VideoJson(s.db.videos[id]))
  {
    var s := CreateVideo(db, isUrl, lid, body);
    CreateVideoPreservesValid(db, isUrl, lid, body);
    FetchVideoSpec(s.db, isUrl, lid, ChosenId(body.id, db.nextVideoId));
  }

  /** The video create takes the foreign key from the path: a `listId` in
      the body makes no difference. */
  lemma CreateVideoIgnoresBodyListId(db: Db, isUrl: string -> bool, lid: nat, body: VideoBody, other: Option<nat>)
    ensures CreateVideo(db, isUrl, lid, body) == CreateVideo(db, isUrl, lid, body.(listId := other))
  {
  }

  /** A description or title outside [5, 45] characters, or a URL the
      validator refuses, is answered with 500 and nothing is stored. */
  lemma CreateVideoRejectsInvalid(db: Db, isUrl: string -> bool, lid: nat, body: VideoBody)
    requires lid in db.lists
    requires || (body.description.Some? && !(5 <= |body.description.value| <= 45))
             || (body.title.Some? && !(5 <= |body.title.value| <= 45))
             || (body.url.Some? && !isUrl(body.url.value))
    ensures CreateVideo(db, isUrl, lid, body) == Step(db, SERVER_ERROR)
  {
  }

  /** PUT /lists/:lid/videos/:vid: a missing list gives 404; a video the
      list does not own gives 500 (never the 404 "video not found"); an
      owned video is rewritten with the body's fields, keeps its id, and
      nothing else changes. */
  lemma UpdateVideoSpec(db: Db, isUrl: string -> bool, lid: nat, vid: nat, body: VideoBody)
    requires Valid(db, isUrl)
    ensures lid !in db.lists ==>
      UpdateVideo(db, isUrl, lid, vid, body) == Step(db, Response(404, Message("list not found")))
    ensures lid in db.lists && !(vid in db.videos && db.videos[vid].listId == lid) ==>
      UpdateVideo(db, isUrl, lid, vid, body) == Step(db, SERVER_ERROR)
    ensures lid in db.lists && vid in db.videos && db.videos[vid].listId == lid ==>
      var s := UpdateVideo(db, isUrl, lid, vid, body);
      var v := db.videos[vid];
      && (s.response == Response(201, Message("video modified")) <==> VideoPatchOk(body, isUrl))
      && (s.response.status != 201 ==> s == Step(db, SERVER_ERROR))
      && (s.response.status == 201 ==>
            && s.db.videos.Keys == db.videos.Keys
            && (forall k :: k in db.videos && k != vid ==> s.db.videos[k] == db.videos[k])
            && s.db.videos[vid] == Video(vid, body.description.GetOr(v.description), body.title.GetOr(v.title),
                                         body.url.GetOr(v.url), body.listId.GetOr(v.listId))
            && s.db.lists == db.lists
            && s.db.nextListId == db.nextListId && s.db.nextVideoId == db.nextVideoId)
  {
    if lid in db.lists {
      LookupOwned(db, isUrl, lid, vid);
    }
  }

  /** The video update ignores a body `id`. */
  lemma UpdateVideoIgnoresId(db: Db, isUrl: string -> bool, lid: nat, vid: nat, body: VideoBody, other: Option<nat>)
    ensures UpdateVideo(db, isUrl, lid, vid, body) == UpdateVideo(db, isUrl, lid, vid, body.(id := other))
  {
  }

  /** DELETE /lists/:lid/videos/:vid removes the video only when `lid` owns
      it (202); a video of another list, or none, gives 404 "video not
      found" and stays stored. */
  lemma DestroyVideoSpec(db: Db, isUrl: string -> bool, lid: nat, vid: nat)
    requires Valid(db, isUrl)
    ensures lid !in db.lists ==> DestroyVideo(db, lid, vid) == Step(db, Response(404, Message("list not found")))
    ensures lid in db.lists && !(vid in db.videos && db.videos[vid].listId == lid) ==>
      DestroyVideo(db, lid, vid) == Step(db, Response(404, Message("video not found")))
    ensures lid in db.lists && vid in db.videos && db.videos[vid].listId == lid ==>
      var s := DestroyVideo(db, lid, vid);
      && s.response == Response(202, Message("video deleted"))
      && s.db.videos.Keys == db.videos.Keys - {vid}
      && (forall k :: k in s.db.videos ==> s.db.videos[k] == db.videos[k])
      && s.db.lists == db.lists
      && s.db.nextListId == db.nextListId && s.db.nextVideoId == db.nextVideoId
  {
    if lid in db.lists {
      LookupOwned(db, isUrl, lid, vid);
    }
  }

  // ---------------------------------------------------------------- invariant

  lemma CreateVideoPreservesValid(db: Db, isUrl: string -> bool, lid: nat, body: VideoBody)
    requires Valid(db, isUrl)
    ensures Valid(CreateVideo(db, isUrl, lid, body).db, isUrl)
  {
  }

  lemma UpdateVideoPreservesValid(db: Db, isUrl: string -> bool, lid: nat, vid: nat, body: VideoBody)
    requires Valid(db, isUrl)
    ensures Valid(UpdateVideo(db, isUrl, lid, vid, body).db, isUrl)
  {
    if lid in db.lists {
      LookupOwned(db, isUrl, db.lists[lid].id, vid);
    }
  }

  lemma DestroyVideoPreservesValid(db: Db, isUrl: string -> bool, lid: nat, vid: nat)
    requires Valid(db, isUrl)
    ensures Valid(DestroyVideo(db, lid, vid).db, isUrl)
  {
    if lid in db.lists {
      LookupOwned(db, isUrl, db.lists[lid].id, vid);
    }
  }

  /** Every request keeps each row under its own id, below its table's next
      id, and within its schema. */
  lemma HandlePreservesValid(db: Db, isUrl: string -> bool, req: Request)
    requires Valid(db, isUrl)
    ensures Valid(Handle(db, isUrl, req).db, isUrl)
  {
    match req
    case PostVideo(lid, body) => CreateVideoPreservesValid(db, isUrl, lid, body);
    case PutVideo(lid, vid, body) => UpdateVideoPreservesValid(db, isUrl, lid, vid, body);
    case DeleteVideo(lid, vid) => DestroyVideoPreservesValid(db, isUrl, lid, vid);
    case _ =>
  }

  /** The read-only routes never change the tables. */
  lemma ReadsLeaveTablesUnchanged(db: Db, isUrl: string -> bool, req: Request)
    requires IsRead(req)
    ensures Handle(db, isUrl, req).db == db
  {
  }

  /** Any sequence of requests served from valid tables leaves them valid. */
  lemma {:induction false} RunPreservesValid(db: Db, isUrl: string -> bool, reqs: seq<Request>)
    requires Valid(db, isUrl)
    ensures Valid(Run(db, isUrl, reqs), isUrl)
    decreases |reqs|
  {
    if |reqs| > 0 {
      HandlePreservesValid(db, isUrl, reqs[0]);
      RunPreservesValid(Handle(db, isUrl, reqs[0]).db, isUrl, reqs[1..]);
    }
  }

  /** After GET /sync the tables are empty and valid. */
  lemma SyncEmpties(isUrl: string -> bool)
    ensures Sync().db.lists == map[] && Sync().db.videos == map[]
    ensures Valid(Sync().db, isUrl)
  {
  }

  // ---------------------------------------------------------------- scenarios

  /** A list that POST /lists has just stored is among the lists GET /lists
      answers with. */
  lemma CreatedListIsListed(db: Db, isUrl: string -> bool, body: ListBody)
    requires Valid(db, isUrl)
    requires CreateList(db, body).response.status == 201
    ensures var s := CreateList(db, body);
      var r := QueryLists(s.db, None, None);
      r.status == 200 && s.db.lists[ChosenId(body.id, db.nextListId)] in r.body.lists
  {
    var s := CreateList(db, body);
    var id := ChosenId(body.id, db.nextListId);
    assert Valid(s.db, isUrl);
    QueryListsSpec(s.db, isUrl, None, None);
    assert s.db.lists[id] in s.db.lists.Values;
  }

  /** POST then GET of a first list on fresh tables: the list gets id 1 and
      GET /lists/1 then finds it, with no videos. */
  lemma FirstListGetsIdOne(isUrl: string -> bool)
    ensures var s := CreateList(EMPTY, ListBody(None, Some("My favorites"), Some(20240101)));
      && s.response == Response(201, Message("list created"))
      && FetchList(s.db, 1) == Response(200, ListJson(FavoriteList(1, "My favorites", 20240101), []))
  {
    var s := CreateList(EMPTY, ListBody(None, Some("My favorites"), Some(20240101)));
    assert |"My favorites"| == 12;
    assert Rows(s.db.videos, 1) == [];
  }
}
