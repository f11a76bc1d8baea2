# Favourite lists and their videos: a model of the REST handlers

The service is a small Express application over two Sequelize tables. A
*favourite list* has a description (3 to 45 characters) and a date. A *video*
has a description and a title (5 to 45 characters each), a URL, and a `listId`
foreign key naming the list that owns it. The routes create, read, update and
delete both kinds of row. Video routes reach a video only through the list
named in the path. Every storage error is answered with
`500 {"message": "some error occured"}`.

The model has five modules:

- `Records` (records.dfy): the two row types and the JSON bodies the routes
  accept; each body attribute is an `Option`, `None` when the key is absent.
  It also holds the validators the schema declares and the response type.
- `Query` (query.dfy): the scan of a table in id order, the
  `WHERE date > minDate` filter and `ORDER BY <column> ASC`. The sort is a
  stable insertion sort, proved sorted and a permutation of its input.
- `Handlers` (handlers.dfy): one function per route over a value `Db`, which
  holds both tables and their next ids. A read-only route gives a `Response`.
  A writing route gives a `Step`: the new tables and the response. `Handle`
  dispatches a `Request`, and `Run` serves a sequence of them.
- `Properties` (properties.dfy): the lemmas. They cover presence checks,
  ownership scoping, the list update's field whitelist, the forced foreign key
  on video create, the list query, the schema checks, and the invariant that
  every row sits under its own id, below its table's next id, and within its
  schema.
- `Service` (store.dfy): the class `Store`. Its fields are the two maps and
  the two counters. Each writing route is a method that updates the fields
  step by step, proved to match the corresponding `Handlers` function. The
  read-only routes are the `Handlers` functions applied to `Store.State()`.

Two quirks are modelled as the code behaves:

- **PUT `/lists/:lid` on a missing list answers 500.** Its else branch logs an
  `err` that is not in scope. The ReferenceError is caught, so the 404 written
  there is never sent (`UpdateListMissingIsServerError`).
- **PUT `/lists/:lid/videos/:vid` on a video the list does not own answers
  500.** The code tests the array `videos`, which is always truthy, instead of
  `video`, so `video.update` runs on `undefined`. The 404 "video not found" of
  that route is unreachable (`UpdateVideoSpec`).

Other behaviour fixed by the model:

- Ids come from a counter per table that starts at 1, with SQLite's
  AUTOINCREMENT behaviour. A create may name its own id. An id already taken
  violates the primary key (500). After an insert the counter is above every
  id used.
- A PUT body's `id` is ignored. For a list, the `fields` whitelist drops it.
  For a video, the ORM does not overwrite a primary key that is already set.
- Without `sortBy`, lists come in id order. A `sortBy` that is absent or
  empty means no ordering. Any other `sortBy` is an identifier of the lists
  table, matched without regard to ASCII case. `id` and the rowid aliases
  `rowid`, `oid` and `_rowid_` name the id column. `description` and `date`
  name the other two columns. Any other name is an SQL error (500). Text is
  ordered code point by code point, as the engine's binary collation orders
  UTF-8.
- The URL validator comes from a library that is not part of this model. It is
  the parameter `isUrl: string -> bool`.

## Model

| member | source | states |
|---|---|---|
| `Query.ParseColumn` | api/server.js:106-108 | a `sortBy` name, with its ASCII case folded, is the id column exactly when it is `id`, `rowid`, `oid` or `_rowid_`, and is the description or date column exactly when it is that name; any other name is no column |
| `Query.ParseColumnExamples` | api/server.js:106-108 | `ID` and `rowid` name the id column, `Date` and `DESCRIPTION` the other two, and `title` no column |
| `Query.RowsMember` | api/server.js:96-109 | a table scan yields exactly the rows stored under ids below the table's next id |
| `Query.AfterMember` | api/server.js:99-103 | the `minDate` filter keeps exactly the rows dated strictly after it |
| `Query.SortByCorrect` | api/server.js:106-108 | `ORDER BY column ASC` gives rows ascending on the column, and the same rows with the same multiplicities |
| `Query.SortByDistinct` | api/server.js:106-108 | ordering distinct rows repeats none |
| `Properties.RowsAscending` | api/server.js:96-109 | a table scan comes in ascending id order |
| `Properties.AfterSorted` | api/server.js:99-103 | the `minDate` filter keeps the order of the rows it keeps |
| `Properties.QueryListsIdOrder` | api/server.js:96-109 | without `sortBy`, GET /lists answers in ascending id order, with or without `minDate` |
| `Properties.VideosOfExact` | api/server.js:214 | a list's association yields exactly the stored videos whose `listId` is its id, each once |
| `Properties.LookupOwned` | api/server.js:234-239 | a video is found through a list exactly when it is stored under that id and its `listId` is the list's id |
| `Properties.QueryListsSpec` | api/server.js:84-116 | GET /lists gives 200 with exactly the stored lists dated after `minDate` (all without it), each once, ascending on a named `sortBy` column; an unknown column gives 500 |
| `Properties.FetchListSpec` | api/server.js:121-140 | GET /lists/:lid gives 200 with the list and exactly its videos when stored, else 404 "list not found" |
| `Properties.FetchVideosSpec` | api/server.js:208-227 | GET /lists/:lid/videos gives exactly the videos whose `listId` is `lid`, else 404 "list not found" |
| `Properties.FetchVideoSpec` | api/server.js:230-251 | GET /lists/:lid/videos/:vid gives the video only when its id is `vid` and its `listId` is `lid`, otherwise 200 with no body; a missing list gives 404 "not found" |
| `Properties.CreateListSpec` | api/server.js:143-156 | POST /lists gives 201 exactly when the body passes the schema and its id is free, and then adds that one list; otherwise 500 with the tables unchanged |
| `Properties.CreateListRejectsInvalid` | api/server.js:22-34 | a description outside [3, 45] or a missing date is refused with 500, nothing stored |
| `Properties.UpdateListSpec` | api/server.js:159-169 | PUT /lists/:lid on a stored list changes only its description and date, keeps its id and every other row; an invalid description gives 500 |
| `Properties.UpdateListIgnoresId` | api/server.js:163-165 | a body `id` has no effect on the list update |
| `Properties.UpdateListMissingIsServerError` | api/server.js:169-180 | PUT on a missing list gives 500 and changes nothing |
| `Properties.DestroyListSpec` | api/server.js:184-204 | DELETE /lists/:lid removes exactly that list and leaves other lists, all videos and the counters alone; a missing list gives 404 |
| `Properties.DestroyListTwice` | api/server.js:186-196 | a repeated DELETE of a list gives 404 and changes nothing |
| `Properties.DeletedListHidesVideos` | api/server.js:186-196 | after a list is deleted, GET of it, of its videos and of one video, another DELETE of it, and POST, PUT and DELETE of its videos answer 404 and change nothing; PUT of the list answers 500 and changes nothing |
| `Properties.CreateVideoSpec` | api/server.js:255-276 | POST /lists/:lid/videos gives 200 exactly when the list exists, the body passes the schema and its id is free, and then adds one video whose `listId` is `lid`; a missing list gives 404 and errors 500, nothing stored |
| `Properties.CreatedVideoIsVisible` | api/server.js:257-264 | the created video is then found through its list |
| `Properties.CreateVideoIgnoresBodyListId` | api/server.js:259-261 | a `listId` in the body has no effect on the video create |
| `Properties.CreateVideoRejectsInvalid` | api/server.js:37-59 | a description or title outside [5, 45], or a URL the validator refuses, gives 500 with nothing stored |
| `Properties.UpdateVideoSpec` | api/server.js:281-312 | PUT /lists/:lid/videos/:vid: missing list 404; a video the list does not own 500, unchanged; an owned video gets the body's fields, keeps its id, nothing else changes |
| `Properties.UpdateVideoIgnoresId` | api/server.js:292 | a body `id` has no effect on the video update |
| `Properties.DestroyVideoSpec` | api/server.js:317-349 | DELETE /lists/:lid/videos/:vid removes the video only when `lid` owns it (202); another list's video gives 404 "video not found" and stays |
| `Properties.CreateVideoPreservesValid` | api/server.js:255-276 | the video create keeps the store invariant |
| `Properties.UpdateVideoPreservesValid` | api/server.js:281-312 | the video update keeps the store invariant |
| `Properties.DestroyVideoPreservesValid` | api/server.js:317-349 | the video delete keeps the store invariant |
| `Properties.HandlePreservesValid` | api/server.js:22-62 | every request keeps each row under its own id, below the next id, within its schema |
| `Properties.ReadsLeaveTablesUnchanged` | api/server.js:84-140 | the read-only routes never change the tables |
| `Properties.RunPreservesValid` | api/server.js:22-62 | any sequence of requests keeps the store invariant |
| `Properties.SyncEmpties` | api/server.js:67-81 | GET /sync leaves both tables empty |
| `Properties.CreatedListIsListed` | api/server.js:143-149 | a list just created is among those GET /lists returns |
| `Properties.FirstListGetsIdOne` | api/server.js:143-149 | POST then GET of a first list on fresh tables: the list gets id 1, and GET /lists/1 then finds it with no videos |
| `Service.Store.constructor` | api/server.js:67-74 | a new store has empty tables with counters at 1 |
| `Service.Store.Sync` | api/server.js:67-81 | empties both tables and answers 201 "tables created" |
| `Service.Store.CreateList` | api/server.js:143-156 | updates the tables and answers exactly as `Handlers.CreateList`, keeping the invariant |
| `Service.Store.UpdateList` | api/server.js:159-181 | updates the tables and answers exactly as `Handlers.UpdateList`, keeping the invariant |
| `Service.Store.DeleteList` | api/server.js:184-204 | updates the tables and answers exactly as `Handlers.DestroyList`, keeping the invariant |
| `Service.Store.CreateVideo` | api/server.js:255-276 | updates the tables and answers exactly as `Handlers.CreateVideo`, keeping the invariant |
| `Service.Store.UpdateVideo` | api/server.js:281-312 | updates the tables and answers exactly as `Handlers.UpdateVideo`, keeping the invariant |
| `Service.Store.DeleteVideo` | api/server.js:317-349 | updates the tables and answers exactly as `Handlers.DestroyVideo`, keeping the invariant |
| `Service.DeleteListTwice` | api/server.js:184-204 | on a store, creating a list then deleting it twice answers 200 then 404 |

## Left out

- Express wiring, body parsing and `app.listen` (api/server.js:1-10, 361): I/O and process lifecycle.
- Logging through `console.warn`: it has no effect on the tables or responses.
- The `minDescrLen` query parameter (api/server.js:91-93): it is read and never used.
- Storage failures other than schema and key violations: connection loss, a missing table before the first `/sync` and a failing `/sync` are environmental. The model's tables always exist.
- Referential actions of the engine: the model enforces no foreign-key constraint. A video update may set any `listId`. A deleted list's videos keep their `listId`; the engine, with foreign keys on, applies the association's default ON DELETE SET NULL and clears it. Right after the delete the two agree: no route through the deleted id reaches a video (`DeletedListHidesVideos`).
- Re-creating a list under a deleted list's id: a POST /lists whose body names that id makes the model's list own the videos the deleted list left behind again. In the engine those videos have a null `listId` and stay hidden.
- `Service.Store.UpdateVideo`: when a stored video has id 0 (only possible if a create asked for id 0), the ORM would let a body `id` through; the model ignores the body `id` for every video.
- Dates are integers. Parsing a query-string `minDate` and comparing it with a DATE column is not modelled.
- The `isUrl` validator's logic belongs to a library that is not part of this model. It is an opaque parameter.
- Length checks count Dafny characters (code points). The validator's treatment of surrogate pairs and variation selectors is not modelled.
- JSON details: an attribute given as `null`, values of the wrong JSON type, query parameters repeated as arrays, and path ids that are not numbers. A non-numeric path id matches no row and behaves like an absent id.
- Ties under `ORDER BY` and the order of rows without `ORDER BY`: SQL leaves these unspecified. The model fixes id order, the order of the engine's table scan. `QueryListsIdOrder` states that choice of the model; the other query lemmas state only what SQL promises (membership, no repeats, ascending on the column).
- Ids outside the non-negative unbounded integers: a negative id stored by a create and then found by a GET, a fractional id the INTEGER PRIMARY KEY refuses (500), an id above 2^53 rounded by JSON parsing, and AUTOINCREMENT failing at the rowid ceiling 2^63-1. Ids in the model are `nat` and have no upper bound.
- Other identifier forms for `sortBy`: a name is matched against the three columns and the rowid aliases only, with ASCII case folded; the engine's treatment of other quoted names is not modelled.
- Concurrency between requests. Requests are served one at a time (`Handlers.Run`).
