/** The HTTP handlers of controllers/url_analysis_controller.go as operations
    on the record table. A request body either binds (`Bound`) or fails gin's
    validation (`BindFailed`, with the validator's message). Starting a crawl
    in a goroutine is reported back to the caller as the list of ids to crawl;
    the crawl itself is Crawler.ProcessURL, run later. */
module Controller {
  import opened Options
  import opened Store

  const OK := 200
  const Accepted := 202
  const BadRequest := 400
  const NotFound := 404
  const InternalServerError := 500

  datatype Bind<T> = Bound(value: T) | BindFailed(message: string)

  /** The JSON body of a reply. The "details" text of database errors is not
      modelled. */
  datatype Body =
    | ErrorBody(error: string)
    | MessageBody(message: string)
    | RecordBody(message: string, data: Record)
    | ListBody(list: seq<Record>)
    | DeletedBody(message: string, deletedCount: nat)

  datatype Reply = Reply(code: int, body: Body)

  // ------------------------------------------------------------ listing

  /** Newest first by creation time. */
  predicate NewestFirst(list: seq<Record>) {
    forall i, j :: 0 <= i < j < |list| ==> list[i].createdAt >= list[j].createdAt
  }

  /** Places `r` after every record at least as new as it. */
  function InsertNewestFirst(list: seq<Record>, r: Record): seq<Record>
  {
    if list == [] then [r]
    else if list[0].createdAt >= r.createdAt then [list[0]] + InsertNewestFirst(list[1..], r)
    else [r] + list
  }

  /** Inserting into a newest-first list keeps it newest first and adds
      exactly `r`. */
  lemma {:induction false} InsertNewestFirstKeepsOrder(list: seq<Record>, r: Record)
    requires NewestFirst(list)
    ensures var out := InsertNewestFirst(list, r);
            && NewestFirst(out)
            && |out| == |list| + 1
            && forall x :: x in out <==> x in list || x == r
  {
    if list != [] && list[0].createdAt >= r.createdAt {
      var rest := InsertNewestFirst(list[1..], r);
      InsertNewestFirstKeepsOrder(list[1..], r);
      assert list == [list[0]] + list[1..];
      var out := [list[0]] + rest;
      forall i, j | 0 <= i < j < |out| ensures out[i].createdAt >= out[j].createdAt {
        assert out[j] == rest[j - 1];
        if i == 0 {
          assert out[j] in rest;
        } else {
          assert out[i] == rest[i - 1];
        }
      }
    }
  }

  /** GetURLAnalyses: every live record exactly once, newest first. */
  method GetURLAnalyses(db: Table) returns (reply: Reply)
    requires db.Valid()
    ensures reply.code == OK && reply.body.ListBody?
    ensures var list := reply.body.list;
            && NewestFirst(list)
            && |list| == |db.live|
            && (forall r :: r in list <==> r.id in db.live && db.live[r.id] == r)
  {
    var live := db.live;
    var pending := live.Keys;
    var list: seq<Record> := [];
    while pending != {}
      invariant pending <= live.Keys
      invariant NewestFirst(list)
      invariant |list| + |pending| == |live.Keys|
      invariant forall r :: r in list <==> r.id in live.Keys - pending && live[r.id] == r
      decreases |pending|
    {
      var id :| id in pending;
      var r := live[id];
      assert db.live[id].id == id;
      InsertNewestFirstKeepsOrder(list, r);
      list := InsertNewestFirst(list, r);
      pending := pending - {id};
    }
    assert |live.Keys| == |live|;
    reply := Reply(OK, ListBody(list));
  }

  // ----------------------------------------------------------- creation

  /** CreateURLAnalysis: invalid input is a 400; a URL already live comes back
      with 200 and the table unchanged; otherwise one queued record is added
      with a 202 and its crawl is started. When the URL belongs to a deleted
      row the unique index refuses the insert and the reply is a 500. */
  method CreateURLAnalysis(db: Table, input: Bind<string>, now: int)
    returns (reply: Reply, launch: Option<nat>)
    requires db.Valid()
    modifies db
    ensures db.Valid()
    ensures input.BindFailed? ==>
      reply == Reply(BadRequest, ErrorBody(input.message)) && launch == None && unchanged(db)
    ensures input.Bound? && (exists id :: id in old(db.live) && old(db.live)[id].url == input.value) ==>
      && reply.code == OK && reply.body.RecordBody?
      && reply.body.data.url == input.value
      && reply.body.data.id in old(db.live) && old(db.live)[reply.body.data.id] == reply.body.data
      && launch == None && unchanged(db) && db.nextId == old(db.nextId)
    ensures reply.code == Accepted ==>
      && input.Bound?
      && launch == Some(old(db.nextId))
      && old(db.nextId) !in old(db.live)
      && reply.body == RecordBody("URL added and processing started", NewRecord(old(db.nextId), input.value, now))
      && db.live == old(db.live)[old(db.nextId) := NewRecord(old(db.nextId), input.value, now)]
      && db.deleted == old(db.deleted) && db.nextId == old(db.nextId) + 1
    ensures input.Bound? && !old(db.UrlTaken(input.value)) ==>
      reply.code == Accepted
    ensures input.Bound? && (exists id :: id in old(db.deleted) && old(db.deleted)[id].url == input.value) ==>
      reply.code == InternalServerError
    ensures reply.code == InternalServerError ==>
      && input.Bound?
      && reply.body == ErrorBody("Failed to add URL")
      && launch == None
      && db.live == old(db.live) && db.deleted == old(db.deleted) && db.nextId == old(db.nextId) + 1
      && (exists id :: id in old(db.deleted) && old(db.deleted)[id].url == input.value)
    ensures reply.code in {OK, Accepted, BadRequest, InternalServerError}
  {
    if input.BindFailed? {
      return Reply(BadRequest, ErrorBody(input.message)), None;
    }
    var url := input.value;
    var existing := db.FirstByUrl(url);
    if existing.Some? {
      return Reply(OK, RecordBody("URL already exists and is being processed or done.", existing.value)), None;
    }
    assert forall id :: id in db.live ==> db.live[id].url != url;
    assert db.live == old(db.live);
    assert forall id :: id in db.deleted && db.deleted[id].url == url ==> db.UrlTaken(url);
    var created := db.Create(url, now);
    if created.None? {
      return Reply(InternalServerError, ErrorBody("Failed to add URL")), None;
    }
    assert db.live == old(db.live)[old(db.nextId) := created.value];
    reply := Reply(Accepted, RecordBody("URL added and processing started", created.value));
    launch := Some(created.value.id);
  }

  /** GetURLAnalysis: the live record with that id, or 404. */
  method GetURLAnalysis(db: Table, id: nat) returns (reply: Reply)
    ensures id in db.live ==> reply == Reply(OK, RecordBody("", db.live[id]))
    ensures id !in db.live ==> reply == Reply(NotFound, ErrorBody("URL analysis not found"))
  {
    var found := db.First(id);
    if found.None? {
      return Reply(NotFound, ErrorBody("URL analysis not found"));
    }
    reply := Reply(OK, RecordBody("", found.value));
  }

  // ------------------------------------------------------------- re-run

  /** A record is re-queued unless it is already running or queued. */
  predicate Requeueable(r: Record) {
    r.status != "running" && r.status != "queued"
  }

  /** The record as re-queued: queued, with its error text cleared. */
  function Requeued(r: Record): (q: Record)
    ensures q.status == "queued" && q.errorMessage == "" && q.id == r.id && q.url == r.url
    ensures q.(status := r.status, errorMessage := r.errorMessage) == r
  {
    r.(status := "queued", errorMessage := "")
  }

  /** The table after a re-run of `ids`, whatever the order the records are
      visited in: each matched record that may be re-queued is re-queued;
      every other record is as it was. */
  function Rerun(live: map<nat, Record>, ids: set<nat>): map<nat, Record>
  {
    map id | id in live :: if id in ids && Requeueable(live[id]) then Requeued(live[id]) else live[id]
  }

  /** The ids among `ids` whose record may be re-queued: the crawls a re-run
      starts. */
  function Relaunched(live: map<nat, Record>, ids: set<nat>): set<nat>
  {
    set id | id in ids && id in live && Requeueable(live[id])
  }

  /** After a re-run every matched record is queued or running; a matched
      re-queueable record is queued with no error text; every other record,
      matched or not, is unchanged, and no record appears or disappears. */
  lemma RerunEffect(live: map<nat, Record>, ids: set<nat>)
    ensures var after := Rerun(live, ids);
            && after.Keys == live.Keys
            && (forall id :: id in live && id in ids ==> after[id].status in {"queued", "running"})
            && (forall id :: id in live && (id !in ids || !Requeueable(live[id])) ==> after[id] == live[id])
            && (forall id :: id in live && id in ids && Requeueable(live[id]) ==>
                  after[id] == live[id].(status := "queued", errorMessage := ""))
  {
  }

  /** Re-running the same ids again changes nothing more and starts no
      crawl. */
  lemma RerunIdempotent(live: map<nat, Record>, ids: set<nat>)
    ensures Rerun(Rerun(live, ids), ids) == Rerun(live, ids)
    ensures Relaunched(Rerun(live, ids), ids) == {}
  {
    var once := Rerun(live, ids);
    assert forall id :: id in once ==> !(id in ids && Requeueable(once[id])) || !(id in ids);
  }

  /** The ids of a list of records, as a set. */
  function IdsOf(rows: seq<Record>): set<nat>
  {
    set r | r in rows :: r.id
  }

  /** The table after the handler's loop has visited `rows` in order. */
  function RerunList(live: map<nat, Record>, rows: seq<Record>): map<nat, Record>
  {
    if rows == [] then live
    else
      var last := rows[|rows| - 1];
      var before := RerunList(live, rows[..|rows| - 1]);
      if Requeueable(last) then before[last.id := Requeued(last)] else before
  }

  /** The crawls the handler's loop has started after visiting `rows`, in
      order. */
  function LaunchList(rows: seq<Record>): seq<nat>
  {
    if rows == [] then []
    else
      var last := rows[|rows| - 1];
      LaunchList(rows[..|rows| - 1]) + if Requeueable(last) then [last.id] else []
  }

  /** Rows the database returned for the table `live`: current copies of
      live records, each at most once. */
  ghost predicate FoundIn(live: map<nat, Record>, rows: seq<Record>)
  {
    && (forall k :: 0 <= k < |rows| ==> rows[k].id in live && live[rows[k].id] == rows[k])
    && (forall j, k :: 0 <= j < k < |rows| ==> rows[j].id != rows[k].id)
  }

  /** Re-running one more id changes at most that id's record, and starts
      at most that id's crawl. */
  lemma RerunOneMore(live: map<nat, Record>, done: set<nat>, id: nat)
    requires id in live && id !in done
    ensures Rerun(live, done + {id}) ==
              if Requeueable(live[id]) then Rerun(live, done)[id := Requeued(live[id])] else Rerun(live, done)
    ensures Relaunched(live, done + {id}) ==
              if Requeueable(live[id]) then Relaunched(live, done) + {id} else Relaunched(live, done)
  {
  }

  /** The last of the found records is not among the ones before it. */
  lemma LastIsNew(live: map<nat, Record>, rows: seq<Record>)
    requires FoundIn(live, rows) && rows != []
    ensures var front := rows[..|rows| - 1];
            && FoundIn(live, front)
            && IdsOf(rows) == IdsOf(front) + {rows[|rows| - 1].id}
            && rows[|rows| - 1].id !in IdsOf(front)
  {
    var front := rows[..|rows| - 1];
    var last := rows[|rows| - 1];
    assert rows == front + [last];
    forall r | r in front ensures r.id != last.id {
      var j :| 0 <= j < |front| && front[j] == r;
      assert rows[j] == r;
    }
  }

  /** Visiting the found records one by one in any order re-runs exactly the
      set of their ids, and starts a crawl for exactly the re-queueable
      ones. */
  lemma {:induction false} RerunListIsRerun(live: map<nat, Record>, rows: seq<Record>)
    requires FoundIn(live, rows)
    ensures RerunList(live, rows) == Rerun(live, IdsOf(rows))
    ensures forall id :: id in LaunchList(rows) <==> id in Relaunched(live, IdsOf(rows))
  {
    if rows == [] {
      assert IdsOf(rows) == {};
    } else {
      var front := rows[..|rows| - 1];
      var last := rows[|rows| - 1];
      LastIsNew(live, rows);
      RerunListIsRerun(live, front);
      RerunOneMore(live, IdsOf(front), last.id);
    }
  }

  /** The records found for `ids` are exactly the live ones among them. */
  lemma FoundIds(live: map<nat, Record>, rows: seq<Record>, ids: set<nat>)
    requires forall k :: 0 <= k < |rows| ==> rows[k].id in ids && rows[k].id in live
    requires forall id :: id in ids && id in live ==> id == live[id].id && live[id] in rows
    ensures IdsOf(rows) == ids * live.Keys
  {
    forall id | id in IdsOf(rows) ensures id in ids * live.Keys {
      var r :| r in rows && r.id == id;
      var k :| 0 <= k < |rows| && rows[k] == r;
    }
  }

  /** Only the live ids matter to a re-run. */
  lemma RerunLiveIds(live: map<nat, Record>, ids: set<nat>)
    ensures Rerun(live, ids * live.Keys) == Rerun(live, ids)
    ensures Relaunched(live, ids * live.Keys) == Relaunched(live, ids)
  {
  }

  /** The loop of RerunURLAnalyses over the records found: saves each
      re-queueable one as queued with no error text, and starts its crawl. */
  method RequeueFound(db: Table, urls: seq<Record>) returns (launch: seq<nat>)
    requires db.Valid() && FoundIn(db.live, urls)
    modifies db
    ensures db.Valid() && db.nextId == old(db.nextId) && db.deleted == old(db.deleted)
    ensures db.live == RerunList(old(db.live), urls)
    ensures launch == LaunchList(urls)
  {
    ghost var live0 := db.live;
    launch := [];
    for i := 0 to |urls|
      invariant db.Valid() && db.nextId == old(db.nextId) && db.urlIndex == old(db.urlIndex) && db.deleted == old(db.deleted)
      invariant db.live == RerunList(live0, urls[..i])
      invariant launch == LaunchList(urls[..i])
      invariant forall k :: i <= k < |urls| ==> urls[k].id in db.live && db.live[urls[k].id].url == urls[k].url
    {
      var url := urls[i];
      assert urls[..i + 1][..i] == urls[..i];
      if url.status != "running" && url.status != "queued" {
        url := url.(status := "queued", errorMessage := "");
        db.Save(url);
        launch := launch + [url.id];
      }
    }
    assert urls[..|urls|] == urls;
  }

  /** RerunURLAnalyses: invalid input is a 400; no matching record is a 404
      with nothing changed; otherwise the re-queueable matches are saved as
      queued and their crawls are started, with a 200. */
  method RerunURLAnalyses(db: Table, input: Bind<seq<nat>>) returns (reply: Reply, launch: seq<nat>)
    requires db.Valid()
    modifies db
    ensures db.Valid() && db.nextId == old(db.nextId) && db.deleted == old(db.deleted)
    ensures input.BindFailed? ==>
      reply == Reply(BadRequest, ErrorBody(input.message)) && launch == [] && unchanged(db)
    ensures input.Bound? && (forall id :: id in input.value ==> id !in old(db.live)) ==>
      && reply == Reply(NotFound, MessageBody("No URLs found for the provided IDs."))
      && launch == [] && unchanged(db)
    ensures input.Bound? && (exists id :: id in input.value && id in old(db.live)) ==>
      && reply == Reply(OK, MessageBody("Re-analysis started for selected URLs."))
      && db.live == Rerun(old(db.live), set id | id in input.value)
      && (forall id :: id in launch <==> id in Relaunched(old(db.live), set id | id in input.value))
  {
    if input.BindFailed? {
      return Reply(BadRequest, ErrorBody(input.message)), [];
    }
    ghost var live0 := db.live;
    var ids := set id | id in input.value;
    var urls := db.Find(ids);
    if |urls| == 0 {
      assert forall id :: id in ids && id in live0 ==> false;
      return Reply(NotFound, MessageBody("No URLs found for the provided IDs.")), [];
    }
    RerunListIsRerun(live0, urls);
    FoundIds(live0, urls, ids);
    RerunLiveIds(live0, ids);
    launch := RequeueFound(db, urls);
    reply := Reply(OK, MessageBody("Re-analysis started for selected URLs."));
  }

  // ------------------------------------------------------------- delete

  /** DeleteURLAnalyses: invalid input is a 400; the listed live records are
      deleted; none deleted is a 404, otherwise a 200 with the number
      deleted. */
  method DeleteURLAnalyses(db: Table, input: Bind<seq<nat>>) returns (reply: Reply)
    requires db.Valid()
    modifies db
    ensures db.Valid() && db.nextId == old(db.nextId)
    ensures input.BindFailed? ==>
      reply == Reply(BadRequest, ErrorBody(input.message)) && unchanged(db)
    ensures input.Bound? ==>
      var ids := set id | id in input.value;
      var removed := old(db.live).Keys * ids;
      && db.live == old(db.live) - ids
      && db.deleted == old(db.deleted) + Moved(old(db.live), ids)
      && (removed == {} ==> reply == Reply(NotFound, MessageBody("No URLs found for the provided IDs to delete.")))
      && (removed != {} ==> reply == Reply(OK, DeletedBody("Selected URLs deleted successfully.", |removed|)))
  {
    if input.BindFailed? {
      return Reply(BadRequest, ErrorBody(input.message));
    }
    var ids := set id | id in input.value;
    var rowsAffected := db.SoftDelete(ids);
    if rowsAffected == 0 {
      return Reply(NotFound, MessageBody("No URLs found for the provided IDs to delete."));
    }
    reply := Reply(OK, DeletedBody("Selected URLs deleted successfully.", rowsAffected));
  }

  /** Deleting the same ids twice: the second request finds nothing left
      to delete and answers 404. */
  method DeleteTwiceFindsNothing(db: Table, ids: seq<nat>) returns (first: Reply, second: Reply)
    requires db.Valid()
    modifies db
    ensures second == Reply(NotFound, MessageBody("No URLs found for the provided IDs to delete."))
    ensures first.code == OK <==> exists id :: id in ids && id in old(db.live)
  {
    ghost var live0 := db.live;
    first := DeleteURLAnalyses(db, Bound(ids));
    if exists id :: id in ids && id in live0 {
      var id :| id in ids && id in live0;
      assert id in live0.Keys * (set i | i in ids);
    }
    second := DeleteURLAnalyses(db, Bound(ids));
  }

  /** Deleting a record and then adding its URL again: the delete succeeds,
      but the soft-deleted row keeps the URL in the unique index, so the
      add answers 500. */
  method DeleteThenReAdd(db: Table, id: nat, now: int) returns (deleted: Reply, readded: Reply)
    requires db.Valid() && id in db.live
    modifies db
    ensures deleted.code == OK
    ensures readded == Reply(InternalServerError, ErrorBody("Failed to add URL"))
  {
    var url := db.live[id].url;
    ghost var live0 := db.live;
    deleted := DeleteURLAnalyses(db, Bound([id]));
    assert id in live0.Keys * (set i | i in [id]);
    assert id in Moved(live0, set i | i in [id]);
    assert id in db.deleted && db.deleted[id].url == url;
    var launch;
    readded, launch := CreateURLAnalysis(db, Bound(url), now);
  }
}
