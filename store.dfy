/** The persisted analysis record and the table that holds it: the gorm model
    of models/url_analysis.go over the database handle of initializers/.

    The table is a class over a map from primary key to row. Because the model
    embeds gorm.Model, a delete is a soft delete: the row stays, marked
    deleted, and every query skips it; the unique index on the URL column
    still covers it. */
module Store {
  import opened Options

  /** One URL's crawl record. `createdAt` stands for gorm's creation timestamp
      as a point on a clock. */
  datatype Record = Record(
    id: nat,
    createdAt: int,
    url: string,
    htmlVersion: string,
    pageTitle: string,
    h1Count: int, h2Count: int, h3Count: int, h4Count: int, h5Count: int, h6Count: int,
    internalLinks: int,
    externalLinks: int,
    inaccessibleLinks: int,
    inaccessibleLinkDetails: string,
    hasLoginForm: bool,
    status: string,
    errorMessage: string)

  /** A record as gorm creates it from `{URL: url, Status: "queued"}`: every
      other column holds its zero value. */
  function NewRecord(id: nat, url: string, now: int): (r: Record)
    ensures r.id == id && r.url == url && r.createdAt == now
    ensures r.status == "queued" && r.errorMessage == "" && r.inaccessibleLinkDetails == ""
    ensures r.internalLinks == 0 && r.externalLinks == 0 && r.inaccessibleLinks == 0
  {
    Record(id, now, url, "", "", 0, 0, 0, 0, 0, 0, 0, 0, 0, "", false, "queued", "")
  }

  /** Every row of `rows` has a positive key below the auto-increment
      counter, stores its own key, and is the row the URL index names for
      its URL. */
  ghost predicate Indexed(rows: map<nat, Record>, urlIndex: map<string, nat>, nextId: nat)
  {
    forall id :: id in rows ==>
      0 < id < nextId && rows[id].id == id && rows[id].url in urlIndex && urlIndex[rows[id].url] == id
  }

  /** A row is live or deleted, not both; every row is indexed by its URL,
      and every index entry names a row holding that URL, so no two rows,
      live or deleted, share a URL. */
  ghost predicate Consistent(live: map<nat, Record>, deleted: map<nat, Record>, urlIndex: map<string, nat>, nextId: nat)
  {
    && nextId >= 1
    && Indexed(live, urlIndex, nextId)
    && Indexed(deleted, urlIndex, nextId)
    && live.Keys !! deleted.Keys
    && (forall u :: u in urlIndex ==>
          (urlIndex[u] in live && live[urlIndex[u]].url == u) || (urlIndex[u] in deleted && deleted[urlIndex[u]].url == u))
  }

  /** Two rows never share a URL. */
  lemma {:induction false} UrlsUnique(live: map<nat, Record>, deleted: map<nat, Record>, urlIndex: map<string, nat>, nextId: nat)
    requires Consistent(live, deleted, urlIndex, nextId)
    ensures forall i, j :: i in live && j in live && live[i].url == live[j].url ==> i == j
    ensures forall i, j :: i in deleted && j in deleted && deleted[i].url == deleted[j].url ==> i == j
    ensures forall i, j :: i in live && j in deleted ==> live[i].url != deleted[j].url
  {
    assert Indexed(live, urlIndex, nextId) && Indexed(deleted, urlIndex, nextId);
    assert live.Keys !! deleted.Keys;
  }

  /** Rewriting a live row without changing its URL keeps the invariant. */
  lemma SaveKeepsConsistent(live: map<nat, Record>, deleted: map<nat, Record>, urlIndex: map<string, nat>, nextId: nat, rec: Record)
    requires Consistent(live, deleted, urlIndex, nextId)
    requires rec.id in live && rec.url == live[rec.id].url
    ensures Consistent(live[rec.id := rec], deleted, urlIndex, nextId)
  {
  }

  /** Adding a row under the next key, for a URL not yet indexed, and
      indexing it keeps the invariant. */
  lemma CreateKeepsConsistent(live: map<nat, Record>, deleted: map<nat, Record>, urlIndex: map<string, nat>, nextId: nat, url: string, now: int)
    requires Consistent(live, deleted, urlIndex, nextId) && url !in urlIndex
    ensures nextId !in live && nextId !in deleted
    ensures Consistent(live[nextId := NewRecord(nextId, url, now)], deleted, urlIndex[url := nextId], nextId + 1)
  {
  }

  /** Moving live rows to the deleted ones keeps the invariant. */
  lemma DeleteKeepsConsistent(live: map<nat, Record>, deleted: map<nat, Record>, urlIndex: map<string, nat>, nextId: nat, ids: set<nat>)
    requires Consistent(live, deleted, urlIndex, nextId)
    ensures Consistent(live - ids, deleted + Moved(live, ids), urlIndex, nextId)
  {
  }

  /** The rows of `rows` a delete of `ids` moves to the deleted rows. */
  function Moved(rows: map<nat, Record>, ids: set<nat>): map<nat, Record>
  {
    map id | id in rows && id in ids :: rows[id]
  }

  /** How many of the rows in `rows` a delete of `ids` affects. */
  function Affected(rows: map<nat, Record>, ids: set<nat>): nat
  {
    |rows.Keys * ids|
  }

  /** The scan behind a primary-key lookup: the rows of `table` whose key is
      in `ids`, each once, in no particular order. */
  method SelectByKeys(table: map<nat, Record>, ids: set<nat>) returns (rows: seq<Record>)
    requires forall id :: id in table ==> table[id].id == id
    ensures forall k :: 0 <= k < |rows| ==> rows[k].id in ids && rows[k].id in table && table[rows[k].id] == rows[k]
    ensures forall id :: id in ids && id in table ==> table[id] in rows
    ensures forall j, k :: 0 <= j < k < |rows| ==> rows[j].id != rows[k].id
  {
    var todo := table.Keys * ids;
    rows := [];
    while todo != {}
      invariant todo <= table.Keys * ids
      invariant forall k :: 0 <= k < |rows| ==> rows[k].id in ids && rows[k].id in table && table[rows[k].id] == rows[k]
      invariant forall k :: 0 <= k < |rows| ==> rows[k].id !in todo
      invariant forall id :: id in ids && id in table && id !in todo ==> table[id] in rows
      invariant forall j, k :: 0 <= j < k < |rows| ==> rows[j].id != rows[k].id
      decreases |todo|
    {
      var id :| id in todo;
      rows := rows + [table[id]];
      todo := todo - {id};
    }
  }

  class Table {
    /** The rows whose DeletedAt is unset, by primary key: all that queries see. */
    var live: map<nat, Record>
    /** The soft-deleted rows, by primary key. */
    var deleted: map<nat, Record>
    /** The unique index on the URL column: URL to primary key, over every
        row, deleted ones included. */
    var urlIndex: map<string, nat>
    /** The next auto-increment primary key. */
    var nextId: nat

    /** The table's invariant: see Consistent. */
    ghost predicate Valid()
      reads this
    {
      Consistent(live, deleted, urlIndex, nextId)
    }

    /** Some row, live or deleted, holds `url` in the unique index. */
    predicate UrlTaken(url: string)
      reads this
    {
      url in urlIndex
    }

    constructor ()
      ensures Valid() && live == map[] && deleted == map[] && nextId == 1
    {
      live := map[];
      deleted := map[];
      urlIndex := map[];
      nextId := 1;
    }

    /** `DB.First(&rec, id)`. */
    method First(id: nat) returns (r: Option<Record>)
      ensures r == if id in live then Some(live[id]) else None
    {
      if id in live {
        r := Some(live[id]);
      } else {
        r := None;
      }
    }

    /** `DB.Where("url = ?", url).First(&rec)`. */
    method FirstByUrl(url: string) returns (r: Option<Record>)
      requires Valid()
      ensures r.None? <==> forall id :: id in live ==> live[id].url != url
      ensures r.Some? ==> r.value.url == url && r.value.id in live && live[r.value.id] == r.value
    {
      if url in urlIndex && urlIndex[url] in live {
        r := Some(live[urlIndex[url]]);
      } else {
        r := None;
      }
    }

    /** `DB.Find(&rows, ids)`: the live rows whose key is listed, each once.
        The order in which the database returns them is not modelled. */
    method Find(ids: set<nat>) returns (rows: seq<Record>)
      requires Valid()
      ensures forall k :: 0 <= k < |rows| ==> rows[k].id in ids && rows[k].id in live && live[rows[k].id] == rows[k]
      ensures forall id :: id in ids && id in live ==> live[id] in rows
      ensures forall j, k :: 0 <= j < k < |rows| ==> rows[j].id != rows[k].id
    {
      assert Indexed(live, urlIndex, nextId);
      rows := SelectByKeys(live, ids);
    }

    /** `DB.Create(&rec)`: takes the next auto-increment id; refused when the
        URL is already in the unique index, deleted rows included. A refused
        insert still uses up its id, as InnoDB's auto-increment does, so the
        next insert skips it. */
    method Create(url: string, now: int) returns (created: Option<Record>)
      requires Valid()
      modifies this
      ensures Valid() && deleted == old(deleted)
      ensures created.None? <==> old(UrlTaken(url))
      ensures created.None? ==>
        live == old(live) && urlIndex == old(urlIndex) && nextId == old(nextId) + 1
      ensures created.Some? ==>
        && created.value == NewRecord(old(nextId), url, now)
        && old(nextId) !in old(live)
        && live == old(live)[old(nextId) := created.value]
        && nextId == old(nextId) + 1
    {
      if url in urlIndex {
        nextId := nextId + 1;
        created := None;
      } else {
        CreateKeepsConsistent(live, deleted, urlIndex, nextId, url, now);
        var rec := NewRecord(nextId, url, now);
        live := live[nextId := rec];
        urlIndex := urlIndex[url := nextId];
        nextId := nextId + 1;
        created := Some(rec);
      }
    }

    /** `DB.Save(&rec)` of a live record, keeping its URL. */
    method Save(rec: Record)
      requires Valid()
      requires rec.id in live && rec.url == live[rec.id].url
      modifies this
      ensures Valid() && deleted == old(deleted) && nextId == old(nextId) && urlIndex == old(urlIndex)
      ensures live == old(live)[rec.id := rec]
    {
      SaveKeepsConsistent(live, deleted, urlIndex, nextId, rec);
      live := live[rec.id := rec];
    }

    /** `DB.Delete(&URLAnalysisResult{}, ids)`: marks the listed live rows
        deleted and reports how many rows it affected. */
    method SoftDelete(ids: set<nat>) returns (affected: nat)
      requires Valid()
      modifies this
      ensures Valid() && nextId == old(nextId)
      ensures live == old(live) - ids
      ensures affected == Affected(old(live), ids)
      ensures deleted == old(deleted) + Moved(old(live), ids)
    {
      DeleteKeepsConsistent(live, deleted, urlIndex, nextId, ids);
      affected := Affected(live, ids);
      deleted := deleted + Moved(live, ids);
      live := live - ids;
    }
  }
}
