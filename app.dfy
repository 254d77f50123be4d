/**
 * The routes of the shortener, as methods on the store that holds the `urls`
 * table. Each route changes `rows` in place the way its SQL statements do
 * and returns a `Reply` in place of the HTTP response; each is proved to
 * agree with its step function in `ShortenerService`, and to keep ids and
 * short codes unique.
 */
module App {
  import opened MappingStore
  import opened CodeGenerator
  import opened ShortenerService

  class UrlStore {
    /** The rows of the `urls` table, in rowid order. */
    var rows: Table

    /** The schema's constraints: unique (increasing) ids, unique short codes. */
    ghost predicate Valid()
      reads this
    {
      WellFormed(rows)
    }

    /** A fresh database: `CREATE TABLE IF NOT EXISTS urls (...)` on no file. */
    constructor ()
      ensures Valid() && rows == []
    {
      rows := [];
    }

    /**
     * `INSERT INTO urls (longurl, shorturl) VALUES (?, ?)`, then
     * `cursor.lastrowid`: None stands for the `IntegrityError` raised when
     * the short code is already used, in which case no row is added.
     */
    method InsertRow(longurl: string, shorturl: string) returns (id: Option<int>)
      requires Valid()
      modifies this
      ensures Valid()
      ensures id.None? <==> !Free(old(rows), shorturl)
      ensures id.None? ==> rows == old(rows)
      ensures id.Some? ==> id.value == NextId(old(rows))
      ensures id.Some? ==> rows == old(rows) + [Row(id.value, longurl, shorturl)]
    {
      match Insert(rows, longurl, shorturl)
      case None =>
        id := None;
      case Some(t) =>
        id := Some(NextId(rows));
        rows := t;
    }

    /** `GET /` and `GET /api/urls`: every row, in rowid order. */
    method ApiGetUrls() returns (listed: seq<Row>)
      requires Valid()
      ensures listed == rows
      ensures forall i, j :: 0 <= i < j < |listed| ==> listed[i].id < listed[j].id
    {
      listed := rows;
    }

    /**
     * `POST /api/urls`: reject a missing or empty `longurl`, answer with the
     * row already holding it, or draw a free code and insert a new row.
     */
    method ApiCreateUrl(longurl: Option<string>, draws: seq<seq<nat>>) returns (reply: Reply)
      requires Valid() && Draws(draws, CodeLength)
      modifies this
      ensures Valid()
      ensures (rows, reply) == Shorten(old(rows), longurl, draws)
    {
      if !Given(longurl) {
        return Invalid;
      }
      var existing := Find(rows, LongIs(longurl.value));
      if existing.Some? {
        return Existing(rows[existing.value]);
      }
      var code := RandomString(rows, draws, CodeLength);
      if code.None? {
        return Exhausted;
      }
      var id := InsertRow(longurl.value, code.value);
      if id.None? {
        return Collision;
      }
      reply := Created(Row(id.value, longurl.value, code.value));
    }

    /**
     * `POST /` with the form field `longurl`: the page lists the rows as they
     * were before the request, and the table changes as for the API route.
     */
    method IndexPost(longurl: Option<string>, draws: seq<seq<nat>>) returns (listed: seq<Row>, reply: Reply)
      requires Valid() && Draws(draws, CodeLength)
      modifies this
      ensures Valid()
      ensures listed == old(rows)
      ensures (rows, reply) == Shorten(old(rows), longurl, draws)
    {
      listed := rows;
      reply := ApiCreateUrl(longurl, draws);
    }

    /** `GET /<shorturl>`: the long URL to redirect to, or None ("URL does not exist"). */
    method RedirectShortUrl(shorturl: string) returns (target: Option<string>)
      ensures target == Resolve(rows, shorturl)
      ensures target.Some? <==> !Free(rows, shorturl)
    {
      var found := Find(rows, ShortIs(shorturl));
      if found.Some? {
        target := Some(rows[found.value].longurl);
      } else {
        target := None;
      }
    }

    /** `GET /api/urls/<id>`: the row with that id, or NotFound. */
    method ApiGetUrl(id: int) returns (reply: Reply)
      ensures reply == Get(rows, id)
      ensures reply.Found? ==> reply.row in rows && reply.row.id == id
    {
      var found := Find(rows, IdIs(id));
      if found.Some? {
        reply := Found(rows[found.value]);
      } else {
        reply := NotFound;
      }
    }

    /**
     * `PUT /api/urls/<id>`: reject a missing or empty `longurl`, report an
     * unknown id, otherwise set the row's long URL and answer with the row as
     * read back.
     */
    method ApiUpdateUrl(id: int, longurl: Option<string>) returns (reply: Reply)
      requires Valid()
      modifies this
      ensures Valid()
      ensures (rows, reply) == Update(old(rows), id, longurl)
    {
      if !Given(longurl) {
        return Invalid;
      }
      var found := Find(rows, IdIs(id));
      if found.None? {
        return NotFound;
      }
      UpdateFrame(rows, id, longurl.value, found.value);
      rows := SetLong(rows, id, longurl.value);
      var updated := Find(rows, IdIs(id));
      reply := Found(rows[updated.value]);
    }

    /** `DELETE /api/urls/<id>`: report an unknown id, otherwise delete its row. */
    method ApiDeleteUrl(id: int) returns (reply: Reply)
      requires Valid()
      modifies this
      ensures Valid()
      ensures (rows, reply) == DeleteChecked(old(rows), id)
    {
      var found := Find(rows, IdIs(id));
      if found.None? {
        return NotFound;
      }
      DeletePresent(rows, found.value);
      rows := Remove(rows, IdIs(id));
      reply := Deleted;
    }

    /** `POST /delete/<id>`: delete the row with that id if there is one; always succeeds. */
    method DeleteUrl(id: int)
      requires Valid()
      modifies this
      ensures Valid()
      ensures rows == DeleteUnchecked(old(rows), id)
    {
      var found := Find(rows, IdIs(id));
      if found.Some? {
        DeletePresent(rows, found.value);
      } else {
        DeleteAbsent(rows, id);
      }
      rows := Remove(rows, IdIs(id));
    }
  }
}
