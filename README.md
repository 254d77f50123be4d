# URL shortener: a verified model of the mapping table

This project models the core of a small Flask/SQLite URL shortener (`app.py`).
The shortener maps long URLs to six-character codes over `[a-zA-Z0-9]` and
resolves codes back to URLs. Its state is one SQLite table
`urls (id INTEGER PRIMARY KEY, longurl TEXT, shorturl TEXT UNIQUE)`. Here that
table is an in-memory sequence of rows held by a class, `App.UrlStore`, and
each route body becomes a method on it. A method changes `rows` the way the
route's SQL statements change the table, and it returns a `Reply` value
instead of an HTTP response.

The model has four modules:

- `MappingStore` (`mapping_store.dfy`): rows and the table invariant. Ids are
  positive and strictly increase in row order, so they are unique, and short
  codes are unique. It also holds the SQL statements as functions:
  `Find` (`SELECT … WHERE … fetchone()`, the first match in rowid order),
  `Insert` (fails when the code is taken, as the `UNIQUE` constraint does),
  `SetLong` (`UPDATE`), `Remove` (`DELETE`) and `NextId`. `NextId` follows
  SQLite's rowid rule: one more than the largest id in the table, or 1 when
  the table is empty.
- `CodeGenerator` (`code_generator.dfy`): the alphabet and `randomString`.
  The caller supplies the random draws. A draw is the list of alphabet
  positions `random.choice` would pick.
- `ShortenerService` (`shortener_service.dfy`): one step function per route,
  from the table before a request to the table after it and the reply. The
  properties the shortener promises are lemmas about these functions.
- `App` (`app.dfy`): the class `UrlStore` with the routes as methods. Each
  method is proved equal to its step function and to keep the table
  invariant.

Three behaviours of `app.py` are easy to get wrong; the model follows the code:

- `api_create_url` does not retry after an `IntegrityError`. It answers with a
  collision error and adds no row (app.py:112-114). The form route does not
  catch that error at all. In a model where requests run one at a time, this
  branch cannot be reached, because the generator has just checked that the
  code is free. `ShortenNeverCollides` proves this.
- Ids are not monotonic over the table's history. SQLite gives a new row the
  largest current id plus one. After the row with the largest id is deleted,
  its id can be handed out again (`DeletedLastIdIsReused`).
- At the store level, a delete of an absent id is not reported to the form
  route. `delete_url` runs the `DELETE` without checking and always succeeds.

## Model

| member | source | states |
|---|---|---|
| `MappingStore.Find` | app.py:87-88 | `SELECT … WHERE … fetchone()`: it returns the first row in rowid order that matches. It returns None only when no row matches. |
| `MappingStore.MaxId` | app.py:104 | The largest id in a non-empty table. Every id is at most this value, and some row carries it. |
| `MappingStore.NextId` | app.py:102-104 | The rowid of an inserted row is greater than every id in the table. It is 1 for an empty table, and otherwise one more than an existing id. |
| `MappingStore.Insert` | app.py:102-104 | The insert fails exactly when the short code is already used (the `UNIQUE` constraint of app.py:86). On success it keeps every old row and appends one row. That row holds the given pair under the id `NextId`, which is larger than all existing ids. It preserves unique ids and unique codes. |
| `MappingStore.SetLong` | app.py:154 | The `UPDATE` changes only the `longurl` column. Every row keeps its id and code. Rows with a different id are unchanged, and rows with the id get the new URL. |
| `MappingStore.Remove` | app.py:56 | After a `DELETE … WHERE`, no remaining row matches, and the table has not grown. That no row is added and every non-matching row survives is `RemoveKeepsRows`; the exact result for a by-id delete is `RemoveById`. |
| `MappingStore.RemoveKeepsRows` | app.py:56 | A `DELETE … WHERE` adds no row: every remaining row was in the table. Every row that does not match the clause survives. |
| `MappingStore.FindOwnKeys` | app.py:86 | In a well-formed table, a row is the first and only match for its own id and for its own code. |
| `MappingStore.SpliceWellFormed` | app.py:172 | Deleting one row keeps ids increasing and codes unique. |
| `MappingStore.RemoveNothing` | app.py:56 | A `DELETE` that matches no row leaves the table unchanged. |
| `MappingStore.RemoveById` | app.py:172 | In a well-formed table, deleting by id removes exactly the one row with that id. |
| `CodeGenerator.Letter` | app.py:13 | Each position of the alphabet string is an ASCII letter or digit. |
| `CodeGenerator.AlphabetIsAlphanumeric` | app.py:13 | The alphabet has 62 distinct symbols. A character is in it exactly when it is in `[a-zA-Z0-9]`. |
| `CodeGenerator.Spell` | app.py:15 | `''.join(random.choice(letters) …)` for given picks: the code has exactly one symbol per pick. |
| `CodeGenerator.SpellPicksFromAlphabet` | app.py:13-15 | Each symbol of a spelling is the symbol of the `letters` string at the matching pick. |
| `CodeGenerator.SpellIsCode` | app.py:15 | Joining `length` picks from the alphabet gives a string of `length` alphanumeric symbols. |
| `CodeGenerator.FirstFreeDraw` | app.py:14-18 | It returns the first draw whose spelling is no row's code: every earlier draw is taken. It returns None exactly when every draw is taken. |
| `CodeGenerator.RandomString` | app.py:12-18 | The loop returns a code of `length` symbols of `[a-zA-Z0-9]` that no row uses. That code is the first free draw's spelling. It fails only when every draw is taken. |
| `CodeGenerator.SecondDrawAfterCollision` | Unittest.py:40-51 | When the first draw is taken and the second is free, the second draw is returned. |
| `ShortenerService.Given` | app.py:32 | Python's `not longurl`: a `longurl` counts as missing exactly when it is absent (`None`) or the empty string. The same test appears at app.py:81 and app.py:144. |
| `ShortenerService.Shorten` | app.py:78-114 | The step function of both shorten routes (also app.py:30-47). Its contract: the reply is Invalid exactly when `longurl` is missing. A Created reply appends exactly the new row, which holds the URL. An Existing reply is a stored row holding the URL. Any other reply leaves the table unchanged. Its full promises are the `Shorten*` lemmas below. |
| `ShortenerService.Update` | app.py:142-161 | The step function of the update route. The reply is Invalid exactly when `longurl` is missing, NotFound exactly when it is given and no row has the id, and Found otherwise. Only Found changes the table. The Found row is in the new table, with the id and the new URL. The row count never changes. The frame is the `UpdateFrame` lemma. |
| `ShortenerService.DeleteChecked` | app.py:167-175 | The step function of the API delete. NotFound exactly when no row has the id, and then the table is unchanged. Otherwise Deleted. No remaining row has the id, every remaining row was there before, and every row with another id survives. The exact result is the `DeletePresent` lemma. |
| `ShortenerService.DeleteUnchecked` | app.py:56 | The form delete. No remaining row has the id, every remaining row was there before, and every row with another id survives. |
| `ShortenerService.Resolve` | app.py:65-72 | Resolving a code gives None exactly when no row carries the code. Otherwise it gives the long URL of a row that carries it. |
| `ShortenerService.Get` | app.py:129-135 | Getting an id gives NotFound exactly when no row has the id. Otherwise it gives a row of the table with that id. |
| `ShortenerService.ResolveOwnCode` | app.py:65-70 | In a well-formed table, each row's code resolves to that row's long URL. |
| `ShortenerService.ShortenRejectsEmpty` | app.py:79-82 | A missing or empty `longurl` is rejected, and the table is unchanged. This covers the API check and the form route's check at app.py:31-34. |
| `ShortenerService.ShortenExisting` | app.py:87-98 | A long URL that is already stored is answered with the first row that holds it, and the table is unchanged. |
| `ShortenerService.ShortenNew` | app.py:100-111 | A new non-empty URL adds exactly one row. The row holds the URL and the first free drawn code: six alphanumeric symbols that no other row uses. Its id is larger than every existing id. Ids and codes stay unique. |
| `ShortenerService.ShortenNeverCollides` | app.py:112-114 | When requests run one at a time, shortening never reaches the collision reply. |
| `ShortenerService.ShortenKeepsWellFormed` | app.py:86 | Every shorten preserves unique ids and unique codes. |
| `ShortenerService.ShortenIdempotent` | app.py:36-41 | Shortening the same URL a second time returns the row from the first call and changes nothing. |
| `ShortenerService.ShortenThenResolve` | app.py:65-70 | Round trip: resolving the code that shortening returned gives back the shortened URL. |
| `ShortenerService.UpdateRejectsEmpty` | app.py:142-145 | An update with a missing or empty `longurl` is rejected before the id is looked up, and the table is unchanged. |
| `ShortenerService.UpdateAbsent` | app.py:149-152 | Updating an unknown id reports NotFound and changes nothing. |
| `ShortenerService.UpdateFrame` | app.py:154-161 | Updating a present id changes only that row's long URL. Its id and code, and every other row, stay the same. The reply is the updated row, and ids and codes stay unique. |
| `ShortenerService.DeletePresent` | app.py:167-175 | Both deletes of a present id remove exactly that row. Its code then no longer resolves, and ids and codes stay unique. |
| `ShortenerService.DeleteAbsent` | app.py:52-59 | Deleting an absent id leaves the table unchanged. The API delete reports NotFound, and the form delete succeeds silently. |
| `ShortenerService.DeletedLastIdIsReused` | app.py:102-104 | After the row with the largest id is deleted, the next id is no larger than the deleted one. When the table becomes empty, numbering restarts at 1. |
| `App.UrlStore.constructor` | app.py:25 | The store starts as an empty, well-formed table. |
| `App.UrlStore.InsertRow` | app.py:102-104 | When the code is taken, the insert fails and the table is unchanged. Otherwise the table gains exactly one row, with id `NextId`, and that id is returned as `lastrowid`. |
| `App.UrlStore.ApiGetUrls` | app.py:116-123 | The listing returns every row, in increasing id order. |
| `App.UrlStore.ApiCreateUrl` | app.py:74-114 | The new table and the reply are those of `Shorten`. Unique ids and unique codes are kept. |
| `App.UrlStore.IndexPost` | app.py:20-47 | The page lists the rows as they were before the request. The table changes as `Shorten` says, and uniqueness is kept. |
| `App.UrlStore.RedirectShortUrl` | app.py:61-72 | It returns the target URL when a row carries the code, and None ("URL does not exist") otherwise. The table is not changed. |
| `App.UrlStore.ApiGetUrl` | app.py:125-135 | It returns the row with that id, or NotFound. The table is not changed. |
| `App.UrlStore.ApiUpdateUrl` | app.py:137-161 | The new table and the reply are those of `Update`: rejected, NotFound, or only that row's long URL replaced. Uniqueness is kept. |
| `App.UrlStore.ApiDeleteUrl` | app.py:163-175 | The new table and the reply are those of `DeleteChecked`: NotFound, or exactly that row removed. Uniqueness is kept. |
| `App.UrlStore.DeleteUrl` | app.py:52-59 | It removes the row with that id if there is one. It always succeeds, and uniqueness is kept. |

## Left out

- HTTP plumbing is replaced by the `Reply` datatype. This covers Flask routing, templates, redirects, JSON encoding, status codes, and the `request.is_json` check (app.py:76-77, 139-140).
- The `access_url` field, built from `request.host_url`, is left out. It depends on the request and is plain string concatenation.
- SQLite connection handling is left out: `get_db_connection`, `commit`, `close` and `CREATE TABLE IF NOT EXISTS`. The `rows` field stands for the table.
- `random.choice` is replaced by caller-supplied draws.
- CodeGenerator.RandomString: the source loops until a free code appears and never returns if none does. The model tries only the draws it is given and reports `Exhausted` when all of them are taken.
- Concurrent requests are not modelled. Requests run one at a time, so two races cannot occur: a code taken between the free check and the insert, and two inserts of the same long URL. The collision reply is therefore unreachable.
- A `longurl` that is a JSON value other than a string is not modelled. The model accepts a present string or nothing (`Option<string>`).
- MappingStore.NextId: ids are unbounded integers. SQLite's fallback to a random unused rowid once the largest rowid reaches 2^63-1 is not modelled.
- App.UrlStore.IndexPost: the form route does not catch an `IntegrityError`, so in the source it ends in a server error. The model reports it as `Collision`, with no row added. The rendered page is reduced to the listed rows and the reply.
- The `GET /` route is the same listing as `App.UrlStore.ApiGetUrls`, so it has no separate method.
- The `__main__` block and the test suite are not part of this model.
