/**
 * What each route does to the table and what it answers, as functions from
 * the table before the request to the table after it and the reply. The
 * routes of `UrlStore` are proved to compute exactly these; the lemmas here
 * state the properties the service promises.
 */
module ShortenerService {
  import opened MappingStore
  import opened CodeGenerator

  /** The outcome of a route, in place of its HTTP response. */
  datatype Reply =
    | Created(row: Row)     // a new row was inserted (201)
    | Existing(row: Row)    // the long URL was already stored (200, "URL already exists")
    | Found(row: Row)       // the row asked for, or the row after an update (200)
    | Deleted               // the row was deleted (204)
    | Invalid               // the long URL is missing or empty (400, "Missing longurl")
    | NotFound              // no row has that id (404)
    | Collision             // the insert broke the uniqueness of `shorturl` (500)
    | Exhausted             // every supplied draw was already taken

  /** Python's truth test on the submitted `longurl`: present and not empty. */
  predicate Given(longurl: Option<string>): (g: bool)
    ensures !g <==> longurl == None || longurl == Some("")
  {
    longurl.Some? && longurl.value != ""
  }

  /**
   * Shortening a long URL: reject it when missing or empty; return the row
   * already holding it; otherwise generate a code and insert a new row.
   */
  function Shorten(t: Table, longurl: Option<string>, draws: seq<seq<nat>>): (r: (Table, Reply))
    requires Draws(draws, CodeLength)
    ensures r.1.Invalid? <==> !Given(longurl)
    ensures r.1.Created? ==> r.0 == t + [r.1.row] && r.1.row.longurl == longurl.value
    ensures r.1.Existing? ==> r.1.row in t && r.1.row.longurl == longurl.value
    ensures !r.1.Created? ==> r.0 == t
  {
    if !Given(longurl) then (t, Invalid)
    else match Find(t, LongIs(longurl.value))
      case Some(k) => (t, Existing(t[k]))
      case None =>
        match FirstFreeDraw(t, draws, CodeLength)
        case None => (t, Exhausted)
        case Some(i) =>
          var code := Spell(draws[i]);
          match Insert(t, longurl.value, code)
          case None => (t, Collision)
          case Some(t') => (t', Created(Row(NextId(t), longurl.value, code)))
  }

  /** Following a short code: the long URL of the row carrying it, if any. */
  function Resolve(t: Table, code: string): (r: Option<string>)
    ensures r.None? <==> forall i :: 0 <= i < |t| ==> t[i].shorturl != code
    ensures r.Some? ==> exists i :: 0 <= i < |t| && t[i].shorturl == code && t[i].longurl == r.value
  {
    match Find(t, ShortIs(code))
    case None => None
    case Some(k) => Some(t[k].longurl)
  }

  /** Fetching one row by id. */
  function Get(t: Table, id: int): (r: Reply)
    ensures r.Found? || r.NotFound?
    ensures r.NotFound? <==> forall i :: 0 <= i < |t| ==> t[i].id != id
    ensures r.Found? ==> r.row in t && r.row.id == id
  {
    match Find(t, IdIs(id))
    case None => NotFound
    case Some(k) => Found(t[k])
  }

  /**
   * Replacing the long URL of one row: reject a missing or empty URL, report
   * an unknown id, otherwise update and answer with the row as re-read.
   */
  function Update(t: Table, id: int, longurl: Option<string>): (r: (Table, Reply))
    ensures r.1.Invalid? || r.1.NotFound? || r.1.Found?
    ensures r.1.Invalid? <==> !Given(longurl)
    ensures r.1.NotFound? <==> Given(longurl) && forall i :: 0 <= i < |t| ==> t[i].id != id
    ensures !r.1.Found? ==> r.0 == t
    ensures r.1.Found? ==> r.1.row in r.0 && r.1.row.id == id && r.1.row.longurl == longurl.value
    ensures |r.0| == |t|
  {
    if !Given(longurl) then (t, Invalid)
    else match Find(t, IdIs(id))
      case None => (t, NotFound)
      case Some(k) =>
        var t' := SetLong(t, id, longurl.value);
        assert Matches(t'[k], IdIs(id));
        var j := Find(t', IdIs(id)).value;
        (t', Found(t'[j]))
  }

  /** The API's delete: report an unknown id, otherwise delete its row. */
  function DeleteChecked(t: Table, id: int): (r: (Table, Reply))
    ensures r.1.Deleted? || r.1.NotFound?
    ensures r.1.NotFound? <==> forall i :: 0 <= i < |t| ==> t[i].id != id
    ensures r.1.NotFound? ==> r.0 == t
    ensures forall i :: 0 <= i < |r.0| ==> r.0[i].id != id && r.0[i] in t
    ensures forall i :: 0 <= i < |t| && t[i].id != id ==> t[i] in r.0
  {
    RemoveKeepsRows(t, IdIs(id));
    if Find(t, IdIs(id)).None? then (t, NotFound)
    else (Remove(t, IdIs(id)), Deleted)
  }

  /** The form's delete: delete whatever row has the id, if any. */
  function DeleteUnchecked(t: Table, id: int): (r: Table)
    ensures forall i :: 0 <= i < |r| ==> r[i].id != id && r[i] in t
    ensures forall i :: 0 <= i < |t| && t[i].id != id ==> t[i] in r
  {
    RemoveKeepsRows(t, IdIs(id));
    Remove(t, IdIs(id))
  }

  /** In a well-formed table, a row's own code resolves to that row's long URL. */
  lemma ResolveOwnCode(t: Table, k: nat)
    requires WellFormed(t) && k < |t|
    ensures Resolve(t, t[k].shorturl) == Some(t[k].longurl)
  {
    FindOwnKeys(t, k);
  }

  /** A missing or empty long URL is rejected and the table is left alone. */
  lemma ShortenRejectsEmpty(t: Table, longurl: Option<string>, draws: seq<seq<nat>>)
    requires Draws(draws, CodeLength) && !Given(longurl)
    ensures Shorten(t, longurl, draws) == (t, Invalid)
  {
  }

  /**
   * A long URL that is already stored is answered with the first row (in id
   * order) that holds it, and the table is left alone.
   */
  lemma ShortenExisting(t: Table, u: string, draws: seq<seq<nat>>, k: nat)
    requires Draws(draws, CodeLength) && u != "" && Find(t, LongIs(u)) == Some(k)
    ensures Shorten(t, Some(u), draws) == (t, Existing(t[k]))
    ensures t[k].longurl == u
  {
  }

  /**
   * A new long URL gets exactly one new row: it holds the URL, the first free
   * drawn code (six symbols of the alphabet, used by no other row) and an id
   * larger than every id in the table.
   */
  lemma ShortenNew(t: Table, u: string, draws: seq<seq<nat>>, i: nat)
    requires Draws(draws, CodeLength) && u != "" && WellFormed(t)
    requires Find(t, LongIs(u)).None? && FirstFreeDraw(t, draws, CodeLength) == Some(i)
    ensures var row := Row(NextId(t), u, Spell(draws[i]));
      Shorten(t, Some(u), draws) == (t + [row], Created(row))
    ensures IsCode(Spell(draws[i]), CodeLength) && Free(t, Spell(draws[i]))
    ensures forall j :: 0 <= j < |t| ==> t[j].id < NextId(t)
    ensures WellFormed(Shorten(t, Some(u), draws).0)
  {
    SpellIsCode(draws[i], CodeLength);
  }

  /**
   * With the requests handled one at a time, the code the generator certified
   * free is still free at the insert: shortening never reports a collision.
   */
  lemma ShortenNeverCollides(t: Table, longurl: Option<string>, draws: seq<seq<nat>>)
    requires Draws(draws, CodeLength)
    ensures Shorten(t, longurl, draws).1 != Collision
  {
  }

  /** Shortening keeps ids and short codes unique. */
  lemma ShortenKeepsWellFormed(t: Table, longurl: Option<string>, draws: seq<seq<nat>>)
    requires Draws(draws, CodeLength) && WellFormed(t)
    ensures WellFormed(Shorten(t, longurl, draws).0)
  {
  }

  /**
   * Shortening the same URL twice: the second call answers with the row the
   * first call returned and changes nothing.
   */
  lemma ShortenIdempotent(t: Table, u: string, draws: seq<seq<nat>>, again: seq<seq<nat>>)
    requires Draws(draws, CodeLength) && Draws(again, CodeLength) && u != "" && WellFormed(t)
    requires Shorten(t, Some(u), draws).1.Created? || Shorten(t, Some(u), draws).1.Existing?
    ensures var (t1, r1) := Shorten(t, Some(u), draws);
      Shorten(t1, Some(u), again) == (t1, Existing(r1.row))
  {
    var (t1, r1) := Shorten(t, Some(u), draws);
    if r1.Created? {
      assert Find(t, LongIs(u)).None?;
      assert t1 == t + [r1.row];
      var n := |t|;
      assert Matches(t1[n], LongIs(u));
      var k := Find(t1, LongIs(u));
      assert forall j :: 0 <= j < n ==> t1[j] == t[j];
      assert k == Some(n);
    } else {
      var k := Find(t, LongIs(u)).value;
      assert Find(t1, LongIs(u)) == Some(k);
    }
  }

  /**
   * Round trip: following the code that shortening returned leads to the URL
   * that was shortened.
   */
  lemma ShortenThenResolve(t: Table, u: string, draws: seq<seq<nat>>)
    requires Draws(draws, CodeLength) && u != "" && WellFormed(t)
    requires Shorten(t, Some(u), draws).1.Created? || Shorten(t, Some(u), draws).1.Existing?
    ensures var (t1, r) := Shorten(t, Some(u), draws);
      Resolve(t1, r.row.shorturl) == Some(u)
  {
    var (t1, r) := Shorten(t, Some(u), draws);
    ShortenKeepsWellFormed(t, Some(u), draws);
    if r.Created? {
      assert t1[|t|] == r.row;
      ResolveOwnCode(t1, |t|);
    } else {
      var k := Find(t, LongIs(u)).value;
      ResolveOwnCode(t, k);
    }
  }

  /** Updating with a missing or empty URL is rejected, whatever the id. */
  lemma UpdateRejectsEmpty(t: Table, id: int, longurl: Option<string>)
    requires !Given(longurl)
    ensures Update(t, id, longurl) == (t, Invalid)
  {
  }

  /** Updating an unknown id reports it and changes nothing. */
  lemma UpdateAbsent(t: Table, id: int, u: string)
    requires u != "" && forall i :: 0 <= i < |t| ==> t[i].id != id
    ensures Update(t, id, Some(u)) == (t, NotFound)
  {
    assert Find(t, IdIs(id)).None?;
  }

  /**
   * Updating a present id changes only that row's long URL: its id and code
   * and every other row stay as they were, and the updated row is returned.
   */
  lemma UpdateFrame(t: Table, id: int, u: string, k: nat)
    requires WellFormed(t) && u != "" && k < |t| && t[k].id == id
    ensures var (t1, r) := Update(t, id, Some(u));
      && |t1| == |t|
      && t1[k] == Row(id, u, t[k].shorturl)
      && (forall i :: 0 <= i < |t| && i != k ==> t1[i] == t[i])
      && r == Found(t1[k])
      && WellFormed(t1)
  {
    FindOwnKeys(t, k);
    var t1 := SetLong(t, id, u);
    assert forall i :: 0 <= i < |t| ==> t1[i].id == t[i].id && t1[i].shorturl == t[i].shorturl;
    FindOwnKeys(t1, k);
  }

  /**
   * The API's delete of a present id removes exactly that row, after which
   * its code no longer resolves; ids and codes stay unique.
   */
  lemma DeletePresent(t: Table, k: nat)
    requires WellFormed(t) && k < |t|
    ensures DeleteChecked(t, t[k].id) == (t[..k] + t[k + 1..], Deleted)
    ensures DeleteUnchecked(t, t[k].id) == t[..k] + t[k + 1..]
    ensures Resolve(t[..k] + t[k + 1..], t[k].shorturl).None?
    ensures WellFormed(t[..k] + t[k + 1..])
  {
    FindOwnKeys(t, k);
    RemoveById(t, t[k].id, k);
    SpliceWellFormed(t, k);
    var s := t[..k] + t[k + 1..];
    forall i | 0 <= i < |s| ensures s[i].shorturl != t[k].shorturl {
      if i < k { assert s[i] == t[i]; } else { assert s[i] == t[i + 1]; }
    }
  }

  /**
   * Deleting an id no row has: the API reports it, the form's delete
   * succeeds silently; neither changes the table.
   */
  lemma DeleteAbsent(t: Table, id: int)
    requires forall i :: 0 <= i < |t| ==> t[i].id != id
    ensures DeleteChecked(t, id) == (t, NotFound)
    ensures DeleteUnchecked(t, id) == t
  {
    assert Find(t, IdIs(id)).None?;
    RemoveNothing(t, IdIs(id));
  }

  /**
   * Ids are not fresh across deletes: once the row with the largest id is
   * deleted, the next row inserted gets an id no larger than the deleted
   * one; once the only row is deleted, numbering starts again at 1.
   */
  lemma DeletedLastIdIsReused(t: Table)
    requires WellFormed(t) && t != []
    ensures var last := t[|t| - 1];
      NextId(DeleteChecked(t, last.id).0) <= last.id
    ensures |t| == 1 ==> NextId(DeleteChecked(t, t[0].id).0) == 1
  {
    var n := |t| - 1;
    DeletePresent(t, n);
    assert t[..n] + t[n + 1..] == t[..n];
  }
}
