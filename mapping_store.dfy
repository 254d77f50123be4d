/**
 * The `urls` table: rows `(id, longurl, shorturl)` with `id INTEGER PRIMARY KEY`
 * and `shorturl TEXT UNIQUE`, kept in rowid order. The SQL statements the
 * routes issue are modelled as functions over the row sequence:
 * `SELECT ... WHERE ... fetchone()` is `Find`, `INSERT` is `Insert`,
 * `UPDATE ... WHERE id = ?` is `SetLong` and `DELETE ... WHERE` is `Remove`.
 */
module MappingStore {

  datatype Option<T> = None | Some(value: T)

  /** One row of the `urls` table. */
  datatype Row = Row(id: int, longurl: string, shorturl: string)

  /** The rows of the table, in rowid order. */
  type Table = seq<Row>

  /** The `WHERE` clauses the routes use. */
  datatype Where = IdIs(id: int) | LongIs(longurl: string) | ShortIs(shorturl: string)

  predicate Matches(row: Row, w: Where) {
    match w
    case IdIs(id) => row.id == id
    case LongIs(u) => row.longurl == u
    case ShortIs(c) => row.shorturl == c
  }

  /**
   * The schema's integrity constraints, plus the order a rowid scan returns:
   * ids are positive (the routes never choose one) and strictly increase
   * along the table (so they are unique), and no two rows share a short code.
   */
  predicate WellFormed(t: Table) {
    && (forall i :: 0 <= i < |t| ==> t[i].id >= 1)
    && (forall i, j :: 0 <= i < j < |t| ==> t[i].id < t[j].id)
    && (forall i, j :: 0 <= i < j < |t| ==> t[i].shorturl != t[j].shorturl)
  }

  /** `SELECT ... WHERE w` followed by `fetchone()`: the first matching row, by index. */
  function Find(t: Table, w: Where): (r: Option<nat>)
    ensures r.Some? ==> r.value < |t| && Matches(t[r.value], w)
    ensures r.Some? ==> forall j :: 0 <= j < r.value ==> !Matches(t[j], w)
    ensures r.None? ==> forall j :: 0 <= j < |t| ==> !Matches(t[j], w)
  {
    if t == [] then None
    else if Matches(t[0], w) then Some(0)
    else match Find(t[1..], w)
      case None => None
      case Some(k) => Some(k + 1)
  }

  /** The largest id in a non-empty table. */
  function MaxId(t: Table): (m: int)
    requires t != []
    ensures forall i :: 0 <= i < |t| ==> t[i].id <= m
    ensures exists i :: 0 <= i < |t| && t[i].id == m
  {
    if |t| == 1 then t[0].id
    else
      var m := MaxId(t[1..]);
      if t[0].id > m then t[0].id else m
  }

  /**
   * The rowid SQLite gives a row inserted without an explicit id: one more
   * than the largest rowid in the table, or 1 when the table is empty.
   */
  function NextId(t: Table): (id: int)
    ensures forall i :: 0 <= i < |t| ==> t[i].id < id
    ensures t == [] ==> id == 1
    ensures t != [] ==> exists i :: 0 <= i < |t| && t[i].id == id - 1
  {
    if t == [] then 1 else MaxId(t) + 1
  }

  /**
   * `INSERT INTO urls (longurl, shorturl) VALUES (?, ?)`: fails (None, the
   * source's `IntegrityError`) exactly when the short code is already used;
   * otherwise appends one row under a fresh id.
   */
  function Insert(t: Table, longurl: string, shorturl: string): (r: Option<Table>)
    ensures r.None? <==> Find(t, ShortIs(shorturl)).Some?
    ensures r.Some? ==> |r.value| == |t| + 1 && r.value[..|t|] == t
    ensures r.Some? ==> r.value[|t|].longurl == longurl && r.value[|t|].shorturl == shorturl
    ensures r.Some? ==> r.value[|t|].id == NextId(t)
    ensures r.Some? ==> forall i :: 0 <= i < |t| ==> t[i].id < r.value[|t|].id
    ensures r.Some? && WellFormed(t) ==> WellFormed(r.value)
  {
    if Find(t, ShortIs(shorturl)).Some? then None
    else Some(t + [Row(NextId(t), longurl, shorturl)])
  }

  /** `UPDATE urls SET longurl = ? WHERE id = ?`. */
  function SetLong(t: Table, id: int, longurl: string): (r: Table)
    ensures |r| == |t|
    ensures forall i :: 0 <= i < |t| ==> r[i].id == t[i].id && r[i].shorturl == t[i].shorturl
    ensures forall i :: 0 <= i < |t| && t[i].id != id ==> r[i] == t[i]
    ensures forall i :: 0 <= i < |t| && t[i].id == id ==> r[i].longurl == longurl
  {
    seq(|t|, i requires 0 <= i < |t| => if t[i].id == id then t[i].(longurl := longurl) else t[i])
  }

  /** `DELETE FROM urls WHERE w`: keeps, in order, the rows that do not match. */
  function Remove(t: Table, w: Where): (r: Table)
    ensures |r| <= |t|
    ensures forall i :: 0 <= i < |r| ==> !Matches(r[i], w)
  {
    if t == [] then []
    else (if Matches(t[0], w) then [] else [t[0]]) + Remove(t[1..], w)
  }

  /**
   * A delete adds no row and loses none of the rows that do not match:
   * the result is exactly the non-matching rows of the table.
   */
  lemma {:induction false} RemoveKeepsRows(t: Table, w: Where)
    ensures forall i :: 0 <= i < |Remove(t, w)| ==> Remove(t, w)[i] in t
    ensures forall i :: 0 <= i < |t| && !Matches(t[i], w) ==> t[i] in Remove(t, w)
  {
    if t != [] {
      RemoveKeepsRows(t[1..], w);
      var head := if Matches(t[0], w) then [] else [t[0]];
      assert Remove(t, w) == head + Remove(t[1..], w);
      forall i | 0 <= i < |t| && !Matches(t[i], w)
        ensures t[i] in Remove(t, w)
      {
        if i > 0 {
          assert t[i] == t[1..][i - 1];
        }
      }
    }
  }

  /** In a well-formed table a row is the first (and only) match for its own id and code. */
  lemma FindOwnKeys(t: Table, k: nat)
    requires WellFormed(t) && k < |t|
    ensures Find(t, IdIs(t[k].id)) == Some(k)
    ensures Find(t, ShortIs(t[k].shorturl)) == Some(k)
  {
  }

  /** Dropping one row keeps the table well formed. */
  lemma SpliceWellFormed(t: Table, k: nat)
    requires WellFormed(t) && k < |t|
    ensures WellFormed(t[..k] + t[k + 1..])
  {
    var s := t[..k] + t[k + 1..];
    assert forall i :: 0 <= i < |s| ==> s[i] == if i < k then t[i] else t[i + 1];
  }

  /** Deleting where nothing matches leaves the table as it was. */
  lemma {:induction false} RemoveNothing(t: Table, w: Where)
    requires Find(t, w).None?
    ensures Remove(t, w) == t
  {
    if t != [] {
      assert !Matches(t[0], w);
      assert Find(t[1..], w).None? by {
        forall j | 0 <= j < |t[1..]| ensures !Matches(t[1..][j], w) {
          assert t[1..][j] == t[j + 1];
        }
      }
      RemoveNothing(t[1..], w);
      assert [t[0]] + t[1..] == t;
    }
  }

  /** Rows after the first in a well-formed table form a well-formed table. */
  lemma TailWellFormed(t: Table)
    requires WellFormed(t) && t != []
    ensures WellFormed(t[1..])
  {
    assert forall i :: 0 <= i < |t[1..]| ==> t[1..][i] == t[i + 1];
  }

  /**
   * In a well-formed table, deleting by id removes exactly the one row that
   * carries that id: the first match is also the last.
   */
  lemma {:induction false} RemoveById(t: Table, id: int, k: nat)
    requires WellFormed(t) && Find(t, IdIs(id)) == Some(k)
    ensures Remove(t, IdIs(id)) == t[..k] + t[k + 1..]
  {
    var tail := t[1..];
    if k == 0 {
      assert Find(tail, IdIs(id)).None? by {
        forall j | 0 <= j < |tail| ensures !Matches(tail[j], IdIs(id)) {
          assert tail[j] == t[j + 1];
        }
      }
      RemoveNothing(tail, IdIs(id));
    } else {
      TailWellFormed(t);
      assert Find(tail, IdIs(id)) == Some(k - 1);
      RemoveById(tail, id, k - 1);
      calc {
        Remove(t, IdIs(id));
        [t[0]] + Remove(tail, IdIs(id));
        [t[0]] + (tail[..k - 1] + tail[k..]);
        { assert [t[0]] + tail[..k - 1] == t[..k]; assert tail[k..] == t[k + 1..]; }
        t[..k] + t[k + 1..];
      }
    }
  }
}
