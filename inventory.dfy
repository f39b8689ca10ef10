/**
  The ingredient store of `crates/core/src/inventory.rs`.

  The `ingredients` table (`name TEXT PRIMARY KEY`) is a `Database` object whose
  `rows` field maps each stored name to the rest of its row. An `Inventory` holds
  the handle through which it reaches that table and changes it in place.

  What the foreign layers do on one call (whether the r2d2 pool hands out a
  connection, whether SQLite runs the statement) is a `Backend` parameter, and the
  value of `Utc::now()` is a `now` parameter.
*/
module Inventory {
  import opened Timestamp

  /** Rust's `u32`. */
  type U32 = x: int | 0 <= x < 0x1_0000_0000

  /** `struct Ingredient`, as `list_ingredients` returns it. */
  datatype Ingredient = Ingredient(name: string, quantity: U32, unit: string, lastEdited: UtcDateTime)

  /** `enum Error`: the pool could not lend a connection, SQLite failed, or delete matched no row. */
  datatype Error = Connection | Query | NotFound(name: string)

  datatype Result<T> = Ok(value: T) | Err(error: Error)

  /** The columns of a row after its key, as SQLite stores them: `quantity INTEGER`,
      `unit TEXT`, `last_edited TEXT`. The model writes only `u32` quantities, but a
      file written by other code may hold any integer there, or a `last_edited` text
      that does not parse. */
  datatype Row = Row(quantity: int, unit: string, lastEdited: string)

  /** The table, keyed by its primary key. */
  type Table = map<string, Row>

  /** How the connection pool and the database behave on one store call. */
  datatype Backend = Healthy | PoolFails | StatementFails

  /** The row `add_ingredient` writes: the quantity, the unit and the clock as RFC 3339 text. */
  function Stored(quantity: U32, unit: string, now: UtcDateTime): Row {
    Row(quantity, unit, Format(now))
  }

  /** `INSERT OR REPLACE` keyed by name. */
  function Upsert(t: Table, name: string, row: Row): (t': Table)
    ensures name in t' && t'[name] == row
    ensures forall k :: k != name ==> (k in t' <==> k in t)
    ensures forall k :: k in t && k != name ==> t'[k] == t[k]
    ensures |t'| == if name in t then |t| else |t| + 1
  {
    t[name := row]
  }

  /** `DELETE ... WHERE name = ?1`. */
  function Remove(t: Table, name: string): (t': Table)
    ensures name !in t'
    ensures forall k :: k != name ==> (k in t' <==> k in t)
    ensures forall k :: k in t' ==> t'[k] == t[k]
    ensures |t'| == if name in t then |t| - 1 else |t|
  {
    var t' := map k | k in t && k != name :: t[k];
    assert t'.Keys == t.Keys - {name};
    t'
  }

  /** What `delete_ingredient(name)` returns on table `t`. */
  function DeleteResult(t: Table, name: string, backend: Backend): (r: Result<()>)
    ensures r.Ok? <==> backend == Healthy && name in t
    ensures backend == PoolFails ==> r == Err(Connection)
    ensures backend == StatementFails ==> r == Err(Query)
    ensures backend == Healthy && name !in t ==> r == Err(NotFound(name))
  {
    match backend
    case PoolFails => Err(Connection)
    case StatementFails => Err(Query)
    case Healthy => if name in t then Ok(()) else Err(NotFound(name))
  }

  /** The `query_map` closure on one row: read the columns, convert the quantity to
      `u32` (an error for a value out of range), and decode the timestamp, falling back
      to the clock when it does not decode. */
  function ToIngredient(name: string, row: Row, now: UtcDateTime): (r: Result<Ingredient>)
    ensures r.Ok? <==> 0 <= row.quantity < 0x1_0000_0000
    ensures r.Err? ==> r.error == Query
    ensures r.Ok? ==> r.value.name == name && r.value.quantity == row.quantity && r.value.unit == row.unit
    ensures r.Ok? && Parse(row.lastEdited).Some? ==> r.value.lastEdited == Parse(row.lastEdited).value
    ensures r.Ok? && Parse(row.lastEdited).None? ==> r.value.lastEdited == now
  {
    if 0 <= row.quantity < 0x1_0000_0000 then
      var lastEdited := match Parse(row.lastEdited)
                        case Some(t) => t
                        case None => now;
      Ok(Ingredient(name, row.quantity, row.unit, lastEdited))
    else
      Err(Query)
  }

  /** Every row of `t` has a quantity that fits `u32`. */
  ghost predicate AllQuantitiesFit(t: Table) {
    forall k :: k in t ==> 0 <= t[k].quantity < 0x1_0000_0000
  }

  // `Names`, `ScannedNames` (here) and `Api.Elements` collect names from three
  // different sequence types. Each is recursive on the last element, which is how
  // the loops that build them grow, rather than a set comprehension.

  /** The names of a listing. */
  function Names(items: seq<Ingredient>): set<string> {
    if items == [] then {} else Names(items[..|items| - 1]) + {items[|items| - 1].name}
  }

  /** The names of a scan's rows. */
  function ScannedNames(s: seq<(string, Row)>): set<string> {
    if s == [] then {} else ScannedNames(s[..|s| - 1]) + {s[|s| - 1].0}
  }

  lemma {:induction false} NamesAt(items: seq<Ingredient>, name: string)
    ensures name in Names(items) <==> exists i :: 0 <= i < |items| && items[i].name == name
  {
    if items != [] {
      var init := items[..|items| - 1];
      NamesAt(init, name);
      assert forall i :: 0 <= i < |init| ==> init[i] == items[i];
    }
  }

  lemma {:induction false} ScannedNamesAt(s: seq<(string, Row)>, name: string)
    ensures name in ScannedNames(s) <==> exists i :: 0 <= i < |s| && s[i].0 == name
  {
    if s != [] {
      var init := s[..|s| - 1];
      ScannedNamesAt(init, name);
      assert forall i :: 0 <= i < |init| ==> init[i] == s[i];
    }
  }

  /** `s` holds every row of `t` exactly once, in some order. */
  ghost predicate Enumerates(s: seq<(string, Row)>, t: Table) {
    && |s| == |t|
    && (forall i :: 0 <= i < |s| ==> s[i].0 in t && t[s[i].0] == s[i].1)
    && (forall i, j :: 0 <= i < j < |s| ==> s[i].0 != s[j].0)
    && ScannedNames(s) == t.Keys
  }

  lemma NamesSnoc(items: seq<Ingredient>, x: Ingredient)
    ensures Names(items + [x]) == Names(items) + {x.name}
  {
    assert (items + [x])[..|items|] == items;
  }

  lemma ScannedNamesSnoc(s: seq<(string, Row)>, i: nat)
    requires i < |s|
    ensures ScannedNames(s[..i + 1]) == ScannedNames(s[..i]) + {s[i].0}
  {
    assert s[..i + 1][..i] == s[..i];
  }

  /** `items` is a listing of `t`: one ingredient per row, in some order, each the
      conversion of its row. */
  ghost predicate Lists(items: seq<Ingredient>, t: Table, now: UtcDateTime) {
    && |items| == |t|
    && Names(items) == t.Keys
    && (forall i, j :: 0 <= i < j < |items| ==> items[i].name != items[j].name)
    && (forall i :: 0 <= i < |items| ==>
          items[i].name in t && ToIngredient(items[i].name, t[items[i].name], now) == Ok(items[i]))
  }

  /** A scan whose every row converts covers only quantities that fit a `u32`, and
      the converted rows are a listing of the table. */
  lemma ScanLists(s: seq<(string, Row)>, t: Table, items: seq<Ingredient>, now: UtcDateTime)
    requires Enumerates(s, t)
    requires |items| == |s| && Names(items) == ScannedNames(s)
    requires forall j :: 0 <= j < |s| ==> ToIngredient(s[j].0, s[j].1, now) == Ok(items[j])
    ensures AllQuantitiesFit(t)
    ensures Lists(items, t, now)
  {
    forall k | k in t
      ensures 0 <= t[k].quantity < 0x1_0000_0000
    {
      ScannedNamesAt(s, k);
      var j :| 0 <= j < |s| && s[j].0 == k;
      assert ToIngredient(s[j].0, s[j].1, now).Ok?;
    }
    assert forall j :: 0 <= j < |s| ==> items[j].name == s[j].0;
  }

  /** The `ingredients` table of the database file. */
  class Database {
    var rows: Table

    constructor (rows: Table)
      ensures this.rows == rows
    {
      this.rows := rows;
    }

    /** `INSERT OR REPLACE INTO ingredients ...`. */
    method InsertOrReplace(name: string, row: Row)
      modifies this
      ensures rows == Upsert(old(rows), name, row)
    {
      rows := Upsert(rows, name, row);
    }

    /** `DELETE FROM ingredients WHERE name = ?1`, returning the number of rows affected. */
    method DeleteByName(name: string) returns (affected: nat)
      modifies this
      ensures affected == if name in old(rows) then 1 else 0
      ensures rows == Remove(old(rows), name)
    {
      affected := if name in rows then 1 else 0;
      rows := Remove(rows, name);
    }

    /** `SELECT name, quantity, unit, last_edited FROM ingredients`: every row once,
        in whatever order the engine produces (no order is promised). */
    method SelectAll() returns (s: seq<(string, Row)>)
      ensures Enumerates(s, rows)
    {
      s := [];
      var left := rows.Keys;
      while left != {}
        invariant left <= rows.Keys
        invariant |s| + |left| == |rows|
        invariant forall i :: 0 <= i < |s| ==> s[i].0 in rows && s[i].0 !in left && rows[s[i].0] == s[i].1
        invariant forall i, j :: 0 <= i < j < |s| ==> s[i].0 != s[j].0
        invariant ScannedNames(s) == rows.Keys - left
        decreases left
      {
        var k :| k in left;
        ghost var before := s;
        s := s + [(k, rows[k])];
        assert s[..|s| - 1] == before;
        left := left - {k};
      }
    }
  }

  /** `struct Inventory`: the store over one database. */
  class Inventory {
    const db: Database

    /** `Inventory::new(pool)`. */
    constructor (db: Database)
      ensures this.db == db
    {
      this.db := db;
    }

    /** `add_ingredient`: a single upsert stamped with the clock. */
    method AddIngredient(name: string, quantity: U32, unit: string, now: UtcDateTime, backend: Backend)
      returns (r: Result<()>)
      modifies db
      ensures backend == PoolFails ==> r == Err(Connection)
      ensures backend == StatementFails ==> r == Err(Query)
      ensures backend == Healthy ==> r == Ok(())
      ensures db.rows == if r.Ok? then Upsert(old(db.rows), name, Stored(quantity, unit, now))
                         else old(db.rows)
    {
      if backend == PoolFails {
        return Err(Connection);
      }
      if backend == StatementFails {
        return Err(Query);
      }
      db.InsertOrReplace(name, Stored(quantity, unit, now));
      r := Ok(());
    }

    /** `list_ingredients`: a full scan, row by row, stopping at the first row that
        does not convert. */
    method ListIngredients(now: UtcDateTime, backend: Backend) returns (r: Result<seq<Ingredient>>)
      ensures backend == PoolFails ==> r == Err(Connection)
      ensures backend == StatementFails ==> r == Err(Query)
      ensures backend == Healthy ==> (r.Ok? <==> AllQuantitiesFit(db.rows))
      ensures backend == Healthy && r.Err? ==> r.error == Query
      ensures r.Ok? ==> Lists(r.value, db.rows, now)
      ensures backend == Healthy && db.rows == map[] ==> r == Ok([])
    {
      if backend == PoolFails {
        return Err(Connection);
      }
      if backend == StatementFails {
        return Err(Query);
      }
      var scanned := db.SelectAll();
      var ingredients: seq<Ingredient> := [];
      var i := 0;
      while i < |scanned|
        invariant 0 <= i <= |scanned|
        invariant |ingredients| == i
        invariant forall j :: 0 <= j < i ==>
                    ToIngredient(scanned[j].0, scanned[j].1, now) == Ok(ingredients[j])
        invariant Names(ingredients) == ScannedNames(scanned[..i])
      {
        var item := ToIngredient(scanned[i].0, scanned[i].1, now);
        if item.Err? {
          assert scanned[i].0 in db.rows && !(0 <= db.rows[scanned[i].0].quantity < 0x1_0000_0000);
          return Err(item.error);
        }
        NamesSnoc(ingredients, item.value);
        ScannedNamesSnoc(scanned, i);
        ingredients := ingredients + [item.value];
        i := i + 1;
      }
      assert scanned[..i] == scanned;
      ScanLists(scanned, db.rows, ingredients, now);
      r := Ok(ingredients);
    }

    /** `delete_ingredient`: delete by exact name; no row affected is `NotFound(name)`. */
    method DeleteIngredient(name: string, backend: Backend) returns (r: Result<()>)
      modifies db
      ensures r == DeleteResult(old(db.rows), name, backend)
      ensures db.rows == if r.Ok? then Remove(old(db.rows), name) else old(db.rows)
    {
      if backend == PoolFails {
        return Err(Connection);
      }
      if backend == StatementFails {
        return Err(Query);
      }
      var rowsAffected := db.DeleteByName(name);
      if rowsAffected == 0 {
        r := Err(NotFound(name));
      } else {
        r := Ok(());
      }
    }
  }

  // ---------------------------------------------------------------- properties

  /** A row written by `add_ingredient` reads back as the ingredient that was written,
      with the clock reading of the write. */
  lemma StoredRowReadsBack(name: string, quantity: U32, unit: string, written: UtcDateTime, now: UtcDateTime)
    ensures ToIngredient(name, Stored(quantity, unit, written), now) == Ok(Ingredient(name, quantity, unit, written))
  {
    ParseFormat(written);
  }

  /** A stored timestamp that does not decode is replaced by the clock, not reported. */
  lemma GarbageTimestampFallsBack(name: string, quantity: U32, unit: string, now: UtcDateTime)
    ensures ToIngredient(name, Row(quantity, unit, "yesterday"), now) == Ok(Ingredient(name, quantity, unit, now))
  {
    assert !IsDigit("yesterday"[0]);
  }

  /** Add then list: the listing has exactly one entry for the name, carrying the
      written quantity, unit and time; every other entry is the conversion of the
      untouched row; the listing has one more entry only when the name was new. */
  lemma ListAfterAdd(t: Table, name: string, quantity: U32, unit: string, written: UtcDateTime,
                     now: UtcDateTime, items: seq<Ingredient>)
    requires Lists(items, Upsert(t, name, Stored(quantity, unit, written)), now)
    ensures name in Names(items)
    ensures forall i :: 0 <= i < |items| && items[i].name == name ==>
              items[i] == Ingredient(name, quantity, unit, written)
    ensures forall i, j :: 0 <= i < j < |items| ==> items[i].name != items[j].name
    ensures forall i :: 0 <= i < |items| && items[i].name != name ==>
              items[i].name in t && ToIngredient(items[i].name, t[items[i].name], now) == Ok(items[i])
    ensures |items| == if name in t then |t| else |t| + 1
  {
    StoredRowReadsBack(name, quantity, unit, written, now);
  }

  /** Delete then list: the name is gone and every other entry is the conversion of
      its untouched row. */
  lemma ListAfterDelete(t: Table, name: string, now: UtcDateTime, items: seq<Ingredient>)
    requires Lists(items, Remove(t, name), now)
    ensures name !in Names(items)
    ensures forall i :: 0 <= i < |items| ==>
              items[i].name in t && ToIngredient(items[i].name, t[items[i].name], now) == Ok(items[i])
    ensures |items| == if name in t then |t| - 1 else |t|
  {
  }

  /** Two adds of the same name: one row, with the second call's values (last write wins). */
  lemma AddTwiceLastWriteWins(t: Table, name: string, q1: U32, u1: string, c1: UtcDateTime,
                              q2: U32, u2: string, c2: UtcDateTime)
    ensures Upsert(Upsert(t, name, Stored(q1, u1, c1)), name, Stored(q2, u2, c2))
         == Upsert(t, name, Stored(q2, u2, c2))
  {
  }

  /** Two adds with the same name, quantity and unit, from any two tables, leave the
      same record up to its timestamp; the records are equal exactly when the two
      clock readings are. */
  lemma AddConverges(t1: Table, t2: Table, name: string, quantity: U32, unit: string,
                     c1: UtcDateTime, c2: UtcDateTime)
    ensures var r1 := Upsert(t1, name, Stored(quantity, unit, c1))[name];
            var r2 := Upsert(t2, name, Stored(quantity, unit, c2))[name];
            r1.quantity == r2.quantity && r1.unit == r2.unit && (r1 == r2 <==> c1 == c2)
  {
    FormatInjective(c1, c2);
  }

  /** The listing of a one-row table is that row's conversion. */
  lemma ListOfOneRow(name: string, row: Row, now: UtcDateTime, items: seq<Ingredient>)
    requires Lists(items, map[name := row], now)
    ensures ToIngredient(name, row, now) == Ok(items[0]) && items == [items[0]]
  {
    assert |map[name := row]| == 1;
    assert items[0].name in map[name := row];
  }

  /** One step of the scenario below: add flour, then list, on a table holding at most flour. */
  method AddFlourThenList(inventory: Inventory, quantity: U32, written: UtcDateTime, now: UtcDateTime)
    returns (listed: Result<seq<Ingredient>>)
    requires inventory.db.rows.Keys <= {"flour"}
    modifies inventory.db
    ensures inventory.db.rows == map["flour" := Stored(quantity, "kg", written)]
    ensures listed == Ok([Ingredient("flour", quantity, "kg", written)])
  {
    var r := inventory.AddIngredient("flour", quantity, "kg", written, Healthy);
    assert inventory.db.rows == map["flour" := Stored(quantity, "kg", written)];
    listed := inventory.ListIngredients(now, Healthy);
    StoredRowReadsBack("flour", quantity, "kg", written, now);
    ListOfOneRow("flour", Stored(quantity, "kg", written), now, listed.value);
  }

  /** Add, list, add again, list, delete, list, delete again, on an empty table
      with every call healthy. */
  method FlourScenario(c1: UtcDateTime, c2: UtcDateTime, now: UtcDateTime)
    returns (first: Result<seq<Ingredient>>, second: Result<seq<Ingredient>>,
             third: Result<seq<Ingredient>>, again: Result<()>)
    ensures first == Ok([Ingredient("flour", 10, "kg", c1)])
    ensures second == Ok([Ingredient("flour", 5, "kg", c2)])
    ensures third == Ok([])
    ensures again == Err(NotFound("flour"))
  {
    var db := new Database(map[]);
    var inventory := new Inventory(db);
    first := AddFlourThenList(inventory, 10, c1, now);
    second := AddFlourThenList(inventory, 5, c2, now);
    var r := inventory.DeleteIngredient("flour", Healthy);
    assert db.rows == map[];
    third := inventory.ListIngredients(now, Healthy);
    again := inventory.DeleteIngredient("flour", Healthy);
  }
}
