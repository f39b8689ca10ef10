/**
  The three handlers of `crates/api/src/main.rs` under `/api/ingredients`, with
  the HTTP response reduced to its status (and, for the listing, its body).
*/
module Api {
  import opened Wrappers
  import opened Timestamp
  import Inventory

  /** `HttpResponse::Ok().finish()`, `HttpResponse::Ok().json(..)`, `HttpResponse::InternalServerError().finish()`. */
  datatype Response = Ok | OkJson(ingredients: seq<Inventory.Ingredient>) | InternalServerError

  /** `GET /api/ingredients`: the listing as JSON, or 500 for any store error. */
  method GetIngredients(inventory: Inventory.Inventory, now: UtcDateTime, backend: Inventory.Backend)
    returns (resp: Response)
    ensures resp.OkJson? || resp == InternalServerError
    ensures resp.OkJson? <==> backend == Inventory.Healthy && Inventory.AllQuantitiesFit(inventory.db.rows)
    ensures resp.OkJson? ==> Inventory.Lists(resp.ingredients, inventory.db.rows, now)
  {
    var r := inventory.ListIngredients(now, backend);
    match r
    case Ok(ingredients) => resp := OkJson(ingredients);
    case Err(_) => resp := InternalServerError;
  }

  /** `POST /api/ingredients`: forwards name, quantity and unit unchanged; 500 for any store error. */
  method AddIngredient(inventory: Inventory.Inventory, name: string, quantity: Inventory.U32, unit: string,
                       now: UtcDateTime, backend: Inventory.Backend)
    returns (resp: Response)
    modifies inventory.db
    ensures resp == Ok || resp == InternalServerError
    ensures resp == Ok <==> backend == Inventory.Healthy
    ensures inventory.db.rows == if resp == Ok
                                 then Inventory.Upsert(old(inventory.db.rows), name, Inventory.Stored(quantity, unit, now))
                                 else old(inventory.db.rows)
  {
    var r := inventory.AddIngredient(name, quantity, unit, now, backend);
    match r
    case Ok(_) => resp := Ok;
    case Err(_) => resp := InternalServerError;
  }

  /** Where a run of deletes stopped (the index of the failing call, if any) and the table it left. */
  datatype Bulk = Bulk(stoppedAt: Option<nat>, rows: Inventory.Table)

  /** The deletes of `names`, left to right, call `i` seeing `backend(i)`; the first
      failing call stops the run and nothing is undone. */
  function BulkDelete(t: Inventory.Table, names: seq<string>, backend: nat -> Inventory.Backend): (b: Bulk)
    ensures b.stoppedAt.Some? ==> b.stoppedAt.value < |names|
    ensures b.rows.Keys <= t.Keys
    decreases |names|
  {
    if names == [] then Bulk(None, t)
    else
      var before := BulkDelete(t, names[..|names| - 1], backend);
      if before.stoppedAt.Some? then before
      else
        var k := |names| - 1;
        if Inventory.DeleteResult(before.rows, names[k], backend(k)).Ok?
        then Bulk(None, Inventory.Remove(before.rows, names[k]))
        else Bulk(Some(k), before.rows)
  }

  /** The set of names in a list. */
  function Elements(names: seq<string>): set<string> {
    if names == [] then {} else Elements(names[..|names| - 1]) + {names[|names| - 1]}
  }

  lemma {:induction false} ElementsAt(names: seq<string>, x: string)
    ensures x in Elements(names) <==> x in names
  {
    if names != [] {
      var init := names[..|names| - 1];
      ElementsAt(init, x);
      assert names == init + [names[|names| - 1]];
    }
  }

  /** A bulk delete only removes rows: what is left is untouched, and a row whose
      name is not listed is left. */
  lemma {:induction false} BulkDeleteOnlyRemoves(t: Inventory.Table, names: seq<string>, backend: nat -> Inventory.Backend)
    ensures forall k :: k in BulkDelete(t, names, backend).rows ==> BulkDelete(t, names, backend).rows[k] == t[k]
    ensures forall k :: k in t && k !in Elements(names) ==> k in BulkDelete(t, names, backend).rows
    decreases |names|
  {
    if names != [] {
      BulkDeleteOnlyRemoves(t, names[..|names| - 1], backend);
    }
  }

  /** Call `k` of a bulk delete on `t` succeeds if all before it did: its connection
      and statement work, its name was in the table and appears nowhere earlier. */
  ghost predicate Deletable(t: Inventory.Table, names: seq<string>, backend: nat -> Inventory.Backend, k: nat)
    requires k < |names|
  {
    backend(k) == Inventory.Healthy && names[k] in t && names[k] !in names[..k]
  }

  lemma DeletableInPrefix(t: Inventory.Table, names: seq<string>, backend: nat -> Inventory.Backend, n: nat)
    requires n <= |names|
    ensures forall j :: 0 <= j < n ==> (Deletable(t, names, backend, j) <==> Deletable(t, names[..n], backend, j))
  {
    forall j | 0 <= j < n
      ensures Deletable(t, names, backend, j) <==> Deletable(t, names[..n], backend, j)
    {
      assert names[..n][..j] == names[..j];
    }
  }

  /** The last call of a run whose earlier calls all succeeded. */
  lemma LastCall(t: Inventory.Table, names: seq<string>, backend: nat -> Inventory.Backend, rows: Inventory.Table)
    requires names != [] && rows == t - Elements(names[..|names| - 1])
    ensures var n := |names| - 1;
            (Inventory.DeleteResult(rows, names[n], backend(n)).Ok? <==> Deletable(t, names, backend, n))
            && Inventory.Remove(rows, names[n]) == t - Elements(names)
  {
    var n := |names| - 1;
    ElementsAt(names[..n], names[n]);
  }

  /** A run that stopped stays stopped, whatever names follow. */
  lemma {:induction false} StoppedStaysStopped(t: Inventory.Table, names: seq<string>,
                                               backend: nat -> Inventory.Backend, i: nat)
    requires i <= |names| && BulkDelete(t, names[..i], backend).stoppedAt.Some?
    ensures BulkDelete(t, names, backend) == BulkDelete(t, names[..i], backend)
  {
    if i < |names| {
      var init := names[..|names| - 1];
      assert init[..i] == names[..i];
      StoppedStaysStopped(t, init, backend, i);
    } else {
      assert names[..i] == names;
    }
  }

  /** Every call of the run is deletable. */
  ghost predicate AllDeletable(t: Inventory.Table, names: seq<string>, backend: nat -> Inventory.Backend) {
    forall k :: 0 <= k < |names| ==> Deletable(t, names, backend, k)
  }

  lemma AllDeletableSnoc(t: Inventory.Table, names: seq<string>, backend: nat -> Inventory.Backend)
    requires names != []
    ensures AllDeletable(t, names, backend) <==>
            AllDeletable(t, names[..|names| - 1], backend) && Deletable(t, names, backend, |names| - 1)
  {
    DeletableInPrefix(t, names, backend, |names| - 1);
  }

  /** A bulk delete succeeds exactly when every call is deletable, and then every
      listed name is gone and nothing else changed. */
  lemma {:induction false} BulkDeleteSucceeds(t: Inventory.Table, names: seq<string>, backend: nat -> Inventory.Backend)
    ensures BulkDelete(t, names, backend).stoppedAt == None <==> AllDeletable(t, names, backend)
    ensures BulkDelete(t, names, backend).stoppedAt == None ==> BulkDelete(t, names, backend).rows == t - Elements(names)
  {
    if names != [] {
      var n := |names| - 1;
      var init := names[..n];
      BulkDeleteSucceeds(t, init, backend);
      AllDeletableSnoc(t, names, backend);
      var before := BulkDelete(t, init, backend);
      if before.stoppedAt == None {
        LastCall(t, names, backend, before.rows);
      }
    }
  }

  /** A bulk delete stops at `k` exactly when `k` is the first call that is not
      deletable; the names before `k` are then gone and everything else is as it was. */
  lemma {:induction false} BulkDeleteStops(t: Inventory.Table, names: seq<string>,
                                           backend: nat -> Inventory.Backend, k: nat)
    requires BulkDelete(t, names, backend).stoppedAt == Some(k)
    ensures k < |names|
    ensures !Deletable(t, names, backend, k)
    ensures forall j :: 0 <= j < k ==> Deletable(t, names, backend, j)
    ensures BulkDelete(t, names, backend).rows == t - Elements(names[..k])
  {
    var n := |names| - 1;
    var init := names[..n];
    var before := BulkDelete(t, init, backend);
    DeletableInPrefix(t, names, backend, n);
    if before.stoppedAt == None {
      assert k == n;
      BulkDeleteSucceeds(t, init, backend);
      LastCall(t, names, backend, before.rows);
    } else {
      assert before.stoppedAt == Some(k);
      BulkDeleteStops(t, init, backend, k);
      assert init[..k] == names[..k];
    }
  }

  /** All names present, pairwise distinct and every call healthy: the request
      succeeds and exactly those rows are removed. */
  lemma DeleteDistinctPresent(t: Inventory.Table, names: seq<string>, backend: nat -> Inventory.Backend)
    requires forall k :: 0 <= k < |names| ==> backend(k) == Inventory.Healthy && names[k] in t
    requires forall i, j :: 0 <= i < j < |names| ==> names[i] != names[j]
    ensures BulkDelete(t, names, backend) == Bulk(None, t - Elements(names))
  {
    BulkDeleteSucceeds(t, names, backend);
    forall k | 0 <= k < |names|
      ensures Deletable(t, names, backend, k)
    {
      assert forall j :: 0 <= j < k ==> names[..k][j] == names[j];
    }
  }

  /** A name given twice: a run that reaches the second occurrence stops there, with
      the first occurrence already deleted; a run never gets past it. */
  lemma RepeatedNameStops(t: Inventory.Table, names: seq<string>, backend: nat -> Inventory.Backend, i: nat, j: nat)
    requires i < j < |names| && names[i] == names[j]
    ensures var b := BulkDelete(t, names, backend);
            b.stoppedAt.Some? && b.stoppedAt.value <= j
    ensures (forall k :: 0 <= k < j ==> Deletable(t, names, backend, k)) ==>
            var b := BulkDelete(t, names, backend);
            b.stoppedAt == Some(j) && names[i] in t && names[i] !in b.rows
  {
    BulkDeleteSucceeds(t, names, backend);
    assert names[..j][i] == names[j];
    assert !Deletable(t, names, backend, j);
    var b := BulkDelete(t, names, backend);
    if b.stoppedAt.Some? {
      BulkDeleteStops(t, names, backend, b.stoppedAt.value);
    }
    if forall k :: 0 <= k < j ==> Deletable(t, names, backend, k) {
      assert Deletable(t, names, backend, i);
      ElementsAt(names[..j], names[j]);
    }
  }

  /** `DELETE /api/ingredients`: deletes each name in order and answers 500 at the
      first failure, leaving earlier deletions in place. */
  method DeleteIngredients(inventory: Inventory.Inventory, names: seq<string>, backend: nat -> Inventory.Backend)
    returns (resp: Response)
    modifies inventory.db
    ensures resp == Ok || resp == InternalServerError
    ensures var b := BulkDelete(old(inventory.db.rows), names, backend);
            inventory.db.rows == b.rows && (resp == Ok <==> b.stoppedAt == None)
    ensures resp == Ok <==> AllDeletable(old(inventory.db.rows), names, backend)
    ensures resp == Ok ==> inventory.db.rows == old(inventory.db.rows) - Elements(names)
    ensures names == [] ==> resp == Ok && inventory.db.rows == old(inventory.db.rows)
  {
    ghost var t0 := inventory.db.rows;
    var i := 0;
    while i < |names|
      invariant 0 <= i <= |names|
      invariant BulkDelete(old(inventory.db.rows), names[..i], backend) == Bulk(None, inventory.db.rows)
    {
      var r := inventory.DeleteIngredient(names[i], backend(i));
      assert names[..i + 1][..i] == names[..i];
      if r.Err? {
        StoppedStaysStopped(t0, names, backend, i + 1);
        BulkDeleteSucceeds(t0, names, backend);
        return InternalServerError;
      }
      i := i + 1;
    }
    assert names[..i] == names;
    BulkDeleteSucceeds(t0, names, backend);
    resp := Ok;
  }
}
