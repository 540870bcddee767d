/** A tenant-owned table (users, projects) and the four statement shapes the
    controllers run on it: `WHERE tenant_id = $t` reads, `SELECT ... WHERE
    id = $i AND tenant_id = $t`, `UPDATE ... WHERE id = $i AND tenant_id = $t`
    and `DELETE ... WHERE id = $i AND tenant_id = $t`. The lemmas state the
    isolation rule: a statement keyed by tenant `t` leaves every other
    tenant's rows as they were, and what it reads or changes depends only
    on tenant `t`'s rows. */
module Table {
  import opened Values
  import opened Lists

  /** One row: its key, its owning tenant, its timestamps and the columns
      particular to the table. */
  datatype Row<D> = Row(id: string, tenantId: string, createdAt: int, updatedAt: int, data: D)

  /** The `WHERE id = $i AND tenant_id = $t` predicate. */
  predicate Matches<D>(row: Row<D>, id: string, t: string) {
    row.id == id && row.tenantId == t
  }

  /** `WHERE tenant_id = $t`, in table order. */
  function Scoped<D(==,!new)>(rows: seq<Row<D>>, t: string): (r: seq<Row<D>>)
    ensures forall row :: row in r <==> row in rows && row.tenantId == t
    ensures forall row: Row<D> :: row.tenantId == t ==> multiset(r)[row] == multiset(rows)[row]
    ensures |r| <= |rows|
  {
    Filter(rows, (row: Row<D>) => row.tenantId == t)
  }

  /** `SELECT COUNT(*) ... WHERE tenant_id = $t` */
  function Count<D(==,!new)>(rows: seq<Row<D>>, t: string): nat {
    |Scoped(rows, t)|
  }

  /** `SELECT * ... WHERE id = $i AND tenant_id = $t`, first row: a row of
      tenant `t` with that id when there is one. */
  function FindWhere<D>(rows: seq<Row<D>>, id: string, t: string): (r: Option<Row<D>>)
    ensures r.Some? <==> exists k :: 0 <= k < |rows| && Matches(rows[k], id, t)
    ensures r.Some? ==> r.value in rows && Matches(r.value, id, t)
  {
    if rows == [] then None
    else if Matches(rows[0], id, t) then Some(rows[0])
    else
      var r := FindWhere(rows[1..], id, t);
      assert forall k :: 1 <= k < |rows| ==> rows[k] == rows[1..][k - 1];
      r
  }

  /** The new version of one row under `SET <patch>, updated_at = NOW()`. */
  function Patched<D>(row: Row<D>, patch: D -> D, now: int): Row<D> {
    row.(data := patch(row.data), updatedAt := now)
  }

  /** `UPDATE ... SET <patch>, updated_at = NOW() WHERE id = $i AND
      tenant_id = $t`: the rows selected by both keys are patched in place,
      every other row is untouched, and no row is added or removed. */
  function UpdateWhere<D>(rows: seq<Row<D>>, id: string, t: string, patch: D -> D, now: int): (r: seq<Row<D>>)
    ensures |r| == |rows|
    ensures forall k :: 0 <= k < |rows| && Matches(rows[k], id, t) ==> r[k] == Patched(rows[k], patch, now)
    ensures forall k :: 0 <= k < |rows| && !Matches(rows[k], id, t) ==> r[k] == rows[k]
  {
    if rows == [] then []
    else
      var head := if Matches(rows[0], id, t) then Patched(rows[0], patch, now) else rows[0];
      [head] + UpdateWhere(rows[1..], id, t, patch, now)
  }

  /** `DELETE ... WHERE id = $i AND tenant_id = $t` */
  function DeleteWhere<D(==,!new)>(rows: seq<Row<D>>, id: string, t: string): (r: seq<Row<D>>)
    ensures forall row :: row in r <==> row in rows && !Matches(row, id, t)
    ensures forall row: Row<D> :: !Matches(row, id, t) ==> multiset(r)[row] == multiset(rows)[row]
  {
    Filter(rows, (row: Row<D>) => !Matches(row, id, t))
  }

  /** Deleting removes exactly the matching rows and keeps the order of the
      others; it removes something iff some row matches. */
  lemma DeleteWhereShape<D(!new)>(rows: seq<Row<D>>, id: string, t: string)
    ensures Subseq(DeleteWhere(rows, id, t), rows)
    ensures |DeleteWhere(rows, id, t)| < |rows| <==> exists k :: 0 <= k < |rows| && Matches(rows[k], id, t)
  {
    FilterIsSubseq(rows, (row: Row<D>) => !Matches(row, id, t));
    DeleteWhereCount(rows, id, t);
  }

  lemma {:induction false} DeleteWhereCount<D(!new)>(rows: seq<Row<D>>, id: string, t: string)
    ensures |DeleteWhere(rows, id, t)| <= |rows|
    ensures |DeleteWhere(rows, id, t)| < |rows| <==> exists k :: 0 <= k < |rows| && Matches(rows[k], id, t)
  {
    if rows != [] {
      DeleteWhereCount(rows[1..], id, t);
      assert forall k :: 1 <= k < |rows| ==> rows[k] == rows[1..][k - 1];
      assert DeleteWhere(rows, id, t) ==
        (if Matches(rows[0], id, t) then [] else [rows[0]]) + DeleteWhere(rows[1..], id, t);
    }
  }

  // ---------------------------------------------------------------------
  // Isolation: statements keyed by tenant t leave other tenants' rows alone

  /** Appending a row of one tenant does not change another tenant's rows
      and adds exactly that row to its own. */
  lemma ScopedAppend<D(!new)>(rows: seq<Row<D>>, row: Row<D>, t: string)
    ensures Scoped(rows + [row], t) == if row.tenantId == t then Scoped(rows, t) + [row] else Scoped(rows, t)
  {
    FilterAppend(rows, [row], (r: Row<D>) => r.tenantId == t);
    assert [row][1..] == [];
  }

  lemma {:induction false} UpdateWhereIsolated<D(!new)>(rows: seq<Row<D>>, id: string, t: string, patch: D -> D, now: int, other: string)
    requires other != t
    ensures Scoped(UpdateWhere(rows, id, t, patch, now), other) == Scoped(rows, other)
  {
    if rows != [] {
      UpdateWhereIsolated(rows[1..], id, t, patch, now, other);
      assert UpdateWhere(rows, id, t, patch, now)[1..] == UpdateWhere(rows[1..], id, t, patch, now);
    }
  }

  lemma {:induction false} DeleteWhereIsolated<D(!new)>(rows: seq<Row<D>>, id: string, t: string, other: string)
    requires other != t
    ensures Scoped(DeleteWhere(rows, id, t), other) == Scoped(rows, other)
  {
    if rows != [] {
      DeleteWhereIsolated(rows[1..], id, t, other);
      assert rows == [rows[0]] + rows[1..];
      assert DeleteWhere(rows, id, t) ==
        (if Matches(rows[0], id, t) then [] else [rows[0]]) + DeleteWhere(rows[1..], id, t);
      FilterAppend(if Matches(rows[0], id, t) then [] else [rows[0]], DeleteWhere(rows[1..], id, t),
        (row: Row<D>) => row.tenantId == other);
    }
  }

  // ---------------------------------------------------------------------
  // Non-interference: what a statement keyed by t reads and writes is a
  // function of tenant t's rows only

  /** Looking up by id under tenant `t` sees only `t`'s rows: a row of
      another tenant with that id is the same as no row. */
  lemma {:induction false} FindWhereLocal<D(!new)>(rows: seq<Row<D>>, id: string, t: string)
    ensures FindWhere(rows, id, t) == FindWhere(Scoped(rows, t), id, t)
  {
    if rows != [] {
      FindWhereLocal(rows[1..], id, t);
      assert rows == [rows[0]] + rows[1..];
      FilterAppend([rows[0]], rows[1..], (row: Row<D>) => row.tenantId == t);
      if rows[0].tenantId == t {
        assert Scoped(rows, t) == [rows[0]] + Scoped(rows[1..], t);
      } else {
        assert Scoped(rows, t) == Scoped(rows[1..], t);
      }
    }
  }

  lemma {:induction false} UpdateWhereLocal<D(!new)>(rows: seq<Row<D>>, id: string, t: string, patch: D -> D, now: int)
    ensures Scoped(UpdateWhere(rows, id, t, patch, now), t) == UpdateWhere(Scoped(rows, t), id, t, patch, now)
  {
    if rows != [] {
      var h, tail := rows[0], rows[1..];
      assert rows == [h] + tail;
      UpdateWhereLocal(tail, id, t, patch, now);
      var h' := if Matches(h, id, t) then Patched(h, patch, now) else h;
      UpdateWhereCons(h, tail, id, t, patch, now);
      FilterCons(h', UpdateWhere(tail, id, t, patch, now), (row: Row<D>) => row.tenantId == t);
      FilterCons(h, tail, (row: Row<D>) => row.tenantId == t);
      if h.tenantId == t {
        UpdateWhereCons(h, Scoped(tail, t), id, t, patch, now);
      }
    }
  }

  /** Updating a list with a known first row. */
  lemma UpdateWhereCons<D>(h: Row<D>, tail: seq<Row<D>>, id: string, t: string, patch: D -> D, now: int)
    ensures UpdateWhere([h] + tail, id, t, patch, now)
         == [if Matches(h, id, t) then Patched(h, patch, now) else h] + UpdateWhere(tail, id, t, patch, now)
  {
    assert ([h] + tail)[0] == h;
    assert ([h] + tail)[1..] == tail;
  }

  lemma {:induction false} DeleteWhereLocal<D(!new)>(rows: seq<Row<D>>, id: string, t: string)
    ensures Scoped(DeleteWhere(rows, id, t), t) == DeleteWhere(Scoped(rows, t), id, t)
  {
    if rows != [] {
      var h, tail := rows[0], rows[1..];
      assert rows == [h] + tail;
      DeleteWhereLocal(tail, id, t);
      var scoped := (row: Row<D>) => row.tenantId == t;
      var kept := (row: Row<D>) => !Matches(row, id, t);
      FilterCons(h, tail, kept);
      FilterCons(h, tail, scoped);
      if !Matches(h, id, t) {
        FilterCons(h, Filter(tail, kept), scoped);
      }
      if h.tenantId == t {
        FilterCons(h, Filter(tail, scoped), kept);
      }
    }
  }

  /** Whether a keyed statement matches anything (its `rowCount`) is decided
      by tenant `t`'s rows alone. */
  lemma MatchedLocal<D(!new)>(rows: seq<Row<D>>, id: string, t: string)
    ensures (exists k :: 0 <= k < |rows| && Matches(rows[k], id, t))
        <==> (exists k :: 0 <= k < |Scoped(rows, t)| && Matches(Scoped(rows, t)[k], id, t))
  {
    FindWhereLocal(rows, id, t);
  }

  // ---------------------------------------------------------------------
  // What RETURNING and rowCount report

  /** The first row an UPDATE returns is the patched version of the first
      row that matched; when none matched, the table is unchanged. */
  lemma {:induction false} UpdateWhereFind<D>(rows: seq<Row<D>>, id: string, t: string, patch: D -> D, now: int)
    ensures FindWhere(UpdateWhere(rows, id, t, patch, now), id, t)
         == if FindWhere(rows, id, t).Some? then Some(Patched(FindWhere(rows, id, t).value, patch, now)) else None
    ensures FindWhere(rows, id, t).None? ==> UpdateWhere(rows, id, t, patch, now) == rows
  {
    if rows != [] {
      UpdateWhereFind(rows[1..], id, t, patch, now);
      assert UpdateWhere(rows, id, t, patch, now)[1..] == UpdateWhere(rows[1..], id, t, patch, now);
    }
  }

  /** A DELETE that matches nothing leaves the table as it was. */
  lemma DeleteWhereNoMatch<D(!new)>(rows: seq<Row<D>>, id: string, t: string)
    requires FindWhere(rows, id, t).None?
    ensures DeleteWhere(rows, id, t) == rows
  {
    FilterAllKept(rows, (row: Row<D>) => !Matches(row, id, t));
  }
}
