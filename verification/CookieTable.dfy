/** The tables that cookie continuity edits in place: one SQLite cookie table and
  * one list of tombstones. Rows are visited in an arbitrary order, as a query
  * without ORDER BY returns them, so every contract holds for every order.
  */
module CookieTable {
  import opened Options
  import opened CookieRows

  datatype Failure = SchemasDiffer | IdentitySchemaDiffers

  class Table {
    const schema: Schema
    var rows: Jar

    constructor (schema: Schema, rows: Jar)
      ensures this.schema == schema && this.rows == rows
    {
      this.schema := schema;
      this.rows := rows;
    }

    ghost function View(): JarFile
      reads this
    {
      JarFile(schema, rows)
    }

    method PruneExpired(now: int)
      modifies this`rows
      ensures rows == Prune(schema, old(rows), now)
      ensures forall id :: id in rows ==> id in old(rows) && rows[id] == old(rows)[id]
      ensures "expires_utc" in schema.columns && "has_expires" in schema.columns ==>
        forall id :: id in rows <==>
          id in old(rows) && (old(rows)[id].hasExpires == 0 || now < old(rows)[id].expires)
      ensures "expires_utc" in schema.columns && "has_expires" !in schema.columns ==>
        forall id :: id in rows <==>
          id in old(rows) && (old(rows)[id].expires <= 0 || now < old(rows)[id].expires)
      ensures "expires_utc" !in schema.columns ==> rows == old(rows)
    {
      var doomed := set id | id in rows && Expired(schema, rows[id], now);
      rows := rows - doomed;
    }

    /** Fold `source` into this table; a missing source only prunes. The table is
      * unchanged when the schemas differ.
      */
    method MergeFrom(source: Table?, now: int) returns (outcome: Result<(), Failure>)
      requires source != this
      modifies this`rows
      ensures outcome.Err? <==> source != null && source.schema != schema
      ensures outcome.Err? ==> outcome == Err(SchemasDiffer) && rows == old(rows)
      ensures outcome.Ok? ==>
        rows == Prune(schema, if source == null then old(rows) else Newest(old(rows), source.rows), now)
    {
      if source == null {
        PruneExpired(now);
        return Ok(());
      }
      if source.schema != schema {
        return Err(SchemasDiffer);
      }
      var unread := source.rows.Keys;
      ghost var before := rows;
      while unread != {}
        invariant unread <= source.rows.Keys
        invariant MergedExcept(before, source.rows, rows, unread)
      {
        var id :| id in unread;
        var row := source.rows[id];
        var newer := id in rows && rows[id].updated >= row.updated;
        MergeOneMore(before, source.rows, rows, unread, id);
        if !newer {
          rows := rows - {id};
          rows := rows[id := row];
        }
        unread := unread - {id};
      }
      MergedEverywhere(before, source.rows, rows);
      PruneExpired(now);
      return Ok(());
    }

    /** Delete every row a tombstone covers, then prune. */
    method ApplyDeleted(deleted: DeletedCookies, now: int)
      modifies this`rows
      ensures rows == Prune(schema, Withhold(old(rows), deleted.View()), now)
    {
      ghost var before := rows;
      for i := 0 to |deleted.rows|
        invariant rows == Withhold(before, ThroughOf(deleted.rows[..i]))
      {
        var entry := deleted.rows[i];
        WithholdOneMore(before, deleted.rows, i);
        if entry.key in rows && rows[entry.key].updated <= entry.through {
          rows := rows - {entry.key};
        }
      }
      assert deleted.rows[..|deleted.rows|] == deleted.rows;
      PruneExpired(now);
    }
  }

  /** Every identity outside `unread` has its winner, the others what they had. */
  ghost predicate MergedExcept(before: Jar, source: Jar, rows: Jar, unread: set<Identity>) {
    forall id :: At(rows, id) == if id in unread then At(before, id) else Pick(At(before, id), At(source, id))
  }

  lemma MergeOneMore(before: Jar, source: Jar, rows: Jar, unread: set<Identity>, id: Identity)
    requires MergedExcept(before, source, rows, unread) && id in unread && id in source
    ensures var keeps := id in rows && rows[id].updated >= source[id].updated;
      MergedExcept(before, source, if keeps then rows else (rows - {id})[id := source[id]], unread - {id})
  {
    var keeps := id in rows && rows[id].updated >= source[id].updated;
    var next := if keeps then rows else (rows - {id})[id := source[id]];
    assert At(rows, id) == At(before, id);
    forall other
      ensures At(next, other) ==
        if other in unread - {id} then At(before, other) else Pick(At(before, other), At(source, other))
    {
      assert other != id ==> At(next, other) == At(rows, other);
    }
  }

  lemma MergedEverywhere(before: Jar, source: Jar, merged: Jar)
    requires forall id :: At(merged, id) == Pick(At(before, id), At(source, id))
    ensures merged == Newest(before, source)
  {
    forall id
      ensures At(merged, id) == At(Newest(before, source), id)
    {
      NewestAt(before, source, id);
    }
    SameEverywhere(merged, Newest(before, source));
  }

  datatype DeletedCookie = DeletedCookie(key: Identity, through: int)

  /** What a tombstone list withholds: per identity, its largest `through`. */
  function ThroughOf(entries: seq<DeletedCookie>): Tombstones {
    if entries == [] then map[]
    else Raise(ThroughOf(entries[..|entries| - 1]), entries[|entries| - 1].key, entries[|entries| - 1].through)
  }

  ghost predicate OneEntryPerIdentity(entries: seq<DeletedCookie>) {
    forall i, j :: 0 <= i < j < |entries| ==> entries[i].key != entries[j].key
  }

  /** `later` lists the identities of `earlier` in the same places, each with a
    * `through` at least as large, and may list more after them.
    */
  ghost predicate Extends(later: seq<DeletedCookie>, earlier: seq<DeletedCookie>) {
    && |earlier| <= |later|
    && forall i :: 0 <= i < |earlier| ==>
         later[i].key == earlier[i].key && earlier[i].through <= later[i].through
  }

  ghost predicate Grows(later: seq<DeletedCookie>, earlier: seq<DeletedCookie>) {
    Extends(later, earlier) && (OneEntryPerIdentity(earlier) ==> OneEntryPerIdentity(later))
  }

  lemma {:induction false} ListedIsThrough(entries: seq<DeletedCookie>, id: Identity)
    ensures id in ThroughOf(entries) <==> exists i :: 0 <= i < |entries| && entries[i].key == id
    ensures forall i :: 0 <= i < |entries| && entries[i].key == id ==> entries[i].through <= ThroughOf(entries)[id]
    ensures id in ThroughOf(entries) ==>
      exists i :: 0 <= i < |entries| && entries[i].key == id && entries[i].through == ThroughOf(entries)[id]
  {
    if entries != [] {
      var n := |entries| - 1;
      ListedIsThrough(entries[..n], id);
      if id in ThroughOf(entries[..n]) {
        var i :| 0 <= i < n && entries[..n][i].key == id && entries[..n][i].through == ThroughOf(entries[..n])[id];
        assert entries[i].key == id;
      }
      forall i | 0 <= i < |entries| && entries[i].key == id
        ensures id in ThroughOf(entries) && entries[i].through <= ThroughOf(entries)[id]
      {
        if i < n {
          assert entries[..n][i] == entries[i];
        }
      }
    }
  }

  lemma WithholdOneMore(before: Jar, entries: seq<DeletedCookie>, i: nat)
    requires i < |entries|
    ensures var rows, entry := Withhold(before, ThroughOf(entries[..i])), entries[i];
      Withhold(before, ThroughOf(entries[..i + 1])) ==
      if entry.key in rows && rows[entry.key].updated <= entry.through then rows - {entry.key} else rows
  {
    assert entries[..i + 1][..i] == entries[..i];
  }

  class DeletedCookies {
    const columns: seq<string>
    var rows: seq<DeletedCookie>

    constructor (columns: seq<string>, rows: seq<DeletedCookie>)
      ensures this.columns == columns && this.rows == rows
    {
      this.columns := columns;
      this.rows := rows;
    }

    ghost function View(): Tombstones
      reads this
    {
      ThroughOf(rows)
    }

    /** Raise the first entry of `key`, or append one. */
    method Add(key: Identity, through: int)
      modifies this`rows
      ensures View() == Raise(old(View()), key, through)
      ensures Grows(rows, old(rows))
    {
      var i := 0;
      while i < |rows| && rows[i].key != key
        invariant 0 <= i <= |rows|
        invariant forall j :: 0 <= j < i ==> rows[j].key != key
      {
        i := i + 1;
      }
      if i < |rows| {
        RaisingAnEntry(rows, i, through);
        rows := rows[i := DeletedCookie(key, if rows[i].through < through then through else rows[i].through)];
      } else {
        ListedIsThrough(rows, key);
        assert (rows + [DeletedCookie(key, through)])[..|rows|] == rows;
        rows := rows + [DeletedCookie(key, through)];
      }
    }
  }

  lemma RaisesCommute(through: Tombstones, a: Identity, s: int, b: Identity, t: int)
    ensures Raise(Raise(through, a, s), b, t) == Raise(Raise(through, b, t), a, s)
  {
  }

  lemma RaisesAccumulate(through: Tombstones, a: Identity, s: int, t: int)
    ensures Raise(Raise(through, a, s), a, t) == Raise(through, a, if s < t then t else s)
  {
  }

  lemma {:induction false} RaisingAnEntry(entries: seq<DeletedCookie>, i: nat, time: int)
    requires i < |entries|
    ensures var larger := if entries[i].through < time then time else entries[i].through;
      ThroughOf(entries[i := DeletedCookie(entries[i].key, larger)]) == Raise(ThroughOf(entries), entries[i].key, time)
  {
    var n := |entries| - 1;
    var key := entries[i].key;
    var larger := if entries[i].through < time then time else entries[i].through;
    var raised := entries[i := DeletedCookie(key, larger)];
    var last := entries[n];
    if i < n {
      RaisingAnEntry(entries[..n], i, time);
      assert raised[..n] == entries[..n][i := DeletedCookie(key, larger)];
      assert ThroughOf(raised) == Raise(ThroughOf(raised[..n]), last.key, last.through);
      RaisesCommute(ThroughOf(entries[..n]), key, time, last.key, last.through);
    } else {
      assert raised[..n] == entries[..n];
      assert ThroughOf(raised) == Raise(ThroughOf(entries[..n]), key, larger);
      RaisesAccumulate(ThroughOf(entries[..n]), key, last.through, time);
    }
  }

  /** The tombstones after a session: the saved ones, and every baseline row the
    * session no longer has. The saved list itself is left alone.
    */
  method RecordDeletions(current: Table, baseline: Table?, saved: DeletedCookies?)
    returns (outcome: Result<DeletedCookies, Failure>)
    ensures outcome.Err? <==>
      || (saved != null && saved.columns != current.schema.keys)
      || (baseline != null && baseline.schema.keys != current.schema.keys)
    ensures outcome.Err? ==> outcome.error == IdentitySchemaDiffers
    ensures outcome.Ok? ==>
      && fresh(outcome.value)
      && outcome.value.columns == current.schema.keys
      && outcome.value.View() == Record(if saved == null then map[] else saved.View(), current.rows,
                                        if baseline == null then map[] else baseline.rows)
      && (saved != null ==> Extends(outcome.value.rows, saved.rows))
      && (saved == null || OneEntryPerIdentity(saved.rows) ==> OneEntryPerIdentity(outcome.value.rows))
  {
    if saved != null && saved.columns != current.schema.keys {
      return Err(IdentitySchemaDiffers);
    }
    if baseline != null && baseline.schema.keys != current.schema.keys {
      return Err(IdentitySchemaDiffers);
    }
    var deleted := new DeletedCookies(current.schema.keys, if saved == null then [] else saved.rows);
    if baseline != null {
      AddAbsent(deleted, current, baseline);
    } else {
      RecordNothing(deleted.View(), current.rows);
    }
    return Ok(deleted);
  }

  lemma GrowsOn(a: seq<DeletedCookie>, b: seq<DeletedCookie>, c: seq<DeletedCookie>)
    requires Grows(b, a) && Grows(c, b)
    ensures Grows(c, a)
  {
    forall i | 0 <= i < |a|
      ensures c[i].key == a[i].key && a[i].through <= c[i].through
    {
      assert b[i].key == a[i].key;
    }
  }

  method AddAbsent(deleted: DeletedCookies, current: Table, baseline: Table)
    modifies deleted`rows
    ensures deleted.View() == Record(old(deleted.View()), current.rows, baseline.rows)
    ensures Grows(deleted.rows, old(deleted.rows))
  {
    ghost var through := deleted.View();
    var unread := baseline.rows.Keys;
    ghost var seen: Jar := map[];
    RecordNothing(through, current.rows);
    while unread != {}
      invariant unread <= baseline.rows.Keys
      invariant seen.Keys == baseline.rows.Keys - unread
      invariant forall id :: id in seen ==> seen[id] == baseline.rows[id]
      invariant deleted.View() == Record(through, current.rows, seen)
      invariant Grows(deleted.rows, old(deleted.rows))
    {
      var id :| id in unread;
      var row := baseline.rows[id];
      RecordOneMore(through, current.rows, seen, row);
      if id !in current.rows {
        ghost var earlier := deleted.rows;
        deleted.Add(id, row.updated);
        GrowsOn(old(deleted.rows), earlier, deleted.rows);
      }
      unread := unread - {id};
      seen := seen[id := row];
    }
    assert seen == baseline.rows;
  }

  lemma RecordNothing(through: Tombstones, session: Jar)
    ensures Record(through, session, map[]) == through
  {
  }

  function TimeAt(through: Tombstones, id: Identity): Option<int> {
    if id in through then Some(through[id]) else None
  }

  function Later(a: Option<int>, b: Option<int>): Option<int> {
    if a.Some? && (b.Some? ==> b.value <= a.value) then a else b
  }

  lemma RecordAt(through: Tombstones, session: Jar, baseline: Jar, id: Identity)
    ensures TimeAt(Record(through, session, baseline), id) ==
      Later(TimeAt(through, id),
            if id in baseline && id !in session then Some(baseline[id].updated) else None)
  {
  }

  lemma SameTimes(left: Tombstones, right: Tombstones)
    requires forall id :: TimeAt(left, id) == TimeAt(right, id)
    ensures left == right
  {
    assert forall id :: (id in left <==> TimeAt(left, id).Some?) && (id in right <==> TimeAt(right, id).Some?);
    forall id | id in left
      ensures left[id] == right[id]
    {
      assert TimeAt(left, id) == TimeAt(right, id);
    }
  }

  lemma RecordOneMore(through: Tombstones, session: Jar, seen: Jar, row: Row)
    requires row.identity !in seen
    ensures Record(through, session, seen[row.identity := row]) ==
      if row.identity in session then Record(through, session, seen)
      else Raise(Record(through, session, seen), row.identity, row.updated)
  {
    var more := Record(through, session, seen[row.identity := row]);
    var less := Record(through, session, seen);
    var expected := if row.identity in session then less else Raise(less, row.identity, row.updated);
    forall id
      ensures TimeAt(more, id) == TimeAt(expected, id)
    {
      RecordAt(through, session, seen[row.identity := row], id);
      RecordAt(through, session, seen, id);
    }
    SameTimes(more, expected);
  }
}
