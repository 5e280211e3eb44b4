/** Folding a stopped session into the saved jar and its tombstones, and what any
  * number of stops, in any order, leaves behind.
  */
module CookiePersist {
  import opened Options
  import opened CookieRows
  import opened CookieTable

  datatype SavedTombstones = SavedTombstones(columns: seq<string>, through: Tombstones)

  /** The two published files: the saved jar and the tombstone list beside it. */
  datatype Store = Store(saved: Option<JarFile>, deleted: Option<SavedTombstones>)

  /** The clock is read once when pruning after the merge and once after the deletions. */
  datatype Clock = Clock(merged: int, applied: int)

  /** What a session hands back: its final jar and the jar it started from. */
  datatype Session = Session(jar: Jar, baseline: Jar)

  datatype Continuity = Continuity(rows: Jar, through: Tombstones)

  predicate SchemaChanged(store: Store, session: JarFile, baseline: Option<JarFile>) {
    || (baseline.Some? && baseline.value.schema != session.schema)
    || (store.saved.Some? && store.saved.value.schema != session.schema)
    || (store.deleted.Some? && store.deleted.value.columns != session.schema.keys)
  }

  function RowsOf(file: Option<JarFile>): Jar {
    if file.Some? then file.value.rows else map[]
  }

  function ThroughIn(store: Store): Tombstones {
    if store.deleted.Some? then store.deleted.value.through else map[]
  }

  function ContinuityOf(store: Store): Continuity {
    Continuity(RowsOf(store.saved), ThroughIn(store))
  }

  function Stop(schema: Schema, before: Continuity, session: Session, clock: Clock): Continuity {
    var through := Record(before.through, session.jar, session.baseline);
    var merged := Prune(schema, Newest(session.jar, before.rows), clock.merged);
    Continuity(Prune(schema, Withhold(merged, through), clock.applied), through)
  }

  function Persisted(store: Store, session: JarFile, baseline: Option<JarFile>, clock: Clock): Store {
    if SchemaChanged(store, session, baseline) then Store(Some(session), None)
    else
      var after := Stop(session.schema, ContinuityOf(store),
                        Session(session.rows, RowsOf(baseline)), clock);
      Store(Some(JarFile(session.schema, after.rows)), Some(SavedTombstones(session.schema.keys, after.through)))
  }

  /** The private state directory of one jar. */
  class CookieState {
    var saved: Table?
    var deleted: DeletedCookies?

    constructor (saved: Table?, deleted: DeletedCookies?)
      ensures this.saved == saved && this.deleted == deleted
    {
      this.saved := saved;
      this.deleted := deleted;
    }

    ghost function View(): Store
      reads this, saved, deleted
    {
      Store(if saved == null then None else Some(saved.View()),
            if deleted == null then None else Some(SavedTombstones(deleted.columns, deleted.View())))
    }

    method Persist(session: Table, baseline: Table?, clock: Clock)
      modifies this
      ensures View() ==
        Persisted(old(View()), session.View(), if baseline == null then None else Some(baseline.View()), clock)
      ensures fresh(saved) && (deleted != null ==> fresh(deleted))
    {
      var temporary := new Table(session.schema, session.rows);
      if
        || (baseline != null && baseline.schema != session.schema)
        || (saved != null && saved.schema != session.schema)
        || (deleted != null && deleted.columns != session.schema.keys)
      {
        deleted := null;
        saved := temporary;
        return;
      }
      var recorded := RecordDeletions(temporary, baseline, deleted);
      var merged := temporary.MergeFrom(saved, clock.merged);
      NewestOfNothing(session.rows);
      assert temporary.rows == Prune(session.schema, Newest(session.rows, RowsOf(View().saved)), clock.merged);
      temporary.ApplyDeleted(recorded.value, clock.applied);
      deleted := recorded.value;
      saved := temporary;
    }
  }

  lemma NewestOfNothing(rows: Jar)
    ensures Newest(rows, map[]) == rows
  {
  }

  // ----- one identity at a time

  function Survivor(schema: Schema, row: Option<Row>, through: Tombstones, clock: Clock): Option<Row> {
    if
      && row.Some?
      && !Deleted(through, row.value)
      && !Expired(schema, row.value, clock.merged)
      && !Expired(schema, row.value, clock.applied)
    then row
    else None
  }

  lemma StopAt(schema: Schema, before: Continuity, session: Session, clock: Clock, id: Identity)
    ensures var after := Stop(schema, before, session, clock);
      At(after.rows, id) ==
      Survivor(schema, Pick(At(session.jar, id), At(before.rows, id)), after.through, clock)
  {
    NewestAt(session.jar, before.rows, id);
  }

  // ----- convergence

  function StopAll(schema: Schema, start: Continuity, sessions: seq<Session>, clocks: seq<Clock>): Continuity
    requires |clocks| == |sessions|
  {
    if sessions == [] then start
    else
      var n := |sessions| - 1;
      Stop(schema, StopAll(schema, start, sessions[..n], clocks[..n]), sessions[n], clocks[n])
  }

  function PersistAll(store: Store, schema: Schema, sessions: seq<Session>, clocks: seq<Clock>): Store
    requires |clocks| == |sessions|
  {
    if sessions == [] then store
    else
      var n := |sessions| - 1;
      Persisted(PersistAll(store, schema, sessions[..n], clocks[..n]), JarFile(schema, sessions[n].jar),
                Some(JarFile(schema, sessions[n].baseline)), clocks[n])
  }

  ghost predicate Matches(store: Store, schema: Schema) {
    && (store.saved.Some? ==> store.saved.value.schema == schema)
    && (store.deleted.Some? ==> store.deleted.value.columns == schema.keys)
  }

  /** While the schema stays the same, the files hold what the stops add up to. */
  lemma {:induction false} FilesFollowStops(store: Store, schema: Schema, sessions: seq<Session>, clocks: seq<Clock>)
    requires |clocks| == |sessions| && Matches(store, schema)
    ensures Matches(PersistAll(store, schema, sessions, clocks), schema)
    ensures ContinuityOf(PersistAll(store, schema, sessions, clocks)) ==
            StopAll(schema, ContinuityOf(store), sessions, clocks)
  {
    if sessions != [] {
      var n := |sessions| - 1;
      FilesFollowStops(store, schema, sessions[..n], clocks[..n]);
      assert Session(sessions[n].jar, sessions[n].baseline) == sessions[n];
    }
  }

  /** `row` was in the saved jar at the start or in the final jar of a session. */
  ghost predicate Contributed(start: Continuity, sessions: seq<Session>, row: Row) {
    Holds(start.rows, row) || exists s :: s in sessions && Holds(s.jar, row)
  }

  ghost predicate Tombstoned(start: Continuity, sessions: seq<Session>, id: Identity, through: int) {
    || (id in start.through && start.through[id] == through)
    || exists s :: s in sessions && Drops(s, id, through)
  }

  predicate Drops(s: Session, id: Identity, through: int) {
    id in s.baseline && id !in s.jar && s.baseline[id].updated == through
  }

  ghost predicate Latest(start: Continuity, sessions: seq<Session>, row: Row) {
    && Contributed(start, sessions, row)
    && forall r :: Contributed(start, sessions, r) && r.identity == row.identity ==> r.updated <= row.updated
  }

  ghost predicate AllTiesAgree(start: Continuity, sessions: seq<Session>) {
    forall r, q :: Contributed(start, sessions, r) && Contributed(start, sessions, q) ==>
      r.identity == q.identity && r.updated == q.updated ==> r == q
  }

  /** No clock reading finds the newest row of an identity expired. */
  ghost predicate LatestStayAlive(schema: Schema, start: Continuity, sessions: seq<Session>, clocks: seq<Clock>) {
    forall row, c ::
      Latest(start, sessions, row) && c in clocks ==>
      !Expired(schema, row, c.merged) && !Expired(schema, row, c.applied)
  }

  /** It is enough that none has expired by the last reading. */
  lemma AliveAtTheLastReading(schema: Schema, start: Continuity, sessions: seq<Session>, clocks: seq<Clock>, last: int)
    requires forall c :: c in clocks ==> c.merged <= last && c.applied <= last
    requires forall row :: Latest(start, sessions, row) ==> !Expired(schema, row, last)
    ensures LatestStayAlive(schema, start, sessions, clocks)
  {
  }

  /** Per identity, `through` is the largest deletion anyone recorded. */
  ghost predicate LargestTombstones(start: Continuity, sessions: seq<Session>, through: Tombstones) {
    && (forall id :: id in through ==> Tombstoned(start, sessions, id, through[id]))
    && (forall id, t :: Tombstoned(start, sessions, id, t) ==> id in through && t <= through[id])
  }

  /** The jar has this row, or another of its identity and update time. */
  ghost predicate HoldsTied(jar: Jar, row: Row) {
    row.identity in jar && jar[row.identity].updated == row.updated
  }

  /** The outcome every stop order must reach, said without naming an order. Where several
    * newest rows are tied it is one of them.
    */
  ghost predicate Converged(start: Continuity, sessions: seq<Session>, end: Continuity) {
    && LargestTombstones(start, sessions, end.through)
    && (forall id :: id in end.rows ==> Latest(start, sessions, end.rows[id]) && !Deleted(end.through, end.rows[id]))
    && (forall row :: Latest(start, sessions, row) && !Deleted(end.through, row) ==> HoldsTied(end.rows, row))
  }

  lemma {:induction false} TombstonesAccumulate(schema: Schema, start: Continuity, sessions: seq<Session>,
                                                clocks: seq<Clock>)
    requires |clocks| == |sessions|
    ensures LargestTombstones(start, sessions, StopAll(schema, start, sessions, clocks).through)
  {
    if sessions != [] {
      var n := |sessions| - 1;
      TombstonesAccumulate(schema, start, sessions[..n], clocks[..n]);
      var before := StopAll(schema, start, sessions[..n], clocks[..n]);
      var end := StopAll(schema, start, sessions, clocks);
      RecordIsTheLeastCover(before.through, sessions[n].jar, sessions[n].baseline, end.through);
      assert end.through == Record(before.through, sessions[n].jar, sessions[n].baseline);
      forall id | id in end.through
        ensures Tombstoned(start, sessions, id, end.through[id])
      {
        TombstonedBefore(start, sessions, id, end.through[id]);
        if id in before.through && end.through[id] == before.through[id] {
          assert Tombstoned(start, sessions[..n], id, before.through[id]);
        } else {
          assert Drops(sessions[n], id, end.through[id]);
        }
      }
      forall id, t | Tombstoned(start, sessions, id, t)
        ensures id in end.through && t <= end.through[id]
      {
        TombstonedBefore(start, sessions, id, t);
      }
    }
  }

  lemma TombstonedBefore(start: Continuity, sessions: seq<Session>, id: Identity, t: int)
    requires sessions != []
    ensures var n := |sessions| - 1;
      Tombstoned(start, sessions, id, t) <==> Tombstoned(start, sessions[..n], id, t) || Drops(sessions[n], id, t)
  {
    var n := |sessions| - 1;
    assert sessions == sessions[..n] + [sessions[n]];
    if Drops(sessions[n], id, t) {
      assert sessions[n] in sessions;
    }
  }

  /** The running invariant: every saved row was contributed, and the newest row of an
    * identity, once contributed, is saved, up to a tie, or tombstoned.
    */
  ghost predicate OnTheWay(start: Continuity, all: seq<Session>, done: seq<Session>, now: Continuity) {
    && (forall id :: id in now.rows ==> Contributed(start, done, now.rows[id]))
    && (forall row :: Latest(start, all, row) && Contributed(start, done, row) ==>
          HoldsTied(now.rows, row) || Deleted(now.through, row))
  }

  lemma ContributedMore(start: Continuity, sessions: seq<Session>, n: nat, row: Row)
    requires n < |sessions|
    ensures Contributed(start, sessions[..n + 1], row) <==>
      Contributed(start, sessions[..n], row) || Holds(sessions[n].jar, row)
    ensures Contributed(start, sessions[..n + 1], row) ==> Contributed(start, sessions, row)
  {
    assert sessions[..n + 1] == sessions[..n] + [sessions[n]];
    if Holds(sessions[n].jar, row) {
      assert sessions[n] in sessions[..n + 1];
    }
  }

  lemma {:induction false} StaysOnTheWay(schema: Schema, start: Continuity, all: seq<Session>, clocks: seq<Clock>,
                                         n: nat)
    requires |clocks| == |all| && n <= |all|
    requires LatestStayAlive(schema, start, all, clocks)
    ensures OnTheWay(start, all, all[..n], StopAll(schema, start, all[..n], clocks[..n]))
  {
    if n > 0 {
      var m := n - 1;
      StaysOnTheWay(schema, start, all, clocks, m);
      assert all[..n][..m] == all[..m] && clocks[..n][..m] == clocks[..m];
      var before := StopAll(schema, start, all[..m], clocks[..m]);
      var now := Stop(schema, before, all[m], clocks[m]);
      assert now == StopAll(schema, start, all[..n], clocks[..n]);
      forall id | id in now.rows
        ensures Contributed(start, all[..n], now.rows[id])
      {
        StopAt(schema, before, all[m], clocks[m], id);
        ContributedMore(start, all, m, now.rows[id]);
      }
      forall row | Latest(start, all, row) && Contributed(start, all[..n], row)
        ensures HoldsTied(now.rows, row) || Deleted(now.through, row)
      {
        LatestIsKept(schema, start, all, clocks, m, before, row);
      }
    }
  }

  lemma LatestIsKept(schema: Schema, start: Continuity, all: seq<Session>, clocks: seq<Clock>, m: nat,
                     before: Continuity, row: Row)
    requires |clocks| == |all| && m < |all|
    requires LatestStayAlive(schema, start, all, clocks)
    requires OnTheWay(start, all, all[..m], before)
    requires Latest(start, all, row) && Contributed(start, all[..m + 1], row)
    ensures var now := Stop(schema, before, all[m], clocks[m]);
      HoldsTied(now.rows, row) || Deleted(now.through, row)
  {
    var id := row.identity;
    var now := Stop(schema, before, all[m], clocks[m]);
    var mine, saved := At(all[m].jar, id), At(before.rows, id);
    StopAt(schema, before, all[m], clocks[m], id);
    ContributedMore(start, all, m, row);
    RecordAt(before.through, all[m].jar, all[m].baseline, id);
    assert TimeAt(now.through, id).Some? || TimeAt(before.through, id).None?;
    assert clocks[m] in clocks;
    if mine.Some? {
      ContributedMore(start, all, m, mine.value);
    }
    if saved.Some? {
      ContributedMore(start, all, m, saved.value);
    }
    if !Deleted(now.through, row) {
      assert !Deleted(before.through, row);
      var kept := Pick(mine, saved);
      assert kept.Some? && kept.value.updated == row.updated;
      TiedIsLatest(start, all, row, kept.value);
    }
  }

  lemma TiedIsLatest(start: Continuity, sessions: seq<Session>, row: Row, other: Row)
    requires Latest(start, sessions, row) && Contributed(start, sessions, other)
    requires other.identity == row.identity && other.updated == row.updated
    ensures Latest(start, sessions, other)
  {
  }

  /** Whatever order at least one session stops in, the saved jar and the
    * tombstones end in the outcome `Converged` describes.
    */
  lemma StopsConverge(schema: Schema, start: Continuity, sessions: seq<Session>, clocks: seq<Clock>)
    requires sessions != [] && |clocks| == |sessions|
    requires LatestStayAlive(schema, start, sessions, clocks)
    ensures Converged(start, sessions, StopAll(schema, start, sessions, clocks))
  {
    var n := |sessions| - 1;
    var end := StopAll(schema, start, sessions, clocks);
    assert sessions[..|sessions|] == sessions && clocks[..|sessions|] == clocks;
    StaysOnTheWay(schema, start, sessions, clocks, |sessions|);
    TombstonesAccumulate(schema, start, sessions, clocks);
    forall id | id in end.rows
      ensures Latest(start, sessions, end.rows[id]) && !Deleted(end.through, end.rows[id])
    {
      StopAt(schema, StopAll(schema, start, sessions[..n], clocks[..n]), sessions[n], clocks[n], id);
      var newest := SomeLatest(start, sessions, end.rows[id]);
      assert HoldsTied(end.rows, newest) || Deleted(end.through, newest);
    }
  }

  /** Among finitely many jars, an identity that has a row has a newest one. */
  lemma {:induction false} SomeLatest(start: Continuity, sessions: seq<Session>, row: Row) returns (newest: Row)
    requires Contributed(start, sessions, row)
    ensures Latest(start, sessions, newest) && newest.identity == row.identity && row.updated <= newest.updated
  {
    newest := row;
    for i := 0 to |sessions|
      invariant Contributed(start, sessions, newest)
      invariant newest.identity == row.identity && row.updated <= newest.updated
      invariant forall s ::
        s in sessions[..i] && row.identity in s.jar ==> s.jar[row.identity].updated <= newest.updated
    {
      if row.identity in sessions[i].jar && newest.updated < sessions[i].jar[row.identity].updated {
        newest := sessions[i].jar[row.identity];
        assert Holds(sessions[i].jar, newest) && sessions[i] in sessions;
      }
    }
    if row.identity in start.rows && newest.updated < start.rows[row.identity].updated {
      newest := start.rows[row.identity];
      assert Holds(start.rows, newest);
    }
    assert sessions[..|sessions|] == sessions;
    UnbeatenIsLatest(start, sessions, newest);
  }

  lemma UnbeatenIsLatest(start: Continuity, sessions: seq<Session>, row: Row)
    requires Contributed(start, sessions, row)
    requires forall s :: s in sessions && row.identity in s.jar ==> s.jar[row.identity].updated <= row.updated
    requires row.identity in start.rows ==> start.rows[row.identity].updated <= row.updated
    ensures Latest(start, sessions, row)
  {
  }

  lemma LargestTombstonesAreUnique(start: Continuity, sessions: seq<Session>, a: Tombstones, b: Tombstones)
    requires LargestTombstones(start, sessions, a) && LargestTombstones(start, sessions, b)
    ensures a == b
  {
    forall id
      ensures TimeAt(a, id) == TimeAt(b, id)
    {
      if id in a {
        assert Tombstoned(start, sessions, id, a[id]);
      }
      if id in b {
        assert Tombstoned(start, sessions, id, b[id]);
      }
    }
    SameTimes(a, b);
  }

  /** The same tombstones, and of every identity a row of the same update time or none. */
  ghost predicate AgreeUpToTies(a: Continuity, b: Continuity) {
    && a.through == b.through
    && (forall id :: id in a.rows <==> id in b.rows)
    && (forall id :: id in a.rows && id in b.rows ==> a.rows[id].updated == b.rows[id].updated)
  }

  /** The outcome is unique but for the choice between tied rows. */
  lemma ConvergedIsUnique(start: Continuity, sessions: seq<Session>, a: Continuity, b: Continuity)
    requires Converged(start, sessions, a) && Converged(start, sessions, b)
    ensures AgreeUpToTies(a, b)
    ensures AllTiesAgree(start, sessions) ==> a == b
  {
    LargestTombstonesAreUnique(start, sessions, a.through, b.through);
    forall id
      ensures id in a.rows ==> HoldsTied(b.rows, a.rows[id])
      ensures id in b.rows ==> HoldsTied(a.rows, b.rows[id])
    {
      if id in a.rows {
        assert Latest(start, sessions, a.rows[id]);
      }
      if id in b.rows {
        assert Latest(start, sessions, b.rows[id]);
      }
    }
    if AllTiesAgree(start, sessions) {
      SameWithoutTies(start, sessions, a.rows, b.rows);
    }
  }

  lemma SameWithoutTies(start: Continuity, sessions: seq<Session>, a: Jar, b: Jar)
    requires AllTiesAgree(start, sessions)
    requires forall id :: id in a <==> id in b
    requires forall id :: id in a && id in b ==> a[id].updated == b[id].updated
    requires forall id :: id in a ==> Latest(start, sessions, a[id])
    requires forall id :: id in b ==> Latest(start, sessions, b[id])
    ensures a == b
  {
    forall id
      ensures At(a, id) == At(b, id)
    {
      if id in a {
        assert Contributed(start, sessions, a[id]) && Contributed(start, sessions, b[id]);
      }
    }
    SameEverywhere(a, b);
  }

  ghost predicate SameMembers(first: seq<Session>, second: seq<Session>) {
    forall s :: s in first <==> s in second
  }

  lemma SameContributions(start: Continuity, first: seq<Session>, second: seq<Session>)
    requires SameMembers(first, second)
    ensures forall row :: Contributed(start, first, row) <==> Contributed(start, second, row)
    ensures forall id, t :: Tombstoned(start, first, id, t) <==> Tombstoned(start, second, id, t)
  {
  }

  lemma SameLatest(start: Continuity, first: seq<Session>, second: seq<Session>)
    requires forall row :: Contributed(start, first, row) <==> Contributed(start, second, row)
    ensures forall row :: Latest(start, first, row) <==> Latest(start, second, row)
  {
  }

  lemma SameOutcome(start: Continuity, first: seq<Session>, second: seq<Session>, end: Continuity)
    requires SameMembers(first, second)
    requires Converged(start, second, end)
    ensures Converged(start, first, end)
  {
    SameContributions(start, first, second);
    SameLatest(start, first, second);
  }

  /** Stop order does not matter, nor how often a session is folded in: two runs over the
    * same sessions agree on every tombstone and on the update time of every saved row, and,
    * where tied rows are equal, on the rows themselves.
    */
  lemma StopOrderDoesNotMatter(schema: Schema, start: Continuity, first: seq<Session>, firstClocks: seq<Clock>,
                               second: seq<Session>, secondClocks: seq<Clock>)
    requires first != [] && SameMembers(first, second)
    requires |firstClocks| == |first| && |secondClocks| == |second|
    requires LatestStayAlive(schema, start, first, firstClocks)
    requires LatestStayAlive(schema, start, second, secondClocks)
    ensures var one, other := StopAll(schema, start, first, firstClocks), StopAll(schema, start, second, secondClocks);
      AgreeUpToTies(one, other) && (AllTiesAgree(start, first) ==> one == other)
  {
    assert first[0] in second;
    StopsConverge(schema, start, first, firstClocks);
    StopsConverge(schema, start, second, secondClocks);
    SameOutcome(start, first, second, StopAll(schema, start, second, secondClocks));
    ConvergedIsUnique(start, first, StopAll(schema, start, first, firstClocks),
                      StopAll(schema, start, second, secondClocks));
  }

  // ----- the published files

  /** The files themselves converge: after any stops that keep the schema both are there, and
    * hold the newest rows and the largest tombstones of everything contributed.
    */
  lemma FilesConverge(store: Store, schema: Schema, sessions: seq<Session>, clocks: seq<Clock>)
    requires sessions != [] && |clocks| == |sessions| && Matches(store, schema)
    requires LatestStayAlive(schema, ContinuityOf(store), sessions, clocks)
    ensures var end := PersistAll(store, schema, sessions, clocks);
      && end.saved.Some? && end.saved.value.schema == schema
      && end.deleted.Some? && end.deleted.value.columns == schema.keys
      && Converged(ContinuityOf(store), sessions, ContinuityOf(end))
  {
    var n := |sessions| - 1;
    FilesFollowStops(store, schema, sessions, clocks);
    FilesFollowStops(store, schema, sessions[..n], clocks[..n]);
    StopsConverge(schema, ContinuityOf(store), sessions, clocks);
  }

  /** And they do not depend on the order of the stops. */
  lemma FilesDoNotDependOnOrder(store: Store, schema: Schema, first: seq<Session>, firstClocks: seq<Clock>,
                                second: seq<Session>, secondClocks: seq<Clock>)
    requires first != [] && SameMembers(first, second) && Matches(store, schema)
    requires |firstClocks| == |first| && |secondClocks| == |second|
    requires LatestStayAlive(schema, ContinuityOf(store), first, firstClocks)
    requires LatestStayAlive(schema, ContinuityOf(store), second, secondClocks)
    ensures var one := PersistAll(store, schema, first, firstClocks);
      var other := PersistAll(store, schema, second, secondClocks);
      && AgreeUpToTies(ContinuityOf(one), ContinuityOf(other))
      && (AllTiesAgree(ContinuityOf(store), first) ==> one == other)
  {
    assert first[0] in second;
    FilesConverge(store, schema, first, firstClocks);
    FilesConverge(store, schema, second, secondClocks);
    FilesFollowStops(store, schema, first, firstClocks);
    FilesFollowStops(store, schema, second, secondClocks);
    StopOrderDoesNotMatter(schema, ContinuityOf(store), first, firstClocks, second, secondClocks);
  }
}
