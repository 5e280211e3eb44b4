/** The saved cookie files as a state machine. A stop publishes in separate file
  * steps under the lock and may crash between any two; starts read the two files
  * at different times without the lock. Host jars, session jars, baselines and
  * clock readings are arbitrary.
  */
module CookieRuns {
  import opened Options
  import opened CookieRows
  import opened CookieTable
  import opened CookiePersist

  /** How far the stop holding the lock has come. */
  datatype Stopping =
    | Unlocked
    | Staged(baseline: Option<JarFile>)
    | Compared(baseline: Option<JarFile>)
    | Recorded(deleted: SavedTombstones)
    | Merged(deleted: SavedTombstones)
    | Applied(deleted: SavedTombstones)
    | Written(deleted: SavedTombstones)
    | TombstonesPublished(deleted: SavedTombstones)
    | Replacing
    | TombstonesRemoved

  /** A session copy between reading the saved jar and reading the tombstones. */
  datatype Starting = MergedCopy(jar: JarFile) | UnmergedCopy(jar: JarFile)

  datatype Started = Started(jar: JarFile, merged: bool)

  /** A merge commits the merged rows before it prunes them, so it can fail on either
    * side of its commit.
    */
  datatype MergeOutcome = Merges | FailsBeforeCommit | FailsAfterCommit

  /** `published` lists the deletions of every stop whose jar was published since
    * tombstones were last removed; the program keeps no such list.
    */
  datatype World = World(
    store: Store,
    temporary: Option<JarFile>,
    pending: Option<SavedTombstones>,
    stopping: Stopping,
    starting: map<nat, Starting>,
    started: seq<Started>,
    published: seq<SavedTombstones>)

  datatype Step =
    | Stage(session: JarFile, baseline: Option<JarFile>)
    | Compare
    | RecordStep
    | MergeStep(now: int)
    | ApplyStep(now: int)
    | TearPending(junk: Option<SavedTombstones>)
    | WritePending
    | PublishTombstones
    | PublishJar
    | RemoveTombstones
    | ReplaceJar
    | Fail
    | Crash
    | BeginStart(number: nat, host: Option<JarFile>, merge: MergeOutcome, now: int)
    | FinishStart(number: nat, now: int)
    | AbandonStart(number: nat)

  predicate SchemasDiffer(store: Store, host: JarFile) {
    store.saved.Some? && store.saved.value.schema != host.schema
  }

  /** Copy the host jar, if there is one, and merge the saved jar into it. */
  function Begin(store: Store, host: Option<JarFile>, merge: MergeOutcome, now: int): Option<Starting> {
    match host
    case None =>
      if store.saved.None? then None else Some(MergedCopy(store.saved.value))
    case Some(jar) =>
      if merge.FailsBeforeCommit? || SchemasDiffer(store, jar) then Some(UnmergedCopy(jar))
      else
        var committed := Newest(jar.rows, RowsOf(store.saved));
        if merge.FailsAfterCommit? then Some(UnmergedCopy(jar.(rows := committed)))
        else Some(MergedCopy(jar.(rows := Prune(jar.schema, committed, now))))
  }

  /** Apply the tombstones, unless the merge failed. */
  function Finish(store: Store, copy: Starting, now: int): Option<JarFile> {
    match copy
    case UnmergedCopy(jar) => Some(jar)
    case MergedCopy(jar) =>
      if store.deleted.Some? && store.deleted.value.columns != jar.schema.keys then None
      else Some(jar.(rows := Prune(jar.schema, Withhold(jar.rows, ThroughIn(store)), now)))
  }

  function Next(w: World, step: Step): Option<World> {
    match step
    case Stage(session, baseline) =>
      if w.stopping != Unlocked then None
      else Some(w.(temporary := Some(session), stopping := Staged(baseline)))
    case Compare =>
      if !w.stopping.Staged? || w.temporary.None? then None
      else if SchemaChanged(w.store, w.temporary.value, w.stopping.baseline) then Some(w.(stopping := Replacing))
      else Some(w.(stopping := Compared(w.stopping.baseline)))
    case RecordStep =>
      if !w.stopping.Compared? || w.temporary.None? then None
      else
        var through := Record(ThroughIn(w.store), w.temporary.value.rows, RowsOf(w.stopping.baseline));
        Some(w.(stopping := Recorded(SavedTombstones(w.temporary.value.schema.keys, through))))
    case MergeStep(now) =>
      if !w.stopping.Recorded? || w.temporary.None? then None
      else
        var jar := w.temporary.value;
        var merged := jar.(rows := Prune(jar.schema, Newest(jar.rows, RowsOf(w.store.saved)), now));
        Some(w.(temporary := Some(merged), stopping := Merged(w.stopping.deleted)))
    case ApplyStep(now) =>
      if !w.stopping.Merged? || w.temporary.None? then None
      else
        var jar := w.temporary.value;
        var applied := jar.(rows := Prune(jar.schema, Withhold(jar.rows, w.stopping.deleted.through), now));
        Some(w.(temporary := Some(applied), stopping := Applied(w.stopping.deleted)))
    case TearPending(junk) =>
      if !w.stopping.Applied? then None else Some(w.(pending := junk))
    case WritePending =>
      if !w.stopping.Applied? then None
      else Some(w.(pending := Some(w.stopping.deleted), stopping := Written(w.stopping.deleted)))
    case PublishTombstones =>
      if !w.stopping.Written? then None
      else Some(w.(store := w.store.(deleted := w.pending), pending := None,
                   stopping := TombstonesPublished(w.stopping.deleted)))
    case PublishJar =>
      if !w.stopping.TombstonesPublished? then None
      else Some(w.(store := w.store.(saved := w.temporary), temporary := None, stopping := Unlocked,
                   published := w.published + [w.stopping.deleted]))
    case RemoveTombstones =>
      if !w.stopping.Replacing? then None
      else Some(w.(store := w.store.(deleted := None), stopping := TombstonesRemoved, published := []))
    case ReplaceJar =>
      if !w.stopping.TombstonesRemoved? then None
      else Some(w.(store := w.store.(saved := w.temporary), temporary := None, stopping := Unlocked))
    case Fail => Some(w.(temporary := None, stopping := Unlocked))
    case Crash => Some(w.(stopping := Unlocked))
    case BeginStart(number, host, merge, now) =>
      var copy := Begin(w.store, host, merge, now);
      if number in w.starting || copy.None? then None
      else Some(w.(starting := w.starting[number := copy.value]))
    case FinishStart(number, now) =>
      if number !in w.starting then None
      else
        var jar := Finish(w.store, w.starting[number], now);
        var rest := w.starting - {number};
        if jar.None? then Some(w.(starting := rest))
        else Some(w.(starting := rest, started := w.started + [Started(jar.value, w.starting[number].MergedCopy?)]))
    case AbandonStart(number) => Some(w.(starting := w.starting - {number}))
  }

  function Execute(w: World, steps: seq<Step>): Option<World> {
    if steps == [] then Some(w)
    else
      var n := |steps| - 1;
      var before := Execute(w, steps[..n]);
      if before.None? then None else Next(before.value, steps[n])
  }

  function Opened(store: Store): World {
    World(store, None, None, Unlocked, map[], [], [])
  }

  ghost predicate Clean(rows: Jar, through: Tombstones) {
    forall id :: id in rows ==> !Deleted(through, rows[id])
  }

  /** What holds between any two steps: a stop's tombstones cover the published
    * ones, its jar is clean before anything is published, and whatever jar is
    * published has its deletions published with it.
    */
  ghost predicate Inv(w: World) {
    && (w.stopping != Unlocked ==> w.temporary.Some?)
    && (w.stopping.Recorded? || w.stopping.Merged? || w.stopping.Applied? || w.stopping.Written? ==>
          Covers(w.stopping.deleted.through, ThroughIn(w.store)))
    && (w.stopping.Applied? || w.stopping.Written? || w.stopping.TombstonesPublished? ==>
          Clean(w.temporary.value.rows, w.stopping.deleted.through))
    && (w.stopping.Written? ==> w.pending == Some(w.stopping.deleted))
    && (w.stopping.TombstonesPublished? ==> w.store.deleted == Some(w.stopping.deleted))
    && (w.stopping.TombstonesRemoved? ==> w.store.deleted.None?)
    && (forall i :: 0 <= i < |w.published| ==> Covers(ThroughIn(w.store), w.published[i].through))
  }

  lemma StepKeepsInv(w: World, step: Step)
    requires Inv(w) && Next(w, step).Some?
    ensures Inv(Next(w, step).value)
    ensures !step.RemoveTombstones? ==> Covers(ThroughIn(Next(w, step).value.store), ThroughIn(w.store))
  {
    var after := Next(w, step).value;
    if step.RecordStep? {
      RecordIsTheLeastCover(ThroughIn(w.store), w.temporary.value.rows, RowsOf(w.stopping.baseline),
                            after.stopping.deleted.through);
    }
    if !step.RemoveTombstones? {
      assert Covers(ThroughIn(after.store), ThroughIn(w.store));
      forall i | 0 <= i < |after.published|
        ensures Covers(ThroughIn(after.store), after.published[i].through)
      {
        if i < |w.published| {
          assert Covers(ThroughIn(w.store), w.published[i].through);
        }
      }
    }
  }

  lemma {:induction false} RunKeepsInv(w: World, steps: seq<Step>)
    requires Inv(w) && Execute(w, steps).Some?
    ensures Inv(Execute(w, steps).value)
  {
    if steps != [] {
      var n := |steps| - 1;
      RunKeepsInv(w, steps[..n]);
      StepKeepsInv(Execute(w, steps[..n]).value, steps[n]);
    }
  }

  /** In every reachable state, whatever crashed when: each published jar has the
    * deletions of its stop in force beside it.
    */
  lemma JarsAreNeverAheadOfTombstones(store: Store, steps: seq<Step>)
    requires Execute(Opened(store), steps).Some?
    ensures var w := Execute(Opened(store), steps).value;
      forall i :: 0 <= i < |w.published| ==> Covers(ThroughIn(w.store), w.published[i].through)
  {
    RunKeepsInv(Opened(store), steps);
  }

  ghost predicate InForce(store: Store, id: Identity, through: int) {
    id in ThroughIn(store) && through <= ThroughIn(store)[id]
  }

  /** Tombstones leave only by the step that replaces a jar of another schema. */
  lemma OnlyReplacementDropsTombstones(w: World, step: Step, id: Identity, through: int)
    requires Inv(w) && Next(w, step).Some?
    requires InForce(w.store, id, through) && !InForce(Next(w, step).value.store, id, through)
    ensures step.RemoveTombstones? && w.stopping.Replacing?
  {
    StepKeepsInv(w, step);
  }

  ghost predicate Without(rows: Jar, id: Identity, through: int) {
    id in rows ==> through < rows[id].updated
  }

  /** The jar a start gives its session when its merge ends as `merge` says. */
  function StartedWith(store: Store, host: Option<JarFile>, merge: MergeOutcome, clock: Clock): Option<JarFile> {
    var copy := Begin(store, host, merge, clock.merged);
    if copy.None? then None else Finish(store, copy.value, clock.applied)
  }

  /** The jar a start would give its session now. */
  function StartView(store: Store, host: Option<JarFile>, clock: Clock): Option<JarFile> {
    StartedWith(store, host, Merges, clock)
  }

  /** A row of the host's or the saved jar that no newer one of either beats, the host's
    * winning a tie.
    */
  ghost predicate Wins(host: Jar, saved: Jar, row: Row) {
    && (Holds(host, row) || Holds(saved, row))
    && (row.identity in host ==> host[row.identity].updated <= row.updated)
    && (row.identity in saved ==> saved[row.identity].updated <= row.updated)
    && (row.identity in host && host[row.identity].updated == row.updated ==> host[row.identity] == row)
  }

  /** What a start shows, on the host's and the saved rows: exactly the winning rows that are
    * newer than their tombstone and unexpired, at the merge, if there is one, and at the end.
    */
  lemma StartShowsExactly(store: Store, host: Option<JarFile>, clock: Clock, schema: Schema)
    requires host.Some? || store.saved.Some?
    requires host.Some? ==> host.value.schema == schema
    requires Matches(store, schema)
    ensures StartView(store, host, clock).Some? && StartView(store, host, clock).value.schema == schema
    ensures forall row :: Holds(StartView(store, host, clock).value.rows, row) <==>
      && Wins(RowsOf(host), RowsOf(store.saved), row)
      && (row.identity in ThroughIn(store) ==> ThroughIn(store)[row.identity] < row.updated)
      && (host.Some? ==> !Expired(schema, row, clock.merged)) && !Expired(schema, row, clock.applied)
  {
    forall row
      ensures Holds(StartView(store, host, clock).value.rows, row) <==>
        && Wins(RowsOf(host), RowsOf(store.saved), row)
        && (row.identity in ThroughIn(store) ==> ThroughIn(store)[row.identity] < row.updated)
        && (host.Some? ==> !Expired(schema, row, clock.merged)) && !Expired(schema, row, clock.applied)
    {
      if host.Some? {
        NewestAt(host.value.rows, RowsOf(store.saved), row.identity);
      }
    }
  }

  /** A start fails only without any jar, or with tombstones of other identity columns. */
  lemma StartFailsExactlyWhen(store: Store, host: Option<JarFile>, merge: MergeOutcome, clock: Clock)
    ensures StartedWith(store, host, merge, clock).None? <==>
      if host.None? then
        store.saved.None? ||
        (store.deleted.Some? && store.deleted.value.columns != store.saved.value.schema.keys)
      else
        && merge.Merges? && (store.saved.Some? ==> store.saved.value.schema == host.value.schema)
        && store.deleted.Some? && store.deleted.value.columns != host.value.schema.keys
  {
  }

  /** A cookie a session ends with is in the next one: unless it was deleted or has expired, or
    * the saved jar or the host has a newer row.
    */
  lemma SessionCookieReturns(store: Store, session: JarFile, baseline: Option<JarFile>, stopped: Clock,
                             host: Option<JarFile>, restarted: Clock, row: Row)
    requires !SchemaChanged(store, session, baseline) && Holds(session.rows, row)
    requires row.identity in ThroughIn(store) ==> ThroughIn(store)[row.identity] < row.updated
    requires row.identity in RowsOf(store.saved) ==> RowsOf(store.saved)[row.identity].updated <= row.updated
    requires host.Some? ==> host.value.schema == session.schema
    requires row.identity in RowsOf(host) ==> RowsOf(host)[row.identity].updated < row.updated
    requires forall now :: now in {stopped.merged, stopped.applied, restarted.merged, restarted.applied} ==>
      !Expired(session.schema, row, now)
    ensures var view := StartView(Persisted(store, session, baseline, stopped), host, restarted);
      view.Some? && Holds(view.value.rows, row)
  {
    var files := Persisted(store, session, baseline, stopped);
    var kept := Session(session.rows, RowsOf(baseline));
    StopAt(session.schema, ContinuityOf(store), kept, stopped, row.identity);
    RecordAt(ThroughIn(store), session.rows, RowsOf(baseline), row.identity);
    var after := Stop(session.schema, ContinuityOf(store), kept, stopped);
    assert TimeAt(after.through, row.identity) == TimeAt(ThroughIn(store), row.identity);
    assert At(after.rows, row.identity) == Some(row);
    StartShowsExactly(files, host, restarted, session.schema);
    assert Wins(RowsOf(host), after.rows, row);
  }

  ghost predicate KeepsTombstones(steps: seq<Step>) {
    forall i :: 0 <= i < |steps| ==> !steps[i].RemoveTombstones?
  }

  /** Once a tombstone is published, no run of stops, starts and crashes that keeps
    * tombstones brings its rows back: it stays in force, later starts do not show
    * them even when their merge came earlier, and the saved jar is either the one
    * of that moment or has none of them.
    */
  lemma {:induction false} NoResurrection(w: World, steps: seq<Step>, id: Identity, through: int)
    requires Inv(w) && Execute(w, steps).Some? && KeepsTombstones(steps)
    requires InForce(w.store, id, through)
    ensures var end := Execute(w, steps).value;
      && Inv(end)
      && InForce(end.store, id, through)
      && |w.started| <= |end.started|
      && (forall i :: |w.started| <= i < |end.started| && end.started[i].merged ==>
            Without(end.started[i].jar.rows, id, through))
      && (end.store.saved == w.store.saved || Without(RowsOf(end.store.saved), id, through))
  {
    if steps != [] {
      var n := |steps| - 1;
      var before := Execute(w, steps[..n]).value;
      NoResurrection(w, steps[..n], id, through);
      assert !steps[n].RemoveTombstones?;
      StepResurrectsNothing(before, steps[n], id, through);
    }
  }

  lemma StepResurrectsNothing(w: World, step: Step, id: Identity, through: int)
    requires Inv(w) && Next(w, step).Some? && !step.RemoveTombstones?
    requires InForce(w.store, id, through)
    ensures var after := Next(w, step).value;
      && Inv(after)
      && InForce(after.store, id, through)
      && (after.store.saved == w.store.saved || Without(RowsOf(after.store.saved), id, through))
      && w.started <= after.started
      && (forall i :: |w.started| <= i < |after.started| && after.started[i].merged ==>
            Without(after.started[i].jar.rows, id, through))
  {
    StepKeepsInv(w, step);
    assert Covers(ThroughIn(Next(w, step).value.store), ThroughIn(w.store));
  }

  /** A start whose merge failed skips the tombstones; that is the only way a start shows
    * a row an in-force tombstone covers. It shows the host's row, or, if the merge failed
    * only after its commit, the winner of the host's and the saved row.
    */
  lemma StartShowsDeletedRowExactlyWhen(store: Store, host: Option<JarFile>, merge: MergeOutcome, clock: Clock,
                                        row: Row)
    requires Deleted(ThroughIn(store), row) && StartedWith(store, host, merge, clock).Some?
    ensures Holds(StartedWith(store, host, merge, clock).value.rows, row) <==>
      && host.Some? && (!merge.Merges? || SchemasDiffer(store, host.value))
      && if merge.FailsAfterCommit? && !SchemasDiffer(store, host.value)
         then Pick(At(host.value.rows, row.identity), At(RowsOf(store.saved), row.identity)) == Some(row)
         else Holds(host.value.rows, row)
  {
    if host.Some? {
      NewestAt(host.value.rows, RowsOf(store.saved), row.identity);
    }
  }

  /** Such a saved row need not be in the host: after a crash between the two renames the
    * saved jar still has what the session deleted, and a start whose merge fails after its
    * commit shows it.
    */
  lemma LateFailureShowsDeletedRow(w: World, session: JarFile, baseline: Option<JarFile>, stopped: Clock,
                                   host: JarFile, started: Clock, row: Row)
    requires w.stopping == Unlocked && !SchemaChanged(w.store, session, baseline)
    requires Holds(RowsOf(w.store.saved), row)
    requires row.identity in RowsOf(baseline) && row.identity !in session.rows
    requires row.updated <= RowsOf(baseline)[row.identity].updated
    requires host.schema == session.schema && row.identity !in host.rows
    ensures var halfway := Execute(w, StopSteps(session, baseline, stopped, false)[..7]);
      && halfway.Some? && Next(halfway.value, Crash).Some?
      && var crashed := Next(halfway.value, Crash).value.store;
         && Deleted(ThroughIn(crashed), row)
         && StartedWith(crashed, Some(host), FailsAfterCommit, started).Some?
         && Holds(StartedWith(crashed, Some(host), FailsAfterCommit, started).value.rows, row)
  {
    CrashedBetweenRenames(w, session, baseline, stopped);
    LateFailureShowsSavedRow(w.store, session, baseline, host, started, row);
  }

  lemma CrashedBetweenRenames(w: World, session: JarFile, baseline: Option<JarFile>, clock: Clock)
    requires w.stopping == Unlocked && !SchemaChanged(w.store, session, baseline)
    ensures var through := Record(ThroughIn(w.store), session.rows, RowsOf(baseline));
      var halfway := Execute(w, StopSteps(session, baseline, clock, false)[..7]);
      && halfway.Some? && Next(halfway.value, Crash).Some?
      && Next(halfway.value, Crash).value.store ==
           w.store.(deleted := Some(SavedTombstones(session.schema.keys, through)))
  {
    var steps := StopSteps(session, baseline, clock, false);
    UninterruptedMerge(w, session, baseline, clock);
    PrefixRuns(w, steps, 7);
    HalfwayStore(w, session, baseline, clock, 7);
    FailuresPublishNothing(Execute(w, steps[..7]).value);
  }

  lemma LateFailureShowsSavedRow(store: Store, session: JarFile, baseline: Option<JarFile>, host: JarFile,
                                 started: Clock, row: Row)
    requires !SchemaChanged(store, session, baseline)
    requires Holds(RowsOf(store.saved), row)
    requires row.identity in RowsOf(baseline) && row.identity !in session.rows
    requires row.updated <= RowsOf(baseline)[row.identity].updated
    requires host.schema == session.schema && row.identity !in host.rows
    ensures var through := Record(ThroughIn(store), session.rows, RowsOf(baseline));
      var crashed := store.(deleted := Some(SavedTombstones(session.schema.keys, through)));
      var view := StartedWith(crashed, Some(host), FailsAfterCommit, started);
      Deleted(through, row) && view.Some? && Holds(view.value.rows, row)
  {
    RecordAt(ThroughIn(store), session.rows, RowsOf(baseline), row.identity);
    NewestAt(host.rows, RowsOf(store.saved), row.identity);
  }

  /** Left alone, the file steps of one stop add up to `Persisted`. */
  function StopSteps(session: JarFile, baseline: Option<JarFile>, clock: Clock, replace: bool): seq<Step> {
    if replace then [Stage(session, baseline), Compare, RemoveTombstones, ReplaceJar]
    else [Stage(session, baseline), Compare, RecordStep, MergeStep(clock.merged), ApplyStep(clock.applied),
          WritePending, PublishTombstones, PublishJar]
  }

  lemma OneMore(w: World, steps: seq<Step>, k: nat, before: World)
    requires k < |steps|
    requires Execute(w, steps[..k]) == Some(before)
    ensures Execute(w, steps[..k + 1]) == Next(before, steps[k])
  {
    assert steps[..k + 1][..k] == steps[..k];
  }

  /** From any moment without a stop, whatever a crash left staged or pending. */
  lemma UninterruptedStopPersists(w: World, session: JarFile, baseline: Option<JarFile>, clock: Clock)
    requires w.stopping == Unlocked
    ensures var replace := SchemaChanged(w.store, session, baseline);
      var end := Execute(w, StopSteps(session, baseline, clock, replace));
      && end.Some? && end.value.store == Persisted(w.store, session, baseline, clock)
      && end.value.stopping == Unlocked && end.value.temporary.None?
      && end.value.starting == w.starting && end.value.started == w.started
  {
    var replace := SchemaChanged(w.store, session, baseline);
    var steps := StopSteps(session, baseline, clock, replace);
    OneMore(w, steps, 0, w);
    var w1 := Next(w, steps[0]).value;
    OneMore(w, steps, 1, w1);
    var w2 := Next(w1, steps[1]).value;
    if replace {
      OneMore(w, steps, 2, w2);
      var w3 := Next(w2, steps[2]).value;
      OneMore(w, steps, 3, w3);
      assert steps[..4] == steps;
    } else {
      UninterruptedMerge(w, session, baseline, clock);
    }
  }

  lemma UninterruptedMerge(w: World, session: JarFile, baseline: Option<JarFile>, clock: Clock)
    requires w.stopping == Unlocked && !SchemaChanged(w.store, session, baseline)
    ensures var end := Execute(w, StopSteps(session, baseline, clock, false));
      && end.Some? && end.value.store == Persisted(w.store, session, baseline, clock)
      && end.value.stopping == Unlocked && end.value.temporary.None?
      && end.value.starting == w.starting && end.value.started == w.started
  {
    var steps := StopSteps(session, baseline, clock, false);
    var before := ContinuityOf(w.store);
    var after := Stop(session.schema, before, Session(session.rows, RowsOf(baseline)), clock);
    var deleted := SavedTombstones(session.schema.keys, after.through);
    var applied := JarFile(session.schema, after.rows);
    UninterruptedStaging(w, session, baseline, clock);
    OneMore(w, steps, 5, w.(temporary := Some(applied), stopping := Applied(deleted)));
    OneMore(w, steps, 6, w.(temporary := Some(applied), pending := Some(deleted), stopping := Written(deleted)));
    OneMore(w, steps, 7, w.(temporary := Some(applied), pending := None, store := w.store.(deleted := Some(deleted)),
                            stopping := TombstonesPublished(deleted)));
    assert steps[..8] == steps;
  }

  lemma UninterruptedStaging(w: World, session: JarFile, baseline: Option<JarFile>, clock: Clock)
    requires w.stopping == Unlocked && !SchemaChanged(w.store, session, baseline)
    ensures var before := ContinuityOf(w.store);
      var after := Stop(session.schema, before, Session(session.rows, RowsOf(baseline)), clock);
      Execute(w, StopSteps(session, baseline, clock, false)[..5]) ==
      Some(w.(temporary := Some(JarFile(session.schema, after.rows)),
                          stopping := Applied(SavedTombstones(session.schema.keys, after.through))))
  {
    var steps := StopSteps(session, baseline, clock, false);
    var deleted := SavedTombstones(session.schema.keys, Record(ThroughIn(w.store), session.rows, RowsOf(baseline)));
    var newest := Newest(session.rows, RowsOf(w.store.saved));
    var merged := JarFile(session.schema, Prune(session.schema, newest, clock.merged));
    UninterruptedRecording(w, session, baseline, clock);
    OneMore(w, steps, 3, w.(temporary := Some(session), stopping := Recorded(deleted)));
    OneMore(w, steps, 4, w.(temporary := Some(merged), stopping := Merged(deleted)));
  }

  lemma UninterruptedRecording(w: World, session: JarFile, baseline: Option<JarFile>, clock: Clock)
    requires w.stopping == Unlocked && !SchemaChanged(w.store, session, baseline)
    ensures var through := Record(ThroughIn(w.store), session.rows, RowsOf(baseline));
      var deleted := SavedTombstones(session.schema.keys, through);
      Execute(w, StopSteps(session, baseline, clock, false)[..3]) ==
      Some(w.(temporary := Some(session), stopping := Recorded(deleted)))
  {
    var steps := StopSteps(session, baseline, clock, false);
    OneMore(w, steps, 0, w);
    OneMore(w, steps, 1, w.(temporary := Some(session), stopping := Staged(baseline)));
    OneMore(w, steps, 2, w.(temporary := Some(session), stopping := Compared(baseline)));
  }

  /** A crash, a failure, a torn write or an abandoned start changes no published file. */
  lemma FailuresPublishNothing(w: World)
    ensures Next(w, Crash) == Some(w.(stopping := Unlocked))
    ensures Next(w, Fail) == Some(w.(stopping := Unlocked, temporary := None))
    ensures forall number :: Next(w, AbandonStart(number)) == Some(w.(starting := w.starting - {number}))
    ensures w.stopping.Applied? ==> forall junk :: Next(w, TearPending(junk)) == Some(w.(pending := junk))
  {
  }

  predicate StartsOf(step: Step, number: nat) {
    match step
    case BeginStart(n, _, _, _) => n == number
    case FinishStart(n, _) => n == number
    case AbandonStart(n) => n == number
    case _ => false
  }

  lemma {:induction false} OthersKeepStart(w: World, during: seq<Step>, number: nat)
    requires Execute(w, during).Some? && forall i :: 0 <= i < |during| ==> !StartsOf(during[i], number)
    requires number in w.starting
    ensures var end := Execute(w, during).value;
      number in end.starting && end.starting[number] == w.starting[number]
  {
    if during != [] {
      OthersKeepStart(w, during[..|during| - 1], number);
      assert !StartsOf(during[|during| - 1], number);
    }
  }

  lemma StartBegins(w: World, number: nat, host: Option<JarFile>, merge: MergeOutcome, now: int, copy: Starting)
    requires number !in w.starting && Begin(w.store, host, merge, now) == Some(copy)
    ensures Next(w, BeginStart(number, host, merge, now)) == Some(w.(starting := w.starting[number := copy]))
  {
  }

  lemma StartFinishes(w: World, number: nat, copy: Starting, now: int)
    requires number in w.starting && w.starting[number] == copy
    ensures var jar := Finish(w.store, copy, now);
      Next(w, FinishStart(number, now)) ==
      Some(w.(starting := w.starting - {number},
              started := if jar.None? then w.started else w.started + [Started(jar.value, copy.MergedCopy?)]))
  {
  }

  /** A start that any stops, crashes and other starts overlap: its session gets the copy of
    * its beginning, finished with the tombstones of its end.
    */
  lemma OverlappedStart(w: World, number: nat, host: Option<JarFile>, merge: MergeOutcome, clock: Clock, copy: Starting,
                        during: seq<Step>)
    requires number !in w.starting && Begin(w.store, host, merge, clock.merged) == Some(copy)
    requires forall i :: 0 <= i < |during| ==> !StartsOf(during[i], number)
    requires Execute(w.(starting := w.starting[number := copy]), during).Some?
    ensures Next(w, BeginStart(number, host, merge, clock.merged)) == Some(w.(starting := w.starting[number := copy]))
    ensures var before := Execute(w.(starting := w.starting[number := copy]), during).value;
      var jar := Finish(before.store, copy, clock.applied);
      && Next(before, FinishStart(number, clock.applied)).Some?
      && Next(before, FinishStart(number, clock.applied)).value.started ==
           if jar.None? then before.started else before.started + [Started(jar.value, copy.MergedCopy?)]
  {
    StartBegins(w, number, host, merge, clock.merged, copy);
    var begun := w.(starting := w.starting[number := copy]);
    OthersKeepStart(begun, during, number);
    StartFinishes(Execute(begun, during).value, number, copy, clock.applied);
  }

  /** What is published during a start can only withhold more. */
  lemma LaterTombstonesWithholdMore(store: Store, later: Store, copy: Starting, now: int, row: Row)
    requires Covers(ThroughIn(later), ThroughIn(store))
    requires Finish(store, copy, now).Some? && Finish(later, copy, now).Some?
    requires Holds(Finish(later, copy, now).value.rows, row)
    ensures Holds(Finish(store, copy, now).value.rows, row)
  {
  }

  lemma RecordAgain(through: Tombstones, session: Jar, baseline: Jar)
    ensures Record(Record(through, session, baseline), session, baseline) == Record(through, session, baseline)
  {
    var once := Record(through, session, baseline);
    forall id
      ensures TimeAt(Record(once, session, baseline), id) == TimeAt(once, id)
    {
      RecordAt(through, session, baseline, id);
      RecordAt(once, session, baseline, id);
    }
    SameTimes(Record(once, session, baseline), once);
  }

  lemma {:induction false} NothingPublishedYet(w: World, steps: seq<Step>)
    requires forall i :: 0 <= i < |steps| ==> !Publishes(steps[i])
    ensures Execute(w, steps).Some? ==> Execute(w, steps).value.store == w.store
  {
    if steps != [] {
      NothingPublishedYet(w, steps[..|steps| - 1]);
      assert !Publishes(steps[|steps| - 1]);
    }
  }

  predicate Publishes(step: Step) {
    step.PublishTombstones? || step.PublishJar? || step.RemoveTombstones? || step.ReplaceJar?
  }

  lemma {:induction false} PrefixRuns(w: World, steps: seq<Step>, k: nat)
    requires k <= |steps| && Execute(w, steps).Some?
    ensures Execute(w, steps[..k]).Some?
  {
    if k < |steps| {
      PrefixRuns(w, steps[..|steps| - 1], k);
      assert steps[..|steps| - 1][..k] == steps[..k];
    } else {
      assert steps[..k] == steps;
    }
  }

  /** The two published files after the first `k` steps of a stop that keeps the schema. */
  lemma HalfwayStore(w: World, session: JarFile, baseline: Option<JarFile>, clock: Clock, k: nat)
    requires w.stopping == Unlocked && !SchemaChanged(w.store, session, baseline) && k < 8
    ensures var through := Record(ThroughIn(w.store), session.rows, RowsOf(baseline));
      var halfway := Execute(w, StopSteps(session, baseline, clock, false)[..k]);
      halfway.Some? ==>
        halfway.value.store ==
        if k < 7 then w.store else w.store.(deleted := Some(SavedTombstones(session.schema.keys, through)))
  {
    var steps := StopSteps(session, baseline, clock, false);
    if k < 7 {
      NothingPublishedYet(w, steps[..k]);
    } else {
      TombstonesFirst(w, session, baseline, clock);
    }
  }

  lemma TombstonesFirst(w: World, session: JarFile, baseline: Option<JarFile>, clock: Clock)
    requires w.stopping == Unlocked && !SchemaChanged(w.store, session, baseline)
    ensures var through := Record(ThroughIn(w.store), session.rows, RowsOf(baseline));
      var published := Execute(w, StopSteps(session, baseline, clock, false)[..7]);
      && published.Some?
      && published.value.store == w.store.(deleted := Some(SavedTombstones(session.schema.keys, through)))
  {
    var steps := StopSteps(session, baseline, clock, false);
    var after := Stop(session.schema, ContinuityOf(w.store), Session(session.rows, RowsOf(baseline)), clock);
    var deleted := SavedTombstones(session.schema.keys, after.through);
    var applied := JarFile(session.schema, after.rows);
    UninterruptedStaging(w, session, baseline, clock);
    OneMore(w, steps, 5, w.(temporary := Some(applied), stopping := Applied(deleted)));
    OneMore(w, steps, 6, w.(temporary := Some(applied), pending := Some(deleted), stopping := Written(deleted)));
  }

  /** Tombstones published by a stop that then crashed are the ones it records again. */
  lemma RepeatedAfterTombstones(store: Store, session: JarFile, baseline: Option<JarFile>, clock: Clock)
    requires !SchemaChanged(store, session, baseline)
    ensures var through := Record(ThroughIn(store), session.rows, RowsOf(baseline));
      var crashed := store.(deleted := Some(SavedTombstones(session.schema.keys, through)));
      Persisted(crashed, session, baseline, clock) == Persisted(store, session, baseline, clock)
  {
    RecordAgain(ThroughIn(store), session.rows, RowsOf(baseline));
  }

  /** The jars' schemas agree and only the saved tombstones have other identity columns. */
  predicate OnlyColumnsDiffer(store: Store, session: JarFile, baseline: Option<JarFile>) {
    && store.deleted.Some? && store.deleted.value.columns != session.schema.keys
    && (baseline.Some? ==> baseline.value.schema == session.schema)
    && (store.saved.Some? ==> store.saved.value.schema == session.schema)
  }

  /** A stop that crashed anywhere before its last step can be made again, at any later
    * readings: the files end exactly as if only that stop had been made. The one exception
    * is a stop that replaces the jar only because of the tombstones' identity columns, and
    * crashed after removing the tombstones.
    */
  lemma CrashedStopCanBeRepeatedExactlyWhen(w: World, session: JarFile, baseline: Option<JarFile>, clock: Clock,
                                            k: nat, later: Clock)
    requires w.stopping == Unlocked
    requires k < |StopSteps(session, baseline, clock, SchemaChanged(w.store, session, baseline))|
    ensures var steps := StopSteps(session, baseline, clock, SchemaChanged(w.store, session, baseline));
      var halfway := Execute(w, steps[..k]);
      && halfway.Some? && Next(halfway.value, Crash).Some?
      && var crashed := Next(halfway.value, Crash).value;
         var again := StopSteps(session, baseline, later, SchemaChanged(crashed.store, session, baseline));
         && Execute(crashed, again).Some?
         && (Execute(crashed, again).value.store == Persisted(w.store, session, baseline, later)
             <==> !(k == 3 && OnlyColumnsDiffer(w.store, session, baseline)))
  {
    CrashedFiles(w, session, baseline, clock, k, later);
    var steps := StopSteps(session, baseline, clock, SchemaChanged(w.store, session, baseline));
    UninterruptedStopPersists(Next(Execute(w, steps[..k]).value, Crash).value, session, baseline, later);
  }

  lemma CrashedFiles(w: World, session: JarFile, baseline: Option<JarFile>, clock: Clock, k: nat, later: Clock)
    requires w.stopping == Unlocked
    requires k < |StopSteps(session, baseline, clock, SchemaChanged(w.store, session, baseline))|
    ensures var steps := StopSteps(session, baseline, clock, SchemaChanged(w.store, session, baseline));
      var halfway := Execute(w, steps[..k]);
      && halfway.Some? && Next(halfway.value, Crash) == Some(halfway.value.(stopping := Unlocked))
      && (Persisted(halfway.value.store, session, baseline, later) == Persisted(w.store, session, baseline, later)
          <==> !(k == 3 && OnlyColumnsDiffer(w.store, session, baseline)))
  {
    var replace := SchemaChanged(w.store, session, baseline);
    var steps := StopSteps(session, baseline, clock, replace);
    UninterruptedStopPersists(w, session, baseline, clock);
    PrefixRuns(w, steps, k);
    FailuresPublishNothing(Execute(w, steps[..k]).value);
    if replace {
      HalfwayReplaced(w, session, baseline, clock, k);
      ReplacedFiles(w.store, session, baseline, later);
    } else {
      HalfwayStore(w, session, baseline, clock, k);
      RepeatedAfterTombstones(w.store, session, baseline, later);
    }
  }

  lemma ReplacedFiles(store: Store, session: JarFile, baseline: Option<JarFile>, clock: Clock)
    requires SchemaChanged(store, session, baseline)
    ensures Persisted(store.(deleted := None), session, baseline, clock) == Persisted(store, session, baseline, clock)
      <==> !OnlyColumnsDiffer(store, session, baseline)
  {
  }

  /** The two published files after the first `k` steps of a stop that replaces the jar. */
  lemma HalfwayReplaced(w: World, session: JarFile, baseline: Option<JarFile>, clock: Clock, k: nat)
    requires w.stopping == Unlocked && SchemaChanged(w.store, session, baseline) && k < 4
    ensures var halfway := Execute(w, StopSteps(session, baseline, clock, true)[..k]);
      halfway.Some? ==> halfway.value.store == if k < 3 then w.store else w.store.(deleted := None)
  {
    var steps := StopSteps(session, baseline, clock, true);
    if k < 3 {
      NothingPublishedYet(w, steps[..k]);
    } else {
      NothingPublishedYet(w, steps[..2]);
      assert steps[..3][..2] == steps[..2];
    }
  }

  /** The exception merges where the interrupted stop would have replaced: the saved row is
    * kept, although the session no longer has it.
    */
  lemma RepeatedReplacementMerges(schema: Schema, columns: seq<string>, row: Row, clock: Clock, later: Clock)
    requires columns != schema.keys && !Expired(schema, row, later.merged) && !Expired(schema, row, later.applied)
    ensures
      var saved, session := JarFile(schema, map[row.identity := row]), JarFile(schema, map[]);
      var store := Store(Some(saved), Some(SavedTombstones(columns, map[])));
      var halfway := Execute(Opened(store), StopSteps(session, None, clock, true)[..3]);
      && halfway.Some?
      && Persisted(store, session, None, later) == Store(Some(session), None)
      && Holds(RowsOf(Persisted(halfway.value.store, session, None, later).saved), row)
  {
    var saved, session := JarFile(schema, map[row.identity := row]), JarFile(schema, map[]);
    var store := Store(Some(saved), Some(SavedTombstones(columns, map[])));
    CrashedStopCanBeRepeatedExactlyWhen(Opened(store), session, None, clock, 3, later);
    HalfwayReplaced(Opened(store), session, None, clock, 3);
    var before := Continuity(saved.rows, map[]);
    StopAt(schema, before, Session(map[], map[]), later, row.identity);
    RecordNothing(map[], session.rows);
    assert At(Stop(schema, before, Session(map[], map[]), later).rows, row.identity) == Some(row);
  }

  /** A cookie the session's start gave it and the session no longer has stays gone
    * in the next session, until the host itself has a newer row of it.
    */
  lemma DeletionSticks(store: Store, host: Option<JarFile>, started: Clock, session: JarFile, stopped: Clock,
                       later: Option<JarFile>, restarted: Clock, id: Identity)
    requires StartView(store, host, started).Some?
    requires var baseline := StartView(store, host, started).value;
      && id in baseline.rows && id !in session.rows
      && session.schema == baseline.schema
      && !SchemaChanged(store, session, Some(baseline))
    requires later.Some? ==> later.value.schema == session.schema
    ensures var baseline := StartView(store, host, started).value;
      var view := StartView(Persisted(store, session, Some(baseline), stopped), later, restarted);
      && view.Some?
      && (id in view.value.rows <==>
          && later.Some? && id in later.value.rows
          && baseline.rows[id].updated < later.value.rows[id].updated
          && !Expired(session.schema, later.value.rows[id], restarted.merged)
          && !Expired(session.schema, later.value.rows[id], restarted.applied))
  {
    var baseline := StartView(store, host, started).value;
    var files := Persisted(store, session, Some(baseline), stopped);
    StartHasNewest(store, host, started, id);
    StopWithholds(store, session, baseline, stopped, id);
    RestartShows(files, later, restarted, id);
  }

  lemma StopWithholds(store: Store, session: JarFile, baseline: JarFile, stopped: Clock, id: Identity)
    requires id in baseline.rows && id !in session.rows
    requires !SchemaChanged(store, session, Some(baseline))
    requires !Deleted(ThroughIn(store), baseline.rows[id])
    requires id in RowsOf(store.saved) ==> RowsOf(store.saved)[id].updated <= baseline.rows[id].updated
    ensures var files := Persisted(store, session, Some(baseline), stopped);
      && files.saved.Some? && files.saved.value.schema == session.schema && id !in files.saved.value.rows
      && files.deleted.Some? && files.deleted.value.columns == session.schema.keys
      && TimeAt(files.deleted.value.through, id) == Some(baseline.rows[id].updated)
  {
    var before := ContinuityOf(store);
    var kept := Session(session.rows, baseline.rows);
    RecordAt(before.through, session.rows, baseline.rows, id);
    StopAt(session.schema, before, kept, stopped, id);
    var after := Stop(session.schema, before, kept, stopped);
    assert TimeAt(after.through, id) == Some(baseline.rows[id].updated);
    assert At(after.rows, id) == None;
  }

  lemma RestartShows(files: Store, later: Option<JarFile>, restarted: Clock, id: Identity)
    requires files.saved.Some? && id !in files.saved.value.rows
    requires files.deleted.Some? && files.deleted.value.columns == files.saved.value.schema.keys
    requires id in files.deleted.value.through
    requires later.Some? ==> later.value.schema == files.saved.value.schema
    ensures var schema, view := files.saved.value.schema, StartView(files, later, restarted);
      && view.Some?
      && (id in view.value.rows <==>
          && later.Some? && id in later.value.rows
          && files.deleted.value.through[id] < later.value.rows[id].updated
          && !Expired(schema, later.value.rows[id], restarted.merged)
          && !Expired(schema, later.value.rows[id], restarted.applied))
  {
    if later.Some? {
      NewestAt(later.value.rows, files.saved.value.rows, id);
    }
  }

  /** A row a start shows is newer than its tombstone and no older than the saved row. */
  lemma StartHasNewest(store: Store, host: Option<JarFile>, clock: Clock, id: Identity)
    requires StartView(store, host, clock).Some? && id in StartView(store, host, clock).value.rows
    requires host.Some? && store.saved.Some? ==> host.value.schema == store.saved.value.schema
    ensures var row := StartView(store, host, clock).value.rows[id];
      && !Deleted(ThroughIn(store), row)
      && (id in RowsOf(store.saved) ==> RowsOf(store.saved)[id].updated <= row.updated)
  {
    if host.Some? {
      NewestAt(host.value.rows, RowsOf(store.saved), id);
    }
  }
}
