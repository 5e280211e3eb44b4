/** Cookie jars and deletion tombstones as values, and what merging, withholding
  * deleted rows and pruning expired rows mean on them.
  *
  * A jar is a map from cookie identity to row: the identity columns carry a
  * unique index, so a jar never holds two rows of one identity.
  */
module CookieRows {
  import opened Options

  /** One column value, as SQLite and the tombstone file store it. */
  datatype CookieKey =
    | Null
    | Integer(integer: int)
    | Real(bits: nat)
    | Text(text: string)
    | Blob(bytes: seq<bv8>)

  type Identity = seq<CookieKey>

  /** A cookie row. `rest` holds the columns nothing here looks at. */
  datatype Row = Row(identity: Identity, updated: int, hasExpires: int, expires: int, rest: seq<CookieKey>)

  type Jar = m: map<Identity, Row> | forall id :: id in m ==> m[id].identity == id
    witness map[]

  /** Per identity, the largest update time a recorded deletion covers. */
  type Tombstones = map<Identity, int>

  datatype Schema = Schema(columns: seq<string>, keys: seq<string>)

  datatype JarFile = JarFile(schema: Schema, rows: Jar)

  predicate Expired(schema: Schema, row: Row, now: int) {
    "expires_utc" in schema.columns &&
    if "has_expires" in schema.columns
    then row.hasExpires != 0 && row.expires <= now
    else 0 < row.expires <= now
  }

  function Prune(schema: Schema, rows: Jar, now: int): Jar {
    map id | id in rows && !Expired(schema, rows[id], now) :: rows[id]
  }

  /** What the clock leaves, in terms of the columns: a row is left exactly when it was there
    * and never expires or expires later; without an expiry column every row is left.
    */
  lemma LeftByTheClock(schema: Schema, rows: Jar, now: int, row: Row)
    ensures Holds(Prune(schema, rows, now), row) <==>
      && row.identity in rows && rows[row.identity] == row
      && ("expires_utc" in schema.columns ==>
            || (if "has_expires" in schema.columns then row.hasExpires == 0 else row.expires <= 0)
            || now < row.expires)
  {
  }

  // ----- merging

  predicate Overtakes(destination: Jar, source: Jar, id: Identity) {
    id in source && (id in destination ==> destination[id].updated < source[id].updated)
  }

  /** The newest row of each identity; on a tie the destination keeps its row. */
  function Newest(destination: Jar, source: Jar): Jar {
    map id | id in destination.Keys + source.Keys ::
      if Overtakes(destination, source, id) then source[id] else destination[id]
  }

  predicate Holds(jar: Jar, row: Row) {
    row.identity in jar && jar[row.identity] == row
  }

  /** The winner is judged without naming how merging works: it is a row of one
    * of the jars, no row of its identity is newer, and a source row never wins a tie.
    */
  ghost predicate IsMerge(destination: Jar, source: Jar, merged: Jar) {
    && merged.Keys == destination.Keys + source.Keys
    && (forall id :: id in merged ==> Holds(destination, merged[id]) || Holds(source, merged[id]))
    && (forall id :: id in merged && id in destination ==> destination[id].updated <= merged[id].updated)
    && (forall id :: id in merged && id in source ==> source[id].updated <= merged[id].updated)
    && (forall id :: id in merged && id in destination ==>
          destination[id].updated == merged[id].updated ==> merged[id] == destination[id])
  }

  lemma NewestIsTheOnlyMerge(destination: Jar, source: Jar, merged: Jar)
    ensures IsMerge(destination, source, merged) <==> merged == Newest(destination, source)
  {
    var newest := Newest(destination, source);
    if IsMerge(destination, source, merged) {
      forall id | id in merged
        ensures merged[id] == newest[id]
      {
        assert Holds(destination, merged[id]) || Holds(source, merged[id]);
      }
    }
  }

  /** One identity at a time, merging picks between at most two rows. */
  function Pick(destination: Option<Row>, source: Option<Row>): Option<Row> {
    if source.Some? && (destination.Some? ==> destination.value.updated < source.value.updated)
    then source
    else destination
  }

  function At(jar: Jar, id: Identity): Option<Row> {
    if id in jar then Some(jar[id]) else None
  }

  lemma NewestAt(a: Jar, b: Jar, id: Identity)
    ensures At(Newest(a, b), id) == Pick(At(a, id), At(b, id))
  {
  }

  lemma SameEverywhere(left: Jar, right: Jar)
    requires forall id :: At(left, id) == At(right, id)
    ensures left == right
  {
    assert forall id :: (id in left <==> At(left, id).Some?) && (id in right <==> At(right, id).Some?);
    assert left.Keys == right.Keys;
    forall id | id in left
      ensures left[id] == right[id]
    {
      assert At(left, id) == At(right, id);
    }
  }

  lemma NewestAssociatesAt(a: Jar, b: Jar, c: Jar, id: Identity)
    ensures At(Newest(Newest(a, b), c), id) == At(Newest(a, Newest(b, c)), id)
  {
    NewestAt(a, b, id);
    NewestAt(b, c, id);
    NewestAt(Newest(a, b), c, id);
    NewestAt(a, Newest(b, c), id);
  }

  lemma NewestAssociates(a: Jar, b: Jar, c: Jar)
    ensures Newest(Newest(a, b), c) == Newest(a, Newest(b, c))
  {
    forall id
      ensures At(Newest(Newest(a, b), c), id) == At(Newest(a, Newest(b, c)), id)
    {
      NewestAssociatesAt(a, b, c, id);
    }
    SameEverywhere(Newest(Newest(a, b), c), Newest(a, Newest(b, c)));
  }

  lemma NewestIsIdempotent(a: Jar, b: Jar)
    ensures Newest(a, a) == a
    ensures Newest(Newest(a, b), b) == Newest(a, b)
    ensures Newest(a, Newest(a, b)) == Newest(a, b)
  {
  }

  ghost predicate TiesAgree(a: Jar, b: Jar) {
    forall id :: id in a && id in b && a[id].updated == b[id].updated ==> a[id] == b[id]
  }

  lemma NewestCommutesExactlyWhenTiesAgree(a: Jar, b: Jar)
    ensures Newest(a, b) == Newest(b, a) <==> TiesAgree(a, b)
  {
    var left, right := Newest(a, b), Newest(b, a);
    assert left.Keys == right.Keys;
    if left == right {
      forall id | id in a && id in b && a[id].updated == b[id].updated
        ensures a[id] == b[id]
      {
        assert left[id] == a[id] && right[id] == b[id];
      }
    }
  }

  // ----- deletions

  predicate Deleted(through: Tombstones, row: Row) {
    row.identity in through && row.updated <= through[row.identity]
  }

  function Withhold(rows: Jar, through: Tombstones): Jar {
    map id | id in rows && !Deleted(through, rows[id]) :: rows[id]
  }

  /** `later` covers every deletion `earlier` covers. */
  ghost predicate Covers(later: Tombstones, earlier: Tombstones) {
    forall id :: id in earlier ==> id in later && earlier[id] <= later[id]
  }

  function Raise(through: Tombstones, id: Identity, time: int): Tombstones {
    through[id := if id in through && time <= through[id] then through[id] else time]
  }

  /** Every baseline row whose identity the session no longer has is a deletion
    * of that row and of everything older.
    */
  function Record(through: Tombstones, session: Jar, baseline: Jar): Tombstones {
    map id | id in through.Keys + (baseline.Keys - session.Keys) ::
      if id in baseline && id !in session && (id in through ==> through[id] < baseline[id].updated)
      then baseline[id].updated
      else through[id]
  }

  ghost predicate IsRecord(through: Tombstones, session: Jar, baseline: Jar, recorded: Tombstones) {
    && Covers(recorded, through)
    && (forall id :: id in baseline && id !in session ==> id in recorded && baseline[id].updated <= recorded[id])
    && (forall id :: id in recorded ==>
        || (id in through && recorded[id] == through[id])
        || (id in baseline && id !in session && recorded[id] == baseline[id].updated))
  }

  lemma RecordIsTheLeastCover(through: Tombstones, session: Jar, baseline: Jar, recorded: Tombstones)
    ensures IsRecord(through, session, baseline, recorded) <==> recorded == Record(through, session, baseline)
  {
    var least := Record(through, session, baseline);
    if IsRecord(through, session, baseline, recorded) {
      assert recorded.Keys == least.Keys;
      forall id | id in recorded
        ensures recorded[id] == least[id]
      {
        if id in baseline && id !in session {
          assert baseline[id].updated <= recorded[id];
        }
      }
    }
  }
}
