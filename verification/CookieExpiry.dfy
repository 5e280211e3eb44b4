/** Where the promise that stop order does not matter breaks. A stop prunes an expired row
  * before it can hold back an older row of the same identity, so an older row that has not
  * expired can come back; and of tied rows the last stop's is kept. The lemmas say exactly
  * when.
  */
module CookieExpiry {
  import opened Options
  import opened CookieRows
  import opened CookieTable
  import opened CookiePersist

  /** Expired at one of the two readings a stop makes. */
  predicate Aged(schema: Schema, row: Row, clock: Clock) {
    Expired(schema, row, clock.merged) || Expired(schema, row, clock.applied)
  }

  /** Both sessions have a row of one update time, and the saved row is no newer. */
  predicate TiedAtTheTop(saved: Option<Row>, a: Option<Row>, b: Option<Row>) {
    && a.Some? && b.Some? && a.value.updated == b.value.updated
    && (saved.Some? ==> saved.value.updated <= a.value.updated)
  }

  /** The row of the last stop decides, the newest rows being tied or the newest one having
    * expired at the first stop, only where the second stop leaves both sessions' rows alike,
    * or none of either.
    */
  predicate Neutral(schema: Schema, saved: Option<Row>, a: Option<Row>, b: Option<Row>, through: Option<int>,
                    first: Clock, second: Clock)
  {
    var newest := Pick(Pick(a, b), saved);
    TiedAtTheTop(saved, a, b) || (newest.Some? && Aged(schema, newest.value, first)) ==>
      SurvivorBy(schema, a, through, second) == SurvivorBy(schema, b, through, second)
  }

  ghost predicate OrderIsNeutral(schema: Schema, start: Continuity, a: Session, b: Session,
                                 first: Clock, second: Clock)
  {
    var through := Record(Record(start.through, a.jar, a.baseline), b.jar, b.baseline);
    forall id :: NeutralAt(schema, start, a, b, through, first, second, id)
  }

  predicate NeutralAt(schema: Schema, start: Continuity, a: Session, b: Session, through: Tombstones,
                      first: Clock, second: Clock, id: Identity)
  {
    Neutral(schema, At(start.rows, id), At(a.jar, id), At(b.jar, id), TimeAt(through, id), first, second)
  }

  /** What is left of a row after the deletions up to `through` and the pruning. */
  function SurvivorBy(schema: Schema, row: Option<Row>, through: Option<int>, clock: Clock): Option<Row> {
    if
      && row.Some?
      && (through.Some? ==> through.value < row.value.updated)
      && !Aged(schema, row.value, clock)
    then row
    else None
  }

  lemma RecordsCommute(through: Tombstones, a: Session, b: Session)
    ensures Record(Record(through, a.jar, a.baseline), b.jar, b.baseline) ==
            Record(Record(through, b.jar, b.baseline), a.jar, a.baseline)
  {
    var ra, rb := Record(through, a.jar, a.baseline), Record(through, b.jar, b.baseline);
    forall id
      ensures TimeAt(Record(ra, b.jar, b.baseline), id) == TimeAt(Record(rb, a.jar, a.baseline), id)
    {
      RecordAt(through, a.jar, a.baseline, id);
      RecordAt(through, b.jar, b.baseline, id);
      RecordAt(ra, b.jar, b.baseline, id);
      RecordAt(rb, a.jar, a.baseline, id);
    }
    SameTimes(Record(ra, b.jar, b.baseline), Record(rb, a.jar, a.baseline));
  }

  /** The row two stops leave, of the saved row and the rows of the first and last stop. */
  function LeftBy(schema: Schema, saved: Option<Row>, a: Option<Row>, b: Option<Row>, through: Option<int>,
                  first: Clock, second: Clock): Option<Row>
  {
    var earlier := Pick(a, saved);
    if
      && earlier.Some? && (b.Some? ==> b.value.updated < earlier.value.updated)
      && !Aged(schema, earlier.value, first)
    then SurvivorBy(schema, earlier, through, second)
    else SurvivorBy(schema, b, through, second)
  }

  /** Two stops, seen from one identity with its saved row, its two session rows
    * and its tombstone after each stop.
    */
  lemma PickingTwice(schema: Schema, saved: Option<Row>, a: Option<Row>, b: Option<Row>,
                     middle: Option<int>, end: Option<int>, first: Clock, second: Clock)
    requires middle.Some? ==> end.Some? && middle.value <= end.value
    ensures SurvivorBy(schema, Pick(b, SurvivorBy(schema, Pick(a, saved), middle, first)), end, second) ==
            LeftBy(schema, saved, a, b, end, first, second)
  {
  }

  lemma TwoStopsAt(schema: Schema, start: Continuity, a: Session, b: Session, first: Clock, second: Clock, id: Identity)
    ensures var through := Record(Record(start.through, a.jar, a.baseline), b.jar, b.baseline);
      At(Stop(schema, Stop(schema, start, a, first), b, second).rows, id) ==
        LeftBy(schema, At(start.rows, id), At(a.jar, id), At(b.jar, id), TimeAt(through, id), first, second)
  {
    var middle := Stop(schema, start, a, first);
    var end := Stop(schema, middle, b, second);
    StopAt(schema, start, a, first, id);
    StopAt(schema, middle, b, second, id);
    RecordAt(middle.through, b.jar, b.baseline, id);
    SurvivorsAgree(schema, Pick(At(a.jar, id), At(start.rows, id)), middle.through, first, id);
    SurvivorsAgree(schema, Pick(At(b.jar, id), At(middle.rows, id)), end.through, second, id);
    PickingTwice(schema, At(start.rows, id), At(a.jar, id), At(b.jar, id),
                 TimeAt(middle.through, id), TimeAt(end.through, id), first, second);
  }

  lemma SurvivorsAgree(schema: Schema, row: Option<Row>, through: Tombstones, clock: Clock, id: Identity)
    requires row.Some? ==> row.value.identity == id
    ensures Survivor(schema, row, through, clock) == SurvivorBy(schema, row, TimeAt(through, id), clock)
  {
  }

  /** Two stops, the first pruning by the readings of `first` and the second by those of
    * `second` whichever session comes first, commute exactly when no identity has rows the
    * sessions do not share where the last stop's row decides: tied newest rows, or a newest
    * row that expired by the first stop. The state and the four readings are arbitrary.
    */
  lemma TwoStopsCommuteExactlyWhen(schema: Schema, start: Continuity, a: Session, b: Session,
                                   first: Clock, second: Clock)
    ensures Stop(schema, Stop(schema, start, a, first), b, second) ==
            Stop(schema, Stop(schema, start, b, first), a, second)
      <==> OrderIsNeutral(schema, start, a, b, first, second)
  {
    var ab := Stop(schema, Stop(schema, start, a, first), b, second);
    var ba := Stop(schema, Stop(schema, start, b, first), a, second);
    var through := Record(Record(start.through, a.jar, a.baseline), b.jar, b.baseline);
    RecordsCommute(start.through, a, b);
    assert ab.through == ba.through == through;
    forall id
      ensures At(ab.rows, id) == At(ba.rows, id) <==> NeutralAt(schema, start, a, b, through, first, second, id)
    {
      CommuteAt(schema, start, a, b, first, second, id);
    }
    SameByIdentity(ab, ba);
  }

  lemma SameByIdentity(left: Continuity, right: Continuity)
    requires left.through == right.through
    ensures left == right <==> forall id :: At(left.rows, id) == At(right.rows, id)
  {
    if forall id :: At(left.rows, id) == At(right.rows, id) {
      SameEverywhere(left.rows, right.rows);
    }
  }

  lemma CommuteAt(schema: Schema, start: Continuity, a: Session, b: Session, first: Clock, second: Clock, id: Identity)
    ensures var through := Record(Record(start.through, a.jar, a.baseline), b.jar, b.baseline);
      At(Stop(schema, Stop(schema, start, a, first), b, second).rows, id) ==
      At(Stop(schema, Stop(schema, start, b, first), a, second).rows, id)
      <==> NeutralAt(schema, start, a, b, through, first, second, id)
  {
    var through := Record(Record(start.through, a.jar, a.baseline), b.jar, b.baseline);
    var saved, mine, other := At(start.rows, id), At(a.jar, id), At(b.jar, id);
    assert At(Stop(schema, Stop(schema, start, b, first), a, second).rows, id) ==
           LeftBy(schema, saved, other, mine, TimeAt(through, id), first, second) by {
      RecordsCommute(start.through, a, b);
      TwoStopsAt(schema, start, b, a, first, second, id);
    }
    assert At(Stop(schema, Stop(schema, start, a, first), b, second).rows, id) ==
           LeftBy(schema, saved, mine, other, TimeAt(through, id), first, second) by {
      TwoStopsAt(schema, start, a, b, first, second, id);
    }
    LeftAlike(schema, saved, mine, other, TimeAt(through, id), first, second);
  }

  /** What the two orders leave of one identity. */
  lemma LeftAlike(schema: Schema, saved: Option<Row>, a: Option<Row>, b: Option<Row>, through: Option<int>,
                  first: Clock, second: Clock)
    ensures LeftBy(schema, saved, a, b, through, first, second) == LeftBy(schema, saved, b, a, through, first, second)
      <==> Neutral(schema, saved, a, b, through, first, second)
  {
  }

  /** The newest row expired at the first stop, and the second stop keeps the session's. */
  ghost predicate Revived(schema: Schema, start: Continuity, session: Session, first: Clock, second: Clock,
                          id: Identity)
  {
    var newest := Pick(At(session.jar, id), At(start.rows, id));
    && newest.Some? && Aged(schema, newest.value, first)
    && id in session.jar && !Aged(schema, session.jar[id], second)
    && !Deleted(Record(start.through, session.jar, session.baseline), session.jar[id])
  }

  /** The first stop kept the newest row, and it expired by the second. */
  ghost predicate Lapsed(schema: Schema, start: Continuity, session: Session, first: Clock, second: Clock,
                         id: Identity)
  {
    var newest := Pick(At(session.jar, id), At(start.rows, id));
    && newest.Some? && !Aged(schema, newest.value, first) && Aged(schema, newest.value, second)
    && !Deleted(Record(start.through, session.jar, session.baseline), newest.value)
  }

  /** Picking and pruning the same session row again, seen from one identity. */
  lemma PickingAgain(schema: Schema, mine: Option<Row>, saved: Option<Row>, through: Option<int>,
                     first: Clock, second: Clock)
    ensures var newest := Pick(mine, saved);
      var once := SurvivorBy(schema, newest, through, first);
      SurvivorBy(schema, Pick(mine, once), through, second) == once
      <==>
      && !(newest.Some? && Aged(schema, newest.value, first) && SurvivorBy(schema, mine, through, second).Some?)
      && !(once.Some? && Aged(schema, once.value, second))
  {
  }

  lemma StopTwiceAt(schema: Schema, start: Continuity, session: Session, first: Clock, second: Clock, id: Identity)
    ensures var once := Stop(schema, start, session, first);
      At(Stop(schema, once, session, second).rows, id) == At(once.rows, id)
      <==> !Revived(schema, start, session, first, second, id) && !Lapsed(schema, start, session, first, second, id)
  {
    var once := Stop(schema, start, session, first);
    var mine, saved := At(session.jar, id), At(start.rows, id);
    StopAt(schema, start, session, first, id);
    StopAt(schema, once, session, second, id);
    RecordAt(start.through, session.jar, session.baseline, id);
    RecordAt(once.through, session.jar, session.baseline, id);
    SurvivorsAgree(schema, Pick(mine, saved), once.through, first, id);
    SurvivorsAgree(schema, Pick(mine, At(once.rows, id)), Stop(schema, once, session, second).through, second, id);
    PickingAgain(schema, mine, saved, TimeAt(once.through, id), first, second);
  }

  /** Folding the same session in again, at any readings, changes nothing exactly
    * when it revives no row and none lapsed in between.
    */
  lemma StopIsIdempotentExactlyWhen(schema: Schema, start: Continuity, session: Session, first: Clock, second: Clock)
    ensures var once := Stop(schema, start, session, first);
      Stop(schema, once, session, second) == once
      <==> forall id ::
        !Revived(schema, start, session, first, second, id) && !Lapsed(schema, start, session, first, second, id)
  {
    var once := Stop(schema, start, session, first);
    var twice := Stop(schema, once, session, second);
    forall id
      ensures TimeAt(twice.through, id) == TimeAt(once.through, id)
      ensures At(twice.rows, id) == At(once.rows, id) <==>
        !Revived(schema, start, session, first, second, id) && !Lapsed(schema, start, session, first, second, id)
    {
      RecordAt(start.through, session.jar, session.baseline, id);
      RecordAt(once.through, session.jar, session.baseline, id);
      StopTwiceAt(schema, start, session, first, second, id);
    }
    SameTimes(twice.through, once.through);
    SameByIdentity(twice, once);
  }

  /** At one and the same readings only an expired saved row over a live older row of the
    * session is in the way.
    */
  lemma RevivedAtOneReading(schema: Schema, start: Continuity, session: Session, clock: Clock, id: Identity)
    ensures !Lapsed(schema, start, session, clock, clock, id)
    ensures Revived(schema, start, session, clock, clock, id) ==>
      && id in start.rows && Aged(schema, start.rows[id], clock)
      && session.jar[id].updated < start.rows[id].updated
  {
  }

  const SHOP: Schema := Schema(["host_key", "expires_utc", "has_expires"], ["host_key"])
  const AT_SIX: Clock := Clock(6, 6)
  const CART: Identity := [Text("shop.example")]

  /** A cart cookie updated at 10 that expired at 5, and an older one that never expires. */
  const NEWER: Row := Row(CART, 10, 1, 5, [])
  const OLDER: Row := Row(CART, 3, 0, 0, [])

  lemma ExpiryMakesStopOrderMatter()
    ensures
      var start := Continuity(map[], map[]);
      var renewed, stale := Session(map[CART := NEWER], map[]), Session(map[CART := OLDER], map[]);
      var renewedFirst := Stop(SHOP, Stop(SHOP, start, renewed, AT_SIX), stale, AT_SIX);
      var staleFirst := Stop(SHOP, Stop(SHOP, start, stale, AT_SIX), renewed, AT_SIX);
      Holds(renewedFirst.rows, OLDER) && CART !in staleFirst.rows
  {
    var start := Continuity(map[], map[]);
    var renewed, stale := Session(map[CART := NEWER], map[]), Session(map[CART := OLDER], map[]);
    StopAt(SHOP, start, renewed, AT_SIX, CART);
    StopAt(SHOP, Stop(SHOP, start, renewed, AT_SIX), stale, AT_SIX, CART);
    StopAt(SHOP, start, stale, AT_SIX, CART);
    StopAt(SHOP, Stop(SHOP, start, stale, AT_SIX), renewed, AT_SIX, CART);
    var renewedFirst := Stop(SHOP, Stop(SHOP, start, renewed, AT_SIX), stale, AT_SIX);
    assert At(renewedFirst.rows, CART) == Some(OLDER);
  }

  /** Two live rows of one update time: whichever session stops last has its row saved. */
  lemma TiesMakeStopOrderMatter(schema: Schema, row: Row, other: Row, clock: Clock)
    requires row.identity == other.identity && row.updated == other.updated && row != other
    requires !Aged(schema, row, clock) && !Aged(schema, other, clock)
    ensures
      var start, id := Continuity(map[], map[]), row.identity;
      var a, b := Session(map[id := row], map[]), Session(map[id := other], map[]);
      && At(Stop(schema, Stop(schema, start, a, clock), b, clock).rows, id) == Some(other)
      && At(Stop(schema, Stop(schema, start, b, clock), a, clock).rows, id) == Some(row)
  {
    var start, id := Continuity(map[], map[]), row.identity;
    var a, b := Session(map[id := row], map[]), Session(map[id := other], map[]);
    TwoStopsAt(schema, start, a, b, clock, clock, id);
    TwoStopsAt(schema, start, b, a, clock, clock, id);
  }

  lemma ExpiryMakesASecondStopMatter()
    ensures
      var start, stale := Continuity(map[CART := NEWER], map[]), Session(map[CART := OLDER], map[]);
      var once := Stop(SHOP, start, stale, AT_SIX);
      CART !in once.rows && Holds(Stop(SHOP, once, stale, AT_SIX).rows, OLDER)
  {
    var start, stale := Continuity(map[CART := NEWER], map[]), Session(map[CART := OLDER], map[]);
    var once := Stop(SHOP, start, stale, AT_SIX);
    StopAt(SHOP, start, stale, AT_SIX, CART);
    StopAt(SHOP, once, stale, AT_SIX, CART);
    assert At(Stop(SHOP, once, stale, AT_SIX).rows, CART) == Some(OLDER);
  }
}
