/** The read schemas of schemas/events.py that the services validate event
    rows against. Every field of a stored event fits its schema type except
    possibly `closest_date`, which is a required datetime: an event without
    dates has a null `closest_date` and is rejected. */
module EventSchemas {
  import opened Wrappers
  import opened Tables
  import opened Clock
  import opened Models
  import opened EventQueries

  /** `EventShort.model_validate(event)`, and likewise `EventFromDB`. */
  predicate EventAccepts(db: Db, e: Id) {
    e in db.events.rows && ClosestDate(db, e).Some?
  }

  /** `closest_date` is set exactly when the event has a date. */
  lemma AcceptedIffDatesOf(db: Db, e: Id)
    ensures EventAccepts(db, e) <==> e in db.events.rows && DatesOf(db, e) != []
  {
  }

  /** An event is accepted exactly when it has at least one date. */
  lemma EventAcceptedIffDated(db: Db, e: Id)
    requires db.WellFormed() && e in db.events.rows
    ensures EventAccepts(db, e) <==> exists k :: k in db.eventDates.rows && db.eventDates.rows[k].eventId == e
  {
    if ClosestDate(db, e).Some? {
      var d := ClosestDate(db, e).value;
      DatesOfMember(db, e, d);
    }
    if exists k :: k in db.eventDates.rows && db.eventDates.rows[k].eventId == e {
      var k :| k in db.eventDates.rows && db.eventDates.rows[k].eventId == e;
      DatesOfMember(db, e, db.eventDates.rows[k].date);
    }
  }

  /** Every event a listing query returns has a `closest_date`, so turning a
      page into `EventShort` items never fails. */
  lemma ListedEventsAccepted(db: Db, now: Timestamp, cs: seq<Condition>, offset: nat, limit: nat)
    ensures forall e :: e in FindFiltered(db, now, cs, offset, limit) ==> EventAccepts(db, e)
  {
    PageWithinCount(db, now, cs, offset, limit);
  }
}
