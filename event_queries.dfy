/** The read side of the event repository (repositories/events_repo.py): the
    date conditions built from the query parameters, the "upcoming" condition
    every listing adds, the listing ordered by `closest_date` and cut into a
    page, the matching count, and the title/location search. Each query is a
    function of the store and of `now`, the instant the clock is read at. */
module EventQueries {
  import opened Wrappers
  import opened Tables
  import opened Clock
  import opened Models

  /** One condition of a `WHERE` clause. Comparisons with `closest_date` are
      false when it is null, as in SQL. */
  datatype Condition =
    | ClosestAtLeast(t: Timestamp)
    | ClosestBefore(t: Timestamp)
    | ClosestAtMost(t: Timestamp)
    | LocationIs(location: Id)
    | CategoryIs(category: Id)

  predicate Satisfies(db: Db, e: Id, c: Condition)
    requires e in db.events.rows
  {
    var closest := ClosestDate(db, e);
    match c
    case ClosestAtLeast(t) => closest.Some? && closest.value >= t
    case ClosestBefore(t) => closest.Some? && closest.value < t
    case ClosestAtMost(t) => closest.Some? && closest.value <= t
    case LocationIs(l) => db.events.rows[e].locationId == l
    case CategoryIs(k) => db.events.rows[e].categoryId == k
  }

  /** `and_(*conditions)`. */
  predicate SatisfiesAll(db: Db, e: Id, cs: seq<Condition>)
    requires e in db.events.rows
  {
    forall i | 0 <= i < |cs| :: Satisfies(db, e, cs[i])
  }

  lemma SatisfiesAllCons(db: Db, e: Id, c: Condition, cs: seq<Condition>)
    requires e in db.events.rows
    ensures SatisfiesAll(db, e, [c] + cs) <==> Satisfies(db, e, c) && SatisfiesAll(db, e, cs)
  {
    var all := [c] + cs;
    if Satisfies(db, e, c) && SatisfiesAll(db, e, cs) {
      forall i | 0 <= i < |all| ensures Satisfies(db, e, all[i]) {
        if i > 0 {
          assert all[i] == cs[i - 1];
        }
      }
    }
    if SatisfiesAll(db, e, all) {
      assert all[0] == c;
      forall i | 0 <= i < |cs| ensures Satisfies(db, e, cs[i]) {
        assert all[i + 1] == cs[i];
      }
    }
  }

  lemma SatisfiesAllPair(db: Db, e: Id, a: Condition, b: Condition)
    requires e in db.events.rows
    ensures SatisfiesAll(db, e, [a, b]) <==> Satisfies(db, e, a) && Satisfies(db, e, b)
  {
    assert [a, b] == [a] + [b];
    assert [b] == [b] + [];
    SatisfiesAllCons(db, e, a, [b]);
    SatisfiesAllCons(db, e, b, []);
  }

  /** `time(hour, 0, 0)` raises `ValueError` for an hour outside 0..23. */
  datatype DateFilterError = HourOutOfRange

  /** `_build_date_filters`: a one-hour window when a date and an hour are
      given (hour 0 included), the whole day for a date alone, the inclusive
      range when there is no date but both range ends are given, and no
      condition otherwise. */
  function DateConditions(date: Option<Date>, dateFrom: Option<Date>, dateTo: Option<Date>, hour: Option<int>)
    : (r: Result<seq<Condition>, DateFilterError>)
    ensures r.Failure? <==> date.Some? && hour.Some? && !(0 <= hour.value <= 23)
    ensures r.Success? ==> |r.value| == (if date.Some? || (dateFrom.Some? && dateTo.Some?) then 2 else 0)
  {
    if date.Some? then
      if hour.Some? then
        if 0 <= hour.value <= 23 then
          var start := Combine(date.value, hour.value, 0, 0, 0);
          Success([ClosestAtLeast(start), ClosestBefore(start + MicrosPerHour)])
        else Failure(HourOutOfRange)
      else
        var start := Combine(date.value, 0, 0, 0, 0);
        Success([ClosestAtLeast(start), ClosestBefore(start + MicrosPerDay)])
    else if dateFrom.Some? && dateTo.Some? then
      Success([ClosestAtLeast(Combine(dateFrom.value, 0, 0, 0, 0)), ClosestAtMost(Combine(dateTo.value, 23, 59, 59, 999_999))])
    else Success([])
  }

  /** What the date conditions select, stated on the calendar: the events whose
      `closest_date` falls in the given hour of the given day, on the given
      day, or on a day of the inclusive range; with no date and an incomplete
      range, every event. */
  lemma DateConditionsMeaning(db: Db, e: Id, date: Option<Date>, dateFrom: Option<Date>, dateTo: Option<Date>, hour: Option<int>)
    requires e in db.events.rows
    requires DateConditions(date, dateFrom, dateTo, hour).Success?
    ensures var cs := DateConditions(date, dateFrom, dateTo, hour).value;
      var c := ClosestDate(db, e);
      && (date.Some? && hour.Some? ==>
            (SatisfiesAll(db, e, cs) <==> c.Some? && DayOf(c.value) == date.value && HourOf(c.value) == hour.value))
      && (date.Some? && hour.None? ==>
            (SatisfiesAll(db, e, cs) <==> c.Some? && DayOf(c.value) == date.value))
      && (date.None? && dateFrom.Some? && dateTo.Some? ==>
            (SatisfiesAll(db, e, cs) <==> c.Some? && dateFrom.value <= DayOf(c.value) <= dateTo.value))
      && (date.None? && (dateFrom.None? || dateTo.None?) ==> cs == [])
  {
    var cs := DateConditions(date, dateFrom, dateTo, hour).value;
    var c := ClosestDate(db, e);
    if |cs| == 2 {
      SatisfiesAllPair(db, e, cs[0], cs[1]);
      assert cs == [cs[0], cs[1]];
    }
    if c.Some? {
      if date.Some? && hour.Some? {
        HourWindow(date.value, hour.value, c.value);
      } else if date.Some? {
        DayOfUnique(date.value, c.value);
      } else if dateFrom.Some? && dateTo.Some? {
        DateRange(dateFrom.value, dateTo.value, c.value);
      }
    }
  }

  /** The conditions every find and count starts with: `closest_date >= now`. */
  function AllConditions(now: Timestamp, cs: seq<Condition>): seq<Condition> {
    [ClosestAtLeast(now)] + cs
  }

  /** The ids among `ids` of events meeting every condition, in their order. */
  function MatchingAmong(db: Db, ids: seq<Id>, cs: seq<Condition>): (r: seq<Id>)
    ensures forall e :: e in r <==> e in ids && e in db.events.rows && SatisfiesAll(db, e, cs)
    ensures |r| <= |ids|
  {
    if ids == [] then []
    else
      var rest := MatchingAmong(db, ids[1..], cs);
      if ids[0] in db.events.rows && SatisfiesAll(db, ids[0], cs) then [ids[0]] + rest else rest
  }

  lemma {:induction false} MatchingAmongDistinct(db: Db, ids: seq<Id>, cs: seq<Condition>)
    requires Distinct(ids)
    ensures Distinct(MatchingAmong(db, ids, cs))
  {
    if ids != [] {
      DistinctTail(ids);
      MatchingAmongDistinct(db, ids[1..], cs);
      if ids[0] in db.events.rows && SatisfiesAll(db, ids[0], cs) {
        DistinctHead(ids);
        DistinctCons(ids[0], MatchingAmong(db, ids[1..], cs));
      }
    }
  }

  /** The unpaginated, unordered selection of `_find_filtered` and `_count_filtered`. */
  function Matching(db: Db, now: Timestamp, cs: seq<Condition>): seq<Id> {
    MatchingAmong(db, db.events.order, AllConditions(now, cs))
  }

  /** An event is selected exactly when it exists, its `closest_date` is not
      null and not before `now`, and it meets every further condition. */
  lemma MatchingMeaning(db: Db, now: Timestamp, cs: seq<Condition>, e: Id)
    requires db.WellFormed()
    ensures e in Matching(db, now, cs) <==>
      e in db.events.rows && ClosestDate(db, e).Some? && ClosestDate(db, e).value >= now && SatisfiesAll(db, e, cs)
  {
    if e in db.events.rows {
      SatisfiesAllCons(db, e, ClosestAtLeast(now), cs);
    }
  }

  /** An event whose earliest date has passed is never listed, even when it
      has later dates that are still to come. */
  lemma PastEarliestNeverListed(db: Db, now: Timestamp, cs: seq<Condition>, e: Id, d: Timestamp)
    requires db.WellFormed()
    requires d in DatesOf(db, e) && d < now
    ensures e !in Matching(db, now, cs)
  {
    MatchingMeaning(db, now, cs, e);
  }

  /** An event with no dates has a null `closest_date` and is never listed. */
  lemma UndatedNeverListed(db: Db, now: Timestamp, cs: seq<Condition>, e: Id)
    requires db.WellFormed()
    requires DatesOf(db, e) == []
    ensures e !in Matching(db, now, cs)
  {
    MatchingMeaning(db, now, cs, e);
  }

  // ---------------------------------------------------------------------------
  // ORDER BY closest_date ASC

  predicate SortedBy(s: seq<Id>, key: Id -> int) {
    forall i, j | 0 <= i < j < |s| :: key(s[i]) <= key(s[j])
  }

  /** Places `x` before the first element whose key is not below its own. */
  function InsertByKey(x: Id, s: seq<Id>, key: Id -> int): (r: seq<Id>)
    requires SortedBy(s, key)
    ensures SortedBy(r, key)
    ensures multiset(r) == multiset(s) + multiset{x}
    ensures r[0] == x || (s != [] && r[0] == s[0])
  {
    if s == [] || key(x) <= key(s[0]) then [x] + s
    else
      var rest := InsertByKey(x, s[1..], key);
      assert s == [s[0]] + s[1..];
      assert key(s[0]) <= key(rest[0]);
      [s[0]] + rest
  }

  /** A stable sort: `s` reordered by ascending key, ties in their original order. */
  function SortByKey(s: seq<Id>, key: Id -> int): (r: seq<Id>)
    ensures SortedBy(r, key)
    ensures multiset(r) == multiset(s)
  {
    if s == [] then []
    else
      assert s == [s[0]] + s[1..];
      InsertByKey(s[0], SortByKey(s[1..], key), key)
  }

  /** The sort key of a selected event; every selected event has a date. */
  function ClosestKey(db: Db, e: Id): Timestamp {
    ClosestDate(db, e).GetOr(0)
  }

  function ByClosest(db: Db): Id -> int {
    (e: Id) => ClosestKey(db, e)
  }

  /** `_find_filtered`: the selection ordered by `closest_date`, then
      `OFFSET offset LIMIT limit`. */
  function FindFiltered(db: Db, now: Timestamp, cs: seq<Condition>, offset: nat, limit: nat): seq<Id> {
    Page(SortByKey(Matching(db, now, cs), ByClosest(db)), offset, limit)
  }

  /** `_count_filtered`: the size of the same selection, without a page. */
  function CountFiltered(db: Db, now: Timestamp, cs: seq<Condition>): nat {
    |Matching(db, now, cs)|
  }

  /** The page holds at most `limit` rows, and exactly as many as the count
      leaves after `offset`. */
  lemma PageSize(db: Db, now: Timestamp, cs: seq<Condition>, offset: nat, limit: nat)
    ensures var page := FindFiltered(db, now, cs, offset, limit);
      var count := CountFiltered(db, now, cs);
      && |page| <= limit
      && |page| == (if offset >= count then 0 else Min(limit, count - offset))
  {
    var all := Matching(db, now, cs);
    var sorted := SortByKey(all, ByClosest(db));
    assert |multiset(sorted)| == |multiset(all)|;
  }

  /** The page is cut from the counted selection. */
  lemma PageInSelection(db: Db, now: Timestamp, cs: seq<Condition>, offset: nat, limit: nat)
    ensures forall e | e in FindFiltered(db, now, cs, offset, limit) :: e in Matching(db, now, cs)
  {
    var all := Matching(db, now, cs);
    var sorted := SortByKey(all, ByClosest(db));
    forall e | e in FindFiltered(db, now, cs, offset, limit) ensures e in all {
      var page := Page(sorted, offset, limit);
      var i :| 0 <= i < |page| && page[i] == e;
      assert sorted[offset + i] == e;
      assert e in multiset(sorted);
    }
  }

  /** The page comes in ascending order of the sort key. */
  lemma PageSorted(db: Db, now: Timestamp, cs: seq<Condition>, offset: nat, limit: nat)
    ensures SortedBy(FindFiltered(db, now, cs, offset, limit), ByClosest(db))
  {
    var sorted := SortByKey(Matching(db, now, cs), ByClosest(db));
    var page := Page(sorted, offset, limit);
    forall i, j | 0 <= i < j < |page| ensures ByClosest(db)(page[i]) <= ByClosest(db)(page[j]) {
      assert page[i] == sorted[offset + i] && page[j] == sorted[offset + j];
    }
  }

  /** The page and the count agree: the page is cut from the counted
      selection, holds at most `limit` rows and exactly as many as the count
      leaves after `offset`, and its rows come in ascending `closest_date`. */
  lemma PageWithinCount(db: Db, now: Timestamp, cs: seq<Condition>, offset: nat, limit: nat)
    ensures var page := FindFiltered(db, now, cs, offset, limit);
      var count := CountFiltered(db, now, cs);
      && |page| <= limit
      && |page| == (if offset >= count then 0 else Min(limit, count - offset))
      && (forall e :: e in page ==> e in Matching(db, now, cs))
      && (forall e :: e in page ==> ClosestDate(db, e).Some? && ClosestDate(db, e).value >= now)
      && (forall i, j | 0 <= i < j < |page| :: ClosestDate(db, page[i]).value <= ClosestDate(db, page[j]).value)
  {
    PageSize(db, now, cs, offset, limit);
    PageInSelection(db, now, cs, offset, limit);
    PageSorted(db, now, cs, offset, limit);
    UpcomingPage(db, now, cs, FindFiltered(db, now, cs, offset, limit));
  }

  /** Rows drawn from the selection are upcoming, and rows sorted by the key
      are sorted by `closest_date`. */
  lemma UpcomingPage(db: Db, now: Timestamp, cs: seq<Condition>, page: seq<Id>)
    requires forall e | e in page :: e in Matching(db, now, cs)
    requires SortedBy(page, ByClosest(db))
    ensures forall e :: e in page ==> ClosestDate(db, e).Some? && ClosestDate(db, e).value >= now
    ensures forall i, j | 0 <= i < j < |page| :: ClosestDate(db, page[i]).value <= ClosestDate(db, page[j]).value
  {
    forall e | e in page ensures ClosestDate(db, e).Some? && ClosestDate(db, e).value >= now {
      assert SatisfiesAll(db, e, AllConditions(now, cs));
      assert Satisfies(db, e, AllConditions(now, cs)[0]);
    }
    forall i, j | 0 <= i < j < |page| ensures ClosestDate(db, page[i]).value <= ClosestDate(db, page[j]).value {
      assert page[i] in page && page[j] in page;
      assert ByClosest(db)(page[i]) <= ByClosest(db)(page[j]);
    }
  }

  /** The ids occurring in `s`. */
  function IdSet(s: seq<Id>): (r: set<Id>)
    ensures forall x :: x in r <==> x in s
  {
    if s == [] then {} else {s[0]} + IdSet(s[1..])
  }

  /** Every id of `s` occurs once in it, so the set of its ids has `|s|` elements. */
  lemma {:induction false} DistinctCard(s: seq<Id>)
    requires Distinct(s)
    ensures |IdSet(s)| == |s|
  {
    if s != [] {
      DistinctTail(s);
      DistinctCard(s[1..]);
      DistinctHead(s);
      assert s[0] !in IdSet(s[1..]);
    }
  }

  /** The count is the number of distinct events that qualify. */
  lemma CountIsNumberOfEvents(db: Db, now: Timestamp, cs: seq<Condition>)
    requires db.WellFormed()
    ensures CountFiltered(db, now, cs) ==
      |set e | e in db.events.rows && SatisfiesAll(db, e, AllConditions(now, cs))|
  {
    var all := Matching(db, now, cs);
    MatchingAmongDistinct(db, db.events.order, AllConditions(now, cs));
    DistinctCard(all);
    assert IdSet(all) == set e | e in db.events.rows && SatisfiesAll(db, e, AllConditions(now, cs));
  }

  // The listing queries of the repository, each page paired with the count
  // that uses the same conditions.

  function FindAll(db: Db, now: Timestamp, offset: nat, limit: nat): seq<Id> {
    FindFiltered(db, now, [], offset, limit)
  }

  function CountAll(db: Db, now: Timestamp): nat {
    CountFiltered(db, now, [])
  }

  function FindByLocation(db: Db, now: Timestamp, location: Id, offset: nat, limit: nat): seq<Id> {
    FindFiltered(db, now, [LocationIs(location)], offset, limit)
  }

  function CountByLocation(db: Db, now: Timestamp, location: Id): nat {
    CountFiltered(db, now, [LocationIs(location)])
  }

  function FindByCategory(db: Db, now: Timestamp, category: Id, offset: nat, limit: nat): seq<Id> {
    FindFiltered(db, now, [CategoryIs(category)], offset, limit)
  }

  function CountByCategory(db: Db, now: Timestamp, category: Id): nat {
    CountFiltered(db, now, [CategoryIs(category)])
  }

  function FindByDateFilter(db: Db, now: Timestamp, date: Option<Date>, dateFrom: Option<Date>, dateTo: Option<Date>,
                            hour: Option<int>, offset: nat, limit: nat): Result<seq<Id>, DateFilterError> {
    var cs :- DateConditions(date, dateFrom, dateTo, hour);
    Success(FindFiltered(db, now, cs, offset, limit))
  }

  function CountByDateFilter(db: Db, now: Timestamp, date: Option<Date>, dateFrom: Option<Date>, dateTo: Option<Date>,
                             hour: Option<int>): Result<nat, DateFilterError> {
    var cs :- DateConditions(date, dateFrom, dateTo, hour);
    Success(CountFiltered(db, now, cs))
  }

  /** `find_all` lists the upcoming events and `count_all` counts them. */
  lemma AllListing(db: Db, now: Timestamp, offset: nat, limit: nat, e: Id)
    requires db.WellFormed()
    ensures e in Matching(db, now, []) <==> e in db.events.rows && ClosestDate(db, e).Some? && ClosestDate(db, e).value >= now
    ensures e in FindAll(db, now, offset, limit) ==> e in Matching(db, now, [])
    ensures |FindAll(db, now, offset, limit)| ==
      (if offset >= CountAll(db, now) then 0 else Min(limit, CountAll(db, now) - offset))
  {
    assert e in Matching(db, now, []) <==> e in db.events.rows && ClosestDate(db, e).Some? && ClosestDate(db, e).value >= now by {
      MatchingMeaning(db, now, [], e);
    }
    assert e in FindAll(db, now, offset, limit) ==> e in Matching(db, now, []) by {
      PageInSelection(db, now, [], offset, limit);
    }
    PageSize(db, now, [], offset, limit);
  }

  /** An event meets a single further condition exactly when it satisfies it. */
  lemma OneConditionMatching(db: Db, now: Timestamp, c: Condition, e: Id)
    requires db.WellFormed()
    ensures e in Matching(db, now, [c]) <==>
      e in db.events.rows && ClosestDate(db, e).Some? && ClosestDate(db, e).value >= now && Satisfies(db, e, c)
  {
    MatchingMeaning(db, now, [c], e);
    if e in db.events.rows {
      SatisfiesAllCons(db, e, c, []);
      assert [c] == [c] + [];
    }
  }

  /** The location listing holds only upcoming events at that location, and
      its count is the number of those. */
  lemma LocationListing(db: Db, now: Timestamp, location: Id, offset: nat, limit: nat, e: Id)
    requires db.WellFormed()
    ensures e in Matching(db, now, [LocationIs(location)]) <==>
      e in db.events.rows && db.events.rows[e].locationId == location
      && ClosestDate(db, e).Some? && ClosestDate(db, e).value >= now
    ensures e in FindByLocation(db, now, location, offset, limit) ==> e in Matching(db, now, [LocationIs(location)])
    ensures |FindByLocation(db, now, location, offset, limit)| ==
      (if offset >= CountByLocation(db, now, location) then 0 else Min(limit, CountByLocation(db, now, location) - offset))
  {
    var cs := [LocationIs(location)];
    assert e in Matching(db, now, cs) <==>
      e in db.events.rows && db.events.rows[e].locationId == location
      && ClosestDate(db, e).Some? && ClosestDate(db, e).value >= now by {
      OneConditionMatching(db, now, LocationIs(location), e);
    }
    assert e in FindFiltered(db, now, cs, offset, limit) ==> e in Matching(db, now, cs) by {
      PageInSelection(db, now, cs, offset, limit);
    }
    assert |FindFiltered(db, now, cs, offset, limit)| ==
      (if offset >= CountFiltered(db, now, cs) then 0 else Min(limit, CountFiltered(db, now, cs) - offset)) by {
      PageSize(db, now, cs, offset, limit);
    }
  }

  /** The category listing holds only upcoming events of that category, and
      its count is the number of those. */
  lemma CategoryListing(db: Db, now: Timestamp, category: Id, offset: nat, limit: nat, e: Id)
    requires db.WellFormed()
    ensures e in Matching(db, now, [CategoryIs(category)]) <==>
      e in db.events.rows && db.events.rows[e].categoryId == category
      && ClosestDate(db, e).Some? && ClosestDate(db, e).value >= now
    ensures e in FindByCategory(db, now, category, offset, limit) ==> e in Matching(db, now, [CategoryIs(category)])
    ensures |FindByCategory(db, now, category, offset, limit)| ==
      (if offset >= CountByCategory(db, now, category) then 0 else Min(limit, CountByCategory(db, now, category) - offset))
  {
    var cs := [CategoryIs(category)];
    assert e in Matching(db, now, cs) <==>
      e in db.events.rows && db.events.rows[e].categoryId == category
      && ClosestDate(db, e).Some? && ClosestDate(db, e).value >= now by {
      OneConditionMatching(db, now, CategoryIs(category), e);
    }
    assert e in FindFiltered(db, now, cs, offset, limit) ==> e in Matching(db, now, cs) by {
      PageInSelection(db, now, cs, offset, limit);
    }
    assert |FindFiltered(db, now, cs, offset, limit)| ==
      (if offset >= CountFiltered(db, now, cs) then 0 else Min(limit, CountFiltered(db, now, cs) - offset)) by {
      PageSize(db, now, cs, offset, limit);
    }
  }

  /** The date listing: a date with an hour selects upcoming events whose
      `closest_date` lies in that hour of that day; the page and the count
      use the same conditions. */
  lemma DateHourListing(db: Db, now: Timestamp, date: Date, dateFrom: Option<Date>, dateTo: Option<Date>, hour: int,
                        offset: nat, limit: nat, e: Id)
    requires db.WellFormed() && 0 <= hour <= 23
    ensures var cs := DateConditions(Some(date), dateFrom, dateTo, Some(hour)).value;
      && (e in Matching(db, now, cs) <==>
            e in db.events.rows && ClosestDate(db, e).Some? && ClosestDate(db, e).value >= now
            && DayOf(ClosestDate(db, e).value) == date && HourOf(ClosestDate(db, e).value) == hour)
      && FindByDateFilter(db, now, Some(date), dateFrom, dateTo, Some(hour), offset, limit) == Success(FindFiltered(db, now, cs, offset, limit))
      && CountByDateFilter(db, now, Some(date), dateFrom, dateTo, Some(hour)) == Success(CountFiltered(db, now, cs))
  {
    var cs := DateConditions(Some(date), dateFrom, dateTo, Some(hour)).value;
    MatchingMeaning(db, now, cs, e);
    if e in db.events.rows {
      DateConditionsMeaning(db, e, Some(date), dateFrom, dateTo, Some(hour));
    }
  }

  /** Only `date_from` or only `date_to` adds no date condition: the listing
      is the plain upcoming listing. */
  lemma HalfRangeIsUnfiltered(db: Db, now: Timestamp, dateFrom: Option<Date>, dateTo: Option<Date>, hour: Option<int>,
                              offset: nat, limit: nat)
    requires dateFrom.None? || dateTo.None?
    ensures FindByDateFilter(db, now, None, dateFrom, dateTo, hour, offset, limit) == Success(FindAll(db, now, offset, limit))
    ensures CountByDateFilter(db, now, None, dateFrom, dateTo, hour) == Success(CountAll(db, now))
  {
  }

  // ---------------------------------------------------------------------------
  // Autocomplete search.

  /** ASCII lower-casing, the part of `ilike`'s case folding this model keeps. */
  function LowerAscii(c: char): char {
    if 'A' <= c <= 'Z' then (c as int + 32) as char else c
  }

  /** `name ILIKE query || '%'`. */
  predicate StartsWithIgnoringCase(name: string, query: string) {
    |query| <= |name| && forall i | 0 <= i < |query| :: LowerAscii(name[i]) == LowerAscii(query[i])
  }

  datatype SearchResult = SearchResult(id: Id, name: string, kind: string)

  const EventKind: string := "event"
  const LocationKind: string := "location"

  function TitleHits(db: Db, ids: seq<Id>, query: string): (r: seq<SearchResult>)
    ensures forall x :: x in r <==>
      x.id in ids && x.id in db.events.rows && x.name == db.events.rows[x.id].title
      && x.kind == EventKind && StartsWithIgnoringCase(x.name, query)
  {
    if ids == [] then []
    else
      var rest := TitleHits(db, ids[1..], query);
      var e := ids[0];
      if e in db.events.rows && StartsWithIgnoringCase(db.events.rows[e].title, query)
      then [SearchResult(e, db.events.rows[e].title, EventKind)] + rest
      else rest
  }

  function NameHits(db: Db, ids: seq<Id>, query: string): (r: seq<SearchResult>)
    ensures forall x :: x in r <==>
      x.id in ids && x.id in db.locations.rows && x.name == db.locations.rows[x.id].name
      && x.kind == LocationKind && StartsWithIgnoringCase(x.name, query)
  {
    if ids == [] then []
    else
      var rest := NameHits(db, ids[1..], query);
      var l := ids[0];
      if l in db.locations.rows && StartsWithIgnoringCase(db.locations.rows[l].name, query)
      then [SearchResult(l, db.locations.rows[l].name, LocationKind)] + rest
      else rest
  }

  /** `search_titles_and_locations`: the event hits, then the location hits. */
  function Search(db: Db, query: string): seq<SearchResult> {
    TitleHits(db, db.events.order, query) + NameHits(db, db.locations.order, query)
  }

  /** Every event whose title starts with the query (ignoring case) is a hit
      tagged "event", every such location a hit tagged "location", there is
      no other hit, and all event hits come before all location hits. */
  lemma SearchMeaning(db: Db, query: string)
    requires db.WellFormed()
    ensures var r := Search(db, query);
      && (forall e :: e in db.events.rows && StartsWithIgnoringCase(db.events.rows[e].title, query) ==>
            SearchResult(e, db.events.rows[e].title, EventKind) in r)
      && (forall l :: l in db.locations.rows && StartsWithIgnoringCase(db.locations.rows[l].name, query) ==>
            SearchResult(l, db.locations.rows[l].name, LocationKind) in r)
      && (forall x :: x in r ==>
            && StartsWithIgnoringCase(x.name, query)
            && ((x.kind == EventKind && x.id in db.events.rows && x.name == db.events.rows[x.id].title) ||
                (x.kind == LocationKind && x.id in db.locations.rows && x.name == db.locations.rows[x.id].name)))
      && (forall i, j | 0 <= i < j < |r| :: r[j].kind == EventKind ==> r[i].kind == EventKind)
  {
    var events := TitleHits(db, db.events.order, query);
    var places := NameHits(db, db.locations.order, query);
    var r := events + places;
    forall i | 0 <= i < |r| ensures (i < |events| ==> r[i].kind == EventKind) && (i >= |events| ==> r[i].kind == LocationKind) {
      if i < |events| {
        assert r[i] == events[i];
      } else {
        assert r[i] == places[i - |events|];
      }
    }
  }
}
