/**
 * DataController of src/events.py: a list of Month buckets that routes add,
 * remove and update to the bucket with the event's key, answers get_events, and
 * fills itself at startup from persisted month records or from demo data. Each
 * method is proved against the value-level specification in module Index.
 */
module Controller {
  import opened Wrappers
  import opened Events
  import opened Months
  import opened LoadWindow
  import opened Index

  /** The ids of the events, in order. */
  function Ids(es: seq<Event>): seq<int> {
    seq(|es|, i requires 0 <= i < |es| => es[i].id)
  }

  /** The names of the events, in order. */
  function Names(es: seq<Event>): seq<string> {
    seq(|es|, i requires 0 <= i < |es| => es[i].name)
  }

  /**
   * The body of the startup loop for one admitted record: a new bucket for the
   * record's key, filled with add_event in the record's order, stopping at the
   * first error.
   */
  method NewFilledBucket(data: MonthRecord) returns (bucket: MonthBucket, r: Outcome<CalendarError>)
    ensures fresh(bucket) && bucket.Valid()
    ensures r == AddAll(Bucket(data.month, data.year, []), data.events).ToOutcome()
    ensures r.Pass? ==> bucket.View() == AddAll(Bucket(data.month, data.year, []), data.events).value
  {
    bucket := new MonthBucket(data.month, data.year);
    var k := 0;
    while k < |data.events|
      invariant k <= |data.events|
      invariant bucket.Valid()
      invariant AddAll(Bucket(data.month, data.year, []), data.events) ==
        AddAll(bucket.View(), data.events[k..])
      modifies bucket
    {
      assert data.events[k..][1..] == data.events[k + 1..];
      r := bucket.AddEvent(data.events[k]);
      if r.Fail? {
        return;
      }
      k := k + 1;
    }
    assert data.events[k..] == [];
    r := Pass;
  }

  /** A new bucket for one key holding two events, in order (the shape of each demo month). */
  method NewDemoBucket(month: int, year: int, first: Event, second: Event) returns (bucket: MonthBucket)
    requires first.Month() == month && first.Year() == year
    requires second.Month() == month && second.Year() == year
    requires first.id != second.id
    ensures fresh(bucket) && bucket.Valid()
    ensures bucket.View() == Bucket(month, year, [first, second])
  {
    bucket := new MonthBucket(month, year);
    var _ := bucket.AddEvent(first);
    var _ := bucket.AddEvent(second);
  }

  /** The demo data: keys January to March 2023, with the ids and names of their two events each. */
  predicate DemoContents(demo: seq<Bucket>) {
    |demo| == 3 &&
    demo[0].HasKey(1, 2023) && Ids(demo[0].events) == [1, 4] &&
    Names(demo[0].events) == ["Soccer", "Yoga Class"] &&
    demo[1].HasKey(2, 2023) && Ids(demo[1].events) == [2, 5] &&
    Names(demo[1].events) == ["Basketball", "Team Meeting"] &&
    demo[2].HasKey(3, 2023) && Ids(demo[2].events) == [3, 6] &&
    Names(demo[2].events) == ["Doc Appointment", "Birthday Party"]
  }

  /** The demo bucket for January 2023: the soccer game and the yoga class. */
  method DemoJanuary() returns (bucket: MonthBucket)
    ensures fresh(bucket) && bucket.Valid() && bucket.View().HasKey(1, 2023)
    ensures Ids(bucket.events) == [1, 4] && Names(bucket.events) == ["Soccer", "Yoga Class"]
  {
    var event1 := new Event(1, "Soccer", "Soccer game", Date(2023, 1, 15),
      Some(ClockTime(10, 0)), Some("Stadium"), Some("Sport"), Some("Confirmed"), Some(1),
      Some("Bring water"), Some(Moment(Date(2023, 1, 14), ClockTime(0, 0))));
    var event4 := new Event(4, "Yoga Class", "Morning yoga session", Date(2023, 1, 22),
      Some(ClockTime(7, 0)), Some("Gym"), Some("Health"), Some("Confirmed"), Some(2),
      Some("Bring yoga mat"), Some(Moment(Date(2023, 1, 21), ClockTime(0, 0))));
    assert Ids([event1, event4]) == [1, 4] && Names([event1, event4]) == ["Soccer", "Yoga Class"];
    bucket := NewDemoBucket(1, 2023, event1, event4);
  }

  /** The demo bucket for February 2023: the basketball game and the team meeting. */
  method DemoFebruary() returns (bucket: MonthBucket)
    ensures fresh(bucket) && bucket.Valid() && bucket.View().HasKey(2, 2023)
    ensures Ids(bucket.events) == [2, 5] && Names(bucket.events) == ["Basketball", "Team Meeting"]
  {
    var event2 := new Event(2, "Basketball", "Basketball game", Date(2023, 2, 20),
      Some(ClockTime(18, 0)), Some("Arena"), Some("Sport"), Some("Confirmed"), Some(1),
      Some("Bring water"), Some(Moment(Date(2023, 2, 19), ClockTime(0, 0))));
    var event5 := new Event(5, "Team Meeting", "Monthly team meeting", Date(2023, 2, 10),
      Some(ClockTime(14, 0)), Some("Office"), Some("Work"), Some("Confirmed"), Some(3),
      Some("Prepare slides"), Some(Moment(Date(2023, 2, 9), ClockTime(0, 0))));
    assert Ids([event2, event5]) == [2, 5] && Names([event2, event5]) == ["Basketball", "Team Meeting"];
    bucket := NewDemoBucket(2, 2023, event2, event5);
  }

  /** The demo bucket for March 2023: the doctor's appointment and the birthday party. */
  method DemoMarch() returns (bucket: MonthBucket)
    ensures fresh(bucket) && bucket.Valid() && bucket.View().HasKey(3, 2023)
    ensures Ids(bucket.events) == [3, 6] && Names(bucket.events) == ["Doc Appointment", "Birthday Party"]
  {
    var event3 := new Event(3, "Doc Appointment", "Doctor appointment", Date(2023, 3, 25),
      Some(ClockTime(9, 0)), Some("Clinic"), Some("Health"), Some("Confirmed"), Some(1),
      Some("Bring insurance card"), Some(Moment(Date(2023, 3, 24), ClockTime(0, 0))));
    var event6 := new Event(6, "Birthday Party", "Friend's birthday celebration", Date(2023, 3, 18),
      Some(ClockTime(19, 0)), Some("Restaurant"), Some("Social"), Some("Confirmed"), Some(2),
      Some("Buy a gift"), Some(Moment(Date(2023, 3, 17), ClockTime(0, 0))));
    assert Ids([event3, event6]) == [3, 6] && Names([event3, event6]) == ["Doc Appointment", "Birthday Party"];
    bucket := NewDemoBucket(3, 2023, event3, event6);
  }

  class DataController {
    var months: seq<MonthBucket>
    /** The value of every bucket, in list order. */
    ghost var Contents: seq<Bucket>

    /**
     * Contents is the value of the buckets; the buckets are distinct objects, and
     * each keeps the bucket invariant.
     */
    ghost predicate Valid()
      reads this, months
    {
      |Contents| == |months| &&
      (forall i :: 0 <= i < |months| ==> Contents[i] == months[i].View()) &&
      (forall i, j :: 0 <= i < j < |months| ==> months[i] != months[j]) &&
      AllValid(Contents)
    }

    /** The controller before any startup routine has run: no buckets. */
    constructor ()
      ensures Valid() && months == [] && Contents == []
    {
      months := [];
      Contents := [];
    }

    /** Appends a bucket that is not yet in the list (Python's list append on the bucket list). */
    method AppendBucket(bucket: MonthBucket)
      requires Valid() && bucket.Valid() && bucket !in months
      modifies this
      ensures Valid()
      ensures months == old(months) + [bucket]
      ensures Contents == old(Contents) + [bucket.View()]
    {
      months := months + [bucket];
      Contents := Contents + [bucket.View()];
    }

    /**
     * One admitted record of the startup loop: a new bucket filled from the
     * record, appended only when every event was added.
     */
    method LoadRecord(data: MonthRecord) returns (r: Outcome<CalendarError>)
      requires Valid()
      modifies this
      ensures Valid()
      ensures r == AddAll(Bucket(data.month, data.year, []), data.events).ToOutcome()
      ensures Contents == old(Contents) +
        (if r.Pass? then [AddAll(Bucket(data.month, data.year, []), data.events).value] else [])
    {
      var bucket;
      bucket, r := NewFilledBucket(data);
      if r.Pass? {
        AppendBucket(bucket);
      }
    }

    /** Index of the first bucket with key (month, year), or |months| when there is none. */
    method FindBucketIndex(month: int, year: int) returns (i: nat)
      requires Valid()
      ensures i <= |months|
      ensures FindBucket(Contents, month, year) == if i < |months| then Some(i) else None
    {
      i := 0;
      while i < |months| && !(months[i].month == month && months[i].year == year)
        invariant i <= |months|
        invariant forall j :: 0 <= j < i ==> !Contents[j].HasKey(month, year)
      {
        i := i + 1;
      }
    }

    /** DataController.get_events; it never fails. */
    method GetEvents(month: int, year: int) returns (es: seq<Event>)
      requires Valid()
      ensures es == Lookup(Contents, month, year)
    {
      var i := 0;
      while i < |months|
        invariant i <= |months|
        invariant forall j :: 0 <= j < i ==> !Contents[j].HasKey(month, year)
      {
        if months[i].month == month && months[i].year == year {
          return months[i].events;
        }
        i := i + 1;
      }
      return [];
    }

    /** DataController.add_event. */
    method AddEvent(e: Event) returns (r: Outcome<CalendarError>)
      requires Valid()
      modifies this, months
      ensures Valid()
      ensures r == AddTo(old(Contents), e).ToOutcome()
      ensures Contents == AddTo(old(Contents), e).GetOr(old(Contents))
      ensures |months| >= |old(months)| && months[..|old(months)|] == old(months)
      ensures forall i :: |old(months)| <= i < |months| ==> fresh(months[i])
    {
      var i := FindBucketIndex(e.Month(), e.Year());
      ghost var before := Contents;
      if i < |months| {
        if e in months[i].events {
          return Fail(AlreadyPresent);
        }
        AddToFound(before, e, i);
        r := AddToBucketAt(i, e);
      } else {
        AddToNewKey(before, e);
        var bucket := new MonthBucket(e.Month(), e.Year());
        r := bucket.AddEvent(e);
        AppendBucket(bucket);
      }
    }

    /** Month.add_event on the bucket at position i, which only that bucket's value sees. */
    method AddToBucketAt(i: nat, e: Event) returns (r: Outcome<CalendarError>)
      requires Valid() && i < |months|
      modifies this, months[i]
      ensures Valid() && months == old(months)
      ensures r == Add(old(Contents[i]), e).ToOutcome()
      ensures Contents == old(Contents)[i := Add(old(Contents[i]), e).GetOr(old(Contents[i]))]
    {
      var bucket := months[i];
      r := bucket.AddEvent(e);
      Contents := Contents[i := bucket.View()];
      assert forall j :: 0 <= j < |months| && j != i ==> months[j] != bucket;
    }

    /** Index of the first bucket with the event's key that holds the event object, or |months|. */
    method FindHolderIndex(e: Event) returns (i: nat)
      requires Valid()
      ensures i <= |months|
      ensures Holder(Contents, e) == if i < |months| then Some(i) else None
    {
      i := 0;
      while i < |months| && !(months[i].month == e.Month() && months[i].year == e.Year() && e in months[i].events)
        invariant i <= |months|
        invariant forall j :: 0 <= j < i ==> !(Contents[j].HasKey(e.Month(), e.Year()) && e in Contents[j].events)
      {
        i := i + 1;
      }
    }

    /** DataController.remove_event. */
    method RemoveEvent(e: Event) returns (r: Outcome<CalendarError>)
      requires Valid()
      modifies this, months
      ensures Valid() && months == old(months)
      ensures r == RemoveFrom(old(Contents), e).ToOutcome()
      ensures Contents == RemoveFrom(old(Contents), e).GetOr(old(Contents))
    {
      var i := FindHolderIndex(e);
      if i == |months| {
        return Fail(NotInController);
      }
      var bucket := months[i];
      r := bucket.RemoveEvent(e);
      Contents := Contents[i := bucket.View()];
      assert forall j :: 0 <= j < |months| && j != i ==> months[j] != bucket;
    }

    /** DataController.update_event; it never changes a bucket. */
    method UpdateEvent(e: Event) returns (r: Outcome<CalendarError>)
      requires Valid()
      modifies this, months
      ensures Valid() && months == old(months)
      ensures r == UpdateIn(old(Contents), e).ToOutcome()
      ensures Contents == UpdateIn(old(Contents), e).GetOr(old(Contents))
      ensures Contents == old(Contents)
    {
      ghost var before := Contents;
      UpdateInChangesNothing(before, e);
      var i := FindHolderIndex(e);
      if i == |months| {
        return Fail(NotInController);
      }
      var bucket := months[i];
      r := bucket.UpdateEvent(e);
      assert forall j :: 0 <= j < |months| && j != i ==> months[j] != bucket;
    }

    /**
     * DataController._start_up, given the current month and year and the month
     * records already read and parsed: each falsy document (None) or record outside
     * the window is skipped; every other record becomes a new bucket filled with
     * add_event and appended. The first error stops the load and is reported; the
     * buckets appended before it stay.
     */
    method StartUp(records: seq<Option<MonthRecord>>, currentMonth: int, currentYear: int)
      returns (r: Outcome<CalendarError>)
      requires Valid()
      requires 1 <= currentMonth <= 12
      modifies this
      ensures Valid()
      ensures var loaded := Load(records, Around(currentMonth, currentYear));
        Contents == old(Contents) + loaded.buckets &&
        r == (if loaded.failure.None? then Pass else Fail(loaded.failure.value))
    {
      var window := Around(currentMonth, currentYear);
      ghost var appended: seq<Bucket> := [];
      var n := 0;
      while n < |records|
        invariant n <= |records|
        invariant Valid()
        invariant Contents == old(Contents) + appended
        invariant Load(records, window) ==
          var rest := Load(records[n..], window); Loaded(appended + rest.buckets, rest.failure)
      {
        var record := records[n];
        if record.None? || !Admits(window, record.value.month, record.value.year) {
          LoadSkips(records, n, window);
          n := n + 1;
          continue;
        }
        var added := LoadRecord(record.value);
        if added.Fail? {
          LoadStops(records, n, window);
          return added;
        }
        LoadKeeps(records, n, window);
        ghost var b := AddAll(Bucket(record.value.month, record.value.year, []), record.value.events).value;
        ghost var rest := Load(records[n + 1..], window);
        assert appended + ([b] + rest.buckets) == (appended + [b]) + rest.buckets;
        appended := appended + [b];
        n := n + 1;
      }
      assert records[n..] == [];
      r := Pass;
    }

    /**
     * DataController.demo_start_up: appends three buckets, January to March 2023,
     * holding two fixed events each.
     */
    method DemoStartUp()
      requires Valid()
      modifies this
      ensures Valid()
      ensures |Contents| == |old(Contents)| + 3
      ensures Contents[..|old(Contents)|] == old(Contents)
      ensures DemoContents(Contents[|old(Contents)|..])
    {
      var month1 := DemoJanuary();
      var month2 := DemoFebruary();
      var month3 := DemoMarch();
      ghost var before := Contents;
      AppendBucket(month1);
      AppendBucket(month2);
      AppendBucket(month3);
      assert Contents[|before|..] == [month1.View(), month2.View(), month3.View()];
    }
  }
}
