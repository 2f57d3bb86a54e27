/**
 * What DataController does to its list of buckets, stated on values: routing of
 * add, remove and update to the bucket with the event's key, the lookup behind
 * get_events, and the windowed load of persisted month records at startup.
 */
module Index {
  import opened Wrappers
  import opened Events
  import opened Months
  import opened LoadWindow

  /** The position of the first bucket with key (month, year), if any. */
  function FindBucket(bs: seq<Bucket>, month: int, year: int): (r: Option<nat>)
    ensures r.Some? ==> r.value < |bs| && bs[r.value].HasKey(month, year)
    ensures r.Some? ==> forall j :: 0 <= j < r.value ==> !bs[j].HasKey(month, year)
    ensures r.None? ==> forall j :: 0 <= j < |bs| ==> !bs[j].HasKey(month, year)
  {
    if bs == [] then None
    else if bs[0].HasKey(month, year) then Some(0)
    else match FindBucket(bs[1..], month, year)
      case None => None
      case Some(k) => Some(k + 1)
  }

  /** DataController.get_events: the first matching bucket's events, or none at all. */
  function Lookup(bs: seq<Bucket>, month: int, year: int): (es: seq<Event>)
    ensures (forall j :: 0 <= j < |bs| ==> !bs[j].HasKey(month, year)) ==> es == []
    ensures forall k ::
      (0 <= k < |bs| && bs[k].HasKey(month, year) && forall j :: 0 <= j < k ==> !bs[j].HasKey(month, year))
      ==> es == bs[k].events
  {
    match FindBucket(bs, month, year)
    case None => []
    case Some(k) => bs[k].events
  }

  /** No two buckets share a key. */
  predicate UniqueKeys(bs: seq<Bucket>) {
    forall i, j :: 0 <= i < j < |bs| ==> !bs[j].HasKey(bs[i].month, bs[i].year)
  }

  /** Every bucket keeps the bucket invariant. */
  predicate AllValid(bs: seq<Bucket>) {
    forall i :: 0 <= i < |bs| ==> BucketValid(bs[i])
  }

  /**
   * DataController.add_event: the first bucket with the event's key receives it,
   * unless that bucket already holds this very object; with no such bucket a new
   * bucket is created, the event added to it, and the bucket appended.
   */
  function AddTo(bs: seq<Bucket>, e: Event): (r: Result<seq<Bucket>, CalendarError>)
    ensures r.Failure? ==> r.error == AlreadyPresent || r.error == DuplicateId
    ensures r.Success? ==>
      |bs| <= |r.value| <= |bs| + 1 &&
      forall i :: 0 <= i < |bs| ==> r.value[i].month == bs[i].month && r.value[i].year == bs[i].year
  {
    match FindBucket(bs, e.Month(), e.Year())
    case Some(k) =>
      if e in bs[k].events then Failure(AlreadyPresent)
      else (match Add(bs[k], e)
        case Success(b) => Success(bs[k := b])
        case Failure(err) => Failure(err))
    case None =>
      match Add(Bucket(e.Month(), e.Year(), []), e)
      case Success(b) => Success(bs + [b])
      case Failure(err) => Failure(err)
  }

  /** The position of the first bucket with the event's key that holds the event object. */
  function Holder(bs: seq<Bucket>, e: Event): (r: Option<nat>)
    ensures r.Some? ==> r.value < |bs| && bs[r.value].HasKey(e.Month(), e.Year()) && e in bs[r.value].events
    ensures r.Some? ==> forall j :: 0 <= j < r.value ==> !(bs[j].HasKey(e.Month(), e.Year()) && e in bs[j].events)
    ensures r.None? ==> forall j :: 0 <= j < |bs| ==> !(bs[j].HasKey(e.Month(), e.Year()) && e in bs[j].events)
  {
    if bs == [] then None
    else if bs[0].HasKey(e.Month(), e.Year()) && e in bs[0].events then Some(0)
    else match Holder(bs[1..], e)
      case None => None
      case Some(k) => Some(k + 1)
  }

  /** DataController.remove_event: every bucket with the key is searched; the first holding the event loses it. */
  function RemoveFrom(bs: seq<Bucket>, e: Event): (r: Result<seq<Bucket>, CalendarError>)
    ensures r.Failure? ==> r.error == NotInController
    ensures r.Success? ==>
      |r.value| == |bs| &&
      forall i :: 0 <= i < |bs| ==> r.value[i].month == bs[i].month && r.value[i].year == bs[i].year
  {
    match Holder(bs, e)
    case None => Failure(NotInController)
    case Some(k) =>
      match Remove(bs[k], e)
      case Success(b) => Success(bs[k := b])
      case Failure(err) => Failure(err)
  }

  /** DataController.update_event: the same search as remove, then the bucket's update. */
  function UpdateIn(bs: seq<Bucket>, e: Event): (r: Result<seq<Bucket>, CalendarError>)
    ensures r.Failure? ==> r.error == NotInController
    ensures r.Success? ==> r.value == bs
  {
    match Holder(bs, e)
    case None => Failure(NotInController)
    case Some(k) =>
      match Update(bs[k], e)
      case Success(b) => Success(bs[k := b])
      case Failure(err) => Failure(err)
  }

  /** Two bucket lists with the same keys position by position route every key alike. */
  lemma {:induction false} FindBucketSameKeys(bs: seq<Bucket>, cs: seq<Bucket>, month: int, year: int)
    requires |bs| == |cs|
    requires forall i :: 0 <= i < |bs| ==> bs[i].month == cs[i].month && bs[i].year == cs[i].year
    ensures FindBucket(bs, month, year) == FindBucket(cs, month, year)
  {
    if bs != [] {
      FindBucketSameKeys(bs[1..], cs[1..], month, year);
    }
  }

  /** After a successful add, get_events for the event's key contains the event. */
  lemma AddThenGet(bs: seq<Bucket>, e: Event)
    requires AddTo(bs, e).Success?
    ensures e in Lookup(AddTo(bs, e).value, e.Month(), e.Year())
  {
    var cs := AddTo(bs, e).value;
    match FindBucket(bs, e.Month(), e.Year())
    case Some(k) =>
      FindBucketSameKeys(bs, cs, e.Month(), e.Year());
      assert cs[k].events == bs[k].events + [e];
    case None =>
      var empty := Bucket(e.Month(), e.Year(), []);
      assert !IdTaken(empty.events, e.id);
      assert empty.events + [e] == [e];
      assert cs == bs + [empty.(events := [e])];
      assert cs[|bs|].HasKey(e.Month(), e.Year());
      assert forall j :: 0 <= j < |bs| ==> cs[j] == bs[j];
  }

  /**
   * Add fails exactly when a bucket with the event's key exists and the first
   * such bucket already uses the event's id (which holds in particular when it
   * holds the object itself). It never fails when no bucket has the key.
   */
  lemma AddToFailsIff(bs: seq<Bucket>, e: Event)
    ensures AddTo(bs, e).Failure? <==>
      FindBucket(bs, e.Month(), e.Year()).Some? &&
      IdTaken(bs[FindBucket(bs, e.Month(), e.Year()).value].events, e.id)
  {
    match FindBucket(bs, e.Month(), e.Year())
    case Some(k) =>
      if e in bs[k].events {
        var i :| 0 <= i < |bs[k].events| && bs[k].events[i] == e;
        assert bs[k].events[i].id == e.id;
      }
    case None =>
  }

  /**
   * Add never creates a second bucket for a key: the list grows by one bucket
   * exactly when no bucket had the key, and unique keys stay unique.
   */
  lemma AddKeepsKeysUnique(bs: seq<Bucket>, e: Event)
    requires AddTo(bs, e).Success?
    ensures |AddTo(bs, e).value| == |bs| + (if FindBucket(bs, e.Month(), e.Year()).None? then 1 else 0)
    ensures UniqueKeys(bs) ==> UniqueKeys(AddTo(bs, e).value)
  {
    var cs := AddTo(bs, e).value;
    match FindBucket(bs, e.Month(), e.Year())
    case Some(k) =>
      assert forall i :: 0 <= i < |bs| ==> cs[i].month == bs[i].month && cs[i].year == bs[i].year;
    case None =>
      assert forall i :: 0 <= i < |bs| ==> cs[i] == bs[i];
  }

  /** Add keeps every bucket's invariant. */
  lemma AddToKeepsValid(bs: seq<Bucket>, e: Event)
    requires AllValid(bs)
    requires AddTo(bs, e).Success?
    ensures AllValid(AddTo(bs, e).value)
  {
    match FindBucket(bs, e.Month(), e.Year())
    case Some(k) =>
      Months.AddKeepsValid(bs[k], e);
    case None =>
      Months.AddKeepsValid(Bucket(e.Month(), e.Year(), []), e);
  }

  /** Remove fails exactly when no bucket with the event's key holds the event object. */
  lemma RemoveFailsIff(bs: seq<Bucket>, e: Event)
    ensures RemoveFrom(bs, e).Failure? <==>
      forall j :: 0 <= j < |bs| && bs[j].HasKey(e.Month(), e.Year()) ==> e !in bs[j].events
  {
  }

  /**
   * With valid buckets, a successful remove takes the event out of the first
   * bucket with its key that holds it, keeping that bucket's other events in
   * order, and leaves every other bucket as it was. Since no earlier bucket with
   * the key holds the event, get_events no longer returns it, even when a load
   * has left several buckets with the same key.
   */
  lemma RemoveFromDropsEvent(bs: seq<Bucket>, e: Event)
    requires AllValid(bs)
    requires RemoveFrom(bs, e).Success?
    ensures var cs := RemoveFrom(bs, e).value;
      var k := Holder(bs, e).value;
      |cs| == |bs| && cs[k].HasKey(e.Month(), e.Year()) && e !in cs[k].events &&
      (exists i :: 0 <= i < |bs[k].events| && bs[k].events[i] == e && cs[k].events == Without(bs[k].events, i)) &&
      (forall j :: 0 <= j < |bs| && j != k ==> cs[j] == bs[j]) &&
      AllValid(cs) && e !in Lookup(cs, e.Month(), e.Year())
  {
    var cs := RemoveFrom(bs, e).value;
    var k := Holder(bs, e).value;
    RemoveDropsEvent(bs[k], e);
    assert forall i :: 0 <= i < |bs| ==> cs[i].month == bs[i].month && cs[i].year == bs[i].year;
    FindBucketSameKeys(bs, cs, e.Month(), e.Year());
    var f := FindBucket(bs, e.Month(), e.Year()).value;
    assert f <= k;
    if f != k {
      assert cs[f] == bs[f];
    }
  }

  /**
   * With valid buckets and unique keys, get_events for the event's key after a
   * successful remove is the list before it with the one occurrence of the
   * event taken out, and keys stay unique.
   */
  lemma RemoveThenGet(bs: seq<Bucket>, e: Event)
    requires AllValid(bs) && UniqueKeys(bs)
    requires RemoveFrom(bs, e).Success?
    ensures var cs := RemoveFrom(bs, e).value;
      var before := Lookup(bs, e.Month(), e.Year());
      var after := Lookup(cs, e.Month(), e.Year());
      e !in after && multiset(after) + multiset{e} == multiset(before) &&
      (exists i :: 0 <= i < |before| && before[i] == e && after == Without(before, i)) &&
      AllValid(cs) && UniqueKeys(cs) &&
      |cs| == |bs| && forall j :: 0 <= j < |bs| && !bs[j].HasKey(e.Month(), e.Year()) ==> cs[j] == bs[j]
  {
    var cs := RemoveFrom(bs, e).value;
    var k := Holder(bs, e).value;
    RemoveDropsEvent(bs[k], e);
    assert forall i :: 0 <= i < |bs| ==> cs[i].month == bs[i].month && cs[i].year == bs[i].year;
    FindBucketSameKeys(bs, cs, e.Month(), e.Year());
    assert FindBucket(bs, e.Month(), e.Year()) == Some(k) by {
      var f := FindBucket(bs, e.Month(), e.Year()).value;
      assert f <= k;
      assert !bs[k].HasKey(bs[f].month, bs[f].year) || f == k;
    }
  }

  /**
   * When no bucket has the event's key, add appends a new bucket holding just
   * the event, and get_events for the key returns exactly the event.
   */
  lemma AddToNewKey(bs: seq<Bucket>, e: Event)
    requires FindBucket(bs, e.Month(), e.Year()).None?
    ensures AddTo(bs, e) == Success(bs + [Bucket(e.Month(), e.Year(), [e])])
    ensures Lookup(AddTo(bs, e).value, e.Month(), e.Year()) == [e]
  {
    var empty := Bucket(e.Month(), e.Year(), []);
    assert !IdTaken(empty.events, e.id);
    assert empty.events + [e] == [e];
    assert Add(empty, e) == Success(empty.(events := [e]));
    var cs := bs + [empty.(events := [e])];
    assert cs[|bs|].HasKey(e.Month(), e.Year());
    assert forall j :: 0 <= j < |bs| ==> cs[j] == bs[j];
  }

  /**
   * When a bucket has the event's key, a successful add appends the event to
   * the first such bucket and leaves every other bucket as it was.
   */
  lemma AddToExistingKey(bs: seq<Bucket>, e: Event, k: nat)
    requires FindBucket(bs, e.Month(), e.Year()) == Some(k)
    requires AddTo(bs, e).Success?
    ensures k < |bs| && AddTo(bs, e).value == bs[k := bs[k].(events := bs[k].events + [e])]
  {
  }

  /** When the first bucket with the event's key does not hold the object, add is that bucket's add. */
  lemma AddToFound(bs: seq<Bucket>, e: Event, k: nat)
    requires FindBucket(bs, e.Month(), e.Year()) == Some(k)
    requires k < |bs| && e !in bs[k].events
    ensures AddTo(bs, e).ToOutcome() == Add(bs[k], e).ToOutcome()
    ensures AddTo(bs, e).GetOr(bs) == bs[k := Add(bs[k], e).GetOr(bs[k])]
  {
  }

  /**
   * With valid buckets, an event just added can be removed again, after which
   * get_events for its key no longer contains it.
   */
  lemma AddThenRemove(bs: seq<Bucket>, e: Event)
    requires AllValid(bs)
    requires AddTo(bs, e).Success?
    ensures RemoveFrom(AddTo(bs, e).value, e).Success?
    ensures e !in Lookup(RemoveFrom(AddTo(bs, e).value, e).value, e.Month(), e.Year())
  {
    var cs := AddTo(bs, e).value;
    AddThenGet(bs, e);
    AddToKeepsValid(bs, e);
    var f := FindBucket(cs, e.Month(), e.Year()).value;
    assert cs[f].HasKey(e.Month(), e.Year()) && e in cs[f].events;
    RemoveFailsIff(cs, e);
    RemoveFromDropsEvent(cs, e);
  }

  /**
   * Update can change nothing: it fails exactly when remove would, and otherwise
   * returns the bucket list as it was.
   */
  lemma UpdateInChangesNothing(bs: seq<Bucket>, e: Event)
    ensures UpdateIn(bs, e) == if Holder(bs, e).Some? then Success(bs) else Failure(NotInController)
  {
    match Holder(bs, e)
    case None =>
    case Some(k) =>
      Months.UpdateChangesNothing(bs[k], e);
      assert bs[k := bs[k]] == bs;
  }

  /** A persisted month record, already parsed; its events are already Event objects. */
  datatype MonthRecord = MonthRecord(month: int, year: int, events: seq<Event>)

  /** The bucket a record describes, if its events are taken as they stand. */
  function AsBucket(r: MonthRecord): Bucket {
    Bucket(r.month, r.year, r.events)
  }

  /** Month.add_event applied to each event in turn, stopping at the first failure. */
  function AddAll(b: Bucket, es: seq<Event>): (r: Result<Bucket, CalendarError>)
    ensures r.Failure? ==> r.error == KeyMismatch || r.error == DuplicateId
    ensures r.Success? ==> r.value.HasKey(b.month, b.year) && r.value.events == b.events + es
    decreases |es|
  {
    if es == [] then Success(b)
    else match Add(b, es[0])
      case Failure(err) => Failure(err)
      case Success(c) =>
        assert c.events == b.events + [es[0]];
        assert b.events + es == c.events + es[1..];
        AddAll(c, es[1..])
  }

  /** The buckets a load appended, and the error that stopped it, if one did. */
  datatype Loaded = Loaded(buckets: seq<Bucket>, failure: Option<CalendarError>)

  /**
   * The loop of DataController._start_up: falsy documents (None) and records
   * outside the window are skipped; every other record becomes a bucket filled by
   * add_event, and the first error raised stops the load with the buckets so far.
   */
  function Load(records: seq<Option<MonthRecord>>, w: Span): (l: Loaded)
    ensures |l.buckets| <= |records|
    ensures l.failure.Some? ==> l.failure.value == KeyMismatch || l.failure.value == DuplicateId
    decreases |records|
  {
    if records == [] then Loaded([], None)
    else match records[0]
      case None => Load(records[1..], w)
      case Some(r) =>
        if !Admits(w, r.month, r.year) then Load(records[1..], w)
        else match AddAll(Bucket(r.month, r.year, []), r.events)
          case Failure(err) => Loaded([], Some(err))
          case Success(b) =>
            var rest := Load(records[1..], w);
            Loaded([b] + rest.buckets, rest.failure)
  }

  /** The records the window admits, in order: the independent description of what a load keeps. */
  function Admitted(records: seq<Option<MonthRecord>>, w: Span): (rs: seq<MonthRecord>)
    ensures forall i :: 0 <= i < |rs| ==> Admits(w, rs[i].month, rs[i].year)
    ensures forall i ::
      (0 <= i < |records| && records[i].Some? && Admits(w, records[i].value.month, records[i].value.year)) ==>
      records[i].value in rs
    decreases |records|
  {
    if records == [] then []
    else match records[0]
      case Some(r) =>
        if Admits(w, r.month, r.year) then [r] + Admitted(records[1..], w)
        else Admitted(records[1..], w)
      case None => Admitted(records[1..], w)
  }

  /** The buckets the records describe, in order. */
  function AsBuckets(rs: seq<MonthRecord>): seq<Bucket> {
    seq(|rs|, i requires 0 <= i < |rs| => AsBucket(rs[i]))
  }

  /** Mapping records to buckets commutes with putting one record in front. */
  lemma AsBucketsCons(r: MonthRecord, rs: seq<MonthRecord>)
    ensures AsBuckets([r] + rs) == [AsBucket(r)] + AsBuckets(rs)
  {
    assert forall i :: 0 < i < |rs| + 1 ==> ([r] + rs)[i] == rs[i - 1];
  }

  /** One step of the load: a falsy or out-of-window record at position n is skipped. */
  lemma LoadSkips(records: seq<Option<MonthRecord>>, n: nat, w: Span)
    requires n < |records|
    requires records[n].None? || !Admits(w, records[n].value.month, records[n].value.year)
    ensures Load(records[n..], w) == Load(records[n + 1..], w)
  {
    assert records[n..][0] == records[n] && records[n..][1..] == records[n + 1..];
  }

  /** One step of the load: an admitted record at position n whose bucket cannot be filled stops it. */
  lemma LoadStops(records: seq<Option<MonthRecord>>, n: nat, w: Span)
    requires n < |records| && records[n].Some?
    requires Admits(w, records[n].value.month, records[n].value.year)
    requires AddAll(Bucket(records[n].value.month, records[n].value.year, []), records[n].value.events).Failure?
    ensures Load(records[n..], w) ==
      Loaded([], Some(AddAll(Bucket(records[n].value.month, records[n].value.year, []), records[n].value.events).error))
  {
    assert records[n..][0] == records[n];
  }

  /** One step of the load: an admitted record at position n whose bucket fills up contributes that bucket. */
  lemma LoadKeeps(records: seq<Option<MonthRecord>>, n: nat, w: Span)
    requires n < |records| && records[n].Some?
    requires Admits(w, records[n].value.month, records[n].value.year)
    requires AddAll(Bucket(records[n].value.month, records[n].value.year, []), records[n].value.events).Success?
    ensures var rest := Load(records[n + 1..], w);
      Load(records[n..], w) == Loaded(
        [AddAll(Bucket(records[n].value.month, records[n].value.year, []), records[n].value.events).value]
          + rest.buckets, rest.failure)
  {
    assert records[n..][0] == records[n] && records[n..][1..] == records[n + 1..];
  }

  /**
   * Filling a bucket event by event succeeds exactly when the result would be a
   * valid bucket, and then holds the bucket's events followed by the new ones.
   */
  lemma {:induction false} AddAllSucceedsIff(b: Bucket, es: seq<Event>)
    requires BucketValid(b)
    ensures AddAll(b, es).Success? <==> BucketValid(b.(events := b.events + es))
    ensures AddAll(b, es).Success? ==> AddAll(b, es).value == b.(events := b.events + es)
    decreases |es|
  {
    if es != [] {
      var all := b.events + es;
      AddFailsIff(b, es[0]);
      if Add(b, es[0]).Success? {
        var c := Add(b, es[0]).value;
        Months.AddKeepsValid(b, es[0]);
        AddAllSucceedsIff(c, es[1..]);
        assert c.events + es[1..] == all;
      } else {
        assert !BucketValid(b.(events := all)) by {
          if !Matches(b, es[0]) {
            assert all[|b.events|] == es[0];
          } else {
            var i :| 0 <= i < |b.events| && b.events[i].id == es[0].id;
            assert all[i].id == all[|b.events|].id;
          }
        }
      }
    } else {
      assert b.events + es == b.events;
    }
  }

  /** The load succeeds exactly when every admitted record describes a valid bucket. */
  lemma {:induction false} LoadSucceedsIff(records: seq<Option<MonthRecord>>, w: Span)
    ensures Load(records, w).failure.None? <==>
      forall r :: r in Admitted(records, w) ==> BucketValid(AsBucket(r))
    decreases |records|
  {
    if records != [] {
      LoadSucceedsIff(records[1..], w);
      if records[0].Some? && Admits(w, records[0].value.month, records[0].value.year) {
        var r := records[0].value;
        var empty := Bucket(r.month, r.year, []);
        AddAllSucceedsIff(empty, r.events);
        assert empty.(events := empty.events + r.events) == AsBucket(r);
        assert Admitted(records, w) == [r] + Admitted(records[1..], w);
      }
    }
  }

  /** A load that succeeds yields exactly the admitted records' buckets, in order. */
  lemma {:induction false} LoadYieldsAdmitted(records: seq<Option<MonthRecord>>, w: Span)
    requires Load(records, w).failure.None?
    ensures Load(records, w).buckets == AsBuckets(Admitted(records, w))
    decreases |records|
  {
    if records != [] {
      var tail := records[1..];
      assert records[0..] == records;
      if records[0].Some? && Admits(w, records[0].value.month, records[0].value.year) {
        var r := records[0].value;
        var empty := Bucket(r.month, r.year, []);
        if AddAll(empty, r.events).Failure? {
          LoadStops(records, 0, w);
        }
        LoadKeeps(records, 0, w);
        LoadYieldsAdmitted(tail, w);
        AddAllSucceedsIff(empty, r.events);
        assert empty.(events := empty.events + r.events) == AsBucket(r);
        assert Admitted(records, w) == [r] + Admitted(tail, w);
        AsBucketsCons(r, Admitted(tail, w));
      } else {
        LoadSkips(records, 0, w);
        assert Admitted(records, w) == Admitted(tail, w);
        LoadYieldsAdmitted(tail, w);
      }
    }
  }

  /** Every bucket a load yields, even before a failure, is valid and inside the window. */
  lemma {:induction false} LoadKeepsValid(records: seq<Option<MonthRecord>>, w: Span)
    ensures AllValid(Load(records, w).buckets)
    ensures forall b :: b in Load(records, w).buckets ==> Admits(w, b.month, b.year)
    decreases |records|
  {
    if records != [] {
      LoadKeepsValid(records[1..], w);
      match records[0]
      case None =>
      case Some(r) =>
        if Admits(w, r.month, r.year) {
          var empty := Bucket(r.month, r.year, []);
          AddAllSucceedsIff(empty, r.events);
        }
    }
  }
}
