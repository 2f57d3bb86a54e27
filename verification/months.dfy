/**
 * The Month bucket (class `Month` of src/events.py): the events that share one
 * (month, year) key, in insertion order. `Bucket` is its value; `Add`, `Remove`
 * and `Update` say what each operation does to that value, and the class
 * `MonthBucket` performs them in place.
 */
module Months {
  import opened Wrappers
  import opened Events

  /** The value of a bucket: its key and its events, in order. */
  datatype Bucket = Bucket(month: int, year: int, events: seq<Event>) {
    predicate HasKey(m: int, y: int) {
      month == m && year == y
    }
  }

  /** The event's derived key is the bucket's key. */
  predicate Matches(b: Bucket, e: Event) {
    e.Month() == b.month && e.Year() == b.year
  }

  /** Some event in `es` carries the id `id`. */
  predicate IdTaken(es: seq<Event>, id: int) {
    exists i :: 0 <= i < |es| && es[i].id == id
  }

  predicate DistinctIds(es: seq<Event>) {
    forall i, j :: 0 <= i < j < |es| ==> es[i].id != es[j].id
  }

  /** The bucket invariant: every event has the bucket's key, and ids are pairwise distinct. */
  predicate BucketValid(b: Bucket) {
    (forall i :: 0 <= i < |b.events| ==> Matches(b, b.events[i])) && DistinctIds(b.events)
  }

  /** Month.add_event: reject a foreign key, then a taken id; otherwise append. */
  function Add(b: Bucket, e: Event): (r: Result<Bucket, CalendarError>)
    ensures r.Success? <==> Matches(b, e) && forall x :: x in b.events ==> x.id != e.id
    ensures r.Success? ==>
      r.value.HasKey(b.month, b.year) && |r.value.events| == |b.events| + 1 &&
      r.value.events[..|b.events|] == b.events && r.value.events[|b.events|] == e
  {
    if e.Month() != b.month || e.Year() != b.year then Failure(KeyMismatch)
    else if IdTaken(b.events, e.id) then Failure(DuplicateId)
    else Success(b.(events := b.events + [e]))
  }

  /** The position of the first occurrence of the object `e` in `es`. */
  function IndexOf(es: seq<Event>, e: Event): (i: nat)
    requires e in es
    ensures i < |es| && es[i] == e && e !in es[..i]
  {
    if es[0] == e then 0
    else
      assert e in es[1..];
      var k := IndexOf(es[1..], e);
      assert es[..k + 1] == [es[0]] + es[1..][..k];
      k + 1
  }

  /** The events with position `i` taken out, the others in their former order. */
  function Without(es: seq<Event>, i: nat): (r: seq<Event>)
    requires i < |es|
    ensures |r| == |es| - 1
    ensures forall k :: 0 <= k < i ==> r[k] == es[k]
    ensures forall k :: i <= k < |r| ==> r[k] == es[k + 1]
  {
    es[..i] + es[i + 1..]
  }

  /** Month.remove_event: the object must be present; its first occurrence is dropped. */
  function Remove(b: Bucket, e: Event): (r: Result<Bucket, CalendarError>)
    ensures r.Failure? <==> e !in b.events
    ensures r.Success? ==>
      r.value.HasKey(b.month, b.year) && |r.value.events| == |b.events| - 1 &&
      multiset(r.value.events) + multiset{e} == multiset(b.events)
  {
    if e !in b.events then Failure(NotInMonth)
    else
      var i := IndexOf(b.events, e);
      WithoutMultiset(b.events, i);
      Success(b.(events := Without(b.events, i)))
  }

  /** Month.update_event: the object must be present; it is written over its own first occurrence. */
  function Update(b: Bucket, e: Event): (r: Result<Bucket, CalendarError>)
    ensures r.Failure? <==> e !in b.events
    ensures r.Success? ==> r.value == b
  {
    if e !in b.events then Failure(NotInMonth)
    else
      var i := IndexOf(b.events, e);
      assert b.events[i := e] == b.events;
      Success(b.(events := b.events[i := e]))
  }

  /** Adding keeps the bucket invariant, keeps the earlier events in place and puts `e` last. */
  lemma AddKeepsValid(b: Bucket, e: Event)
    requires BucketValid(b)
    ensures Add(b, e).Success? ==>
      var c := Add(b, e).value;
      BucketValid(c) && c.HasKey(b.month, b.year) && c.events == b.events + [e]
  {
    if Add(b, e).Success? {
      var es := b.events + [e];
      assert !IdTaken(b.events, e.id);
      forall i, j | 0 <= i < j < |es| ensures es[i].id != es[j].id {
        if j == |b.events| {
          assert es[i] == b.events[i];
        }
      }
    }
  }

  /** Add fails exactly when the key differs or the id is taken, and a key mismatch is reported first. */
  lemma AddFailsIff(b: Bucket, e: Event)
    ensures Add(b, e).Failure? <==> !Matches(b, e) || IdTaken(b.events, e.id)
    ensures !Matches(b, e) ==> Add(b, e) == Failure(KeyMismatch)
    ensures Matches(b, e) && IdTaken(b.events, e.id) ==> Add(b, e) == Failure(DuplicateId)
  {
  }

  /** A second event with an id already added is refused, whatever its other fields. */
  lemma SecondIdRejected(b: Bucket, e1: Event, e2: Event)
    requires Add(b, e1).Success?
    requires e2.id == e1.id
    ensures Add(Add(b, e1).value, e2).Failure?
  {
    var c := Add(b, e1).value;
    if Matches(c, e2) {
      assert c.events[|b.events|] == e1;
      assert IdTaken(c.events, e2.id);
    }
  }

  /** In a valid bucket distinct positions hold distinct objects, because they hold distinct ids. */
  lemma DistinctObjects(b: Bucket, i: nat, j: nat)
    requires BucketValid(b)
    requires i < |b.events| && j < |b.events| && i != j
    ensures b.events[i] != b.events[j]
  {
    if i < j {
      assert b.events[i].id != b.events[j].id;
    } else {
      assert b.events[j].id != b.events[i].id;
    }
  }

  /** A position holding `e` with no earlier `e` is the one IndexOf finds. */
  lemma {:induction false} FirstOccurrence(es: seq<Event>, e: Event, i: nat)
    requires i < |es| && es[i] == e && e !in es[..i]
    ensures IndexOf(es, e) == i
  {
    if i > 0 {
      assert es[..i] == [es[0]] + es[1..][..i - 1];
      FirstOccurrence(es[1..], e, i - 1);
    }
  }

  /** Taking one position out of a valid bucket leaves it valid and without that event. */
  lemma WithoutKeepsValid(b: Bucket, i: nat)
    requires BucketValid(b) && i < |b.events|
    ensures BucketValid(b.(events := Without(b.events, i)))
    ensures b.events[i] !in Without(b.events, i)
  {
    var es := Without(b.events, i);
    forall p, q | 0 <= p < q < |es| ensures es[p].id != es[q].id {
      var p' := if p < i then p else p + 1;
      var q' := if q < i then q else q + 1;
      assert es[p] == b.events[p'] && es[q] == b.events[q'] && p' < q';
    }
    forall k | 0 <= k < |es| ensures es[k] != b.events[i] {
      DistinctObjects(b, if k < i then k else k + 1, i);
    }
  }

  /** Taking one position out removes exactly that one occurrence from the multiset of events. */
  lemma WithoutMultiset(es: seq<Event>, i: nat)
    requires i < |es|
    ensures multiset(Without(es, i)) + multiset{es[i]} == multiset(es)
  {
    assert es == es[..i] + [es[i]] + es[i + 1..];
  }

  /**
   * Removing from a valid bucket leaves it valid, with the event gone, one event
   * fewer and the other events in their former relative order.
   */
  lemma RemoveDropsEvent(b: Bucket, e: Event)
    requires BucketValid(b)
    ensures Remove(b, e).Failure? <==> e !in b.events
    ensures Remove(b, e).Success? ==>
      var c := Remove(b, e).value;
      BucketValid(c) && c.HasKey(b.month, b.year) && e !in c.events &&
      (exists i :: 0 <= i < |b.events| && b.events[i] == e && c.events == Without(b.events, i)) &&
      multiset(c.events) + multiset{e} == multiset(b.events)
  {
    if e in b.events {
      var i := IndexOf(b.events, e);
      WithoutKeepsValid(b, i);
      WithoutMultiset(b.events, i);
    }
  }

  /**
   * Update can change nothing: the lookup is by identity, so the object found is
   * the object written back. It fails exactly when the object is absent.
   */
  lemma UpdateChangesNothing(b: Bucket, e: Event)
    ensures Update(b, e) == if e in b.events then Success(b) else Failure(NotInMonth)
  {
    if e in b.events {
      var i := IndexOf(b.events, e);
      assert b.events[i := e] == b.events;
    }
  }

  /** A Month bucket whose event list is changed in place. */
  class MonthBucket {
    const month: int
    const year: int
    var events: seq<Event>

    /** The bucket's current value. */
    function View(): Bucket
      reads this
    {
      Bucket(month, year, events)
    }

    ghost predicate Valid()
      reads this
    {
      BucketValid(View())
    }

    /** A new, empty bucket for the given key (the only way the index creates one). */
    constructor (month: int, year: int)
      ensures View() == Bucket(month, year, []) && Valid()
    {
      this.month := month;
      this.year := year;
      events := [];
    }

    /** Month.add_event; on failure the event list is unchanged. */
    method AddEvent(e: Event) returns (r: Outcome<CalendarError>)
      modifies this
      ensures r == Add(old(View()), e).ToOutcome()
      ensures View() == Add(old(View()), e).GetOr(old(View()))
      ensures old(Valid()) ==> Valid()
    {
      if Valid() { AddKeepsValid(View(), e); }
      if e.Month() != month || e.Year() != year {
        return Fail(KeyMismatch);
      }
      for i := 0 to |events|
        invariant forall j :: 0 <= j < i ==> events[j].id != e.id
      {
        if events[i].id == e.id {
          return Fail(DuplicateId);
        }
      }
      events := events + [e];
      r := Pass;
    }

    /** Searches for the first position holding the object `e`; |events| when there is none. */
    method Find(e: Event) returns (i: nat)
      ensures i <= |events|
      ensures i == |events| <==> e !in events
      ensures i < |events| ==> i == IndexOf(events, e)
    {
      i := 0;
      while i < |events| && events[i] != e
        invariant i <= |events|
        invariant e !in events[..i]
      {
        assert events[..i + 1] == events[..i] + [events[i]];
        i := i + 1;
      }
      if i < |events| {
        FirstOccurrence(events, e, i);
      } else {
        assert events[..i] == events;
      }
    }

    /** Month.remove_event; on failure the event list is unchanged. */
    method RemoveEvent(e: Event) returns (r: Outcome<CalendarError>)
      modifies this
      ensures r == Remove(old(View()), e).ToOutcome()
      ensures View() == Remove(old(View()), e).GetOr(old(View()))
      ensures old(Valid()) ==> Valid()
    {
      if old(Valid()) { RemoveDropsEvent(View(), e); }
      var i := Find(e);
      if i == |events| {
        return Fail(NotInMonth);
      }
      events := Without(events, i);
      r := Pass;
    }

    /** Month.update_event; the found entry is overwritten by the same object. */
    method UpdateEvent(e: Event) returns (r: Outcome<CalendarError>)
      modifies this
      ensures r == Update(old(View()), e).ToOutcome()
      ensures View() == Update(old(View()), e).GetOr(old(View()))
      ensures View() == old(View())
    {
      UpdateChangesNothing(View(), e);
      var i := Find(e);
      if i == |events| {
        return Fail(NotInMonth);
      }
      events := events[i := e];
      r := Pass;
    }
  }
}
