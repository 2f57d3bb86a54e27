# SmartCalendar event index, modelled in Dafny

SmartCalendar keeps a personal calendar in memory as a list of **month buckets**.
Each bucket holds the events that share one (month, year) key. A **data
controller** routes add, remove and update calls to the bucket whose key matches
the event's date, and creates a bucket when an add finds none. It answers
`get_events(month, year)`. At startup it loads the persisted month records that
fall in a five-month window around the current month, or it loads fixed demo data.
This project models `src/events.py` (classes `Events`, `Month` and `DataController`)
and proves the following:
- Every bucket keeps its invariant: each event carries the bucket's key, and ids are pairwise distinct.
- Add, remove and update each fail exactly where the source raises, and leave the state unchanged when they do.
- A load that meets a failing record stops there with that error. The model's controller keeps the buckets appended before it; in Python the error escapes the constructor instead (see "## Left out").
- Add never creates a second bucket for a key that already has one.
- Remove takes the event out and keeps the other events in order.
- Update cannot change anything.
- The startup window always spans the five months centred on the current one, across year boundaries.
- A successful load yields exactly the window's records as buckets.

Files (one module each):

- `wrappers.dfy` (`Wrappers`): `Option`, `Result` and `Outcome`. They stand in for `None` and for raised exceptions.
- `events.dfy` (`Events`): dates, the error kinds, and the class `Event`.
  - Each distinct `ValueError` message gets its own error kind. "event not found in the month" (src/events.py:145, 155) is `NotInMonth`, and "event not found in the DataController" (src/events.py:320, 336) is `NotInController`. The one exception is "event already exists in the month": it is raised at two sites and becomes two kinds, one per site. `DuplicateId` comes from the bucket's id check (src/events.py:134), and `AlreadyPresent` from the controller's identity check (src/events.py:297). The `TypeError` and `KeyError` paths are left out (see "## Left out").
  - `Event` is a class because Python's `Events` has no `__eq__`. Membership, `list.remove` and `list.index` therefore compare object identity. Dafny's reference equality compares the same way.
- `months.dfy` (`Months`): the value of a bucket (`Bucket`), the bucket invariant `BucketValid`, and the pure functions `Add`, `Remove` and `Update` that define the bucket operations.
  - It also holds the lemmas about those functions.
  - The class `MonthBucket` performs the operations in place on `var events: seq<Event>`. Each method is proved equal to its pure function.
- `window.dfy` (`LoadWindow`): the window bounds `Around` and the test that admits a record, `Admits`.
- `index.dfy` (`Index`): what the controller does to its list of buckets, stated on values.
  - Routing: `FindBucket`, `Holder`, `AddTo`, `RemoveFrom`, `UpdateIn` and `Lookup`.
  - The load: `AddAll` and `Load`, with the reference description `Admitted`.
  - The lemmas that connect these definitions.
- `controller.dfy` (`Controller`): the class `DataController`.
  - It holds `var months: seq<MonthBucket>` and a ghost `Contents: seq<Bucket>`. `Valid()` ties `Contents` to the buckets' values.
  - Add, remove, update and startup state their new `Contents` through the `Index` functions `AddTo`, `RemoveFrom`, `UpdateIn` and `Load`.
  - `AppendBucket` states its new `Contents` directly.
  - `DemoStartUp` states the keys, ids and names of the three demo buckets through `DemoContents` in `Controller`.

Points where the code behaves differently from what a reader might expect:

- **Membership compares identity.** `Events` has no `__eq__`, so `in`, `list.remove` and `list.index` compare object identity (src/events.py:144, 154-156, 296, 316, 332). Two events with equal fields are different events.
- **Update changes nothing.** Update looks the object up by identity and writes it back over itself (src/events.py:156-157). `Months.UpdateChangesNothing` and `Index.UpdateInChangesNothing` prove that the state stays as it was.
- **Only falsy and out-of-window records are skipped** (src/events.py:196-199). A record with a missing key, or whose events `add_event` refuses, raises, and nothing catches it. The model skips `None` records and out-of-window records. The first `add_event` error stops the load. The model's controller keeps the buckets appended before it (see "## Left out" for how that differs from Python).
- **The load can create several buckets for one key.** The load appends one bucket per admitted record without looking for an existing one, so two records with the same key give two buckets. `UniqueKeys` is therefore proved to be preserved by add (`Index.AddKeepsKeysUnique`), not established by the load. The remove properties that matter to callers (`Index.RemoveFromDropsEvent`, `Index.AddThenRemove`) hold without it.

Python's `%` floors and Dafny's is Euclidean. With the positive divisor 12 that the window uses, they agree.

## Model

| member | source | states |
|---|---|---|
| `Events.Event.constructor` | src/events.py:6-56 | every field holds the given value; `Month()` and `Year()`, the `get_month` and `get_year` of the source, are the month and year of the event's date |
| `Events.Event.Month` | src/events.py:45-50 | the month of an event's date is a month number in 1..12 |
| `Months.Add` | src/events.py:127-136 | add succeeds exactly when the event has the bucket's month and year and no event in the bucket has its id; a success keeps the key and puts the event after the existing events, which stay as they were |
| `Months.Remove` | src/events.py:137-146 | remove fails exactly when the object is absent; a success keeps the key and leaves one event fewer, the multiset of events losing exactly one occurrence of the event |
| `Months.Update` | src/events.py:147-157 | update fails exactly when the object is absent, and a success returns the bucket as it was |
| `Months.IndexOf` | src/events.py:154-156 | the position found holds the object, and no earlier position does (what `list.index` returns) |
| `Months.FirstOccurrence` | src/events.py:154-156 | any position holding the object with no earlier occurrence is the one `list.index` finds |
| `Months.Without` | src/events.py:146 | taking out one position leaves one element fewer, and the others keep their order |
| `Months.AddKeepsValid` | src/events.py:129-136 | a successful add keeps the bucket invariant, keeps the key, and appends the event after the existing events |
| `Months.SecondIdRejected` | src/events.py:131-134 | after one event is added, any event with the same id is refused |
| `Months.DistinctObjects` | src/events.py:131-136 | in a valid bucket distinct positions hold distinct event objects, because their ids differ |
| `Months.WithoutKeepsValid` | src/events.py:146 | removing one position from a valid bucket keeps it valid and leaves no other occurrence of that event |
| `Months.WithoutMultiset` | src/events.py:146 | removing one position removes exactly that one element from the multiset of events |
| `Months.RemoveDropsEvent` | src/events.py:137-146 | remove fails exactly when the object is absent; otherwise the event is gone, the bucket stays valid, and the rest keep their order and multiplicity |
| `Months.UpdateChangesNothing` | src/events.py:147-157 | update fails exactly when the object is absent, and otherwise returns the bucket unchanged |
| `Months.MonthBucket.constructor` | src/events.py:89-102 | a new bucket has the given key and no events, and is valid |
| `Months.MonthBucket.AddEvent` | src/events.py:122-136 | the result and the new event list are those of `Add`; on failure the list is unchanged; validity is kept |
| `Months.MonthBucket.Find` | src/events.py:154-156 | the loop returns the first position holding the object, or the length when the object is absent |
| `Months.MonthBucket.RemoveEvent` | src/events.py:137-146 | the result and the new event list are those of `Remove`; validity is kept |
| `Months.MonthBucket.UpdateEvent` | src/events.py:147-157 | the result is that of `Update`, and the event list is unchanged |
| `LoadWindow.Around` | src/events.py:179-182 | for every current month in 1..12, both bounds are months in 1..12, the window spans exactly five consecutive months, and the current month is the third |
| `LoadWindow.Admits` | src/events.py:196-198 | the negation of the skip test, comparing (year, month) pairs; an admitted record's year lies between the years of the two bounds |
| `LoadWindow.AdmitsByOrdinal` | src/events.py:196-198 | for month numbers in 1..12, the pairwise (year, month) test equals `start ≤ year*12+month ≤ end` |
| `LoadWindow.AdmitsCentred` | src/events.py:179-198 | a record is loaded exactly when its month is within two months of the current month, including across year boundaries |
| `Index.FindBucket` | src/events.py:294-295 | the position returned has the key, and no earlier bucket has it; None means that no bucket has it |
| `Index.Lookup` | src/events.py:338-348 | `get_events` gives the first bucket with the key, or the empty list when no bucket has it; it never fails |
| `Index.Holder` | src/events.py:314-316 | the position returned is the first bucket that has the event's key and holds the object; None means that no such bucket exists |
| `Index.AddTo` | src/events.py:286-304 | controller add fails only with "already present" or a taken id, never with a key mismatch; a success keeps the key of every existing bucket in place and adds at most one bucket |
| `Index.RemoveFrom` | src/events.py:306-320 | controller remove fails only with "not in the controller"; a success keeps the number of buckets and every bucket's key |
| `Index.UpdateIn` | src/events.py:322-336 | controller update fails only with "not in the controller", and a success returns the bucket list as it was |
| `Index.AddThenGet` | src/events.py:286-304 | after a successful add, `get_events` for the event's key contains the event |
| `Index.AddToFailsIff` | src/events.py:294-303 | controller add fails exactly when a bucket has the event's key and the first such bucket already uses the id; it never fails when no bucket has the key |
| `Index.AddKeepsKeysUnique` | src/events.py:294-304 | add adds a bucket exactly when no bucket had the key, and unique keys stay unique |
| `Index.AddToNewKey` | src/events.py:301-304 | when no bucket has the event's key, add appends one new bucket holding only the event, leaves the others as they were, and `get_events` returns exactly the event |
| `Index.AddToExistingKey` | src/events.py:294-300 | when a bucket has the event's key, a successful add appends the event to the first such bucket and leaves every other bucket as it was |
| `Index.AddToFound` | src/events.py:294-300 | when the first bucket with the event's key does not hold the object, controller add has the outcome of that bucket's add and changes only that bucket |
| `Index.AddToKeepsValid` | src/events.py:286-304 | add keeps every bucket's invariant |
| `Index.RemoveFailsIff` | src/events.py:306-320 | controller remove fails exactly when no bucket with the event's key holds the object |
| `Index.RemoveFromDropsEvent` | src/events.py:306-320 | with valid buckets, a successful remove takes the event out of the first bucket with its key that holds it, keeps that bucket's other events in order, leaves every other bucket unchanged, keeps validity, and `get_events` for the key no longer returns the event, even when several buckets share the key |
| `Index.RemoveThenGet` | src/events.py:306-320 | with valid buckets and unique keys, `get_events` after a successful remove is the list before it with its one occurrence of the event taken out, and keys stay unique |
| `Index.AddThenRemove` | tests/test_events.py:74-78 | with valid buckets, an event just added can be removed, after which `get_events` for its key does not contain it |
| `Index.UpdateInChangesNothing` | src/events.py:322-336 | controller update fails exactly when remove would, and otherwise leaves every bucket as it was |
| `Index.Admitted` | src/events.py:196-199 | the records kept by the filter, in order: every record kept lies inside the window, and every non-falsy record inside the window is kept |
| `Index.AddAll` | src/events.py:200-215 | filling a bucket with `add_event` in record order fails only with a key mismatch or a taken id; a success keeps the key and holds the bucket's events followed by the record's |
| `Index.Load` | src/events.py:187-216 | the loop of `_start_up` appends at most one bucket per record and stops only with a key mismatch or a taken id |
| `Index.AddAllSucceedsIff` | src/events.py:200-215 | filling a bucket event by event succeeds exactly when the filled bucket would be valid, and then holds the events in record order |
| `Index.LoadSucceedsIff` | src/events.py:187-216 | the load succeeds exactly when every admitted record describes a valid bucket |
| `Index.LoadYieldsAdmitted` | src/events.py:187-216 | a successful load yields exactly the admitted records' buckets, in record order |
| `Index.LoadKeepsValid` | src/events.py:187-216 | every bucket a load yields, even one appended before a failure, is valid and inside the window |
| `Controller.NewFilledBucket` | src/events.py:200-215 | the new bucket is fresh and valid; its outcome, and on success its contents, are those of filling it with `add_event` in order |
| `Controller.NewDemoBucket` | src/events.py:256-279 | a demo month built from two events with its key and distinct ids holds exactly those two, in order |
| `Controller.DemoJanuary` | src/events.py:256-273 | the January 2023 demo bucket is valid and holds events 1 and 4 (Soccer, Yoga Class) |
| `Controller.DemoFebruary` | src/events.py:257-276 | the February 2023 demo bucket is valid and holds events 2 and 5 (Basketball, Team Meeting) |
| `Controller.DemoMarch` | src/events.py:258-279 | the March 2023 demo bucket is valid and holds events 3 and 6 (Doc Appointment, Birthday Party) |
| `Controller.DataController.constructor` | src/events.py:160-164 | a new controller has no buckets |
| `Controller.DataController.AppendBucket` | src/events.py:282-284 | appending a valid bucket that is not yet listed keeps the controller valid and adds its value at the end |
| `Controller.DataController.LoadRecord` | src/events.py:200-216 | one admitted record: the outcome is that of `AddAll`, and the filled bucket's value is appended exactly when every event was added |
| `Controller.DataController.FindBucketIndex` | src/events.py:294-295 | the loop stops at the first bucket with the key, as `FindBucket` says |
| `Controller.DataController.GetEvents` | src/events.py:338-348 | the loop returns `Lookup` of the current buckets |
| `Controller.DataController.AddEvent` | src/events.py:286-304 | the outcome and new contents are those of `AddTo`; existing buckets stay in place and a new bucket is fresh |
| `Controller.DataController.AddToBucketAt` | src/events.py:299 | `add_event` on the bucket at one position: the outcome is that of `Add` on its value, and only that position of the contents changes |
| `Controller.DataController.FindHolderIndex` | src/events.py:314-316 | the loop stops at the first bucket that has the key and holds the object, as `Holder` says |
| `Controller.DataController.RemoveEvent` | src/events.py:306-320 | the outcome and new contents are those of `RemoveFrom`; the bucket list itself is unchanged |
| `Controller.DataController.UpdateEvent` | src/events.py:322-336 | the outcome is that of `UpdateIn`, and the contents are unchanged |
| `Controller.DataController.StartUp` | src/events.py:167-216 | the buckets appended and the error reported are those of `Load` on the window around the current month |
| `Controller.DataController.DemoStartUp` | src/events.py:250-284 | three valid buckets for January to March 2023, with the demo events' ids and names, are appended after the existing ones |

## Left out

- Reading and writing the storage directory is not modelled. That covers `os.listdir`, `open`, `yaml.safe_load` and `yaml.dump` (src/events.py:173, 187-192, 223-248). These are foreign calls. The load takes the already-parsed documents as a sequence of `Option<MonthRecord>`, in whatever order the directory listing would give them. `None` stands for a falsy document.
- The filter on the `.yaml` file suffix (src/events.py:189) belongs to the directory listing and is not modelled.
- `DataController.shut_down` (src/events.py:218-248) is not modelled. It formats each bucket and writes it to a file named only by the bucket's month and year (src/events.py:225-227), so it has no logic apart from that I/O. When a load has left two buckets with the same key, both are written to the same file, and the later one overwrites the earlier. That loss is not modelled.
- `datetime.datetime.now()` (src/events.py:174) is nondeterministic. `StartUp` takes the current month and year as parameters instead.
- `DataController.__init__` (src/events.py:160-165) runs `_start_up` at once. The model separates these: a constructor that creates no buckets, followed by `StartUp`. In Python, `_start_up` runs only inside `__init__`, and nothing catches the `ValueError` of a failing record. So `DataController()` raises, and no caller ever sees the partial bucket list. The model's `StartUp` instead returns `Fail` on a controller that stays usable and keeps the buckets appended before the failure.
- Conversion from text is not modelled: `strptime` (src/events.py:206-213) and the date and time formatting (`print_date`, `print_time`, `strftime`). The model carries dates as values.
- Display-only code is not modelled: `print_event`, `__str__`, `__repr__`, console output and the `__main__` block.
- The `type(event) is not Events` checks cannot fail under Dafny's static typing.
- A persisted record with missing keys raises `KeyError` in the source. The model's records are typed, so that error path is not modelled.
- `Events.Event`: the fields are constants. The index never assigns to them, but a Python caller could mutate an event that sits in a bucket, and so break the bucket invariant. That is not captured.
- `Events.Event`: `event_time` is kept as a clock time only. The source stores a full `datetime`, but only its time of day is ever formatted.
- `Months.MonthBucket.constructor` does not take the optional initial event list of `Month.__init__` (src/events.py:92, 102). No caller in the core passes one.
- `Controller.DataController.GetEvents` returns the bucket's event list as a value. Python returns the live list, which a caller could then mutate in place.
