# Meeting-room reservation service — a Dafny model

The service answers four requests over two tables held by a REST table store:
`meeting_rooms` (id, room number, capacity, a free-text `meeting_level` tag,
leader priority) and `reservations` (id, room id, title, start, end, reserved by).

- **Available rooms.** A provincial meeting (`省公司会议`) first looks for rooms
  whose tag equals `省公司会议（不可兼容总部会议）`. It falls back to rooms whose tag
  contains `可兼容省公司会议` only when no exclusive room is free. A headquarters
  meeting (`总部会议`) uses only the compatible rooms. Every candidate needs
  `capacity >= requested`, and it is kept only when no reservation of that room
  overlaps the half-open interval `[start, end)`. Any other level is an error.
- **Room details.** Returns the first room with the given id.
- **Reserve.** Finds the room, checks for conflicts again, inserts one row, and
  returns the id of the first row in the store's reply, or 0.
- **Cancel.** Checks that the reservation id exists, then deletes it.

In the model, the store is an in-memory object, `Service.ReservationStore`. It
has sequence fields for the two tables and a counter that stands for the
store's id sequence. Each filter the service sends as a query string is a
function over a table: `Conflicts`, `RoomById`, `ReservationsWithId` and
`WithoutId` in module `Tables`, and the room query `Candidates` in module
`Availability`. The shape of the store's reply to an insert is a parameter of
the reservation endpoint, because the service does not control it. The availability
loop is the method `CollectFree`. It is proved against the function
`FreeRooms`, and the resolver's guarantees are lemmas about `Available`.
Reserving and cancelling change the tables in place. Both keep the store
invariant `Valid()`: ids are positive, below the counter and unique, and no two
reservations of one room overlap.

Timestamps are the strings the requests carry. The model compares them in
lexicographic code-point order (`Timestamps.Before`). For timestamps written in
one fixed ISO-8601 format and zone, at one precision, this is the same as order
in time. The model proves that this order is a strict total order. A field is "missing" when Python
treats it as falsy: an empty string, or a capacity or room id of 0.

Three behaviours of the code worth knowing, which the model keeps:
- The code rejects only a capacity of 0. A negative capacity passes and makes
  every room large enough.
- The code does not check that `start < end`. An inverted interval can still be
  booked, and it still conflicts with any existing reservation that the filter
  matches.
- The cancellation endpoint takes the id from the request body only.

## Model

| member | source | states |
|---|---|---|
| `Timestamps.Before` | app/main.py:91 | the store's `lt`/`gt` comparison of two timestamps, as lexicographic code-point order (a strict total order by the three lemmas below) |
| `Timestamps.BeforeIrreflexive` | app/main.py:91 | no timestamp sorts before itself, so the `lt`/`gt` filters never match equal boundaries |
| `Timestamps.BeforeTransitive` | app/main.py:91 | the store's timestamp order is transitive |
| `Timestamps.BeforeTotal` | app/main.py:91 | any two timestamps are equal or ordered one way or the other |
| `Tags.Contains` | app/main.py:103 | the `like.*p*` filter with no wildcard in the pattern: the pattern occurs somewhere in the tag (characterised by `ContainsIffOccurs`) |
| `Tags.ContainsIffOccurs` | app/main.py:103 | the `like.*可兼容省公司会议*` filter holds exactly when the pattern occurs at some position of the tag |
| `Tags.ExclusiveTagIsNotCompatible` | app/main.py:80 | the exclusive tag `省公司会议（不可兼容总部会议）` does not contain `可兼容省公司会议` |
| `Tables.Overlaps` | app/main.py:91 | the half-open conflict filter `start_time=lt.{end}&end_time=gt.{start}`, both comparisons strict (its meaning is stated by `SharedInstantOverlaps`, `OverlapsShareInstant` and `BackToBackNeverConflicts`) |
| `Tables.SharedInstantOverlaps` | app/main.py:210 | two intervals that share an instant always match the conflict filter |
| `Tables.OverlapsShareInstant` | app/main.py:210 | for non-empty intervals, a conflict-filter match means the two intervals share an instant |
| `Tables.BackToBackNeverConflicts` | app/main.py:210 | a request starting at an existing booking's end, or ending at its start, never conflicts with it |
| `Tables.Conflicts` | app/main.py:210 | the conflict query returns exactly the reservations of that room whose interval overlaps the request |
| `Tables.IsFree` | app/main.py:213-216 | an empty conflict query means no reservation of the room overlaps the interval, and the converse |
| `Tables.RoomById` | app/main.py:198-205 | finds nothing exactly when no room has the id; otherwise returns the first row with that id |
| `Tables.ReservationsWithId` | app/main.py:281-288 | the lookup returns exactly the reservations with that id |
| `Tables.WithoutId` | app/main.py:296 | the delete removes the rows with the id; every other row stays, with its multiplicity |
| `Tables.UniqueIdsMatchAtMostOne` | app/main.py:281 | when ids are a key, the id lookup returns at most one row |
| `Tables.DeleteExistingRemovesOne` | app/main.py:296 | deleting an existing id removes exactly one row |
| `Tables.DeleteKeepsUniqueIds` | app/main.py:296 | deleting keeps ids a key |
| `Tables.DeleteKeepsNoDoubleBooking` | app/main.py:296 | deleting never creates overlapping reservations of one room |
| `Tables.CheckedInsertKeepsNoDoubleBooking` | app/main.py:210-236 | inserting a row whose conflict query was empty keeps "no two reservations of a room overlap" |
| `Tables.FreshInsertKeepsUniqueIds` | app/main.py:236-241 | appending a row whose id exceeds every existing id keeps ids a key |
| `Availability.HasRequired` | app/main.py:70 | the availability request's falsy check: a non-zero capacity and non-empty level, start and end |
| `Availability.InPool` | app/main.py:80-125 | the exclusive pool matches the tag by equality and the compatible pool by substring (disjoint by `PoolsDisjoint`) |
| `Availability.PoolsDisjoint` | app/main.py:80 | no room is in both the exclusive and the compatible pool |
| `Availability.Candidates` | app/main.py:80 | the room query returns exactly the rooms with enough capacity that pass the pool's tag filter |
| `Availability.FreeRooms` | app/main.py:88-97 | every result comes from a candidate with no conflicting reservation, and every such candidate is in the result |
| `Availability.NoFreeCandidate` | app/main.py:101-102 | when every candidate has a conflict, the pass finds nothing, so the fallback runs |
| `Availability.Available` | app/main.py:63-153 | missing fields give a missing-parameters error; an unknown level gives an invalid-level error; otherwise the reply succeeds |
| `Availability.OfferedRoomsQualify` | app/main.py:78-142 | every offered room exists, has enough capacity, is eligible for the level and has no overlapping reservation |
| `Availability.BookedRoomNeverOffered` | app/main.py:91 | a room with a reservation overlapping the request is never offered |
| `Availability.ProvincialPrefersExclusive` | app/main.py:78-102 | if any exclusive room is free, a provincial request gets exactly the free, large-enough exclusive rooms, so every free exclusive room and only exclusive rooms |
| `Availability.ProvincialFallsBackToCompatible` | app/main.py:101-120 | if no exclusive room is free, a provincial request gets every free, large-enough compatible room |
| `Availability.HeadquartersUsesCompatiblePoolOnly` | app/main.py:124-142 | a headquarters request gets exactly the free, large-enough compatible rooms, so never an exclusive-tagged room |
| `Service.CreatedId` | app/main.py:239-244 | the extraction rule itself: the first listed row's `id`, or 0 for any other reply; what it means for the reported id is stated by `ReportedIdIsNewRowOrZero` and by `Reserve` (the new row's id or 0) |
| `Service.ReportedIdIsNewRowOrZero` | app/main.py:233-244 | whatever shape the store's reply takes, the reported id is the new row's id or 0, and it is the row's id exactly when the reply lists the row with its id |
| `Service.ReserveHasRequired` | app/main.py:190 | the reservation request's falsy check: a non-zero room id and non-empty title, start, end and requester |
| `Service.ReserveDecision` | app/main.py:189-216 | admits a request exactly when its fields are present, the room exists and no reservation of the room overlaps; otherwise gives the matching error |
| `Service.OverlappingRequestRejected` | app/main.py:210-216 | a request overlapping an existing reservation of its room is never admitted |
| `Service.BackToBackRequestAdmitted` | app/main.py:210-216 | a request for an existing room whose bookings all end at its start or begin at its end is admitted |
| `Service.RoomFiveBookings` | app/main.py:181-244 | on a fresh store holding room 5, booking [09:00,10:00) succeeds with id 1, an immediate [09:30,10:30) is refused as taken, and [10:00,11:00) succeeds with id 2 |
| `Service.ReservationStore.CollectFree` | app/main.py:88-97 | the loop over the candidates collects exactly `FreeRooms` of them, in order |
| `Service.ReservationStore.AvailableRooms` | app/main.py:63-153 | the endpoint returns exactly `Available` of the current tables and reads nothing else |
| `Service.ReservationStore.RoomDetails` | app/main.py:156-178 | succeeds exactly when some room has the id and returns the first such row; otherwise reports "not found" |
| `Service.ReservationStore.Insert` | app/main.py:229-239 | the store appends the row with the next id and answers in the shape it chooses, listing no id other than that one |
| `Service.ReservationStore.Reserve` | app/main.py:181-244 | on any error nothing changes; otherwise exactly one row is appended with a fresh id, the reply reports that id or 0 (that id exactly when the store lists the row with its id), and the store invariant holds |
| `Service.ReservationStore.CancelReservation` | app/main.py:276-305 | an unknown id gives "not found" with nothing deleted; a known id removes exactly that row, echoes the id, and keeps the invariant |

## Left out

- HTTP routing, request validation by the web framework, and the HTTP calls to the store. The store is an in-memory object, and the query strings are functions over its tables.
- Network failures and store replies with an error status (`check_response_status`, each `except requests.RequestException`). This includes the silent `continue` that drops a room when its conflict query fails. These are I/O faults, not decision logic.
- The "five most recent reservations" query after an insert, ordered by the store's `created_at`. It only reports information.
- The `json.JSONDecodeError` handler in the reservation endpoint. `json` is never imported, so that path cannot run as written.
- Logging, and the human-readable message texts. Errors are modelled by kind only.
- Concurrency. The check-then-insert race between two reservation requests is not modelled because the model is sequential, so the no-double-booking invariant holds only for one request at a time.
- Timestamp parsing. The service never parses timestamps; the model compares them as strings.
- Request fields that the logic never reads: title and reserved-by in the availability request, meeting level and capacity in the reservation request.
- `Availability.ProvincialPrefersExclusive` and `Availability.HeadquartersUsesCompatiblePoolOnly`: their statement about individual rows of the rooms table ("this row is exclusive", "this row is not exclusive-tagged") holds only when room ids are a key. The reply is a list of `{room_id, room_number}` pairs, so two rows with the same id and number but different tags cannot be told apart. The equality with the free-candidate list holds without that assumption.
- The contents of the store's reply beyond the first row's `id`. The reply shape is chosen from four cases: a row with its id, a row without an id, an empty list, or a single object.
