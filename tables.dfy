/**
 * The two tables of the backing store (`meeting_rooms` and `reservations`), the
 * response envelope of the service, and the store filters the service sends as
 * query strings, each written here as a function over the table.
 */
module Tables {
  import opened Timestamps

  datatype Option<T> = None | Some(value: T)

  /** A row of `meeting_rooms`; `tag` is the free-text `meeting_level` column. */
  datatype Room = Room(id: int, roomNumber: string, capacity: int, tag: string, leaderPriority: string)

  /** A row of `reservations`; the interval is [startTime, endTime). */
  datatype Reservation = Reservation(
    id: int, roomId: int, title: string, startTime: Timestamp, endTime: Timestamp, reservedBy: string)

  /** The `{room_id, room_number}` pair the availability query returns per room. */
  datatype RoomRef = RoomRef(roomId: int, roomNumber: string)

  function RefOf(room: Room): RoomRef
  {
    RoomRef(room.id, room.roomNumber)
  }

  /** The kinds of `status: "error"` replies (the message text is not modelled). */
  datatype Error = MissingParameters | InvalidMeetingLevel | RoomNotFound | SlotTaken | ReservationNotFound

  /** The `{status, message, data}` envelope: success with data, or an error with empty data. */
  datatype Envelope<T> = Success(data: T) | Failure(error: Error)

  /**
   * The conflict filter `start_time=lt.{end}&end_time=gt.{start}`: the existing
   * reservation begins before the requested end and ends after the requested start.
   * Both comparisons are strict, so a booking that only touches the request never matches.
   */
  predicate Overlaps(existing: Reservation, startTime: Timestamp, endTime: Timestamp)
  {
    Before(existing.startTime, endTime) && Before(startTime, existing.endTime)
  }

  /** Reference definition: some instant lies in both half-open intervals. */
  ghost predicate SharesInstant(s1: Timestamp, e1: Timestamp, s2: Timestamp, e2: Timestamp)
  {
    exists t :: AtOrBefore(s1, t) && Before(t, e1) && AtOrBefore(s2, t) && Before(t, e2)
  }

  /** Two intervals with a common instant always pass the conflict filter. */
  lemma SharedInstantOverlaps(existing: Reservation, startTime: Timestamp, endTime: Timestamp)
    requires SharesInstant(existing.startTime, existing.endTime, startTime, endTime)
    ensures Overlaps(existing, startTime, endTime)
  {
    var t :| AtOrBefore(existing.startTime, t) && Before(t, existing.endTime)
             && AtOrBefore(startTime, t) && Before(t, endTime);
    AtOrBeforeBeforeIsBefore(existing.startTime, t, endTime);
    AtOrBeforeBeforeIsBefore(startTime, t, existing.endTime);
  }

  /** For non-empty intervals the conflict filter finds exactly the intervals with a common instant. */
  lemma OverlapsShareInstant(existing: Reservation, startTime: Timestamp, endTime: Timestamp)
    requires Before(existing.startTime, existing.endTime) && Before(startTime, endTime)
    requires Overlaps(existing, startTime, endTime)
    ensures SharesInstant(existing.startTime, existing.endTime, startTime, endTime)
  {
    // the later of the two starts lies in both intervals
    BeforeTotal(existing.startTime, startTime);
    if Before(existing.startTime, startTime) {
      assert AtOrBefore(existing.startTime, startTime) && AtOrBefore(startTime, startTime);
    } else {
      assert AtOrBefore(startTime, existing.startTime) && AtOrBefore(existing.startTime, existing.startTime);
    }
  }

  /** Back-to-back bookings never conflict, on either side. */
  lemma BackToBackNeverConflicts(existing: Reservation, t: Timestamp)
    ensures !Overlaps(existing, existing.endTime, t)
    ensures !Overlaps(existing, t, existing.startTime)
  {
    BeforeIrreflexive(existing.endTime);
    BeforeIrreflexive(existing.startTime);
  }

  /** The reservations the conflict query returns for `roomId`, in table order. */
  function Conflicts(rs: seq<Reservation>, roomId: int, startTime: Timestamp, endTime: Timestamp): (r: seq<Reservation>)
    ensures forall x :: x in r <==> x in rs && x.roomId == roomId && Overlaps(x, startTime, endTime)
    ensures |r| <= |rs|
  {
    if rs == [] then []
    else
      (if rs[0].roomId == roomId && Overlaps(rs[0], startTime, endTime) then [rs[0]] else [])
      + Conflicts(rs[1..], roomId, startTime, endTime)
  }

  /** The room is free for the interval when the conflict query comes back empty. */
  function IsFree(rs: seq<Reservation>, roomId: int, startTime: Timestamp, endTime: Timestamp): (free: bool)
    ensures free <==> forall x :: x in rs && x.roomId == roomId ==> !Overlaps(x, startTime, endTime)
  {
    var c := Conflicts(rs, roomId, startTime, endTime);
    assert c != [] ==> c[0] in c;
    c == []
  }

  /** The query `meeting_rooms?id=eq.{id}` followed by taking its first row. */
  function RoomById(rooms: seq<Room>, id: int): (r: Option<Room>)
    ensures r.None? <==> forall x :: x in rooms ==> x.id != id
    ensures r.Some? ==> exists k :: 0 <= k < |rooms| && rooms[k] == r.value && r.value.id == id
                          && forall j :: 0 <= j < k ==> rooms[j].id != id
  {
    if rooms == [] then None
    else if rooms[0].id == id then Some(rooms[0])
    else
      var r := RoomById(rooms[1..], id);
      if r.Some? then
        var k :| 0 <= k < |rooms[1..]| && rooms[1..][k] == r.value && r.value.id == id
                 && forall j :: 0 <= j < k ==> rooms[1..][j].id != id;
        assert rooms[k + 1] == r.value;
        assert forall j :: 0 <= j < k + 1 ==> rooms[j].id != id by {
          forall j | 0 <= j < k + 1 ensures rooms[j].id != id {
            if j > 0 { assert rooms[j] == rooms[1..][j - 1]; }
          }
        }
        r
      else r
  }

  /** The rows the query `reservations?id=eq.{id}` returns. */
  function ReservationsWithId(rs: seq<Reservation>, id: int): (r: seq<Reservation>)
    ensures forall x :: x in r <==> x in rs && x.id == id
  {
    if rs == [] then []
    else (if rs[0].id == id then [rs[0]] else []) + ReservationsWithId(rs[1..], id)
  }

  /**
   * The table after `DELETE reservations?id=eq.{id}`: the rows with that id are
   * gone and every other row is kept, in order.
   */
  function WithoutId(rs: seq<Reservation>, id: int): (r: seq<Reservation>)
    ensures forall x :: x in r <==> x in rs && x.id != id
    ensures multiset(r) + multiset(ReservationsWithId(rs, id)) == multiset(rs)
  {
    if rs == [] then []
    else
      var rest := WithoutId(rs[1..], id);
      assert rs == [rs[0]] + rs[1..];
      (if rs[0].id != id then [rs[0]] else []) + rest
  }

  /** Ids are a key of the reservations table. */
  predicate UniqueIds(rs: seq<Reservation>)
  {
    forall i, j :: 0 <= i < j < |rs| ==> rs[i].id != rs[j].id
  }

  /** The booking invariant: no two reservations of one room overlap. */
  predicate NoDoubleBooking(rs: seq<Reservation>)
  {
    forall x, y :: x in rs && y in rs && x != y && x.roomId == y.roomId ==> !Overlaps(x, y.startTime, y.endTime)
  }

  lemma UniqueIdsTail(rs: seq<Reservation>)
    requires rs != [] && UniqueIds(rs)
    ensures UniqueIds(rs[1..])
  {
    forall i, j | 0 <= i < j < |rs[1..]| ensures rs[1..][i].id != rs[1..][j].id {
      assert rs[1..][i] == rs[i + 1] && rs[1..][j] == rs[j + 1];
    }
  }

  lemma UniqueIdsCons(x: Reservation, rest: seq<Reservation>)
    requires UniqueIds(rest)
    requires forall y :: y in rest ==> y.id != x.id
    ensures UniqueIds([x] + rest)
  {
    var w := [x] + rest;
    forall i, j | 0 <= i < j < |w| ensures w[i].id != w[j].id {
      assert w[j] == rest[j - 1];
      if i > 0 { assert w[i] == rest[i - 1]; }
    }
  }

  lemma {:induction false} NoRowWithId(rs: seq<Reservation>, id: int)
    requires forall y :: y in rs ==> y.id != id
    ensures ReservationsWithId(rs, id) == []
    decreases |rs|
  {
    if rs != [] {
      assert rs[0] in rs;
      NoRowWithId(rs[1..], id);
    }
  }

  lemma {:induction false} UniqueIdsMatchAtMostOne(rs: seq<Reservation>, id: int)
    requires UniqueIds(rs)
    ensures |ReservationsWithId(rs, id)| <= 1
    decreases |rs|
  {
    if rs != [] {
      UniqueIdsTail(rs);
      UniqueIdsMatchAtMostOne(rs[1..], id);
      if rs[0].id == id {
        forall y | y in rs[1..] ensures y.id != id {
          var j :| 0 <= j < |rs[1..]| && rs[1..][j] == y;
          assert rs[j + 1] == y;
        }
        NoRowWithId(rs[1..], id);
      }
    }
  }

  /** Deleting by an existing key removes exactly one row. */
  lemma DeleteExistingRemovesOne(rs: seq<Reservation>, id: int)
    requires UniqueIds(rs)
    requires exists x :: x in rs && x.id == id
    ensures |WithoutId(rs, id)| == |rs| - 1
  {
    UniqueIdsMatchAtMostOne(rs, id);
    var x :| x in rs && x.id == id;
    assert x in ReservationsWithId(rs, id);
    var w := WithoutId(rs, id);
    assert |multiset(w)| + |multiset(ReservationsWithId(rs, id))| == |multiset(rs)|;
  }

  lemma {:induction false} DeleteKeepsUniqueIds(rs: seq<Reservation>, id: int)
    requires UniqueIds(rs)
    ensures UniqueIds(WithoutId(rs, id))
    decreases |rs|
  {
    if rs != [] {
      UniqueIdsTail(rs);
      DeleteKeepsUniqueIds(rs[1..], id);
      var rest := WithoutId(rs[1..], id);
      if rs[0].id != id {
        forall y | y in rest ensures y.id != rs[0].id {
          var k :| 0 <= k < |rs[1..]| && rs[1..][k] == y;
          assert rs[k + 1] == y;
        }
        UniqueIdsCons(rs[0], rest);
      }
    }
  }

  /** Deleting rows never creates a double booking. */
  lemma DeleteKeepsNoDoubleBooking(rs: seq<Reservation>, id: int)
    requires NoDoubleBooking(rs)
    ensures NoDoubleBooking(WithoutId(rs, id))
  {
  }

  /**
   * Inserting a row whose conflict query came back empty keeps the booking
   * invariant: the check in the reservation path is enough, in a sequential store.
   */
  lemma CheckedInsertKeepsNoDoubleBooking(rs: seq<Reservation>, x: Reservation)
    requires NoDoubleBooking(rs)
    requires IsFree(rs, x.roomId, x.startTime, x.endTime)
    ensures NoDoubleBooking(rs + [x])
  {
  }

  /** Appending a row whose id is above every existing id keeps ids a key. */
  lemma FreshInsertKeepsUniqueIds(rs: seq<Reservation>, x: Reservation)
    requires UniqueIds(rs)
    requires forall y :: y in rs ==> y.id < x.id
    ensures UniqueIds(rs + [x])
  {
    var w := rs + [x];
    forall i, j | 0 <= i < j < |w| ensures w[i].id != w[j].id {
      if j == |rs| { assert w[i] in rs; }
    }
  }
}
