/**
 * The available-rooms resolver: which rooms a request of a given meeting level
 * and head count may use, and which of those are free for the requested interval.
 */
module Availability {
  import opened Timestamps
  import opened Tags
  import opened Tables

  /** The body of an availability request (title and requester are accepted but not used). */
  datatype AvailabilityQuery = AvailabilityQuery(
    startTime: Timestamp, endTime: Timestamp, meetingLevel: string, capacity: int)

  /** Every required field is truthy: a non-zero head count and non-empty strings. */
  predicate HasRequired(q: AvailabilityQuery)
  {
    q.capacity != 0 && q.meetingLevel != [] && q.startTime != [] && q.endTime != []
  }

  /** The two room pools the store is asked for. */
  datatype Pool = ExclusiveProvincial | CompatibleWithProvincial

  /** The exclusive pool matches the tag exactly; the compatible pool by substring. */
  predicate InPool(room: Room, pool: Pool)
  {
    match pool
    case ExclusiveProvincial => room.tag == ExclusiveProvincialTag
    case CompatibleWithProvincial => Contains(room.tag, CompatiblePattern)
  }

  /** The two pools are disjoint: an exclusive room never shows up as compatible. */
  lemma PoolsDisjoint(room: Room)
    ensures !(InPool(room, ExclusiveProvincial) && InPool(room, CompatibleWithProvincial))
  {
    ExclusiveTagIsNotCompatible();
  }

  /** The room query `capacity=gte.{capacity}` plus the pool's tag filter, in table order. */
  function Candidates(rooms: seq<Room>, capacity: int, pool: Pool): (r: seq<Room>)
    ensures forall x :: x in r <==> x in rooms && x.capacity >= capacity && InPool(x, pool)
  {
    if rooms == [] then []
    else
      (if rooms[0].capacity >= capacity && InPool(rooms[0], pool) then [rooms[0]] else [])
      + Candidates(rooms[1..], capacity, pool)
  }

  /** The candidates whose conflict query comes back empty, as `{room_id, room_number}`, in order. */
  function FreeRooms(candidates: seq<Room>, rs: seq<Reservation>, startTime: Timestamp, endTime: Timestamp)
    : (r: seq<RoomRef>)
    ensures forall ref :: ref in r ==>
              exists c :: c in candidates && RefOf(c) == ref && IsFree(rs, c.id, startTime, endTime)
    ensures forall c :: c in candidates && IsFree(rs, c.id, startTime, endTime) ==> RefOf(c) in r
    decreases |candidates|
  {
    if candidates == [] then []
    else
      var init := candidates[..|candidates| - 1];
      var last := candidates[|candidates| - 1];
      assert candidates == init + [last];
      FreeRooms(init, rs, startTime, endTime)
      + (if IsFree(rs, last.id, startTime, endTime) then [RefOf(last)] else [])
  }

  /** When every candidate has a conflicting reservation, the pass finds nothing. */
  lemma {:induction false} NoFreeCandidate(
    candidates: seq<Room>, rs: seq<Reservation>, startTime: Timestamp, endTime: Timestamp)
    requires forall c :: c in candidates ==> !IsFree(rs, c.id, startTime, endTime)
    ensures FreeRooms(candidates, rs, startTime, endTime) == []
    decreases |candidates|
  {
    if candidates != [] {
      var init := candidates[..|candidates| - 1];
      assert candidates[|candidates| - 1] in candidates;
      assert forall c :: c in init ==> c in candidates;
      NoFreeCandidate(init, rs, startTime, endTime);
    }
  }

  /** The reply of the available-rooms endpoint. */
  function Available(rooms: seq<Room>, rs: seq<Reservation>, q: AvailabilityQuery): (r: Envelope<seq<RoomRef>>)
    ensures !HasRequired(q) ==> r == Failure(MissingParameters)
    ensures HasRequired(q) && q.meetingLevel != ProvincialLevel && q.meetingLevel != HeadquartersLevel
            ==> r == Failure(InvalidMeetingLevel)
    ensures r.Success? <==> HasRequired(q) && (q.meetingLevel == ProvincialLevel || q.meetingLevel == HeadquartersLevel)
  {
    if !HasRequired(q) then Failure(MissingParameters)
    else if q.meetingLevel == ProvincialLevel then
      var exclusive := FreeRooms(Candidates(rooms, q.capacity, ExclusiveProvincial), rs, q.startTime, q.endTime);
      if exclusive != [] then Success(exclusive)
      else Success(FreeRooms(Candidates(rooms, q.capacity, CompatibleWithProvincial), rs, q.startTime, q.endTime))
    else if q.meetingLevel == HeadquartersLevel then
      Success(FreeRooms(Candidates(rooms, q.capacity, CompatibleWithProvincial), rs, q.startTime, q.endTime))
    else Failure(InvalidMeetingLevel)
  }

  /** The pools a meeting level may draw from. */
  predicate Eligible(room: Room, meetingLevel: string)
  {
    if meetingLevel == ProvincialLevel then
      InPool(room, ExclusiveProvincial) || InPool(room, CompatibleWithProvincial)
    else meetingLevel == HeadquartersLevel && InPool(room, CompatibleWithProvincial)
  }

  /** Room ids are a key of the rooms table. */
  predicate RoomIdsUnique(rooms: seq<Room>)
  {
    forall x, y :: x in rooms && y in rooms && x.id == y.id ==> x == y
  }

  /**
   * Every offered room exists, is large enough, is eligible for the meeting
   * level and has no reservation overlapping the requested interval.
   */
  lemma OfferedRoomsQualify(rooms: seq<Room>, rs: seq<Reservation>, q: AvailabilityQuery, ref: RoomRef)
    requires Available(rooms, rs, q).Success? && ref in Available(rooms, rs, q).data
    ensures exists room :: room in rooms && RefOf(room) == ref && room.capacity >= q.capacity
                           && Eligible(room, q.meetingLevel)
                           && forall x :: x in rs && x.roomId == room.id ==> !Overlaps(x, q.startTime, q.endTime)
  {
    var pool :=
      if q.meetingLevel == ProvincialLevel
         && FreeRooms(Candidates(rooms, q.capacity, ExclusiveProvincial), rs, q.startTime, q.endTime) != []
      then ExclusiveProvincial
      else CompatibleWithProvincial;
    var c :| c in Candidates(rooms, q.capacity, pool) && RefOf(c) == ref && IsFree(rs, c.id, q.startTime, q.endTime);
    assert c in rooms && Eligible(c, q.meetingLevel);
  }

  /** A room with a reservation overlapping the requested interval is never offered. */
  lemma BookedRoomNeverOffered(rooms: seq<Room>, rs: seq<Reservation>, q: AvailabilityQuery, x: Reservation)
    requires x in rs && Overlaps(x, q.startTime, q.endTime)
    requires Available(rooms, rs, q).Success?
    ensures forall ref :: ref in Available(rooms, rs, q).data ==> ref.roomId != x.roomId
  {
    forall ref | ref in Available(rooms, rs, q).data
      ensures ref.roomId != x.roomId
    {
      OfferedRoomsQualify(rooms, rs, q, ref);
    }
  }

  /**
   * A provincial request with at least one free, large-enough exclusive room is
   * answered with exactly the free exclusive rooms: every one of them and, when
   * room ids are a key, no room from the compatible pool.
   */
  lemma ProvincialPrefersExclusive(rooms: seq<Room>, rs: seq<Reservation>, q: AvailabilityQuery, room: Room)
    requires HasRequired(q) && q.meetingLevel == ProvincialLevel
    requires room in rooms && InPool(room, ExclusiveProvincial) && room.capacity >= q.capacity
    requires IsFree(rs, room.id, q.startTime, q.endTime)
    ensures Available(rooms, rs, q)
            == Success(FreeRooms(Candidates(rooms, q.capacity, ExclusiveProvincial), rs, q.startTime, q.endTime))
    ensures RefOf(room) in Available(rooms, rs, q).data
    ensures RoomIdsUnique(rooms) ==>
              forall y :: y in rooms && RefOf(y) in Available(rooms, rs, q).data ==> InPool(y, ExclusiveProvincial)
  {
    var exclusive := Candidates(rooms, q.capacity, ExclusiveProvincial);
    assert RefOf(room) in FreeRooms(exclusive, rs, q.startTime, q.endTime);
    if RoomIdsUnique(rooms) {
      forall y | y in rooms && RefOf(y) in Available(rooms, rs, q).data
        ensures InPool(y, ExclusiveProvincial)
      {
        var c :| c in exclusive && RefOf(c) == RefOf(y) && IsFree(rs, c.id, q.startTime, q.endTime);
        assert c == y;
      }
    }
  }

  /**
   * A provincial request with no free, large-enough exclusive room falls back to
   * the compatible pool and gets every free, large-enough compatible room.
   */
  lemma ProvincialFallsBackToCompatible(rooms: seq<Room>, rs: seq<Reservation>, q: AvailabilityQuery)
    requires HasRequired(q) && q.meetingLevel == ProvincialLevel
    requires forall room :: room in rooms && InPool(room, ExclusiveProvincial) && room.capacity >= q.capacity
               ==> !IsFree(rs, room.id, q.startTime, q.endTime)
    ensures Available(rooms, rs, q)
            == Success(FreeRooms(Candidates(rooms, q.capacity, CompatibleWithProvincial), rs, q.startTime, q.endTime))
    ensures forall room ::
              (room in rooms && InPool(room, CompatibleWithProvincial) && room.capacity >= q.capacity
               && IsFree(rs, room.id, q.startTime, q.endTime))
              ==> RefOf(room) in Available(rooms, rs, q).data
  {
    NoFreeCandidate(Candidates(rooms, q.capacity, ExclusiveProvincial), rs, q.startTime, q.endTime);
  }

  /**
   * A headquarters request gets exactly the free, large-enough rooms whose tag
   * contains the compatible pattern; when room ids are a key, a room with the
   * exclusive tag is never among them.
   */
  lemma HeadquartersUsesCompatiblePoolOnly(rooms: seq<Room>, rs: seq<Reservation>, q: AvailabilityQuery)
    requires HasRequired(q) && q.meetingLevel == HeadquartersLevel
    ensures Available(rooms, rs, q)
            == Success(FreeRooms(Candidates(rooms, q.capacity, CompatibleWithProvincial), rs, q.startTime, q.endTime))
    ensures forall room ::
              (room in rooms && InPool(room, CompatibleWithProvincial) && room.capacity >= q.capacity
               && IsFree(rs, room.id, q.startTime, q.endTime))
              ==> RefOf(room) in Available(rooms, rs, q).data
    ensures RoomIdsUnique(rooms) ==>
              forall room :: room in rooms && RefOf(room) in Available(rooms, rs, q).data
                ==> room.tag != ExclusiveProvincialTag
  {
    var compatible := Candidates(rooms, q.capacity, CompatibleWithProvincial);
    if RoomIdsUnique(rooms) {
      forall room | room in rooms && RefOf(room) in Available(rooms, rs, q).data
        ensures room.tag != ExclusiveProvincialTag
      {
        var c :| c in compatible && RefOf(c) == RefOf(room) && IsFree(rs, c.id, q.startTime, q.endTime);
        assert c == room;
        PoolsDisjoint(room);
      }
    }
  }
}
