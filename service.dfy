/**
 * The reservation service over an in-memory copy of the backing store. Each
 * endpoint is a member of `ReservationStore`: the availability query and the
 * room-details lookup only read the tables; reserving appends a row and
 * cancelling deletes one.
 */
module Service {
  import opened Timestamps
  import opened Tags
  import opened Tables
  import opened Availability

  /** The body of a reservation request (meeting level and head count are accepted but not used). */
  datatype ReserveRequest = ReserveRequest(
    roomId: int, title: string, startTime: Timestamp, endTime: Timestamp, reservedBy: string)

  /** Every required field is truthy: a non-zero room id and non-empty strings. */
  predicate ReserveHasRequired(req: ReserveRequest)
  {
    req.roomId != 0 && req.title != [] && req.startTime != [] && req.endTime != [] && req.reservedBy != []
  }

  /** The data of a successful reservation reply. */
  datatype Booking = Booking(
    reservationId: int, roomId: int, roomNumber: string, startTime: Timestamp, endTime: Timestamp)

  /**
   * The JSON body the store sends back for an insert: a list of rows, each with
   * its `id` when present, or a single object.
   */
  datatype InsertReply = RowList(ids: seq<Option<int>>) | SingleObject

  /**
   * The id the reservation endpoint reports: the `id` of the first row of a
   * listed reply, or 0 when the reply is not a non-empty list or that row has no id.
   */
  function CreatedId(reply: InsertReply): (r: int)
    ensures (reply.RowList? && reply.ids != [] && reply.ids[0].Some?) ==> r == reply.ids[0].value
    ensures !(reply.RowList? && reply.ids != [] && reply.ids[0].Some?) ==> r == 0
  {
    match reply
    case RowList(ids) => if ids != [] && ids[0].Some? then ids[0].value else 0
    case SingleObject => 0
  }

  /**
   * How the store lays out its answer to an insert. The service asks for
   * `return=representation` but cannot choose what comes back.
   */
  datatype ReplyShape = RowWithId | RowWithoutId | NoRows | OneObject

  /** The store's answer, in the given shape, to an insert whose new row got `id`. */
  function StoreReply(shape: ReplyShape, id: int): (reply: InsertReply)
    ensures reply.RowList? && reply.ids != [] && reply.ids[0].Some? ==> reply.ids[0].value == id
    ensures shape == RowWithId <==> (reply.RowList? && reply.ids != [] && reply.ids[0].Some?)
  {
    match shape
    case RowWithId => RowList([Some(id)])
    case RowWithoutId => RowList([None])
    case NoRows => RowList([])
    case OneObject => SingleObject
  }

  /**
   * Whatever the store's reply looks like, the reported id is either the new
   * row's id or 0; it is the row's id exactly when the reply lists the row with its id.
   */
  lemma ReportedIdIsNewRowOrZero(shape: ReplyShape, id: int)
    requires id != 0
    ensures CreatedId(StoreReply(shape, id)) == id || CreatedId(StoreReply(shape, id)) == 0
    ensures CreatedId(StoreReply(shape, id)) == id <==> shape == RowWithId
  {
  }

  /**
   * What the reservation endpoint decides before writing anything: the room to
   * book, or the error it reports.
   */
  function ReserveDecision(rooms: seq<Room>, rs: seq<Reservation>, req: ReserveRequest): (d: Envelope<Room>)
    ensures d.Success? <==> ReserveHasRequired(req) && (exists room :: room in rooms && room.id == req.roomId)
                            && IsFree(rs, req.roomId, req.startTime, req.endTime)
    ensures d.Success? ==> d.data in rooms && d.data.id == req.roomId
    ensures !ReserveHasRequired(req) ==> d == Failure(MissingParameters)
    ensures ReserveHasRequired(req) && (forall room :: room in rooms ==> room.id != req.roomId)
            ==> d == Failure(RoomNotFound)
    ensures (ReserveHasRequired(req) && (exists room :: room in rooms && room.id == req.roomId)
             && !IsFree(rs, req.roomId, req.startTime, req.endTime))
            ==> d == Failure(SlotTaken)
  {
    if !ReserveHasRequired(req) then Failure(MissingParameters)
    else
      match RoomById(rooms, req.roomId)
      case None => Failure(RoomNotFound)
      case Some(room) =>
        if !IsFree(rs, req.roomId, req.startTime, req.endTime) then Failure(SlotTaken) else Success(room)
  }

  /** A request overlapping an existing reservation of the same room is never admitted. */
  lemma OverlappingRequestRejected(rooms: seq<Room>, rs: seq<Reservation>, booked: Reservation, req: ReserveRequest)
    requires booked in rs && booked.roomId == req.roomId
    requires Overlaps(booked, req.startTime, req.endTime)
    ensures ReserveDecision(rooms, rs, req).Failure?
  {
  }

  /**
   * A request for an existing room whose every reservation ends exactly when the
   * request starts, or starts exactly when it ends, is admitted.
   */
  lemma BackToBackRequestAdmitted(rooms: seq<Room>, rs: seq<Reservation>, req: ReserveRequest)
    requires ReserveHasRequired(req)
    requires exists room :: room in rooms && room.id == req.roomId
    requires forall x :: x in rs && x.roomId == req.roomId ==> x.endTime == req.startTime || x.startTime == req.endTime
    ensures ReserveDecision(rooms, rs, req).Success?
  {
    forall x | x in rs && x.roomId == req.roomId
      ensures !Overlaps(x, req.startTime, req.endTime)
    {
      BackToBackNeverConflicts(x, req.endTime);
      BackToBackNeverConflicts(x, req.startTime);
    }
  }

  /** The store, with its two tables and the sequence that numbers new reservations. */
  class ReservationStore {
    var rooms: seq<Room>
    var reservations: seq<Reservation>
    var nextId: int

    /** Ids are positive, below the sequence and a key; no two reservations of a room overlap. */
    ghost predicate Valid()
      reads this
    {
      && 1 <= nextId
      && (forall x :: x in reservations ==> 1 <= x.id < nextId)
      && UniqueIds(reservations)
      && NoDoubleBooking(reservations)
    }

    /** A store holding the given rooms and no reservations. */
    constructor (rooms: seq<Room>)
      ensures Valid()
      ensures this.rooms == rooms && reservations == [] && nextId == 1
    {
      this.rooms := rooms;
      reservations := [];
      nextId := 1;
    }

    /** One pass of the availability endpoint: the free rooms among the candidates, in order. */
    method CollectFree(candidates: seq<Room>, startTime: Timestamp, endTime: Timestamp) returns (free: seq<RoomRef>)
      ensures free == FreeRooms(candidates, reservations, startTime, endTime)
    {
      free := [];
      var i := 0;
      while i < |candidates|
        invariant 0 <= i <= |candidates|
        invariant free == FreeRooms(candidates[..i], reservations, startTime, endTime)
      {
        var room := candidates[i];
        assert candidates[..i + 1][..i] == candidates[..i];
        if IsFree(reservations, room.id, startTime, endTime) {
          free := free + [RefOf(room)];
        }
        i := i + 1;
      }
      assert candidates[..|candidates|] == candidates;
    }

    /** The available-rooms endpoint. */
    method AvailableRooms(q: AvailabilityQuery) returns (r: Envelope<seq<RoomRef>>)
      ensures r == Available(rooms, reservations, q)
    {
      if !HasRequired(q) {
        return Failure(MissingParameters);
      }
      if q.meetingLevel == ProvincialLevel {
        var found := CollectFree(Candidates(rooms, q.capacity, ExclusiveProvincial), q.startTime, q.endTime);
        if found == [] {
          found := CollectFree(Candidates(rooms, q.capacity, CompatibleWithProvincial), q.startTime, q.endTime);
        }
        r := Success(found);
      } else if q.meetingLevel == HeadquartersLevel {
        var found := CollectFree(Candidates(rooms, q.capacity, CompatibleWithProvincial), q.startTime, q.endTime);
        r := Success(found);
      } else {
        r := Failure(InvalidMeetingLevel);
      }
    }

    /** The room-details endpoint: the first room with the id, or "not found". */
    function RoomDetails(roomId: int): (r: Envelope<Room>)
      reads this
      ensures r.Success? <==> exists room :: room in rooms && room.id == roomId
      ensures r.Success? ==> exists k :: 0 <= k < |rooms| && rooms[k] == r.data && r.data.id == roomId
                               && forall j :: 0 <= j < k ==> rooms[j].id != roomId
      ensures r.Failure? ==> r.error == RoomNotFound
    {
      match RoomById(rooms, roomId)
      case None => Failure(RoomNotFound)
      case Some(room) => Success(room)
    }

    /**
     * The store's insert: the new row gets the next id, and the store answers in
     * the shape it chooses. Like the store's own insert it checks nothing, so
     * only `Reserve`, which checks first, keeps `Valid()`.
     */
    method Insert(roomId: int, title: string, startTime: Timestamp, endTime: Timestamp, reservedBy: string,
                  shape: ReplyShape)
      returns (reply: InsertReply)
      modifies this
      ensures rooms == old(rooms) && nextId == old(nextId) + 1
      ensures reservations == old(reservations) + [Reservation(old(nextId), roomId, title, startTime, endTime, reservedBy)]
      ensures reply == StoreReply(shape, old(nextId))
    {
      reservations := reservations + [Reservation(nextId, roomId, title, startTime, endTime, reservedBy)];
      reply := StoreReply(shape, nextId);
      nextId := nextId + 1;
    }

    /**
     * The reservation endpoint: check the fields, find the room, re-check
     * conflicts, insert, and report the id read from the store's reply.
     */
    method Reserve(req: ReserveRequest, shape: ReplyShape) returns (r: Envelope<Booking>)
      requires Valid()
      modifies this
      ensures Valid() && rooms == old(rooms)
      ensures var d := ReserveDecision(old(rooms), old(reservations), req);
              && (d.Failure? ==> r == Failure(d.error) && reservations == old(reservations) && nextId == old(nextId))
              && (d.Success? ==>
                    && reservations == old(reservations)
                         + [Reservation(old(nextId), req.roomId, req.title, req.startTime, req.endTime, req.reservedBy)]
                    && nextId == old(nextId) + 1
                    && r == Success(Booking(CreatedId(StoreReply(shape, old(nextId))), req.roomId, d.data.roomNumber,
                                            req.startTime, req.endTime)))
      ensures r.Success? ==> r.data.reservationId == old(nextId) || r.data.reservationId == 0
      ensures r.Success? ==> (r.data.reservationId == old(nextId) <==> shape == RowWithId)
      ensures r.Success? ==> forall x :: x in old(reservations) ==> x.id != r.data.reservationId
    {
      var d := ReserveDecision(rooms, reservations, req);
      if d.Failure? {
        return Failure(d.error);
      }
      ghost var before := reservations;
      ReportedIdIsNewRowOrZero(shape, nextId);
      var reply := Insert(req.roomId, req.title, req.startTime, req.endTime, req.reservedBy, shape);
      r := Success(Booking(CreatedId(reply), req.roomId, d.data.roomNumber, req.startTime, req.endTime));
      var added := Reservation(nextId - 1, req.roomId, req.title, req.startTime, req.endTime, req.reservedBy);
      CheckedInsertKeepsNoDoubleBooking(before, added);
      FreshInsertKeepsUniqueIds(before, added);
    }

    /** The cancellation endpoint: report "not found" without deleting, or delete the row and echo the id. */
    method CancelReservation(reservationId: int) returns (r: Envelope<int>)
      requires Valid()
      modifies this
      ensures Valid() && rooms == old(rooms) && nextId == old(nextId)
      ensures (exists x :: x in old(reservations) && x.id == reservationId) ==>
                && r == Success(reservationId)
                && reservations == WithoutId(old(reservations), reservationId)
                && |reservations| == |old(reservations)| - 1
      ensures (forall x :: x in old(reservations) ==> x.id != reservationId) ==>
                r == Failure(ReservationNotFound) && reservations == old(reservations)
    {
      var found := ReservationsWithId(reservations, reservationId);
      if found == [] {
        return Failure(ReservationNotFound);
      }
      assert found[0] in found;
      DeleteExistingRemovesOne(reservations, reservationId);
      DeleteKeepsUniqueIds(reservations, reservationId);
      DeleteKeepsNoDoubleBooking(reservations, reservationId);
      reservations := WithoutId(reservations, reservationId);
      r := Success(reservationId);
    }
  }

  /**
   * A fresh store holding room 5: after [09:00, 10:00) is booked,
   * an immediate request for [09:30, 10:30) is refused and [10:00, 11:00) is booked.
   */
  method RoomFiveBookings() returns (first: Envelope<Booking>, second: Envelope<Booking>, third: Envelope<Booking>)
    ensures first.Success? && first.data.reservationId == 1
    ensures second == Failure(SlotTaken)
    ensures third.Success? && third.data.reservationId == 2
  {
    var store := new ReservationStore([Room(5, "A301", 20, CompatiblePattern, "")]);
    assert store.rooms[0] in store.rooms;
    first := store.Reserve(ReserveRequest(5, "例会", "09:00", "10:00", "张三"), RowWithId);
    var booked := Reservation(1, 5, "例会", "09:00", "10:00", "张三");
    assert store.reservations == [booked];
    assert Before("09:00", "10:30") && Before("09:30", "10:00");
    assert Overlaps(booked, "09:30", "10:30");
    second := store.Reserve(ReserveRequest(5, "评审", "09:30", "10:30", "李四"), RowWithId);
    BackToBackNeverConflicts(booked, "11:00");
    third := store.Reserve(ReserveRequest(5, "评审", "10:00", "11:00", "李四"), RowWithId);
  }
}
