/** The ride handlers of the client backend (backend/backend_client.js):
    booking a ride, cancelling it, and the per-status tallies of the ride
    history. */
module ClientRides {
  import opened Common
  import opened Digits
  import opened Location
  import opened Db
  import Queuing

  // ---------------------------------------------------------------------
  // POST /book-ride
  // ---------------------------------------------------------------------

  /** The request body; `rideType` is None when the field is absent. */
  datatype BookRequest = BookRequest(
    sourceLat: Value, sourceLng: Value, sourceAddress: Option<string>,
    destLat: Value, destLng: Value, destAddress: Option<string>,
    rideType: Option<string>)

  /** The two validations: every coordinate truthy, then both pairs valid. */
  predicate BookingAccepted(req: BookRequest)
  {
    && Truthy(req.sourceLat) && Truthy(req.sourceLng)
    && Truthy(req.destLat) && Truthy(req.destLng)
    && IsValidCoordinate(req.sourceLat, req.sourceLng)
    && IsValidCoordinate(req.destLat, req.destLng)
  }

  /** A booking goes through exactly when all four coordinates are non-zero
      numbers in range; in particular a latitude or longitude of 0 (the
      equator, the prime meridian) is refused as missing. */
  lemma BookingAcceptedCharacterized(req: BookRequest)
    ensures BookingAccepted(req) <==>
      && req.sourceLat.Number? && req.sourceLng.Number? && req.destLat.Number? && req.destLng.Number?
      && req.sourceLat.x != 0.0 && req.sourceLng.x != 0.0 && req.destLat.x != 0.0 && req.destLng.x != 0.0
      && -90.0 <= req.sourceLat.x <= 90.0 && -180.0 <= req.sourceLng.x <= 180.0
      && -90.0 <= req.destLat.x <= 90.0 && -180.0 <= req.destLng.x <= 180.0
    ensures req.sourceLat == Number(0.0) ==> !BookingAccepted(req)
  {
  }

  function RideTypeOrDefault(rideType: Option<string>): string
  {
    if rideType.Some? then rideType.value else "standard"
  }

  /** The row the booking inserts. */
  function BookedRide(users: map<UserId, User>, user: UserId, req: BookRequest,
                      dist: DistanceFn, round2: Rounding): Ride
    requires BookingAccepted(req)
  {
    var src := ToPoint(req.sourceLat, req.sourceLng);
    var dst := ToPoint(req.destLat, req.destLng);
    var d := dist(src, dst);
    var rideType := RideTypeOrDefault(req.rideType);
    Ride(user, Some(DisplayName(users, user)),
         Some(src), Some(OrElse(req.sourceAddress, "N/A")),
         Some(dst), Some(OrElse(req.destAddress, "N/A")),
         Some(d), CalculateFare(d, rideType, round2).total, rideType, Pending, None)
  }

  /** The booked ride waits, driverless, for the requested class's fare over
      the distance between its two points, and goes to the destination
      address or "N/A". */
  lemma BookedRideContents(users: map<UserId, User>, user: UserId, req: BookRequest,
                           dist: DistanceFn, round2: Rounding)
    requires BookingAccepted(req)
    ensures var r := BookedRide(users, user, req, dist, round2);
      && r.rider == user && r.status == Pending && r.assignedDriver.None? && RideConsistent(r)
      && r.pickup == Some(Point(req.sourceLat.x, req.sourceLng.x))
      && r.dropoff == Some(Point(req.destLat.x, req.destLng.x))
      && r.distanceKm == Some(dist(r.pickup.value, r.dropoff.value))
      && r.estimatedFare == round2(ExactFare(r.distanceKm.value, r.rideType).total)
      && (req.rideType.None? ==> r.rideType == "standard")
      && r.destination == Some(if Present(req.destAddress) then req.destAddress.value else "N/A")
  {
  }

  /** A booked ride joins the back of the queue: the matching tick still
      serves any earlier pending ride first, and serves the new one when
      no other ride waits. */
  lemma BookingJoinsQueue(rides: seq<Ride>, r: Ride)
    requires r.status == Pending
    ensures Queuing.OldestPending(rides + [r]) ==
      if Queuing.OldestPending(rides).Some? then Queuing.OldestPending(rides) else Some(|rides|)
  {
    var rs := rides + [r];
    var o := Queuing.OldestPending(rides);
    assert forall j :: 0 <= j < |rides| ==> rs[j] == rides[j];
    if o.Some? {
      var p := Queuing.OldestPending(rs);
      assert p.Some? && p.value <= o.value;
    } else {
      assert rs[|rides|].status == Pending;
    }
  }

  /** POST /book-ride */
  method BookRide(db: Store, user: UserId, req: BookRequest, dist: DistanceFn, round2: Rounding)
    returns (reply: Reply)
    modifies db
    ensures !BookingAccepted(req) ==> reply == BadRequest && db.rides == old(db.rides)
    ensures BookingAccepted(req) ==>
      reply == Accepted(|old(db.rides)|)
      && db.rides == old(db.rides) + [BookedRide(db.users, user, req, dist, round2)]
    ensures db.drivers == old(db.drivers) && db.meetups == old(db.meetups) && db.invites == old(db.invites)
    ensures old(db.Valid()) ==> db.Valid()
  {
    if !Truthy(req.sourceLat) || !Truthy(req.sourceLng) || !Truthy(req.destLat) || !Truthy(req.destLng) {
      return BadRequest;
    }
    if !IsValidCoordinate(req.sourceLat, req.sourceLng) || !IsValidCoordinate(req.destLat, req.destLng) {
      return BadRequest;
    }
    var ride := BookedRide(db.users, user, req, dist, round2);
    reply := Accepted(|db.rides|);
    db.rides := db.rides + [ride];
  }

  // ---------------------------------------------------------------------
  // DELETE /rides/:ride_id/cancel
  // ---------------------------------------------------------------------

  datatype CancelCheck =
    | InvalidId
    | NoSuchRide
    | NotCancellable(status: RideStatus)
    | Cancellable(ride: nat)

  /** The checks before any write: a numeric id, a ride of the caller's,
      in a cancellable status. */
  function CheckCancel(rides: seq<Ride>, user: UserId, rideParam: string): (c: CancelCheck)
    ensures c.Cancellable? ==>
      c.ride < |rides| && rides[c.ride].rider == user
      && (rides[c.ride].status == Pending || rides[c.ride].status == Assigned)
  {
    match JsParseInt(rideParam)
    case None => InvalidId
    case Some(i) =>
      if !(0 <= i < |rides|) || rides[i].rider != user then NoSuchRide
      else if rides[i].status != Pending && rides[i].status != Assigned then NotCancellable(rides[i].status)
      else Cancellable(i)
  }

  /** Exactly the caller's own pending and assigned rides can be cancelled;
      a completed or cancelled ride is refused. */
  lemma CancellableExactly(rides: seq<Ride>, user: UserId, i: nat)
    requires i < |rides|
    ensures CheckCancel(rides, user, NatToString(i)) == Cancellable(i) <==>
      rides[i].rider == user && (rides[i].status == Pending || rides[i].status == Assigned)
    ensures rides[i].rider == user && rides[i].status == Completed ==>
      CheckCancel(rides, user, NatToString(i)) == NotCancellable(Completed)
    ensures rides[i].rider != user ==> CheckCancel(rides, user, NatToString(i)) == NoSuchRide
  {
    JsParseIntReadsId(i, []);
    assert NatToString(i) + [] == NatToString(i);
  }

  /** The ride row after cancellation: status cancelled, driver id kept. */
  function CancelledRides(rides: seq<Ride>, i: nat): seq<Ride>
    requires i < |rides|
  {
    rides[i := rides[i].(status := Cancelled)]
  }

  /** A cancelled ride leaves the queue: the next tick serves the oldest
      other pending ride, and the rows stay consistent. */
  lemma CancelLeavesQueue(rides: seq<Ride>, i: nat)
    requires i < |rides| && RidesConsistent(rides)
    ensures Queuing.OldestPending(CancelledRides(rides, i)) != Some(i)
    ensures RidesConsistent(CancelledRides(rides, i))
    ensures Queuing.OldestPending(rides) != Some(i) ==>
      Queuing.OldestPending(CancelledRides(rides, i)) == Queuing.OldestPending(rides)
  {
    var rs := CancelledRides(rides, i);
    var o := Queuing.OldestPending(rides);
    var p := Queuing.OldestPending(rs);
    if o.Some? && o.value != i {
      assert rs[o.value] == rides[o.value];
      assert p.Some? && p.value <= o.value;
      assert rides[p.value] == rs[p.value];
    }
    if o.None? {
      assert forall j :: 0 <= j < |rs| ==> rs[j].status != Pending;
    }
  }

  /** DELETE /rides/:ride_id/cancel. The driver notification is sent inside
      the transaction: when the notification server is unreachable
      (`notifyUp` false) the transaction rolls back and nothing changes. */
  method CancelRide(db: Store, user: UserId, rideParam: string, notifyUp: bool) returns (reply: Reply)
    modifies db
    ensures var c := CheckCancel(old(db.rides), user, rideParam);
      && (c.InvalidId? ==> reply == BadRequest)
      && (c.NoSuchRide? ==> reply == NotFound)
      && (c.NotCancellable? ==> reply == BadRequest)
      && (!c.Cancellable? ==> db.rides == old(db.rides) && db.drivers == old(db.drivers))
      && (c.Cancellable? ==>
            var holder := old(db.rides)[c.ride].assignedDriver;
            if holder.Some? && !notifyUp then
              reply == ServerError && db.rides == old(db.rides) && db.drivers == old(db.drivers)
            else
              reply == Ok
              && db.rides == CancelledRides(old(db.rides), c.ride)
              && db.drivers == FreeDriver(old(db.drivers), holder))
    ensures db.meetups == old(db.meetups) && db.invites == old(db.invites)
    ensures old(db.Valid()) ==> db.Valid()
  {
    var id := JsParseInt(rideParam);
    if id.None? {
      return BadRequest;
    }
    var i := id.value;
    if !(0 <= i < |db.rides|) || db.rides[i].rider != user {
      return NotFound;
    }
    var ride := db.rides[i];
    if ride.status != Pending && ride.status != Assigned {
      return BadRequest;
    }
    var drivers := db.drivers;
    if ride.assignedDriver.Some? {
      drivers := FreeDriver(drivers, ride.assignedDriver);
      if !notifyUp {
        return ServerError;
      }
    }
    if old(db.Valid()) {
      CancelLeavesQueue(db.rides, i);
    }
    db.drivers := drivers;
    db.rides := CancelledRides(db.rides, i);
    reply := Ok;
  }

  // ---------------------------------------------------------------------
  // GET /rides/history: the stats object
  // ---------------------------------------------------------------------

  datatype HistoryStats = HistoryStats(total: nat, completed: nat, cancelled: nat, pending: nat, assignedRides: nat)

  /** The caller's rides, restricted to one status when `status` is given. */
  function CountRides(rides: seq<Ride>, user: UserId, status: Option<RideStatus>): (n: nat)
    ensures n <= |rides|
  {
    if rides == [] then 0
    else
      var r := rides[|rides| - 1];
      CountRides(rides[..|rides| - 1], user, status)
        + (if r.rider == user && (status.None? || r.status == status.value) then 1 else 0)
  }

  /** The optional `status` query parameter: one of the four ride statuses
      filters the total, anything else is ignored. */
  function StatusFilter(status: Option<string>): Option<RideStatus>
  {
    if status == Some("pending") then Some(Pending)
    else if status == Some("assigned") then Some(Assigned)
    else if status == Some("completed") then Some(Completed)
    else if status == Some("cancelled") then Some(Cancelled)
    else None
  }

  /** `SELECT status, COUNT(*) ... WHERE user_id = $1 GROUP BY status`:
      one row per status the caller has rides in. */
  function GroupByStatus(rides: seq<Ride>, user: UserId): (rows: seq<(RideStatus, nat)>)
    ensures forall k :: 0 <= k < |rows| ==> rows[k].1 == CountRides(rides, user, Some(rows[k].0)) > 0
    ensures forall s: RideStatus :: CountRides(rides, user, Some(s)) > 0 ==> Listed(rows, |rows|, s)
  {
    var rows := GroupRow(rides, user, Pending) + GroupRow(rides, user, Assigned)
      + GroupRow(rides, user, Completed) + GroupRow(rides, user, Cancelled);
    assert forall s: RideStatus :: CountRides(rides, user, Some(s)) > 0 ==> Listed(rows, |rows|, s) by {
      forall s: RideStatus | CountRides(rides, user, Some(s)) > 0
        ensures Listed(rows, |rows|, s)
      {
        var a, b, c := GroupRow(rides, user, Pending), GroupRow(rides, user, Assigned), GroupRow(rides, user, Completed);
        var k := match s
          case Pending => 0
          case Assigned => |a|
          case Completed => |a| + |b|
          case Cancelled => |a| + |b| + |c|;
        assert rows[k].0 == s;
      }
    }
    rows
  }

  function GroupRow(rides: seq<Ride>, user: UserId, s: RideStatus): (rows: seq<(RideStatus, nat)>)
    ensures |rows| <= 1
    ensures forall k :: 0 <= k < |rows| ==> rows[k] == (s, CountRides(rides, user, Some(s)))
    ensures CountRides(rides, user, Some(s)) > 0 <==> |rows| == 1
  {
    var n := CountRides(rides, user, Some(s));
    if n > 0 then [(s, n)] else []
  }

  /** Some row among the first `k` is for status `s`. */
  ghost predicate Listed(rows: seq<(RideStatus, nat)>, k: nat, s: RideStatus)
    requires k <= |rows|
  {
    exists j :: 0 <= j < k && rows[j].0 == s
  }

  /** What the forEach leaves in the field of status `s` after `k` rows:
      the row's count once a row for `s` has been seen, else the initial 0. */
  ghost function FieldAfter(rides: seq<Ride>, user: UserId, rows: seq<(RideStatus, nat)>, k: nat, s: RideStatus): nat
    requires k <= |rows|
  {
    if Listed(rows, k, s) then CountRides(rides, user, Some(s)) else 0
  }

  /** Every ride of the caller has exactly one of the four statuses. */
  lemma {:induction false} StatusCountsAddUp(rides: seq<Ride>, user: UserId)
    ensures CountRides(rides, user, None) ==
      CountRides(rides, user, Some(Completed)) + CountRides(rides, user, Some(Cancelled))
      + CountRides(rides, user, Some(Pending)) + CountRides(rides, user, Some(Assigned))
    decreases |rides|
  {
    if rides != [] {
      StatusCountsAddUp(rides[..|rides| - 1], user);
    }
  }

  /** The stats of GET /rides/history: `total` is the (optionally filtered)
      count; each status field starts at 0 and is overwritten by its
      GROUP BY row. */
  method RideHistoryStats(db: Store, user: UserId, status: Option<string>) returns (stats: HistoryStats)
    ensures stats.total == CountRides(db.rides, user, StatusFilter(status))
    ensures stats.completed == CountRides(db.rides, user, Some(Completed))
    ensures stats.cancelled == CountRides(db.rides, user, Some(Cancelled))
    ensures stats.pending == CountRides(db.rides, user, Some(Pending))
    ensures stats.assignedRides == CountRides(db.rides, user, Some(Assigned))
  {
    var rows := GroupByStatus(db.rides, user);
    stats := HistoryStats(CountRides(db.rides, user, StatusFilter(status)), 0, 0, 0, 0);
    for k := 0 to |rows|
      invariant stats.total == CountRides(db.rides, user, StatusFilter(status))
      invariant stats.completed == FieldAfter(db.rides, user, rows, k, Completed)
      invariant stats.cancelled == FieldAfter(db.rides, user, rows, k, Cancelled)
      invariant stats.pending == FieldAfter(db.rides, user, rows, k, Pending)
      invariant stats.assignedRides == FieldAfter(db.rides, user, rows, k, Assigned)
    {
      var (s, n) := rows[k];
      assert forall t :: Listed(rows, k + 1, t) <==> Listed(rows, k, t) || t == s;
      match s
      case Completed => stats := stats.(completed := n);
      case Cancelled => stats := stats.(cancelled := n);
      case Pending => stats := stats.(pending := n);
      case Assigned => stats := stats.(assignedRides := n);
    }
  }

  /** Without a status filter the total is the sum of the four fields; with
      one it equals that status's field. */
  lemma HistoryTotals(rides: seq<Ride>, user: UserId, status: Option<string>)
    ensures StatusFilter(status).None? ==>
      CountRides(rides, user, StatusFilter(status)) ==
        CountRides(rides, user, Some(Completed)) + CountRides(rides, user, Some(Cancelled))
        + CountRides(rides, user, Some(Pending)) + CountRides(rides, user, Some(Assigned))
    ensures status == Some("completed") ==>
      CountRides(rides, user, StatusFilter(status)) == CountRides(rides, user, Some(Completed))
  {
    StatusCountsAddUp(rides, user);
  }
}
