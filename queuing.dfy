/** The matching tick of the queue server (backend/queuing.js): take the
    oldest pending ride and any one available driver, and assign them to
    each other in one transaction. Distance plays no part in the choice. */
module Queuing {
  import opened Common
  import opened Db

  datatype TickOutcome =
    | NoPendingRide
    | NoDriverAvailable(ride: nat)
    | Matched(ride: nat, driver: UserId)

  /** `SELECT * FROM ride_requests WHERE status = 'pending'
      ORDER BY created_at ASC LIMIT 1`, searching from position `from`. */
  function OldestPendingFrom(rides: seq<Ride>, from: nat): (r: Option<nat>)
    requires from <= |rides|
    ensures r.Some? ==> from <= r.value < |rides| && rides[r.value].status == Pending
    ensures r.Some? ==> forall j :: from <= j < r.value ==> rides[j].status != Pending
    ensures r.None? ==> forall j :: from <= j < |rides| ==> rides[j].status != Pending
    decreases |rides| - from
  {
    if from == |rides| then None
    else if rides[from].status == Pending then Some(from)
    else OldestPendingFrom(rides, from + 1)
  }

  function OldestPending(rides: seq<Ride>): (r: Option<nat>)
    ensures r.Some? ==> r.value < |rides| && rides[r.value].status == Pending
    ensures r.Some? ==> forall j :: 0 <= j < r.value ==> rides[j].status != Pending
    ensures r.None? ==> forall j :: 0 <= j < |rides| ==> rides[j].status != Pending
  {
    OldestPendingFrom(rides, 0)
  }

  /** The drivers `SELECT * FROM drivers WHERE status = 'available'` may return. */
  function AvailableDrivers(drivers: map<UserId, Driver>): (r: set<UserId>)
    ensures forall d :: d in r <==> d in drivers && drivers[d].status == Available
  {
    set d | d in drivers && drivers[d].status == Available
  }

  /** `UPDATE ride_requests SET status = 'assigned', assigned_driver_id = d WHERE id = i` */
  function AssignRide(rides: seq<Ride>, i: nat, d: UserId): seq<Ride>
    requires i < |rides|
  {
    rides[i := rides[i].(status := Assigned, assignedDriver := Some(d))]
  }

  /** `UPDATE drivers SET status = 'not_available' WHERE user_id = d` */
  function ReserveDriver(drivers: map<UserId, Driver>, d: UserId): map<UserId, Driver>
    requires d in drivers
  {
    drivers[d := drivers[d].(status := NotAvailable)]
  }

  /** One tick from (rides, drivers) to (rides', drivers') reporting `o`. */
  ghost predicate TickStep(rides: seq<Ride>, drivers: map<UserId, Driver>,
                           rides': seq<Ride>, drivers': map<UserId, Driver>, o: TickOutcome)
  {
    match o
    case NoPendingRide =>
      OldestPending(rides).None? && rides' == rides && drivers' == drivers
    case NoDriverAvailable(i) =>
      OldestPending(rides) == Some(i) && AvailableDrivers(drivers) == {}
      && rides' == rides && drivers' == drivers
    case Matched(i, d) =>
      OldestPending(rides) == Some(i) && d in AvailableDrivers(drivers)
      && rides' == AssignRide(rides, i, d) && drivers' == ReserveDriver(drivers, d)
  }

  /** findAndAssignRides */
  method FindAndAssignRides(db: Store) returns (outcome: TickOutcome)
    modifies db
    ensures TickStep(old(db.rides), old(db.drivers), db.rides, db.drivers, outcome)
    ensures db.meetups == old(db.meetups) && db.invites == old(db.invites)
  {
    var ride := OldestPending(db.rides);
    if ride.None? {
      return NoPendingRide;
    }
    var i := ride.value;
    var available := AvailableDrivers(db.drivers);
    if available == {} {
      return NoDriverAvailable(i);
    }
    var d :| d in available;
    db.rides := AssignRide(db.rides, i, d);
    db.drivers := ReserveDriver(db.drivers, d);
    return Matched(i, d);
  }

  /** A tick finds no ride exactly when none is pending; otherwise the ride
      it takes is pending and no earlier ride is. */
  lemma TickChoosesOldestRide(rides: seq<Ride>, drivers: map<UserId, Driver>,
                              rides': seq<Ride>, drivers': map<UserId, Driver>, o: TickOutcome)
    requires TickStep(rides, drivers, rides', drivers', o)
    ensures o.NoPendingRide? <==> forall j :: 0 <= j < |rides| ==> rides[j].status != Pending
    ensures !o.NoPendingRide? ==>
      o.ride < |rides| && rides[o.ride].status == Pending
      && forall j :: 0 <= j < o.ride ==> rides[j].status != Pending
  {
    if !o.NoPendingRide? {
      assert OldestPending(rides) == Some(o.ride);
    }
  }

  /** A matched driver was available and is no longer: exactly that driver
      leaves the available set, so no later tick picks it until its status
      is set back to available. */
  lemma MatchReservesDriver(rides: seq<Ride>, drivers: map<UserId, Driver>,
                            rides': seq<Ride>, drivers': map<UserId, Driver>, i: nat, d: UserId)
    requires TickStep(rides, drivers, rides', drivers', Matched(i, d))
    ensures d in drivers && drivers[d].status == Available
    ensures AvailableDrivers(drivers') == AvailableDrivers(drivers) - {d}
  {
    assert d in AvailableDrivers(drivers);
  }

  /** A match changes exactly one ride row and one driver row. */
  lemma MatchChangesOneRowEach(rides: seq<Ride>, drivers: map<UserId, Driver>,
                               rides': seq<Ride>, drivers': map<UserId, Driver>, i: nat, d: UserId)
    requires TickStep(rides, drivers, rides', drivers', Matched(i, d))
    ensures |rides'| == |rides| && i < |rides|
    ensures rides'[i] == rides[i].(status := Assigned, assignedDriver := Some(d))
    ensures forall j :: 0 <= j < |rides| && j != i ==> rides'[j] == rides[j]
    ensures drivers'.Keys == drivers.Keys
    ensures drivers'[d] == drivers[d].(status := NotAvailable)
    ensures forall x :: x in drivers && x != d ==> drivers'[x] == drivers[x]
  {
    assert OldestPending(rides) == Some(i);
  }

  /** Ticks keep every pending ride driverless and every assigned ride
      with a driver. */
  lemma TickPreservesConsistency(rides: seq<Ride>, drivers: map<UserId, Driver>,
                                 rides': seq<Ride>, drivers': map<UserId, Driver>, o: TickOutcome)
    requires RidesConsistent(rides)
    requires TickStep(rides, drivers, rides', drivers', o)
    ensures RidesConsistent(rides')
  {
    if o.Matched? {
      MatchChangesOneRowEach(rides, drivers, rides', drivers', o.ride, o.driver);
    }
  }

  /** First come, first served: the ride matched by the next tick was
      requested after the ride matched by this one. */
  lemma {:induction false} SuccessiveMatchesInRequestOrder(
    r0: seq<Ride>, d0: map<UserId, Driver>,
    r1: seq<Ride>, d1: map<UserId, Driver>,
    r2: seq<Ride>, d2: map<UserId, Driver>,
    i: nat, x: UserId, j: nat, y: UserId)
    requires TickStep(r0, d0, r1, d1, Matched(i, x))
    requires TickStep(r1, d1, r2, d2, Matched(j, y))
    ensures i < j && x != y
  {
    MatchChangesOneRowEach(r0, d0, r1, d1, i, x);
    MatchReservesDriver(r0, d0, r1, d1, i, x);
    assert OldestPending(r0) == Some(i);
    assert forall k :: 0 <= k <= i ==> r1[k].status != Pending;
    assert OldestPending(r1) == Some(j);
    assert y in AvailableDrivers(d1);
  }

  /** Rides waiting when no driver is available stay waiting: the tick
      leaves the tables alone. */
  lemma NoDriverLeavesRideWaiting(rides: seq<Ride>, drivers: map<UserId, Driver>,
                                  rides': seq<Ride>, drivers': map<UserId, Driver>, i: nat)
    requires TickStep(rides, drivers, rides', drivers', NoDriverAvailable(i))
    ensures i < |rides'| && rides'[i].status == Pending
    ensures forall d :: d in drivers ==> drivers[d].status != Available
  {
    assert OldestPending(rides) == Some(i);
    assert AvailableDrivers(drivers) == {};
  }
}
