/** The PostgreSQL tables the backends share, as one in-memory store.

    Rows of `ride_requests`, `meetups` and `meetup_invites` are kept in
    insertion order; a row's SERIAL id is its position, so "ORDER BY
    created_at" is position order. Driver rows are keyed by the driver's
    user id. The `users` table is only read by the modelled handlers. */
module Db {
  import opened Common
  import opened Location

  datatype RideStatus = Pending | Assigned | Completed | Cancelled
  datatype DriverStatus = Available | NotAvailable | Offline
  datatype MeetupStatus = MeetupPending | InProgress | AllArrived | MeetupCancelled
  datatype InviteStatus = InvitePending | InviteAccepted | InviteRejected | InviteCancelled

  /** A `ride_requests` row. `source` and `destination` are the address
      texts the rides are matched on (`dest_location = meetup_location`). */
  datatype Ride = Ride(
    rider: UserId,
    riderName: Option<string>,
    pickup: Option<Point>,
    source: Option<string>,
    dropoff: Option<Point>,
    destination: Option<string>,
    distanceKm: Option<real>,
    estimatedFare: real,
    rideType: string,
    status: RideStatus,
    assignedDriver: Option<UserId>)

  /** A `drivers` row (its key, the driver's user id, is the map key). */
  datatype Driver = Driver(name: string, vehicle: Option<string>, status: DriverStatus)

  /** A `meetups` row. */
  datatype Meetup = Meetup(organizer: UserId, point: Point, location: Option<string>, status: MeetupStatus)

  /** A `meetup_invites` row; `origin` is the invitee's source address,
      recorded on acceptance. */
  datatype Invite = Invite(meetup: nat, invitee: UserId, status: InviteStatus, origin: Option<string>)

  /** A `users` row. */
  datatype User = User(name: Option<string>, email: string)

  /** The HTTP replies of the handlers. `Created` and `Accepted` carry the
      id of the row they report. */
  datatype Reply =
    | Ok
    | Created(id: nat)
    | Accepted(id: nat)
    | BadRequest
    | Forbidden
    | NotFound
    | Conflict
    | ServerError

  /** A pending ride waits without a driver; an assigned ride has one. */
  predicate RideConsistent(r: Ride)
  {
    && (r.status == Pending ==> r.assignedDriver.None?)
    && (r.status == Assigned ==> r.assignedDriver.Some?)
  }

  ghost predicate RidesConsistent(rides: seq<Ride>)
  {
    forall i :: 0 <= i < |rides| ==> RideConsistent(rides[i])
  }

  class Store {
    var rides: seq<Ride>
    var drivers: map<UserId, Driver>
    var meetups: seq<Meetup>
    var invites: seq<Invite>
    const users: map<UserId, User>

    ghost predicate Valid()
      reads this
    {
      RidesConsistent(rides)
    }

    constructor (users: map<UserId, User>)
      ensures this.users == users
      ensures rides == [] && drivers == map[] && meetups == [] && invites == []
      ensures Valid()
    {
      this.users := users;
      rides := [];
      drivers := map[];
      meetups := [];
      invites := [];
    }
  }

  /** SQL `a = b` on two nullable text columns: NULL matches nothing. */
  predicate SameLocation(a: Option<string>, b: Option<string>)
  {
    a.Some? && b.Some? && a.value == b.value
  }

  /** `UPDATE drivers SET status = 'available' WHERE user_id = $1`, done
      when the ride had an assigned driver; a missing row is left missing. */
  function FreeDriver(drivers: map<UserId, Driver>, holder: Option<UserId>): (r: map<UserId, Driver>)
    ensures r.Keys == drivers.Keys
    ensures forall x :: x in r ==>
      r[x] == (if holder == Some(x) then drivers[x].(status := Available) else drivers[x])
  {
    if holder.Some? && holder.value in drivers then
      drivers[holder.value := drivers[holder.value].(status := Available)]
    else drivers
  }

  /** `userRes.rows[0]?.name || 'User'` */
  function DisplayName(users: map<UserId, User>, id: UserId): (name: string)
    ensures id in users && Present(users[id].name) ==> name == users[id].name.value
    ensures !(id in users && Present(users[id].name)) ==> name == "User"
  {
    if id in users then OrElse(users[id].name, "User") else "User"
  }
}
