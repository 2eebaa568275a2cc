/** The driver backend (backend/backend_driver.js): a driver sets its own
    availability, creating its profile on first use, or registers a
    profile explicitly. Only the driver's own row is touched; the status
    may be set whatever rides the driver holds. */
module DriverApi {
  import opened Common
  import opened Digits
  import opened Db
  import Queuing

  /** The wire name of a driver status. */
  function StatusText(s: DriverStatus): string
  {
    match s
    case Available => "available"
    case NotAvailable => "not_available"
    case Offline => "offline"
  }

  /** `validStatuses.includes(status)`: one of the three names, as a string. */
  function ParseDriverStatus(v: Value): Option<DriverStatus>
  {
    if v == Text("available") then Some(Available)
    else if v == Text("not_available") then Some(NotAvailable)
    else if v == Text("offline") then Some(Offline)
    else None
  }

  /** The request is accepted exactly for the three wire names, and each
      names its own status. */
  lemma StatusNamesRoundTrip(v: Value, s: DriverStatus)
    ensures ParseDriverStatus(Text(StatusText(s))) == Some(s)
    ensures ParseDriverStatus(v) == Some(s) <==> v == Text(StatusText(s))
    ensures ParseDriverStatus(v).None? <==>
      v != Text("available") && v != Text("not_available") && v != Text("offline")
  {
    assert "available"[0] != "not_available"[0] && "available"[0] != "offline"[0];
    assert "not_available"[0] != "offline"[0];
  }

  /** The name of a profile created by a status update: `AutoDriver_<id>`. */
  function AutoName(id: UserId): string
  {
    "AutoDriver_" + NatToString(id)
  }

  /** Automatic names tell their drivers apart. */
  lemma AutoNameInjective(a: UserId, b: UserId)
    ensures AutoName(a) == AutoName(b) <==> a == b
  {
    if AutoName(a) == AutoName(b) {
      assert AutoName(a)[11..] == NatToString(a);
      assert AutoName(b)[11..] == NatToString(b);
      NatToStringInjective(a, b);
    }
  }

  /** The drivers table after `id` sets status `s`: its row updated, or an
      automatic profile without a vehicle inserted. */
  function SetStatus(drivers: map<UserId, Driver>, id: UserId, s: DriverStatus): map<UserId, Driver>
  {
    if id in drivers then drivers[id := drivers[id].(status := s)]
    else drivers[id := Driver(AutoName(id), None, s)]
  }

  /** After a status update the driver has a row with that status, its
      name and vehicle are kept when it had a row, no other row changes,
      and repeating the update changes nothing. The driver is then in the
      pool the queue matches from exactly when the status is available. */
  lemma SetStatusOutcome(drivers: map<UserId, Driver>, id: UserId, s: DriverStatus)
    ensures var r := SetStatus(drivers, id, s);
      && r.Keys == drivers.Keys + {id}
      && r[id].status == s
      && (id in drivers ==> r[id].name == drivers[id].name && r[id].vehicle == drivers[id].vehicle)
      && (id !in drivers ==> r[id] == Driver(AutoName(id), None, s))
      && (forall d :: d in drivers && d != id ==> r[d] == drivers[d])
      && SetStatus(r, id, s) == r
      && (id in Queuing.AvailableDrivers(r) <==> s == Available)
      && Queuing.AvailableDrivers(r) - {id} == Queuing.AvailableDrivers(drivers) - {id}
  {
    var r := SetStatus(drivers, id, s);
    assert SetStatus(r, id, s) == r;
  }

  /** PUT /driver/status */
  method UpdateDriverStatus(db: Store, user: UserId, status: Value) returns (reply: Reply)
    modifies db
    ensures ParseDriverStatus(status).None? ==> reply == BadRequest && db.drivers == old(db.drivers)
    ensures ParseDriverStatus(status).Some? ==>
      && db.drivers == SetStatus(old(db.drivers), user, ParseDriverStatus(status).value)
      && reply == (if user in old(db.drivers) then Ok else Created(user))
    ensures db.rides == old(db.rides) && db.meetups == old(db.meetups) && db.invites == old(db.invites)
  {
    var s := ParseDriverStatus(status);
    if s.None? {
      return BadRequest;
    }
    reply := if user in db.drivers then Ok else Created(user);
    db.drivers := SetStatus(db.drivers, user, s.value);
  }

  /** The drivers table after an explicit registration: a new offline
      profile with the given name and vehicle. */
  function Register(drivers: map<UserId, Driver>, id: UserId, name: string, vehicle: string): map<UserId, Driver>
  {
    drivers[id := Driver(name, Some(vehicle), Offline)]
  }

  /** A registered driver is offline, so the queue does not match it until
      it sets itself available; other rows are untouched. */
  lemma RegisteredDriverWaitsOffline(drivers: map<UserId, Driver>, id: UserId, name: string, vehicle: string)
    requires id !in drivers
    ensures var r := Register(drivers, id, name, vehicle);
      && r.Keys == drivers.Keys + {id}
      && id !in Queuing.AvailableDrivers(r)
      && Queuing.AvailableDrivers(r) == Queuing.AvailableDrivers(drivers)
      && Queuing.AvailableDrivers(SetStatus(r, id, Available)) == Queuing.AvailableDrivers(drivers) + {id}
  {
    var r := Register(drivers, id, name, vehicle);
    SetStatusOutcome(r, id, Available);
  }

  /** POST /drivers/register */
  method RegisterDriver(db: Store, user: UserId, name: Option<string>, vehicle: Option<string>)
    returns (reply: Reply)
    modifies db
    ensures !Present(name) || !Present(vehicle) ==> reply == BadRequest && db.drivers == old(db.drivers)
    ensures Present(name) && Present(vehicle) && user in old(db.drivers) ==>
      reply == Conflict && db.drivers == old(db.drivers)
    ensures Present(name) && Present(vehicle) && user !in old(db.drivers) ==>
      reply == Created(user) && db.drivers == Register(old(db.drivers), user, name.value, vehicle.value)
    ensures db.rides == old(db.rides) && db.meetups == old(db.meetups) && db.invites == old(db.invites)
  {
    if !Present(name) || !Present(vehicle) {
      return BadRequest;
    }
    if user in db.drivers {
      return Conflict;
    }
    db.drivers := Register(db.drivers, user, name.value, vehicle.value);
    return Created(user);
  }
}
