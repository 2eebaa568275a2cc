/** The meetup handlers of the client backend (backend/backend_client.js):
    creating a meetup with the organizer's ride and the invites, answering
    an invite, the cancellation cascade, and the invite tallies. */
module ClientMeetups {
  import opened Common
  import opened Digits
  import opened Location
  import opened Db
  import Queuing

  /** `a || b` on two optional text fields. */
  function Or(a: Option<string>, b: Option<string>): (r: Option<string>)
    ensures Present(a) ==> r == a
    ensures !Present(a) ==> r == b
  {
    if Present(a) then a else b
  }

  // ---------------------------------------------------------------------
  // POST /meetups/create
  // ---------------------------------------------------------------------

  /** The request body; `inviteeEmails` is None when the field is absent. */
  datatype MeetupRequest = MeetupRequest(
    meetupLat: Value, meetupLng: Value, meetupAddress: Option<string>,
    inviteeEmails: Option<seq<string>>,
    sourceLat: Value, sourceLng: Value, sourceAddress: Option<string>)

  /** The validations: the five required fields truthy, then both
      coordinate pairs valid. */
  predicate MeetupRequestAccepted(req: MeetupRequest)
  {
    && Truthy(req.meetupLat) && Truthy(req.meetupLng) && req.inviteeEmails.Some?
    && Truthy(req.sourceLat) && Truthy(req.sourceLng)
    && IsValidCoordinate(req.meetupLat, req.meetupLng)
    && IsValidCoordinate(req.sourceLat, req.sourceLng)
  }

  /** `SELECT user_id ... FROM users WHERE email = ANY($1)`: every user whose
      email is listed, each once (the organizer too, if listed). */
  function MatchedInvitees(users: map<UserId, User>, emails: seq<string>): (r: set<UserId>)
    ensures forall u :: u in r <==> u in users && users[u].email in emails
  {
    set u | u in users && users[u].email in emails
  }

  function NewMeetup(organizer: UserId, req: MeetupRequest): Meetup
    requires MeetupRequestAccepted(req)
  {
    Meetup(organizer, ToPoint(req.meetupLat, req.meetupLng), req.meetupAddress, MeetupPending)
  }

  /** The organizer's ride: a standard ride from the given source to the
      meetup point, under the organizer's stored name. */
  function OrganizerRide(users: map<UserId, User>, organizer: UserId, req: MeetupRequest,
                         dist: DistanceFn, round2: Rounding): Ride
    requires MeetupRequestAccepted(req) && organizer in users
  {
    var src := ToPoint(req.sourceLat, req.sourceLng);
    var dst := ToPoint(req.meetupLat, req.meetupLng);
    var d := dist(src, dst);
    Ride(organizer, users[organizer].name, Some(src), req.sourceAddress, Some(dst), req.meetupAddress,
         Some(d), CalculateFare(d, "standard", round2).total, "standard", Pending, None)
  }

  /** The organizer's ride goes to the meetup: it is one of the rides the
      status and cancellation handlers match on the meetup's location, and
      it waits for a driver. */
  lemma OrganizerRideGoesToMeetup(users: map<UserId, User>, organizer: UserId, req: MeetupRequest,
                                  dist: DistanceFn, round2: Rounding)
    requires MeetupRequestAccepted(req) && organizer in users
    requires Present(req.meetupAddress)
    ensures var r := OrganizerRide(users, organizer, req, dist, round2);
            var m := NewMeetup(organizer, req);
      && SameLocation(r.destination, m.location) && r.rider == m.organizer
      && r.dropoff == Some(m.point) && r.status == Pending && RideConsistent(r)
      && r.estimatedFare == round2(ExactFare(r.distanceKm.value, "standard").total)
  {
  }

  /** The invites a new meetup `m` gets: one pending invite per matched
      user, in any order. */
  ghost predicate InvitesFor(added: seq<Invite>, m: nat, matched: set<UserId>)
  {
    && |added| == |matched|
    && (forall k :: 0 <= k < |added| ==>
          added[k] == Invite(m, added[k].invitee, InvitePending, None) && added[k].invitee in matched)
    && (forall u :: u in matched ==> exists k :: 0 <= k < |added| && added[k].invitee == u)
  }

  /** The invite loop of the create handler: one pending invite of meetup
      `m` for each matched user. */
  method PendingInvites(m: nat, matched: set<UserId>) returns (added: seq<Invite>)
    ensures InvitesFor(added, m, matched)
  {
    var remaining := matched;
    added := [];
    while remaining != {}
      invariant remaining <= matched
      invariant |added| + |remaining| == |matched|
      invariant forall k :: 0 <= k < |added| ==>
        added[k] == Invite(m, added[k].invitee, InvitePending, None) && added[k].invitee in matched - remaining
      invariant forall u :: u in matched - remaining ==> exists k :: 0 <= k < |added| && added[k].invitee == u
      decreases |remaining|
    {
      var u :| u in remaining;
      ghost var before, left := added, remaining;
      added := added + [Invite(m, u, InvitePending, None)];
      remaining := remaining - {u};
      forall v | v in matched - remaining
        ensures exists k :: 0 <= k < |added| && added[k].invitee == v
      {
        if v == u {
          assert added[|before|].invitee == v;
        } else {
          assert v in matched - left;
          var k :| 0 <= k < |before| && before[k].invitee == v;
          assert added[k].invitee == v;
        }
      }
    }
    assert matched - remaining == matched;
  }

  /** POST /meetups/create. Everything is inserted in one transaction; a
      missing organizer row makes the handler throw and roll back. The
      invite notifications are sent after COMMIT, so an unreachable
      notification server only turns the reply into a 500. */
  method CreateMeetup(db: Store, organizer: UserId, req: MeetupRequest,
                      dist: DistanceFn, round2: Rounding, notifyUp: bool)
    returns (reply: Reply)
    modifies db
    ensures !MeetupRequestAccepted(req) ==> reply == BadRequest
    ensures MeetupRequestAccepted(req) && organizer !in db.users ==> reply == ServerError
    ensures !(MeetupRequestAccepted(req) && organizer in db.users) ==>
      db.rides == old(db.rides) && db.meetups == old(db.meetups) && db.invites == old(db.invites)
    ensures MeetupRequestAccepted(req) && organizer in db.users ==>
      var matched := MatchedInvitees(db.users, req.inviteeEmails.value);
      && db.meetups == old(db.meetups) + [NewMeetup(organizer, req)]
      && db.rides == old(db.rides) + [OrganizerRide(db.users, organizer, req, dist, round2)]
      && |db.invites| >= |old(db.invites)| && db.invites[..|old(db.invites)|] == old(db.invites)
      && InvitesFor(db.invites[|old(db.invites)|..], |old(db.meetups)|, matched)
      && reply == (if notifyUp || matched == {} then Created(|old(db.meetups)|) else ServerError)
    ensures db.drivers == old(db.drivers)
    ensures old(db.Valid()) ==> db.Valid()
  {
    if !Truthy(req.meetupLat) || !Truthy(req.meetupLng) || req.inviteeEmails.None?
       || !Truthy(req.sourceLat) || !Truthy(req.sourceLng) {
      return BadRequest;
    }
    if !IsValidCoordinate(req.meetupLat, req.meetupLng) || !IsValidCoordinate(req.sourceLat, req.sourceLng) {
      return BadRequest;
    }
    if organizer !in db.users {
      return ServerError;
    }
    var m := |db.meetups|;
    var matched := MatchedInvitees(db.users, req.inviteeEmails.value);
    var added := PendingInvites(m, matched);
    var ride := OrganizerRide(db.users, organizer, req, dist, round2);
    db.meetups := db.meetups + [NewMeetup(organizer, req)];
    db.rides := db.rides + [ride];
    db.invites := db.invites + added;
    assert db.invites[|old(db.invites)|..] == added;
    reply := if notifyUp || matched == {} then Created(m) else ServerError;
  }

  // ---------------------------------------------------------------------
  // POST /meetups/invites/:id/respond
  // ---------------------------------------------------------------------

  /** The request body. `response` is compared with === to the two words. */
  datatype RespondRequest = RespondRequest(
    response: Value, sourceLat: Value, sourceLng: Value,
    sourceAddress: Option<string>, sourceLocation: Option<string>)

  datatype RespondCheck =
    | MissingSource
    | NotInvitee
    | NoMeetup
    | Reject(invite: nat)
    | Accept(invite: nat, meetup: nat)

  /** The checks before any write. Only the word "accepted" requires a
      source; every response other than "rejected" takes the accept path. */
  function CheckRespond(invites: seq<Invite>, meetups: seq<Meetup>, user: UserId,
                        inviteId: int, req: RespondRequest): (c: RespondCheck)
    ensures c.Reject? ==> c.invite == inviteId && 0 <= inviteId < |invites| && invites[inviteId].invitee == user
    ensures c.Accept? ==> c.invite == inviteId && 0 <= inviteId < |invites| && invites[inviteId].invitee == user
                          && c.meetup == invites[inviteId].meetup < |meetups|
  {
    if req.response == Text("accepted")
       && !Truthy(req.sourceLat) && !Truthy(req.sourceLng) && !Present(req.sourceLocation) then MissingSource
    else if !(0 <= inviteId < |invites|) || invites[inviteId].invitee != user then NotInvitee
    else if invites[inviteId].meetup >= |meetups| then NoMeetup
    else if req.response == Text("rejected") then Reject(inviteId)
    else Accept(inviteId, invites[inviteId].meetup)
  }

  /** Only the invite's own invitee gets past the ownership check, and any
      answer other than "rejected" (a missing one included) accepts. */
  lemma RespondOutcomes(invites: seq<Invite>, meetups: seq<Meetup>, user: UserId,
                        inviteId: int, req: RespondRequest)
    ensures var c := CheckRespond(invites, meetups, user, inviteId, req);
      && (!(0 <= inviteId < |invites| && invites[inviteId].invitee == user) ==>
            c == MissingSource || c == NotInvitee)
      && ((0 <= inviteId < |invites| && invites[inviteId].invitee == user
           && invites[inviteId].meetup < |meetups| && req.response != Text("rejected")
           && Truthy(req.sourceLat)) ==> c == Accept(inviteId, invites[inviteId].meetup))
      && (c.MissingSource? <==>
            (req.response == Text("accepted")
             && !Truthy(req.sourceLat) && !Truthy(req.sourceLng) && !Present(req.sourceLocation)))
  {
  }

  /** The distance the accept path computes: only when the source and the
      meetup coordinates are all truthy; a non-numeric source is NaN here,
      which the model records as no distance. */
  function AcceptDistance(req: RespondRequest, meetup: Meetup, dist: DistanceFn): Option<real>
  {
    if Truthy(req.sourceLat) && Truthy(req.sourceLng) && meetup.point.lat != 0.0 && meetup.point.lng != 0.0
       && req.sourceLat.Number? && req.sourceLng.Number? then
      Some(dist(Point(req.sourceLat.x, req.sourceLng.x), meetup.point))
    else None
  }

  /** `fareDetails?.total || 100.00` */
  function AcceptFare(distance: Option<real>, round2: Rounding): (fare: real)
  {
    if distance.None? then 100.0
    else
      var total := CalculateFare(distance.value, "standard", round2).total;
      if total != 0.0 then total else 100.0
  }

  /** The ride the accept path inserts for the invitee, to the meetup. */
  function AcceptedRide(users: map<UserId, User>, user: UserId, req: RespondRequest, meetup: Meetup,
                        dist: DistanceFn, round2: Rounding): Ride
  {
    var distance := AcceptDistance(req, meetup, dist);
    var pickup := if req.sourceLat.Number? && req.sourceLng.Number? && Truthy(req.sourceLat) && Truthy(req.sourceLng)
                  then Some(Point(req.sourceLat.x, req.sourceLng.x)) else None;
    var dropoff := if meetup.point.lat != 0.0 && meetup.point.lng != 0.0 then Some(meetup.point) else None;
    Ride(user, Some(DisplayName(users, user)), pickup, Or(req.sourceAddress, req.sourceLocation),
         dropoff, meetup.location, distance, AcceptFare(distance, round2), "standard", Pending, None)
  }

  /** The invitee's ride waits for a driver, goes to the meetup's location,
      and costs the standard fare when both coordinate pairs are known,
      100.00 otherwise. */
  lemma AcceptedRideFare(users: map<UserId, User>, user: UserId, req: RespondRequest, meetup: Meetup,
                         dist: DistanceFn, round2: Rounding)
    ensures var r := AcceptedRide(users, user, req, meetup, dist, round2);
      && r.rider == user && r.status == Pending && RideConsistent(r)
      && r.destination == meetup.location && r.rideType == "standard"
      && (req.sourceLat.Number? && req.sourceLng.Number? && req.sourceLat.x != 0.0 && req.sourceLng.x != 0.0
          && meetup.point.lat != 0.0 && meetup.point.lng != 0.0 ==>
            var total := round2(ExactFare(dist(Point(req.sourceLat.x, req.sourceLng.x), meetup.point), "standard").total);
            r.estimatedFare == (if total != 0.0 then total else 100.0))
      && (!Truthy(req.sourceLat) || !Truthy(req.sourceLng) ==> r.estimatedFare == 100.0 && r.distanceKm.None?)
  {
  }

  /** The invite row after an answer. */
  function AnsweredInvites(invites: seq<Invite>, i: nat, status: InviteStatus, origin: Option<string>): seq<Invite>
    requires i < |invites|
  {
    invites[i := invites[i].(status := status, origin := origin)]
  }

  /** POST /meetups/invites/:id/respond. There is no transaction: the
      writes stand even when the notification to the organizer fails and
      the reply is a 500. */
  method RespondToInvite(db: Store, user: UserId, inviteId: int, req: RespondRequest,
                         dist: DistanceFn, round2: Rounding, notifyUp: bool)
    returns (reply: Reply)
    modifies db
    ensures var c := CheckRespond(old(db.invites), old(db.meetups), user, inviteId, req);
      && (c.MissingSource? ==> reply == BadRequest)
      && (c.NotInvitee? ==> reply == Forbidden)
      && (c.NoMeetup? ==> reply == NotFound)
      && (!c.Reject? && !c.Accept? ==> db.invites == old(db.invites) && db.rides == old(db.rides))
      && (c.Reject? ==>
            && db.invites == AnsweredInvites(old(db.invites), c.invite, InviteRejected, old(db.invites)[c.invite].origin)
            && db.rides == old(db.rides)
            && reply == (if notifyUp then Ok else ServerError))
      && (c.Accept? ==>
            && db.invites == AnsweredInvites(old(db.invites), c.invite, InviteAccepted,
                                             Or(req.sourceAddress, req.sourceLocation))
            && db.rides == old(db.rides) + [AcceptedRide(db.users, user, req, old(db.meetups)[c.meetup], dist, round2)]
            && reply == (if notifyUp then Accepted(|old(db.rides)|) else ServerError))
    ensures db.meetups == old(db.meetups) && db.drivers == old(db.drivers)
    ensures old(db.Valid()) ==> db.Valid()
  {
    if req.response == Text("accepted") {
      if !Truthy(req.sourceLat) && !Truthy(req.sourceLng) && !Present(req.sourceLocation) {
        return BadRequest;
      }
    }
    if !(0 <= inviteId < |db.invites|) || db.invites[inviteId].invitee != user {
      return Forbidden;
    }
    var m := db.invites[inviteId].meetup;
    if m >= |db.meetups| {
      return NotFound;
    }
    var meetup := db.meetups[m];
    if req.response == Text("rejected") {
      db.invites := AnsweredInvites(db.invites, inviteId, InviteRejected, db.invites[inviteId].origin);
      return if notifyUp then Ok else ServerError;
    }
    db.invites := AnsweredInvites(db.invites, inviteId, InviteAccepted, Or(req.sourceAddress, req.sourceLocation));
    var ride := AcceptedRide(db.users, user, req, meetup, dist, round2);
    reply := if notifyUp then Accepted(|db.rides|) else ServerError;
    db.rides := db.rides + [ride];
  }

  // ---------------------------------------------------------------------
  // DELETE /meetups/:meetup_id/cancel
  // ---------------------------------------------------------------------

  datatype CancelMeetupCheck =
    | InvalidMeetupId
    | NoSuchMeetup
    | NotOrganizer
    | AlreadyCancelled
    | CanCancel(meetup: nat)

  /** The checks before any write; the meetup query joins the organizer's
      user row, so a meetup whose organizer has no row is not found. */
  function CheckCancelMeetup(meetups: seq<Meetup>, users: map<UserId, User>, user: UserId,
                             meetupParam: string): (c: CancelMeetupCheck)
    ensures c.CanCancel? ==> c.meetup < |meetups| && meetups[c.meetup].organizer == user
                             && meetups[c.meetup].status != MeetupCancelled
  {
    match JsParseInt(meetupParam)
    case None => InvalidMeetupId
    case Some(m) =>
      if !(0 <= m < |meetups|) || meetups[m].organizer !in users then NoSuchMeetup
      else if meetups[m].organizer != user then NotOrganizer
      else if meetups[m].status == MeetupCancelled then AlreadyCancelled
      else CanCancel(m)
  }

  /** When cancelling a meetup is refused, and with which reply: a
      non-numeric id is 400, a missing meetup (or organizer row) 404, a
      caller who is not the organizer 403 and a meetup already cancelled
      400; the organizer of a live meetup gets through. */
  lemma CancelMeetupRefusals(meetups: seq<Meetup>, users: map<UserId, User>, user: UserId, meetupParam: string)
    ensures var c := CheckCancelMeetup(meetups, users, user, meetupParam);
      && (c == InvalidMeetupId <==> JsParseInt(meetupParam).None?)
      && (JsParseInt(meetupParam).Some? ==>
            var m := JsParseInt(meetupParam).value;
            && (c == NoSuchMeetup <==> !(0 <= m < |meetups|) || meetups[m].organizer !in users)
            && (c == NotOrganizer <==>
                  0 <= m < |meetups| && meetups[m].organizer in users && meetups[m].organizer != user)
            && (c == AlreadyCancelled <==>
                  0 <= m < |meetups| && meetups[m].organizer == user && user in users
                  && meetups[m].status == MeetupCancelled)
            && (c.CanCancel? <==>
                  0 <= m < |meetups| && meetups[m].organizer == user && user in users
                  && meetups[m].status != MeetupCancelled)
            && (c.CanCancel? ==> c.meetup == m))
  {
  }

  /** Invitees of meetup `m` who accepted (and have a user row). */
  function AcceptedInvitees(invites: seq<Invite>, users: map<UserId, User>, m: nat): (r: set<UserId>)
    ensures forall u :: u in r <==>
      exists k :: 0 <= k < |invites| && invites[k].meetup == m && invites[k].status == InviteAccepted
                  && invites[k].invitee == u && u in users
  {
    set k | 0 <= k < |invites| && invites[k].meetup == m && invites[k].status == InviteAccepted
              && invites[k].invitee in users :: invites[k].invitee
  }

  /** A ride the cascade cancels: bound for the meetup's location, owned by
      one of `owners`, and still pending or assigned. */
  predicate ToCancel(r: Ride, owners: set<UserId>, location: Option<string>)
  {
    SameLocation(r.destination, location) && r.rider in owners && (r.status == Pending || r.status == Assigned)
  }

  /** The positions, in increasing order, of the rides to cancel from `from` on. */
  function RidesToCancel(rides: seq<Ride>, owners: set<UserId>, location: Option<string>, from: nat): (idx: seq<nat>)
    requires from <= |rides|
    ensures forall k :: 0 <= k < |idx| ==> from <= idx[k] < |rides| && ToCancel(rides[idx[k]], owners, location)
    ensures forall k, l :: 0 <= k < l < |idx| ==> idx[k] < idx[l]
    ensures forall i :: from <= i < |rides| && ToCancel(rides[i], owners, location) ==> i in idx
    decreases |rides| - from
  {
    if from == |rides| then []
    else
      var rest := RidesToCancel(rides, owners, location, from + 1);
      if ToCancel(rides[from], owners, location) then [from] + rest else rest
  }

  /** The rides table with the rides at `idx` cancelled. */
  function CancelRidesAt(rides: seq<Ride>, idx: set<nat>): (r: seq<Ride>)
    ensures |r| == |rides|
    ensures forall i :: 0 <= i < |rides| ==> r[i] == if i in idx then rides[i].(status := Cancelled) else rides[i]
  {
    seq(|rides|, i requires 0 <= i < |rides| => if i in idx then rides[i].(status := Cancelled) else rides[i])
  }

  /** The drivers assigned to the first `n` rides listed in `idx`. */
  function Holders(rides: seq<Ride>, idx: seq<nat>, n: nat): (h: set<UserId>)
    requires n <= |idx|
    requires forall k :: 0 <= k < |idx| ==> idx[k] < |rides|
    ensures forall d :: d in h <==> exists k :: 0 <= k < n && rides[idx[k]].assignedDriver == Some(d)
  {
    if n == 0 then {}
    else
      var h := Holders(rides, idx, n - 1);
      var a := rides[idx[n - 1]].assignedDriver;
      if a.Some? then h + {a.value} else h
  }

  /** The drivers table with every driver in `freed` set available. */
  function FreeDrivers(drivers: map<UserId, Driver>, freed: set<UserId>): (r: map<UserId, Driver>)
    ensures r.Keys == drivers.Keys
    ensures forall d :: d in r ==> r[d] == if d in freed then drivers[d].(status := Available) else drivers[d]
  {
    map d | d in drivers :: if d in freed then drivers[d].(status := Available) else drivers[d]
  }

  /** Every invite of meetup `m` that was not rejected becomes cancelled. */
  function CancelInvites(invites: seq<Invite>, m: nat): (r: seq<Invite>)
    ensures |r| == |invites|
    ensures forall k :: 0 <= k < |invites| ==>
      r[k] == (if invites[k].meetup == m && invites[k].status != InviteRejected
               then invites[k].(status := InviteCancelled) else invites[k])
  {
    seq(|invites|, k requires 0 <= k < |invites| =>
      if invites[k].meetup == m && invites[k].status != InviteRejected
      then invites[k].(status := InviteCancelled) else invites[k])
  }

  /** The first `n` positions listed in `idx`, as a set. */
  function IndexSet(idx: seq<nat>, n: nat): set<nat>
    requires n <= |idx|
  {
    set k | 0 <= k < n :: idx[k]
  }

  /** One more ride of the loop cancelled, on the working copy of the rides. */
  lemma CascadeRidesStep(r0: seq<Ride>, idx: seq<nat>, k: nat, rides: seq<Ride>)
    requires k < |idx|
    requires forall j :: 0 <= j < |idx| ==> idx[j] < |r0|
    requires forall j, l :: 0 <= j < l < |idx| ==> idx[j] < idx[l]
    requires rides == CancelRidesAt(r0, IndexSet(idx, k))
    ensures rides[idx[k] := rides[idx[k]].(status := Cancelled)] == CancelRidesAt(r0, IndexSet(idx, k + 1))
  {
    var i := idx[k];
    assert IndexSet(idx, k + 1) == IndexSet(idx, k) + {i};
    assert i !in IndexSet(idx, k);
  }

  /** One more ride's driver freed, on the working copy of the drivers. */
  lemma CascadeDriversStep(r0: seq<Ride>, d0: map<UserId, Driver>, idx: seq<nat>, k: nat,
                           drivers: map<UserId, Driver>)
    requires k < |idx|
    requires forall j :: 0 <= j < |idx| ==> idx[j] < |r0|
    requires drivers == FreeDrivers(d0, Holders(r0, idx, k))
    ensures FreeDriver(drivers, r0[idx[k]].assignedDriver) == FreeDrivers(d0, Holders(r0, idx, k + 1))
  {
  }

  /** The loop of the cancel handler, on working copies of the rides and
      drivers tables: each listed ride is cancelled and its driver freed.
      The passenger is notified inside the transaction, so an unreachable
      notification server aborts at the first ride (`done` false). */
  method CascadeRides(r0: seq<Ride>, d0: map<UserId, Driver>, idx: seq<nat>, notifyUp: bool)
    returns (done: bool, rides: seq<Ride>, drivers: map<UserId, Driver>)
    requires forall j :: 0 <= j < |idx| ==> idx[j] < |r0|
    requires forall j, l :: 0 <= j < l < |idx| ==> idx[j] < idx[l]
    ensures done <==> notifyUp || idx == []
    ensures done ==> rides == CancelRidesAt(r0, IndexSet(idx, |idx|))
    ensures done ==> drivers == FreeDrivers(d0, Holders(r0, idx, |idx|))
  {
    rides, drivers := r0, d0;
    for k := 0 to |idx|
      invariant rides == CancelRidesAt(r0, IndexSet(idx, k))
      invariant drivers == FreeDrivers(d0, Holders(r0, idx, k))
      invariant !notifyUp ==> k == 0
    {
      var i := idx[k];
      CascadeRidesStep(r0, idx, k, rides);
      CascadeDriversStep(r0, d0, idx, k, drivers);
      rides := rides[i := rides[i].(status := Cancelled)];
      drivers := FreeDriver(drivers, r0[i].assignedDriver);
      if !notifyUp {
        return false, rides, drivers;
      }
    }
    done := true;
  }

  /** DELETE /meetups/:meetup_id/cancel. The loop works on the open
      transaction; its notifications are sent inside it, so when the
      notification server is unreachable and there is a ride to cancel,
      the transaction rolls back and nothing changes. The notifications to
      the accepted invitees follow the COMMIT. `cancelled` is the reply's
      `cancelled_rides`. */
  method CancelMeetup(db: Store, user: UserId, meetupParam: string, notifyUp: bool)
    returns (reply: Reply, cancelled: nat)
    modifies db
    ensures var c := CheckCancelMeetup(old(db.meetups), db.users, user, meetupParam);
      && (c.InvalidMeetupId? ==> reply == BadRequest)
      && (c.NoSuchMeetup? ==> reply == NotFound)
      && (c.NotOrganizer? ==> reply == Forbidden)
      && (c.AlreadyCancelled? ==> reply == BadRequest)
      && (!c.CanCancel? ==>
            db.rides == old(db.rides) && db.drivers == old(db.drivers)
            && db.meetups == old(db.meetups) && db.invites == old(db.invites))
      && (c.CanCancel? ==>
            var m := c.meetup;
            var accepted := AcceptedInvitees(old(db.invites), db.users, m);
            var idx := RidesToCancel(old(db.rides), {user} + accepted, old(db.meetups)[m].location, 0);
            if idx != [] && !notifyUp then
              reply == ServerError
              && db.rides == old(db.rides) && db.drivers == old(db.drivers)
              && db.meetups == old(db.meetups) && db.invites == old(db.invites)
            else
              && db.rides == CancelRidesAt(old(db.rides), IndexSet(idx, |idx|))
              && db.drivers == FreeDrivers(old(db.drivers), Holders(old(db.rides), idx, |idx|))
              && db.invites == CancelInvites(old(db.invites), m)
              && db.meetups == old(db.meetups)[m := old(db.meetups)[m].(status := MeetupCancelled)]
              && cancelled == |idx|
              && reply == (if notifyUp || accepted == {} then Ok else ServerError))
    ensures old(db.Valid()) ==> db.Valid()
  {
    var check := CheckCancelMeetup(db.meetups, db.users, user, meetupParam);
    if !check.CanCancel? {
      reply := match check
        case InvalidMeetupId => BadRequest
        case NoSuchMeetup => NotFound
        case NotOrganizer => Forbidden
        case AlreadyCancelled => BadRequest;
      return reply, 0;
    }
    var m := check.meetup;
    var meetup := db.meetups[m];
    var accepted := AcceptedInvitees(db.invites, db.users, m);
    var idx := RidesToCancel(db.rides, {meetup.organizer} + accepted, meetup.location, 0);
    var done, rides, drivers := CascadeRides(db.rides, db.drivers, idx, notifyUp);
    if !done {
      return ServerError, 0;
    }
    if old(db.Valid()) {
      CascadePreservesConsistency(db.rides, IndexSet(idx, |idx|));
    }
    db.rides := rides;
    db.drivers := drivers;
    db.invites := CancelInvites(db.invites, m);
    db.meetups := db.meetups[m := meetup.(status := MeetupCancelled)];
    cancelled := |idx|;
    reply := if notifyUp || accepted == {} then Ok else ServerError;
  }

  lemma CascadePreservesConsistency(rides: seq<Ride>, idx: set<nat>)
    requires RidesConsistent(rides)
    ensures RidesConsistent(CancelRidesAt(rides, idx))
  {
  }

  /** The cascade cancels exactly the organizer's and accepted invitees'
      pending and assigned rides to the meetup's location, so the reply's
      count is the number of rows that changed; completed rides and all
      other rides are untouched. */
  lemma CascadeCancelsExactly(rides: seq<Ride>, owners: set<UserId>, location: Option<string>)
    ensures var idx := RidesToCancel(rides, owners, location, 0);
            var r := CancelRidesAt(rides, IndexSet(idx, |idx|));
      && (forall i :: 0 <= i < |rides| ==>
            (r[i] != rides[i] <==> ToCancel(rides[i], owners, location))
            && (ToCancel(rides[i], owners, location) ==> r[i].status == Cancelled)
            && (rides[i].status == Completed ==> r[i] == rides[i]))
      && |idx| == |IndexSet(idx, |idx|)|
  {
    var idx := RidesToCancel(rides, owners, location, 0);
    forall i | 0 <= i < |rides|
      ensures i in IndexSet(idx, |idx|) <==> ToCancel(rides[i], owners, location)
    {
      if i in IndexSet(idx, |idx|) {
        var k :| 0 <= k < |idx| && idx[k] == i;
      }
    }
    DistinctIndexCount(idx, |idx|);
  }

  /** A strictly increasing index sequence lists as many positions as it
      has elements. */
  lemma {:induction false} DistinctIndexCount(idx: seq<nat>, n: nat)
    requires n <= |idx|
    requires forall k, l :: 0 <= k < l < |idx| ==> idx[k] < idx[l]
    ensures |IndexSet(idx, n)| == n
  {
    if n > 0 {
      DistinctIndexCount(idx, n - 1);
      assert IndexSet(idx, n) == IndexSet(idx, n - 1) + {idx[n - 1]};
      assert idx[n - 1] !in IndexSet(idx, n - 1);
    }
  }

  /** Drivers of the cancelled rides become available; no other driver row
      changes. */
  lemma CascadeFreesDrivers(rides: seq<Ride>, drivers: map<UserId, Driver>, idx: seq<nat>, d: UserId)
    requires forall k :: 0 <= k < |idx| ==> idx[k] < |rides|
    requires d in drivers
    ensures var r := FreeDrivers(drivers, Holders(rides, idx, |idx|));
      && ((exists k :: 0 <= k < |idx| && rides[idx[k]].assignedDriver == Some(d)) ==> r[d].status == Available)
      && (!(exists k :: 0 <= k < |idx| && rides[idx[k]].assignedDriver == Some(d)) ==> r[d] == drivers[d])
  {
  }

  /** No ride of a cancelled meetup is served by a later tick. */
  lemma CascadeLeavesQueue(rides: seq<Ride>, owners: set<UserId>, location: Option<string>)
    ensures var idx := RidesToCancel(rides, owners, location, 0);
            var p := Queuing.OldestPending(CancelRidesAt(rides, IndexSet(idx, |idx|)));
      p.Some? ==> !ToCancel(rides[p.value], owners, location)
  {
  }

  /** Rejected invites stay rejected, every other invite of the meetup is
      cancelled, and other meetups' invites are untouched. */
  lemma CancelInvitesOutcome(invites: seq<Invite>, m: nat, k: nat)
    requires k < |invites|
    ensures var r := CancelInvites(invites, m);
      && (invites[k].meetup != m ==> r[k] == invites[k])
      && (invites[k].status == InviteRejected ==> r[k].status == InviteRejected)
      && (invites[k].meetup == m ==> r[k].status == InviteRejected || r[k].status == InviteCancelled)
      && r[k].invitee == invites[k].invitee && r[k].meetup == invites[k].meetup
  {
  }

  // ---------------------------------------------------------------------
  // GET /meetups/invites/all: the counts by status
  // ---------------------------------------------------------------------

  /** An invite the query returns to `user`: addressed to the caller, with
      a meetup row and an organizer row to join. */
  predicate ListedFor(i: Invite, meetups: seq<Meetup>, users: map<UserId, User>, user: UserId)
  {
    i.invitee == user && i.meetup < |meetups| && meetups[i.meetup].organizer in users
  }

  /** The caller's invites the query returns (the join drops invites whose
      meetup or organizer row is missing), newest first: every listed
      invite as often as it occurs, and nothing else. */
  function UserInviteRows(invites: seq<Invite>, meetups: seq<Meetup>, users: map<UserId, User>, user: UserId): (rows: seq<Invite>)
    ensures forall k :: 0 <= k < |rows| ==> rows[k] in invites && rows[k].invitee == user
    ensures forall x :: multiset(rows)[x] == if ListedFor(x, meetups, users, user) then multiset(invites)[x] else 0
    decreases |invites|
  {
    if invites == [] then []
    else
      var i := invites[0];
      var rest := UserInviteRows(invites[1..], meetups, users, user);
      assert invites == [i] + invites[1..];
      assert forall k :: 0 <= k < |rest| ==> rest[k] in invites;
      if ListedFor(i, meetups, users, user) then rest + [i] else rest
  }

  /** `rows.filter(inv => inv.status === s)`: every row of that status, as
      often as it occurs, and nothing else. */
  function WithStatus(rows: seq<Invite>, s: InviteStatus): (r: seq<Invite>)
    ensures |r| <= |rows|
    ensures forall k :: 0 <= k < |r| ==> r[k].status == s && r[k] in rows
    ensures forall x :: multiset(r)[x] == if x.status == s then multiset(rows)[x] else 0
  {
    if rows == [] then []
    else
      var rest := WithStatus(rows[1..], s);
      assert rows == [rows[0]] + rows[1..];
      assert forall k :: 0 <= k < |rest| ==> rest[k] in rows;
      if rows[0].status == s then [rows[0]] + rest else rest
  }

  datatype InviteCounts = InviteCounts(total: nat, pending: nat, accepted: nat, rejected: nat)

  function CountInvites(rows: seq<Invite>): InviteCounts
  {
    InviteCounts(|rows|, |WithStatus(rows, InvitePending)|, |WithStatus(rows, InviteAccepted)|,
                 |WithStatus(rows, InviteRejected)|)
  }

  /** The three buckets cover every invite except the cancelled ones. */
  lemma {:induction false} InviteBucketsPartition(rows: seq<Invite>)
    ensures var c := CountInvites(rows);
      c.pending + c.accepted + c.rejected + |WithStatus(rows, InviteCancelled)| == c.total
    decreases |rows|
  {
    if rows != [] {
      InviteBucketsPartition(rows[1..]);
    }
  }
}
