/** The two meetup read-outs of the client backend
    (backend/backend_client.js): the detailed status, which also writes
    the derived meetup status back, and the quick progress summary. */
module MeetupView {
  import opened Common
  import opened Digits
  import opened Location
  import opened Db

  // ---------------------------------------------------------------------
  // Access
  // ---------------------------------------------------------------------

  datatype Access =
    | InvalidId
    | Missing
    | Denied
    | Granted(meetup: nat, organizer: bool)

  /** Does `user` hold any invite to meetup `m`, whatever its status? */
  predicate HasInvite(invites: seq<Invite>, m: nat, user: UserId)
  {
    exists k :: 0 <= k < |invites| && invites[k].meetup == m && invites[k].invitee == user
  }

  /** The checks both read-outs make: the id parses, the meetup exists (the
      status query also joins the organizer's user row), and the caller is
      its organizer or holds an invite to it. */
  function CheckAccess(meetups: seq<Meetup>, invites: seq<Invite>, users: map<UserId, User>,
                       user: UserId, meetupParam: string, joinOrganizer: bool): (a: Access)
    ensures a.Granted? ==> a.meetup < |meetups|
  {
    match JsParseInt(meetupParam)
    case None => InvalidId
    case Some(m) =>
      if !(0 <= m < |meetups|) || (joinOrganizer && meetups[m].organizer !in users) then Missing
      else if meetups[m].organizer != user && !HasInvite(invites, m, user) then Denied
      else Granted(m, meetups[m].organizer == user)
  }

  /** Only the organizer and the users invited to the meetup get past the
      check; an invite that was rejected or cancelled still grants access. */
  lemma AccessGrantedExactly(meetups: seq<Meetup>, invites: seq<Invite>, users: map<UserId, User>,
                             user: UserId, m: nat, rest: string, joinOrganizer: bool)
    requires m < |meetups| && (!joinOrganizer || meetups[m].organizer in users)
    requires rest == [] || !IsDigit(rest[0])
    ensures var a := CheckAccess(meetups, invites, users, user, NatToString(m) + rest, joinOrganizer);
      && (a.Granted? <==> meetups[m].organizer == user || HasInvite(invites, m, user))
      && (a.Granted? ==> a.meetup == m && (a.organizer <==> meetups[m].organizer == user))
      && (!a.Granted? ==> a == Denied)
  {
    JsParseIntReadsId(m, rest);
  }

  // ---------------------------------------------------------------------
  // The rows the status query returns
  // ---------------------------------------------------------------------

  /** A ride the status read-out shows for `rider`: to the meetup's
      location and pending, assigned or completed. */
  predicate Tracked(r: Ride, rider: UserId, location: Option<string>)
  {
    r.rider == rider && SameLocation(r.destination, location) && r.status != Cancelled
  }

  /** The positions, in increasing order, of `rider`'s tracked rides from
      position `from` on. */
  ghost function TrackedPositions(rides: seq<Ride>, rider: UserId, location: Option<string>, from: nat): seq<nat>
    requires from <= |rides|
    decreases |rides| - from
  {
    if from == |rides| then []
    else
      var rest := TrackedPositions(rides, rider, location, from + 1);
      if Tracked(rides[from], rider, location) then [from] + rest else rest
  }

  /** `idx` holds only tracked positions from `lo` on, in increasing order. */
  predicate OrderedTracked(idx: seq<nat>, rides: seq<Ride>, rider: UserId, location: Option<string>, lo: nat)
  {
    && (forall k :: 0 <= k < |idx| ==> lo <= idx[k] < |rides| && Tracked(rides[idx[k]], rider, location))
    && (forall k, l :: 0 <= k < l < |idx| ==> idx[k] < idx[l])
  }

  /** `TrackedPositions` lists only tracked positions from `from` on, in
      increasing order (so each at most once). */
  lemma {:induction false} TrackedPositionsOrdered(rides: seq<Ride>, rider: UserId, location: Option<string>, from: nat)
    requires from <= |rides|
    ensures OrderedTracked(TrackedPositions(rides, rider, location, from), rides, rider, location, from)
    decreases |rides| - from
  {
    if from < |rides| {
      TrackedPositionsOrdered(rides, rider, location, from + 1);
      OrderedStep(rides, rider, location, from, Tracked(rides[from], rider, location),
                  TrackedPositions(rides, rider, location, from), TrackedPositions(rides, rider, location, from + 1));
    }
  }

  /** Putting `from`, when it is tracked, in front of an increasing list
      of tracked positions beyond `from` keeps it increasing and tracked. */
  lemma OrderedStep(rides: seq<Ride>, rider: UserId, location: Option<string>, from: nat,
                    tracked: bool, idx: seq<nat>, later: seq<nat>)
    requires from < |rides| && tracked == Tracked(rides[from], rider, location)
    requires OrderedTracked(later, rides, rider, location, from + 1)
    requires tracked ==> idx == [from] + later
    requires !tracked ==> idx == later
    ensures OrderedTracked(idx, rides, rider, location, from)
  {
    if tracked {
      forall k | 0 <= k < |idx| ensures from <= idx[k] < |rides| && Tracked(rides[idx[k]], rider, location) {
        if k > 0 {
          assert idx[k] == later[k - 1];
        }
      }
      forall k, l | 0 <= k < l < |idx| ensures idx[k] < idx[l] {
        assert idx[l] == later[l - 1];
        if k > 0 {
          assert idx[k] == later[k - 1];
        }
      }
    }
  }

  /** Every tracked position from `from` on is in `TrackedPositions`. */
  lemma {:induction false} TrackedPositionsComplete(rides: seq<Ride>, rider: UserId, location: Option<string>, from: nat)
    requires from <= |rides|
    ensures var idx := TrackedPositions(rides, rider, location, from);
      forall i :: from <= i < |rides| && Tracked(rides[i], rider, location) ==> i in idx
    decreases |rides| - from
  {
    if from < |rides| {
      TrackedPositionsComplete(rides, rider, location, from + 1);
      var idx := TrackedPositions(rides, rider, location, from);
      var later := TrackedPositions(rides, rider, location, from + 1);
      forall i | from <= i < |rides| && Tracked(rides[i], rider, location) ensures i in idx {
        if Tracked(rides[from], rider, location) {
          assert idx == [from] + later;
          if i > from {
            assert i in later;
          }
        } else {
          assert idx == later;
        }
      }
    }
  }

  /** The statuses of `rider`'s tracked rides from position `from` on,
      oldest first (`TrackedStatusesPositions` pairs them with the rides). */
  function TrackedStatuses(rides: seq<Ride>, rider: UserId, location: Option<string>, from: nat := 0)
    : (s: seq<RideStatus>)
    requires from <= |rides|
    ensures |s| <= |rides| - from
    ensures forall j :: 0 <= j < |s| ==> s[j] != Cancelled
    ensures s == [] <==> forall i :: from <= i < |rides| ==> !Tracked(rides[i], rider, location)
    decreases |rides| - from
  {
    if from == |rides| then []
    else
      var rest := TrackedStatuses(rides, rider, location, from + 1);
      if Tracked(rides[from], rider, location) then [rides[from].status] + rest else rest
  }

  /** One entry per tracked ride, in ride order, carrying that ride's
      status: the j-th status is the status of the j-th tracked ride. */
  lemma {:induction false} TrackedStatusesPositions(rides: seq<Ride>, rider: UserId, location: Option<string>, from: nat)
    requires from <= |rides|
    ensures var s := TrackedStatuses(rides, rider, location, from);
            var idx := TrackedPositions(rides, rider, location, from);
      |s| == |idx| && forall j :: 0 <= j < |s| ==> idx[j] < |rides| && s[j] == rides[idx[j]].status
    decreases |rides| - from
  {
    if from < |rides| {
      TrackedStatusesPositions(rides, rider, location, from + 1);
      var s := TrackedStatuses(rides, rider, location, from);
      var idx := TrackedPositions(rides, rider, location, from);
      var rest := TrackedStatuses(rides, rider, location, from + 1);
      var later := TrackedPositions(rides, rider, location, from + 1);
      TrackedStep(rides, rider, location, from);
      PositionsStep(rides, from, Tracked(rides[from], rider, location), s, idx, rest, later);
    }
  }

  /** The status of `rider`'s newest tracked ride (ORDER BY created_at DESC LIMIT 1). */
  function LatestTracked(rides: seq<Ride>, rider: UserId, location: Option<string>): (s: Option<RideStatus>)
    ensures s.None? <==> forall i :: 0 <= i < |rides| ==> !Tracked(rides[i], rider, location)
    ensures s.Some? ==>
      exists i :: (0 <= i < |rides| && Tracked(rides[i], rider, location) && rides[i].status == s.value
                   && forall j :: i < j < |rides| ==> !Tracked(rides[j], rider, location))
  {
    if rides == [] then None
    else if Tracked(rides[|rides| - 1], rider, location) then Some(rides[|rides| - 1].status)
    else
      var s := LatestTracked(rides[..|rides| - 1], rider, location);
      assert forall i :: 0 <= i < |rides| - 1 ==> rides[..|rides| - 1][i] == rides[i];
      s
  }

  /** One step of both recursions: the ride at `from` heads both lists
      when it is tracked and neither when it is not. */
  lemma TrackedStep(rides: seq<Ride>, rider: UserId, location: Option<string>, from: nat)
    requires from < |rides|
    ensures var s := TrackedStatuses(rides, rider, location, from);
            var idx := TrackedPositions(rides, rider, location, from);
            var rest := TrackedStatuses(rides, rider, location, from + 1);
            var later := TrackedPositions(rides, rider, location, from + 1);
      if Tracked(rides[from], rider, location) then s == [rides[from].status] + rest && idx == [from] + later
      else s == rest && idx == later
  {
  }

  /** Prepending the ride at `from` to both lists, or to neither, keeps
      each status paired with its ride. */
  lemma PositionsStep(rides: seq<Ride>, from: nat, tracked: bool,
                      s: seq<RideStatus>, idx: seq<nat>, rest: seq<RideStatus>, later: seq<nat>)
    requires from < |rides|
    requires |rest| == |later| && forall j :: 0 <= j < |rest| ==> later[j] < |rides| && rest[j] == rides[later[j]].status
    requires tracked ==> s == [rides[from].status] + rest && idx == [from] + later
    requires !tracked ==> s == rest && idx == later
    ensures |s| == |idx| && forall j :: 0 <= j < |s| ==> idx[j] < |rides| && s[j] == rides[idx[j]].status
  {
    if tracked {
      forall j | 0 <= j < |s| ensures idx[j] < |rides| && s[j] == rides[idx[j]].status {
        if j > 0 {
          assert s[j] == rest[j - 1] && idx[j] == later[j - 1];
        }
      }
    }
  }

  /** One row of the invite query: the invite joined with one of the
      invitee's tracked rides, or with none. */
  datatype InviteRow = InviteRow(invite: nat, inviteStatus: InviteStatus, user: UserId, rideStatus: Option<RideStatus>)

  /** LEFT JOIN: one row per tracked ride, or a single row without a ride. */
  function RowsForInvite(k: nat, inv: Invite, statuses: seq<RideStatus>): (rows: seq<InviteRow>)
    ensures |rows| == if statuses == [] then 1 else |statuses|
    ensures forall j :: 0 <= j < |rows| ==>
      rows[j].invite == k && rows[j].inviteStatus == inv.status && rows[j].user == inv.invitee
  {
    if statuses == [] then [InviteRow(k, inv.status, inv.invitee, None)]
    else seq(|statuses|, j requires 0 <= j < |statuses| => InviteRow(k, inv.status, inv.invitee, Some(statuses[j])))
  }

  /** The invite query of meetup `m`, from invite position `from` on: the
      invites whose invitee has a user row, in invitation order. */
  function InviteRows(invites: seq<Invite>, users: map<UserId, User>, rides: seq<Ride>,
                      m: nat, location: Option<string>, from: nat): (rows: seq<InviteRow>)
    requires from <= |invites|
    ensures forall j :: 0 <= j < |rows| ==>
      from <= rows[j].invite < |invites| && invites[rows[j].invite].meetup == m
      && rows[j].inviteStatus == invites[rows[j].invite].status
      && rows[j].user == invites[rows[j].invite].invitee && rows[j].user in users
    decreases |invites| - from
  {
    if from == |invites| then []
    else
      var rest := InviteRows(invites, users, rides, m, location, from + 1);
      var inv := invites[from];
      if inv.meetup == m && inv.invitee in users
      then RowsForInvite(from, inv, TrackedStatuses(rides, inv.invitee, location)) + rest
      else rest
  }

  /** Every invite of the meetup with a user row appears in the rows. */
  lemma {:induction false} EveryInviteListed(invites: seq<Invite>, users: map<UserId, User>, rides: seq<Ride>,
                                             m: nat, location: Option<string>, from: nat, k: nat)
    requires from <= k < |invites|
    requires invites[k].meetup == m && invites[k].invitee in users
    ensures exists j :: 0 <= j < |InviteRows(invites, users, rides, m, location, from)|
                        && InviteRows(invites, users, rides, m, location, from)[j].invite == k
    decreases k - from
  {
    var rows := InviteRows(invites, users, rides, m, location, from);
    var inv := invites[from];
    if k == from {
      var own := RowsForInvite(from, inv, TrackedStatuses(rides, inv.invitee, location));
      assert rows[0] == own[0];
    } else {
      EveryInviteListed(invites, users, rides, m, location, from + 1, k);
      var rest := InviteRows(invites, users, rides, m, location, from + 1);
      var j :| 0 <= j < |rest| && rest[j].invite == k;
      if inv.meetup == m && inv.invitee in users {
        var own := RowsForInvite(from, inv, TrackedStatuses(rides, inv.invitee, location));
        assert rows[|own| + j] == rest[j];
      } else {
        assert rows[j] == rest[j];
      }
    }
  }

  // ---------------------------------------------------------------------
  // Statistics and the derived status
  // ---------------------------------------------------------------------

  /** Rows whose invite has status `s`. */
  function CountInviteStatus(rows: seq<InviteRow>, s: InviteStatus): (n: nat)
    ensures n <= |rows|
  {
    if rows == [] then 0
    else (if rows[0].inviteStatus == s then 1 else 0) + CountInviteStatus(rows[1..], s)
  }

  /** Rows of accepted invites whose ride has status `s`. */
  function CountAcceptedRides(rows: seq<InviteRow>, s: RideStatus): (n: nat)
    ensures n <= CountInviteStatus(rows, InviteAccepted)
  {
    if rows == [] then 0
    else (if rows[0].inviteStatus == InviteAccepted && rows[0].rideStatus == Some(s) then 1 else 0)
         + CountAcceptedRides(rows[1..], s)
  }

  datatype InviteTally = InviteTally(total: nat, pending: nat, accepted: nat, rejected: nat)

  datatype RideTally = RideTally(participants: nat, completed: nat, inProgress: nat, pending: nat)

  function TallyInvites(rows: seq<InviteRow>): InviteTally
  {
    InviteTally(|rows|, CountInviteStatus(rows, InvitePending), CountInviteStatus(rows, InviteAccepted),
                CountInviteStatus(rows, InviteRejected))
  }

  function OrganizerCount(org: Option<RideStatus>, s: RideStatus): nat
  {
    if org == Some(s) then 1 else 0
  }

  /** The accepted invite rows plus the organizer are the participants;
      each ride count adds the organizer's newest ride when it has that
      status. */
  function TallyRides(rows: seq<InviteRow>, org: Option<RideStatus>): RideTally
  {
    RideTally(CountInviteStatus(rows, InviteAccepted) + 1,
              CountAcceptedRides(rows, Completed) + OrganizerCount(org, Completed),
              CountAcceptedRides(rows, Assigned) + OrganizerCount(org, Assigned),
              CountAcceptedRides(rows, Pending) + OrganizerCount(org, Pending))
  }

  /** The invitee ride counts never exceed the accepted rows: each row
      carries at most one ride status. */
  lemma {:induction false} RideCountsBounded(rows: seq<InviteRow>)
    ensures CountAcceptedRides(rows, Completed) + CountAcceptedRides(rows, Assigned)
            + CountAcceptedRides(rows, Pending) <= CountInviteStatus(rows, InviteAccepted)
  {
    if rows != [] {
      RideCountsBounded(rows[1..]);
    }
  }

  /** The status as the handler derives it, and the write it makes (None:
      no write). The stored status is replaced by `all_arrived` whenever
      every participant's ride is completed, even when the meetup was
      cancelled. */
  function DeriveStatusAsWritten(stored: MeetupStatus, t: RideTally): (MeetupStatus, Option<MeetupStatus>)
  {
    if t.completed == t.participants && t.participants > 0 then
      (AllArrived, if stored != AllArrived then Some(AllArrived) else None)
    else if t.inProgress > 0 || t.completed > 0 then
      (InProgress, if stored == MeetupPending then Some(InProgress) else None)
    else (stored, None)
  }

  /** A cancelled meetup whose organizer has already arrived, and whose
      invites the cancellation closed, is reported and stored as all
      arrived again. */
  lemma CancelledMeetupReopened()
    ensures DeriveStatusAsWritten(MeetupCancelled, TallyRides([], Some(Completed)))
            == (AllArrived, Some(AllArrived))
  {
  }

  /** A cancelled meetup with a ride under way, and not every ride
      completed, is reported as in progress (nothing is written). */
  lemma CancelledMeetupShownInProgress(t: RideTally)
    requires t.inProgress > 0 || t.completed > 0
    requires !(t.completed == t.participants && t.participants > 0)
    ensures DeriveStatusAsWritten(MeetupCancelled, t) == (InProgress, None)
  {
  }

  /** The derived status with a cancelled meetup left cancelled. */
  function DeriveStatus(stored: MeetupStatus, t: RideTally): (r: (MeetupStatus, Option<MeetupStatus>))
    ensures stored == MeetupCancelled ==> r == (MeetupCancelled, None)
  {
    if stored == MeetupCancelled then (MeetupCancelled, None) else DeriveStatusAsWritten(stored, t)
  }

  /** The order of the lifecycle. */
  function Stage(s: MeetupStatus): nat
  {
    match s
    case MeetupPending => 0
    case InProgress => 1
    case AllArrived => 2
    case MeetupCancelled => 3
  }

  /** What the derivation reports: all arrived exactly when every
      participant's ride is completed (or it was stored so and nothing
      moves); in progress when some ride is assigned or completed. A
      write only ever moves the stored status forward, writes the
      reported status, and a second derivation from the written status
      writes nothing. */
  lemma DeriveStatusMeaning(stored: MeetupStatus, t: RideTally)
    ensures var (reported, write) := DeriveStatus(stored, t);
      && (stored != MeetupCancelled ==>
            (reported == AllArrived <==>
               (t.completed == t.participants && t.participants > 0)
               || (stored == AllArrived && t.inProgress == 0 && t.completed == 0)))
      && (stored != MeetupCancelled && !(t.completed == t.participants && t.participants > 0) ==>
            (reported == InProgress <==> t.inProgress > 0 || t.completed > 0 || stored == InProgress))
      && (write.Some? ==> write.value == reported && Stage(stored) < Stage(reported))
      && (write.Some? ==> DeriveStatus(write.value, t).1 == None)
  {
  }

  // ---------------------------------------------------------------------
  // Labels
  // ---------------------------------------------------------------------

  predicate HasArrived(ride: Option<RideStatus>)
  {
    ride == Some(Completed)
  }

  /** The organizer's `eta` label. */
  function OrganizerEta(ride: Option<RideStatus>): string
  {
    if ride == Some(Assigned) then "En route"
    else if ride == Some(Pending) then "Finding driver..."
    else if ride == Some(Completed) then "Arrived"
    else "Not booked"
  }

  /** An invitee's `eta` label: from the ride when there is one, from the
      invite otherwise. */
  function InviteeEta(row: InviteRow): string
  {
    if row.rideStatus == Some(Assigned) then "En route"
    else if row.rideStatus == Some(Pending) then "Finding driver..."
    else if row.rideStatus == Some(Completed) then "Arrived"
    else if row.inviteStatus == InvitePending then "Awaiting response"
    else if row.inviteStatus == InviteRejected then "Declined"
    else "Not booked"
  }

  /** A participant reads "Arrived" exactly when it has arrived; a row
      without a ride is labelled from its invite. */
  lemma LabelsAgree(org: Option<RideStatus>, row: InviteRow)
    ensures OrganizerEta(org) == "Arrived" <==> HasArrived(org)
    ensures InviteeEta(row) == "Arrived" <==> HasArrived(row.rideStatus)
    ensures row.rideStatus.None? ==>
      InviteeEta(row) == (match row.inviteStatus
                          case InvitePending => "Awaiting response"
                          case InviteRejected => "Declined"
                          case _ => "Not booked")
  {
    assert "Arrived"[0] != "En route"[0] && "Arrived"[0] != "Finding driver..."[0];
    assert "Arrived"[1] != "Not booked"[1] && "Arrived"[1] != "Awaiting response"[1];
    assert "Arrived"[0] != "Declined"[0];
  }

  datatype Participant = Participant(user: UserId, organizer: bool, inviteStatus: InviteStatus,
                                     ride: Option<RideStatus>, hasArrived: bool, eta: string)

  /** The organizer first, as an accepted participant, then one entry per
      invite row. */
  function Participants(organizer: UserId, org: Option<RideStatus>, rows: seq<InviteRow>): (ps: seq<Participant>)
    ensures |ps| == |rows| + 1
    ensures ps[0].user == organizer && ps[0].organizer && ps[0].inviteStatus == InviteAccepted
    ensures forall j :: 0 <= j < |rows| ==>
      ps[j + 1].user == rows[j].user && !ps[j + 1].organizer && ps[j + 1].ride == rows[j].rideStatus
  {
    [Participant(organizer, true, InviteAccepted, org, HasArrived(org), OrganizerEta(org))]
    + seq(|rows|, j requires 0 <= j < |rows| =>
        Participant(rows[j].user, false, rows[j].inviteStatus, rows[j].rideStatus,
                    HasArrived(rows[j].rideStatus), InviteeEta(rows[j])))
  }

  datatype StatusView = StatusView(status: MeetupStatus, invites: InviteTally, rides: RideTally,
                                   participants: seq<Participant>, organizerRole: bool)

  /** The read-out of meetup `m` and the status write it makes. */
  function StatusOf(meetups: seq<Meetup>, invites: seq<Invite>, users: map<UserId, User>,
                    rides: seq<Ride>, m: nat, organizerRole: bool): (StatusView, Option<MeetupStatus>)
    requires m < |meetups|
  {
    var mt := meetups[m];
    var rows := InviteRows(invites, users, rides, m, mt.location, 0);
    var org := LatestTracked(rides, mt.organizer, mt.location);
    var tally := TallyRides(rows, org);
    var (reported, write) := DeriveStatus(mt.status, tally);
    (StatusView(reported, TallyInvites(rows), tally, Participants(mt.organizer, org, rows), organizerRole), write)
  }

  /** The read-out counts the organizer as a participant with the newest
      of its rides to the meetup, and reports the derived status. */
  lemma StatusOfCounts(meetups: seq<Meetup>, invites: seq<Invite>, users: map<UserId, User>,
                       rides: seq<Ride>, m: nat, organizerRole: bool)
    requires m < |meetups|
    ensures var (view, write) := StatusOf(meetups, invites, users, rides, m, organizerRole);
            var rows := InviteRows(invites, users, rides, m, meetups[m].location, 0);
      && view.rides.participants == view.invites.accepted + 1
      && view.invites.total == |rows| && |view.participants| == |rows| + 1
      && view.participants[0].user == meetups[m].organizer
      && (view.participants[0].hasArrived <==>
            exists i :: 0 <= i < |rides| && Tracked(rides[i], meetups[m].organizer, meetups[m].location)
                        && rides[i].status == Completed
                        && forall j :: i < j < |rides| ==> !Tracked(rides[j], meetups[m].organizer, meetups[m].location))
      && (meetups[m].status == MeetupCancelled ==> view.status == MeetupCancelled && write.None?)
  {
    var mt := meetups[m];
    var org := LatestTracked(rides, mt.organizer, mt.location);
    if org.Some? {
      var i :| 0 <= i < |rides| && Tracked(rides[i], mt.organizer, mt.location) && rides[i].status == org.value
               && forall j :: i < j < |rides| ==> !Tracked(rides[j], mt.organizer, mt.location);
      forall i' | 0 <= i' < |rides| && Tracked(rides[i'], mt.organizer, mt.location)
                  && forall j :: i' < j < |rides| ==> !Tracked(rides[j], mt.organizer, mt.location)
        ensures i' == i
      {
        assert i' <= i;
      }
    }
  }

  datatype StatusReply = StatusFailed(reply: Reply) | StatusShown(view: StatusView)

  /** GET /meetups/:meetup_id/status. The only write is the derived status
      of the meetup. */
  method GetMeetupStatus(db: Store, user: UserId, meetupParam: string) returns (r: StatusReply)
    modifies db
    ensures db.rides == old(db.rides) && db.drivers == old(db.drivers) && db.invites == old(db.invites)
    ensures var a := CheckAccess(old(db.meetups), db.invites, db.users, user, meetupParam, true);
      && (a.InvalidId? ==> r == StatusFailed(BadRequest) && db.meetups == old(db.meetups))
      && (a.Missing? ==> r == StatusFailed(NotFound) && db.meetups == old(db.meetups))
      && (a.Denied? ==> r == StatusFailed(Forbidden) && db.meetups == old(db.meetups))
      && (a.Granted? ==>
            var (view, write) := StatusOf(old(db.meetups), db.invites, db.users, db.rides, a.meetup, a.organizer);
            && r == StatusShown(view)
            && db.meetups == (if write.Some?
                              then old(db.meetups)[a.meetup := old(db.meetups)[a.meetup].(status := write.value)]
                              else old(db.meetups)))
    ensures old(db.Valid()) ==> db.Valid()
  {
    var a := CheckAccess(db.meetups, db.invites, db.users, user, meetupParam, true);
    match a {
      case InvalidId => return StatusFailed(BadRequest);
      case Missing => return StatusFailed(NotFound);
      case Denied => return StatusFailed(Forbidden);
      case Granted(m, organizer) =>
        var (view, write) := StatusOf(db.meetups, db.invites, db.users, db.rides, m, organizer);
        if write.Some? {
          db.meetups := db.meetups[m := db.meetups[m].(status := write.value)];
        }
        return StatusShown(view);
    }
  }

  // ---------------------------------------------------------------------
  // GET /meetups/:meetup_id/progress
  // ---------------------------------------------------------------------

  /** Invites of meetup `m` with status `s` (`COUNT(CASE ...)`). */
  function CountInvitesOf(invites: seq<Invite>, m: nat, s: Option<InviteStatus>): (n: nat)
    ensures n <= |invites|
  {
    if invites == [] then 0
    else (if invites[0].meetup == m && (s.None? || s == Some(invites[0].status)) then 1 else 0)
         + CountInvitesOf(invites[1..], m, s)
  }

  /** The invitees of meetup `m` who accepted (the subquery of the arrival count). */
  function AcceptedOf(invites: seq<Invite>, m: nat): (r: set<UserId>)
    ensures forall u :: u in r <==>
      exists k :: 0 <= k < |invites| && invites[k].meetup == m && invites[k].status == InviteAccepted
                  && invites[k].invitee == u
  {
    set k | 0 <= k < |invites| && invites[k].meetup == m && invites[k].status == InviteAccepted :: invites[k].invitee
  }

  /** Completed rides to `location` by the organizer or an accepted
      invitee: rides are counted, not riders. */
  function ArrivedRides(rides: seq<Ride>, riders: set<UserId>, location: Option<string>): (n: nat)
    ensures n <= |rides|
  {
    if rides == [] then 0
    else (if rides[0].status == Completed && SameLocation(rides[0].destination, location)
             && rides[0].rider in riders then 1 else 0)
         + ArrivedRides(rides[1..], riders, location)
  }

  /** `Math.round(arrived / expected * 100)`, taken on exact rationals:
      the nearest integer, halves rounded up. */
  function RoundPercent(arrived: nat, expected: nat): (p: nat)
    requires expected > 0
    ensures 2 * expected * p <= 200 * arrived + expected < 2 * expected * (p + 1)
  {
    var q := (200 * arrived + expected) / (2 * expected);
    assert q * (2 * expected) <= 200 * arrived + expected < (q + 1) * (2 * expected);
    q
  }

  datatype Progress = Progress(status: MeetupStatus, total: nat, accepted: nat, pending: nat, rejected: nat,
                               expected: nat, arrived: nat, waiting: int, percentage: nat)

  datatype ProgressReply = ProgressFailed(reply: Reply) | ProgressShown(progress: Progress)

  /** The summary of meetup `m`; the stored status is shown as it is. */
  function ProgressOf(meetups: seq<Meetup>, invites: seq<Invite>, rides: seq<Ride>, m: nat): (p: Progress)
    requires m < |meetups|
    ensures p.accepted == CountInvitesOf(invites, m, Some(InviteAccepted))
    ensures p.arrived == ArrivedRides(rides, {meetups[m].organizer} + AcceptedOf(invites, m), meetups[m].location)
    ensures p.expected == p.accepted + 1 && p.waiting == p.expected - p.arrived
    ensures 2 * p.expected * p.percentage <= 200 * p.arrived + p.expected < 2 * p.expected * (p.percentage + 1)
  {
    var mt := meetups[m];
    var accepted := CountInvitesOf(invites, m, Some(InviteAccepted));
    var expected := accepted + 1;
    var arrived := ArrivedRides(rides, {mt.organizer} + AcceptedOf(invites, m), mt.location);
    Progress(mt.status, CountInvitesOf(invites, m, None), accepted,
             CountInvitesOf(invites, m, Some(InvitePending)), CountInvitesOf(invites, m, Some(InviteRejected)),
             expected, arrived, expected - arrived, RoundPercent(arrived, expected))
  }

  /** GET /meetups/:meetup_id/progress (reads only; no user join). */
  function MeetupProgress(meetups: seq<Meetup>, invites: seq<Invite>, users: map<UserId, User>,
                          rides: seq<Ride>, user: UserId, meetupParam: string): (r: ProgressReply)
    ensures var a := CheckAccess(meetups, invites, users, user, meetupParam, false);
      && (a.InvalidId? <==> r == ProgressFailed(BadRequest))
      && (a.Missing? <==> r == ProgressFailed(NotFound))
      && (a.Denied? <==> r == ProgressFailed(Forbidden))
      && (a.Granted? <==> r.ProgressShown?)
      && (a.Granted? ==> r == ProgressShown(ProgressOf(meetups, invites, rides, a.meetup)))
  {
    match CheckAccess(meetups, invites, users, user, meetupParam, false)
    case InvalidId => ProgressFailed(BadRequest)
    case Missing => ProgressFailed(NotFound)
    case Denied => ProgressFailed(Forbidden)
    case Granted(m, _) => ProgressShown(ProgressOf(meetups, invites, rides, m))
  }

  lemma MulMonotone(c: nat, x: int, y: int)
    requires x <= y
    ensures c * x <= c * y
  {
  }

  lemma MulCancel(c: nat, x: int, y: int)
    requires c > 0 && c * x < c * y
    ensures x < y
  {
    if y <= x {
      MulMonotone(c, y, x);
    }
  }

  /** The rounding is determined by its defining inequalities. */
  lemma RoundPercentUnique(arrived: nat, expected: nat, q: int)
    requires expected > 0
    requires 2 * expected * q <= 200 * arrived + expected < 2 * expected * (q + 1)
    ensures RoundPercent(arrived, expected) == q
  {
    var p := RoundPercent(arrived, expected);
    MulCancel(2 * expected, q, p + 1);
    MulCancel(2 * expected, p, q + 1);
  }

  /** The percentage is at most 100 while no more rides arrived than
      participants are expected; it is exactly 100 when all have arrived,
      and 0 when none has. */
  lemma ProgressBounds(arrived: nat, expected: nat)
    requires expected > 0
    ensures arrived <= expected ==> RoundPercent(arrived, expected) <= 100
    ensures arrived == expected ==> RoundPercent(arrived, expected) == 100
    ensures arrived == 0 ==> RoundPercent(arrived, expected) == 0
  {
    var p := RoundPercent(arrived, expected);
    if arrived <= expected {
      MulMonotone(200, arrived, expected);
      MulCancel(2 * expected, p, 101);
    }
    if arrived == expected {
      RoundPercentUnique(arrived, expected, 100);
    }
    if arrived == 0 {
      RoundPercentUnique(arrived, expected, 0);
    }
  }

  /** An organizer with two completed rides to the meetup and nobody else
      accepted: two arrivals for one expected participant, so the summary
      shows a negative number waiting and 200 percent. */
  lemma ArrivalsCountRides(p0: Point, place: string, organizer: UserId)
    ensures var rides := [Ride(organizer, None, None, None, None, Some(place), None, 0.0, "standard", Completed, None),
                          Ride(organizer, None, None, None, None, Some(place), None, 0.0, "standard", Completed, None)];
            var p := ProgressOf([Meetup(organizer, p0, Some(place), MeetupPending)], [], rides, 0);
      p.expected == 1 && p.arrived == 2 && p.waiting == -1 && p.percentage == 200
  {
    var rides := [Ride(organizer, None, None, None, None, Some(place), None, 0.0, "standard", Completed, None),
                  Ride(organizer, None, None, None, None, Some(place), None, 0.0, "standard", Completed, None)];
    assert ArrivedRides(rides, {organizer}, Some(place)) == 2 by {
      assert rides[1..][1..] == [];
    }
    assert AcceptedOf([], 0) == {};
    assert {organizer} + AcceptedOf([], 0) == {organizer};
    RoundPercentUnique(2, 1, 200);
    var p := ProgressOf([Meetup(organizer, p0, Some(place), MeetupPending)], [], rides, 0);
    assert p.expected == 1;
    assert p.arrived == 2;
    assert p.percentage == 200;
  }
}
