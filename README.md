# UberFriends backend core in Dafny

This project models the core of the UberFriends ride-sharing backend:

- **Location and fares** (`location.dfy`, module `Location`): the fare breakdown, the ETA and its text form, coordinate validation, the nearby-driver search and the driver-to-pickup ETA.
- **The matching tick** (`queuing.dfy`, module `Queuing`): every few seconds it takes the oldest pending ride and any one available driver. It then assigns the ride and reserves the driver in one transaction.
- **The client backend** (`client_rides.dfy`, `client_meetups.dfy`, `meetup_status.dfy`; modules `ClientRides`, `ClientMeetups`, `MeetupView`):
  - booking and cancelling a ride, and the ride-history stats;
  - creating a meetup, answering an invite, cancelling a meetup with its cascade, and the invite tallies;
  - the meetup status read-out (which writes the derived status back) and the progress summary.
- **The driver backend** (`driver_api.dfy`, module `DriverApi`): a driver setting its availability, creating an automatic profile on first use, and registering a profile.

The shared PostgreSQL tables are one class, `Db.Store`, in `store.dfy`:
- `rides`, `meetups` and `invites` are sequences in insertion order. A row's SERIAL id is its position plus one in PostgreSQL; the model uses the position itself as the id (see "## Left out"), so "ORDER BY created_at" is position order.
- `drivers` is a map keyed by the driver's user id.
- `users` is read only.

Each HTTP handler is a method that `modifies` the store.

A handler works in two steps. First a pure check function decides its error replies (`CheckCancel`, `CheckRespond`, `CheckCancelMeetup`, `CheckAccess`). Then it writes the new tables, which are stated as functions of the old ones.

`Common` holds the request-value vocabulary: a JSON field is a number, NaN, text or absent, and the handlers test it for JavaScript truthiness. `Digits` holds decimal printing and JavaScript `parseInt` on decimal text.

Some collaborators become parameters:
- The haversine distance is a function parameter `dist`.
- `toFixed(2)` rounding is a function parameter `round2`.
- Whether the notification server answers is a boolean `notifyUp`. A failed `fetch` inside an open transaction rolls the transaction back. A failed `fetch` after COMMIT only turns the reply into a 500.

## Model

| member | source | states |
|---|---|---|
| Common.OrElse | backend/backend_client.js:149 | `s \|\| fallback`: the field when it is a non-empty string, the fallback otherwise |
| Digits.NatToString | backend/utils/location.js:113-115 | the decimal text of a number is a non-empty run of digits; it is one digit exactly below 10 |
| Digits.NatRoundTrip | backend/utils/location.js:113-115 | reading back the decimal text of n gives n |
| Digits.NatToStringInjective | backend/backend_driver.js:26 | different numbers have different decimal texts |
| Digits.JsParseIntReadsId | backend/backend_client.js:843-848 | `parseInt` reads an id back from its decimal text, whatever non-digit text follows |
| Digits.JsParseIntUnsigned | backend/backend_client.js:1566-1570 | `parseInt` of text starting with digits is the value of its leading digit run |
| Digits.JsParseIntRejectsWords | backend/backend_client.js:843-848 | `parseInt` is NaN exactly when, after leading white space, the text is empty, starts with neither a digit nor a sign, or has a sign that no digit follows; the handler then answers 400 |
| Digits.JsParseIntSkipsWhiteSpace | backend/backend_client.js:843-848 | any JavaScript white space or line terminators before the id are skipped, so the id parses as without them |
| Location.IsValidCoordinate | backend/utils/location.js:160-171 | the validity test itself (both values numbers, not NaN, within the closed latitude and longitude ranges); its partner is the round trip with `ToPoint` in `CoordinateRoundTrip` |
| Location.ValidCoordinateCharacterized | backend/utils/location.js:160-171 | valid exactly when both values are numbers (not NaN, not text), latitude in [-90, 90] and longitude in [-180, 180] |
| Location.CoordinateRoundTrip | backend/utils/location.js:160-171 | every in-range point, sent as two numbers, passes the test, and the point read from the pair is the point sent |
| Location.ValidCoordinateExamples | backend/utils/test_location.js:122-125 | (12.9716, 77.5946) is valid; latitude 200, a text latitude and a NaN latitude are not |
| Location.RatesFor | backend/utils/location.js:46-68 | the three rate tables, with any other ride type priced as standard; all rates are positive |
| Location.ExactFare | backend/utils/location.js:68-86 | trip fare = max(base + km × rate, minimum); subtotal = trip fare + service fee; total = subtotal + 18% GST |
| Location.CalculateFare | backend/utils/location.js:44-100 | the total, subtotal, GST, trip fare and distance fare are the exact breakdown rounded to cents; distance, base fare, service fee and ride type are returned unrounded |
| Location.FareFloor | backend/utils/location.js:73-86 | the trip fare never drops below the class minimum, so the total is at least 1.18 × (minimum + fee) |
| Location.UnknownRideTypeIsStandard | backend/utils/location.js:68 | an unknown ride type gets the standard breakdown, labelled with its own name |
| Location.FareMonotone | backend/utils/location.js:71-86 | for a fixed ride type the total never decreases with distance |
| Location.FareConstantUnderMinimum | backend/utils/location.js:73-76 | while the minimum fare applies, the total does not depend on distance |
| Location.FareStrictAboveMinimum | backend/utils/location.js:71-86 | past the minimum, a longer trip costs strictly more |
| Location.RoundedFareMonotone | backend/utils/location.js:89-99 | with any order-preserving rounding, the rounded total is still non-decreasing in distance |
| Location.ShortTripPaysMinimum | backend/utils/test_location.js:50-55 | a 0.1 km standard trip has trip fare 80 and total 106.2 |
| Location.PrototypeRideTypeIsNaN | backend/utils/location.js:68 | as written, ride type "toString" yields a NaN total where the standard table was meant (Finding 1) |
| Location.AsWrittenAgreesOffPrototype | backend/utils/location.js:68 | for any other ride type the lookup as written gives the same total as `RatesFor` |
| Location.Ceil | backend/utils/location.js:110 | `Math.ceil`: the least integer not below x |
| Location.EtaMinutes | backend/utils/location.js:108-110 | the minutes cover the trip at that speed, and one minute less does not |
| Location.EtaBounds | backend/utils/location.js:109-110 | any integer within one of distance / speed × 60 from above covers the trip, one minute less does not |
| Location.CalculateEta | backend/utils/location.js:108-121 | the ETA minutes cover the trip, and the formatted time reads back as exactly those minutes |
| Location.FormatEta | backend/utils/location.js:113-115 | the text starts with "-" exactly for a negative ETA and has an hour mark exactly from 60 minutes on; `FormatEtaRoundTrip` reads it back |
| Location.FormatEtaRoundTrip | backend/utils/location.js:113-115 | "N min" below an hour and "Hh Mm" from an hour on read back as the minutes they were made from |
| Location.MinutesEtaRoundTrip | backend/utils/location.js:113-114 | "N min" for 0 ≤ N < 60 reads back as N |
| Location.NegativeEtaRoundTrip | backend/utils/location.js:113-114 | "-N min" reads back as -N |
| Location.HoursEtaRoundTrip | backend/utils/location.js:115 | "Hh Mm" with H = ⌊N / 60⌋ and M = N mod 60 reads back as N |
| Location.HoursMinutesRoundTrip | backend/utils/location.js:115 | "Hh Mm" reads back as H × 60 + M |
| Location.Annotate | backend/utils/location.js:133-145 | each driver is paired, in order, with its distance from the user |
| Location.AnnotateMembers | backend/utils/location.js:133-145 | a pair is annotated exactly when it is an input driver with its own distance |
| Location.WithinRadius | backend/utils/location.js:149 | the filter keeps exactly the entries within the radius, and is no longer than its input |
| Location.SortByDistance | backend/utils/location.js:150 | the result is sorted nearest first and is a permutation of the input |
| Location.SortIsStable | backend/utils/location.js:150 | drivers at equal distance keep their input order |
| Location.FindNearbyDrivers | backend/utils/location.js:131-151 | the result is sorted nearest first and is a permutation of the annotated drivers within the radius |
| Location.FindNearbyDriversSpec | backend/utils/location.js:131-151 | the result is exactly the input drivers within the radius with their distances, nearest first, ties in input order |
| Location.NearbyDriversByIndex | backend/utils/location.js:131-151 | every result entry is an input driver with its own distance within the radius, and every such driver is in the result |
| Location.FindNearbyDriversDefaultRadius | backend/utils/location.js:131 | without a radius argument, exactly the drivers within 5 km, nearest first |
| Location.CalculateDriverEta | backend/utils/location.js:193-201 | the distance is the driver-to-pickup distance; the ETA covers it at 30 km/h and its text reads back as its minutes |
| Db.FreeDriver | backend/backend_client.js:887-891 | the holder's row, if any, becomes available; no other row changes |
| Db.DisplayName | backend/backend_client.js:108 | `rows[0]?.name \|\| 'User'`: the user's non-empty name, else "User" |
| Queuing.OldestPending | backend/queuing.js:16-18 | the first pending ride in request order, or none when no ride is pending |
| Queuing.AvailableDrivers | backend/queuing.js:29-31 | exactly the drivers whose status is available |
| Queuing.FindAndAssignRides | backend/queuing.js:8-99 | one tick: no change without a pending ride or an available driver; otherwise the oldest pending ride is assigned to some available driver and that driver becomes not available |
| Queuing.TickChoosesOldestRide | backend/queuing.js:16-23 | the tick finds no ride exactly when none is pending; otherwise its ride is pending and no earlier ride is |
| Queuing.MatchReservesDriver | backend/queuing.js:29-54 | the matched driver was available and is the only one to leave the available pool |
| Queuing.MatchChangesOneRowEach | backend/queuing.js:45-54 | a match changes exactly the ride row (assigned, with that driver) and the driver row (not available) |
| Queuing.TickPreservesConsistency | backend/queuing.js:45-56 | ticks keep pending rides driverless and assigned rides with a driver |
| Queuing.SuccessiveMatchesInRequestOrder | backend/queuing.js:16-18 | the next tick matches a later-requested ride, with a different driver |
| Queuing.NoDriverLeavesRideWaiting | backend/queuing.js:33-37 | without an available driver the oldest pending ride stays pending |
| ClientRides.BookingAcceptedCharacterized | backend/backend_client.js:88-100 | a booking passes exactly when all four coordinates are non-zero numbers in range; latitude 0 is refused as missing |
| ClientRides.BookedRideContents | backend/backend_client.js:104-157 | the new ride is pending and driverless, priced for the requested class over its own distance, with ride type "standard" by default and destination "N/A" when no address is given |
| ClientRides.BookingJoinsQueue | backend/backend_client.js:128-143 | a booked ride joins the back of the queue: earlier pending rides are served first |
| ClientRides.BookRide | backend/backend_client.js:75-179 | 400 with no change on invalid coordinates; otherwise the ride is appended and 202 reports its id |
| ClientRides.CheckCancel | backend/backend_client.js:843-884 | a ride passes only when it is the caller's own and is pending or assigned |
| ClientRides.CancellableExactly | backend/backend_client.js:854-884 | exactly the caller's own pending or assigned rides can be cancelled; a completed ride is refused with its status; another user's ride is not found |
| ClientRides.CancelLeavesQueue | backend/backend_client.js:911-915 | a cancelled ride is never the next one served; other rides keep their place; rows stay consistent |
| ClientRides.CancelRide | backend/backend_client.js:841-934 | the error replies with no change; a failed driver notification rolls back to a 500; otherwise the ride is cancelled (its driver id kept) and its driver freed |
| ClientRides.CountRides | backend/backend_client.js:597-603 | the definition of `COUNT(*)` over the caller's rides, optionally of one status; it is at most the table size, and `StatusCountsAddUp` relates the counts |
| ClientRides.GroupByStatus | backend/backend_client.js:627-634 | one row per status the caller has rides in, each with its positive count |
| ClientRides.GroupRow | backend/backend_client.js:627-634 | a status has a row exactly when its count is positive |
| ClientRides.StatusCountsAddUp | backend/backend_client.js:627-646 | the caller's ride count is the sum of the four status counts |
| ClientRides.RideHistoryStats | backend/backend_client.js:636-646 | the stats loop leaves each field equal to that status's count, and total equal to the filtered count |
| ClientRides.HistoryTotals | backend/backend_client.js:588-646 | without a filter the total is the sum of the four fields; with "completed" it equals the completed field |
| ClientMeetups.Or | backend/backend_client.js:420 | `a \|\| b` on optional text fields |
| ClientMeetups.MatchedInvitees | backend/backend_client.js:267-271 | exactly the users whose e-mail is in the list |
| ClientMeetups.OrganizerRideGoesToMeetup | backend/backend_client.js:225-261 | the organizer's ride goes to the meetup's location and point, waits for a driver, and costs the standard fare |
| ClientMeetups.PendingInvites | backend/backend_client.js:273-284 | one pending invite of the new meetup per matched user, and nothing else |
| ClientMeetups.CreateMeetup | backend/backend_client.js:186-328 | 400 on missing or invalid fields; 500 with no change without an organizer row; otherwise the meetup, the organizer's ride and the invites are appended, and a failed notification only changes the reply to 500 |
| ClientMeetups.CheckRespond | backend/backend_client.js:349-382 | rejection and acceptance reach only the invite's own invitee |
| ClientMeetups.RespondOutcomes | backend/backend_client.js:349-405 | another user's invite fails the ownership check; any answer other than "rejected" accepts; a missing source blocks only the word "accepted" |
| ClientMeetups.AcceptedRideFare | backend/backend_client.js:427-469 | the invitee's ride waits for a driver and goes to the meetup; it costs the standard fare when all coordinates are known, 100.00 otherwise |
| ClientMeetups.RespondToInvite | backend/backend_client.js:333-503 | the error replies with no change; rejection marks the invite rejected; acceptance records the origin and appends the ride; the writes stand even when the notification fails |
| ClientMeetups.CheckCancelMeetup | backend/backend_client.js:1566-1616 | only the organizer of a meetup that is not yet cancelled gets through; `CancelMeetupRefusals` gives each refusal |
| ClientMeetups.CancelMeetupRefusals | backend/backend_client.js:1566-1616 | 400 exactly for a non-numeric id; 404 exactly when the meetup or its organizer row is missing; 403 exactly for a caller who is not the organizer; 400 exactly when the organizer's meetup is already cancelled; the organizer of a live meetup passes with that meetup |
| ClientMeetups.AcceptedInvitees | backend/backend_client.js:1619-1629 | exactly the invitees with an accepted invite and a user row |
| ClientMeetups.RidesToCancel | backend/backend_client.js:1632-1647 | in increasing order, exactly the pending and assigned rides to the meetup's location by the organizer or an accepted invitee |
| ClientMeetups.CancelRidesAt | backend/backend_client.js:1653-1656 | exactly the listed rides become cancelled |
| ClientMeetups.Holders | backend/backend_client.js:1659-1663 | the drivers assigned to the listed rides |
| ClientMeetups.FreeDrivers | backend/backend_client.js:1659-1663 | exactly the listed drivers become available |
| ClientMeetups.CancelInvites | backend/backend_client.js:1701-1704 | the meetup's invites that were not rejected become cancelled; all others are untouched |
| ClientMeetups.CascadeRides | backend/backend_client.js:1651-1698 | the loop cancels every listed ride and frees its driver; a failed notification stops it with a failure |
| ClientMeetups.CancelMeetup | backend/backend_client.js:1564-1757 | the error replies with no change; a failed notification inside the loop rolls everything back; otherwise rides, drivers, invites and the meetup are cancelled together and the reply counts the cancelled rides |
| ClientMeetups.CascadePreservesConsistency | backend/backend_client.js:1651-1656 | cancelling rides keeps the ride rows consistent |
| ClientMeetups.CascadeCancelsExactly | backend/backend_client.js:1632-1656 | a ride changes exactly when it is one to cancel; completed rides stay untouched; the reply's count is the number of rows changed |
| ClientMeetups.DistinctIndexCount | backend/backend_client.js:1741 | the ride list holds as many distinct rows as it has entries |
| ClientMeetups.CascadeFreesDrivers | backend/backend_client.js:1659-1663 | the drivers of cancelled rides become available; other driver rows do not change |
| ClientMeetups.CascadeLeavesQueue | backend/backend_client.js:1632-1656 | no ride of the cancelled meetup is served by a later tick |
| ClientMeetups.CancelInvitesOutcome | backend/backend_client.js:1701-1704 | rejected invites stay rejected; the meetup's others are cancelled; other meetups' invites are untouched |
| ClientMeetups.UserInviteRows | backend/backend_client.js:986-1004 | every invite to the caller whose meetup and organizer rows exist, as often as it occurs, and no other row |
| ClientMeetups.WithStatus | backend/backend_client.js:1009-1013 | the filter keeps every row of that status, as often as it occurs, and no other row |
| ClientMeetups.InviteBucketsPartition | backend/backend_client.js:1009-1021 | pending, accepted and rejected counts plus the cancelled invites add up to the total |
| MeetupView.CheckAccess | backend/backend_client.js:1150-1199 | access is granted only to a meetup that exists |
| MeetupView.AccessGrantedExactly | backend/backend_client.js:1185-1199 | exactly the organizer and users holding any invite to the meetup (even rejected or cancelled) get through, with the role set for the organizer |
| MeetupView.TrackedStatuses | backend/backend_client.js:1217-1224 | at most one entry per ride, none of them cancelled; empty exactly when the rider has no tracked ride |
| MeetupView.TrackedPositionsOrdered | backend/backend_client.js:1217-1224 | the positions the status query selects are tracked rides of the rider (to the meetup's location, not cancelled), in ride order |
| MeetupView.TrackedPositionsComplete | backend/backend_client.js:1217-1224 | every tracked ride of the rider is among the selected positions |
| MeetupView.TrackedStatusesPositions | backend/backend_client.js:1217-1224 | the j-th status returned is the status of the j-th tracked ride, so there is exactly one entry per tracked ride, oldest first |
| MeetupView.LatestTracked | backend/backend_client.js:1233-1251 | the status of the rider's newest tracked ride, or none when there is none |
| MeetupView.RowsForInvite | backend/backend_client.js:1217-1224 | the LEFT JOIN gives one row per tracked ride, or one row without a ride |
| MeetupView.InviteRows | backend/backend_client.js:1204-1227 | each row is an invite of the meetup with a user row, carrying the invite's status and invitee |
| MeetupView.EveryInviteListed | backend/backend_client.js:1204-1227 | every invite of the meetup whose invitee has a user row appears among the rows |
| MeetupView.CountInviteStatus | backend/backend_client.js:1254-1259 | the definition of `filter(status).length` over the joined rows; it never exceeds the rows |
| MeetupView.CountAcceptedRides | backend/backend_client.js:1261-1269 | the invitee rides of a status never exceed the accepted rows |
| MeetupView.RideCountsBounded | backend/backend_client.js:1261-1270 | the three invitee ride counts together never exceed the accepted rows |
| MeetupView.CancelledMeetupReopened | backend/backend_client.js:1272-1281 | as written, a cancelled meetup whose organizer had arrived is reported and stored as all arrived (Finding 2) |
| MeetupView.CancelledMeetupShownInProgress | backend/backend_client.js:1282-1291 | as written, a cancelled meetup with a ride assigned or completed, but not all completed, is reported as in progress |
| MeetupView.DeriveStatus | backend/backend_client.js:1272-1293 | a cancelled meetup stays cancelled and nothing is written |
| MeetupView.DeriveStatusMeaning | backend/backend_client.js:1272-1293 | on a meetup that is not cancelled: all arrived exactly when every participant's ride is completed, or it already was all arrived and no ride has moved; otherwise in progress exactly when some ride is assigned or completed or it already was in progress; a write only moves the status forward, writes what is reported, and a second read writes nothing |
| MeetupView.LabelsAgree | backend/backend_client.js:1311-1337 | "Arrived" exactly when the ride is completed; a row without a ride is labelled from its invite |
| MeetupView.Participants | backend/backend_client.js:1295-1339 | the organizer first as an accepted participant, then one entry per invite row with that row's ride |
| MeetupView.StatusOfCounts | backend/backend_client.js:1254-1339 | participants = accepted rows + 1; the organizer has arrived exactly when its newest tracked ride is completed; a cancelled meetup reads as cancelled with no write |
| MeetupView.GetMeetupStatus | backend/backend_client.js:1148-1368 | 400, 404 or 403 with no change; otherwise the read-out, and the only write is the derived status of that meetup |
| MeetupView.CountInvitesOf | backend/backend_client.js:1407-1415 | the definition of the `COUNT(CASE …)` over the meetup's invites; it never exceeds the table |
| MeetupView.AcceptedOf | backend/backend_client.js:1425-1428 | exactly the invitees of the meetup with an accepted invite |
| MeetupView.ArrivedRides | backend/backend_client.js:1418-1430 | the definition of the arrival `COUNT(*)`: completed rides to the location by the listed riders; it never exceeds the table |
| MeetupView.RoundPercent | backend/backend_client.js:1450 | `Math.round(arrived / expected × 100)`: the nearest integer, halves rounded up |
| MeetupView.RoundPercentUnique | backend/backend_client.js:1450 | the rounding is determined by its defining inequalities |
| MeetupView.ProgressOf | backend/backend_client.js:1433-1451 | accepted is the meetup's accepted-invite count, arrived is the completed rides of the organizer and accepted invitees to its location, expected = accepted + 1, waiting = expected − arrived, and the percentage is arrived / expected rounded |
| MeetupView.ProgressBounds | backend/backend_client.js:1450 | the percentage is at most 100 while arrivals do not exceed the expected count; it is 100 when they are equal and 0 with no arrivals |
| MeetupView.ArrivalsCountRides | backend/backend_client.js:1418-1451 | an organizer with two completed rides to the meetup shows 2 arrived of 1 expected, −1 waiting, 200 percent |
| MeetupView.MeetupProgress | backend/backend_client.js:1371-1458 | 400, 404 and 403 exactly on a bad id, a missing meetup and an outsider; otherwise the summary `ProgressOf` of that meetup |
| DriverApi.StatusNamesRoundTrip | backend/backend_driver.js:17-21 | the status is accepted exactly for the three names, and each name gives its own status |
| DriverApi.AutoNameInjective | backend/backend_driver.js:26 | automatic profile names `AutoDriver_<id>` tell drivers apart |
| DriverApi.SetStatusOutcome | backend/backend_driver.js:24-38 | the caller's row gets the status (name and vehicle kept, or a vehicle-less automatic profile created); no other row changes; repeating is a no-op; the caller is matchable exactly when available |
| DriverApi.UpdateDriverStatus | backend/backend_driver.js:14-45 | 400 with no change on an unknown status; otherwise the status is set, and 201 replaces 200 when the profile was created |
| DriverApi.RegisteredDriverWaitsOffline | backend/backend_driver.js:62-65 | a registered driver is offline and unmatched until it sets itself available |
| DriverApi.RegisterDriver | backend/backend_driver.js:48-76 | 400 without a name or vehicle; 409 when a profile exists; otherwise a new offline profile and 201 |

## Left out

- Haversine distance and `toFixed(2)` are not computed. They are the parameters `dist` and `round2`, and only their results appear in contracts. `formatDistance` is not modelled.
- Money and distance are exact reals, not IEEE doubles. `Location.ExactFare` is the breakdown before rounding, and `Location.CalculateFare` applies `round2`.
- MeetupView.RoundPercent: computed on exact rationals, so it can differ from the floating-point `Math.round` where a double rounds a half the other way.
- Location.CalculateEta: requires a positive speed. The only callers use 30 km/h or the default, so the model does not cover division by zero or a negative speed.
- Notifications (`fetch` to the notification server) are reduced to the boolean `notifyUp`. Payloads, targets and the notification server itself are not modelled.
- Database failures are not modelled, except the missing organizer row in meetup creation, which throws.
- Concurrency, row locks and the 5-second timer are not modelled: each handler runs alone, and the tick is one call.
- Only the write-side handlers, the two meetup read-outs and the history stats are modelled. The other read-only endpoints (ride details, pagination and rows of the history, invite lists) and the ride-completion endpoints are not part of this model.
- Driver names, vehicles and ride ids in the read-out rows are not modelled. Only statuses, counts and labels are.
- The `drivers` table's key column is `userid` in the driver backend and `user_id` in the queue and client backends. The model has one key, the map key.
- Rides, invites and the queue are matched on an address text (`rr.dest_location = $1` at backend/backend_client.js:1221, 1244, 1421 and 1639). The meetup INSERT (backend/backend_client.js:233-243) writes only `meetup_address`, not `meetup_location`. The booking INSERT (128-157) and the organizer's ride (247-261) write only `dest_address`, not `dest_location`; only an accepted invitee's ride (451-462) sets it. Unless the database schema fills these columns, none of these queries matches a ride: the status read-out sees no rides, the progress shows no arrivals, and the cancel cascade cancels no ride. The model instead assumes that `meetup_location` and every ride's `dest_location` hold the address written at creation (`Meetup.location`, `Ride.destination`), so these queries match. In particular, a ride booked through `/book-ride` whose destination address is the meetup address counts as a ride to that meetup.
- Row ids are positions counted from 0, whereas PostgreSQL's SERIAL ids start at 1. In the source, `/rides/0/cancel` and `/meetups/0/status` reply 404; in the model, id 0 names the first row. Every id is shifted by one and nothing else changes.
- ClientMeetups.AcceptedRide: the pickup point is set from both coordinates or not at all. The source stores `source_lat || null` and `source_lng || null` separately (backend/backend_client.js:458-459), so a request with only a latitude stores half a pickup point there.
- ClientRides.RideTypeOrDefault: the ride type is absent or text. A JSON `null` ride type, which passes the `= 'standard'` default unchanged in the source, is not modelled.
- DriverApi.RegisterDriver: the driver name and vehicle are absent or text. A numeric `driver_name`, which is truthy and stored as text in the source, is not modelled.
- The caller's user id is taken as given. The client handlers read `req.user.user_id` and the driver handlers read `req.user.userid`; the token middleware that fills these is not part of this model.
- Invite coordinates (`invitee_source_lat`/`lng`) are not stored. The invite keeps only the origin text.
- ClientMeetups.AcceptDistance: a numeric string given as a coordinate is treated as no distance, which gives the default fare of 100.00. In the source, JavaScript would compute a distance from the coerced numbers.
- Digits.JsParseIntUnsigned: `parseInt` is modelled on decimal text only. The "0x" hexadecimal prefix and the loss of precision beyond the safe integer range are not modelled.
- ClientMeetups.RespondToInvite: the invite id is taken as an already parsed number. The source passes the raw route text to `WHERE id = $1` (backend/backend_client.js:334, 358-361), so a non-numeric id makes PostgreSQL raise an error and the handler replies 500. The model does not have that path.
- ClientMeetups.PendingInvites: the invites are stated as one per matched user in some order. The source's order follows the database's answer to the e-mail query, which is unspecified.
- ClientRides.GroupByStatus: the order of the GROUP BY rows is fixed in the model. Only their set matters to the stats.
- `auth_server.js`, `notification.js`, the command-line clients and the frontends are not part of this model.

- ClientRides.BookRide, Location.CalculateFare and ClientRides.BookedRideContents price the ride with `Location.RatesFor`, the corrected lookup of the first finding below. With a `ride_type` such as "toString", the source stores a NaN `estimated_fare`; the model stores the standard fare.
- MeetupView.GetMeetupStatus and MeetupView.StatusOfCounts derive the status with `MeetupView.DeriveStatus`, the corrected derivation of the second finding below, so a cancelled meetup is always reported as cancelled and never rewritten. As written, the source reports and stores `all_arrived` on a cancelled meetup whose rides are all completed (`MeetupView.CancelledMeetupReopened`), and reports `in_progress` on one with an assigned or completed ride (`MeetupView.CancelledMeetupShownInProgress`).

Behaviour the model keeps as the code has it:
- The tick takes any available driver; it does not use distance.
- Cancelling a meetup is one all-or-nothing transaction. A failed driver notification inside it rolls everything back.
- A failed notification after COMMIT turns the reply into a 500, although the write stands.
- The meetup status is derived, and written back, only when the status read-out runs.
- The progress summary counts completed rides, not distinct riders (`MeetupView.ArrivalsCountRides`).
- The fare total is constant while the minimum fare applies, so it is not strictly increasing (`Location.FareConstantUnderMinimum`).
- Setting a driver's status ignores the rides the driver holds.
- Cancelling a ride keeps its driver id.

## Findings

| source | as written | input that shows it | evidently intended | confidence | as-written member | corrected member |
|---|---|---|---|---|---|---|
| backend/utils/location.js:68 | `pricing[rideType] \|\| pricing.standard` also finds names inherited from `Object.prototype`. That value is truthy and has no rates, so every field is NaN | `calculateFare(4.68, "toString")` | an unknown ride type is priced with the standard table | high, not executed | Location.PrototypeRideTypeIsNaN | Location.RatesFor |
| backend/backend_client.js:1272-1293 | the status read-out sets `all_arrived` whenever every participant's ride is completed, even on a cancelled meetup. Cancelling closes the accepted invites, which leaves the organizer as the only participant | a cancelled meetup whose organizer's ride to it was already completed: reading its status reports and stores `all_arrived` | a cancelled meetup stays cancelled | high, not executed | MeetupView.CancelledMeetupReopened | MeetupView.DeriveStatus |
