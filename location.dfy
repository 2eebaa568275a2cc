/** Location and fare utilities (backend/utils/location.js): fare breakdown,
    ETA, nearby-driver search and coordinate validation.

    The haversine distance (`calculateDistance`) and the two-decimal rounding
    (`toFixed(2)` then `parseFloat`) are floating-point numerics; here they
    are parameters of the functions that use them: `dist` and `round2`.
    Money and distances are `real`. */
module Location {
  import opened Common
  import opened Digits

  datatype Point = Point(lat: real, lng: real)

  /** calculateDistance(lat1, lng1, lat2, lng2), already rounded to 2 decimals. */
  type DistanceFn = (Point, Point) -> real

  /** parseFloat(x.toFixed(2)) */
  type Rounding = real -> real

  // ---------------------------------------------------------------------
  // Coordinate validation
  // ---------------------------------------------------------------------

  /** Both values are numbers, not NaN, with the latitude in [-90, 90] and the
      longitude in [-180, 180]. Strings, null and undefined are rejected by
      the `typeof` tests. */
  predicate IsValidCoordinate(lat: Value, lng: Value)
  {
    && lat.Number? && lng.Number?
    && -90.0 <= lat.x <= 90.0
    && -180.0 <= lng.x <= 180.0
  }

  /** The point a valid coordinate pair denotes. */
  function ToPoint(lat: Value, lng: Value): (p: Point)
    requires IsValidCoordinate(lat, lng)
    ensures -90.0 <= p.lat <= 90.0 && -180.0 <= p.lng <= 180.0
    ensures lat == Number(p.lat) && lng == Number(p.lng)
  {
    Point(lat.x, lng.x)
  }

  /** A pair is valid exactly when it is the pair of numbers of an in-range point. */
  lemma ValidCoordinateCharacterized(lat: Value, lng: Value)
    ensures IsValidCoordinate(lat, lng) <==>
      exists p: Point :: -90.0 <= p.lat <= 90.0 && -180.0 <= p.lng <= 180.0
                         && lat == Number(p.lat) && lng == Number(p.lng)
  {
    if IsValidCoordinate(lat, lng) {
      var p := ToPoint(lat, lng);
      assert -90.0 <= p.lat <= 90.0 && -180.0 <= p.lng <= 180.0 && lat == Number(p.lat) && lng == Number(p.lng);
    }
  }

  /** Every in-range point is sent as a valid pair, and reading that pair
      gives the point back. */
  lemma CoordinateRoundTrip(p: Point)
    requires -90.0 <= p.lat <= 90.0 && -180.0 <= p.lng <= 180.0
    ensures IsValidCoordinate(Number(p.lat), Number(p.lng))
    ensures ToPoint(Number(p.lat), Number(p.lng)) == p
  {
  }

  /** The three cases printed by the location test script. */
  lemma ValidCoordinateExamples()
    ensures IsValidCoordinate(Number(12.9716), Number(77.5946))
    ensures !IsValidCoordinate(Number(200.0), Number(77.5946))
    ensures !IsValidCoordinate(Text("text"), Number(77.5946))
    ensures !IsValidCoordinate(NaN, Number(77.5946))
  {
  }

  // ---------------------------------------------------------------------
  // Fares
  // ---------------------------------------------------------------------

  datatype Rates = Rates(baseFare: real, perKm: real, minFare: real, serviceFee: real)

  const StandardRates := Rates(50.0, 15.0, 80.0, 10.0)
  const PremiumRates := Rates(100.0, 25.0, 150.0, 15.0)
  const SharedRates := Rates(30.0, 10.0, 50.0, 5.0)

  /** The ride types that have a table of their own. */
  const RideTypes: set<string> := {"standard", "premium", "shared"}

  /** The rate table of a ride type; any other type is priced as standard.
      (This is the lookup the pricing table is meant to perform; see
      RatesAsWritten for what `pricing[rideType] || pricing.standard`
      does on inherited property names.) */
  function RatesFor(rideType: string): (r: Rates)
    ensures r.perKm > 0.0 && r.minFare > 0.0 && r.serviceFee > 0.0
  {
    if rideType == "premium" then PremiumRates
    else if rideType == "shared" then SharedRates
    else StandardRates
  }

  /** The breakdown calculateFare returns, field by field. */
  datatype Fare = Fare(
    distance: real,
    baseFare: real,
    distanceFare: real,
    tripFare: real,
    serviceFee: real,
    subtotal: real,
    gst: real,
    total: real,
    rideType: string)

  const GstRate: real := 0.18

  /** calculateFare before the two-decimal rounding of its money fields. */
  function ExactFare(distanceKm: real, rideType: string): (f: Fare)
    ensures var r := RatesFor(rideType);
      && f.tripFare >= r.minFare
      && f.tripFare >= r.baseFare + distanceKm * r.perKm
      && (f.tripFare == r.minFare || f.tripFare == r.baseFare + distanceKm * r.perKm)
      && f.subtotal == f.tripFare + r.serviceFee
      && f.total == f.subtotal + GstRate * f.subtotal
      && f.rideType == rideType && f.distance == distanceKm
  {
    var r := RatesFor(rideType);
    var raw := r.baseFare + distanceKm * r.perKm;
    var trip := if raw < r.minFare then r.minFare else raw;
    var subtotal := trip + r.serviceFee;
    var gst := subtotal * GstRate;
    Fare(distanceKm, r.baseFare, distanceKm * r.perKm, trip, r.serviceFee,
         subtotal, gst, subtotal + gst, rideType)
  }

  /** The fields calculateFare passes through toFixed(2). */
  function Rounded(f: Fare, round2: Rounding): Fare
  {
    f.(distanceFare := round2(f.distanceFare),
       tripFare := round2(f.tripFare),
       subtotal := round2(f.subtotal),
       gst := round2(f.gst),
       total := round2(f.total))
  }

  /** calculateFare(distanceKm, rideType): the money fields computed from
      the rates are rounded to cents; the distance, base fare, service fee
      and ride type are returned as they are. */
  function CalculateFare(distanceKm: real, rideType: string, round2: Rounding): (f: Fare)
    ensures var exact := ExactFare(distanceKm, rideType);
      && f.total == round2(exact.total) && f.subtotal == round2(exact.subtotal) && f.gst == round2(exact.gst)
      && f.tripFare == round2(exact.tripFare) && f.distanceFare == round2(distanceKm * RatesFor(rideType).perKm)
      && f.baseFare == RatesFor(rideType).baseFare && f.serviceFee == RatesFor(rideType).serviceFee
      && f.distance == distanceKm && f.rideType == rideType
  {
    Rounded(ExactFare(distanceKm, rideType), round2)
  }

  /** The trip fare never drops below the class minimum, so every total is
      positive (at least 1.18 times minimum plus service fee). */
  lemma FareFloor(distanceKm: real, rideType: string)
    ensures var f := ExactFare(distanceKm, rideType);
            var r := RatesFor(rideType);
      f.tripFare >= r.minFare && f.total >= (r.minFare + r.serviceFee) * 1.18 > 0.0
  {
  }

  /** An unknown ride type is priced with the standard table and still
      echoed back as given. */
  lemma UnknownRideTypeIsStandard(distanceKm: real, rideType: string)
    requires rideType !in RideTypes
    ensures ExactFare(distanceKm, rideType) == ExactFare(distanceKm, "standard").(rideType := rideType)
  {
  }

  /** For a fixed ride type the total never decreases with distance. */
  lemma FareMonotone(d1: real, d2: real, rideType: string)
    requires d1 <= d2
    ensures ExactFare(d1, rideType).total <= ExactFare(d2, rideType).total
  {
    var r := RatesFor(rideType);
    assert d1 * r.perKm <= d2 * r.perKm;
  }

  /** While the minimum fare applies, the total does not depend on distance. */
  lemma FareConstantUnderMinimum(d1: real, d2: real, rideType: string)
    requires d1 <= d2
    requires RatesFor(rideType).baseFare + d2 * RatesFor(rideType).perKm <= RatesFor(rideType).minFare
    ensures ExactFare(d1, rideType).total == ExactFare(d2, rideType).total
  {
    var r := RatesFor(rideType);
    assert d1 * r.perKm <= d2 * r.perKm;
  }

  /** Past the minimum, a longer trip costs strictly more. */
  lemma FareStrictAboveMinimum(d1: real, d2: real, rideType: string)
    requires d1 < d2
    requires RatesFor(rideType).baseFare + d1 * RatesFor(rideType).perKm >= RatesFor(rideType).minFare
    ensures ExactFare(d1, rideType).total < ExactFare(d2, rideType).total
  {
    var r := RatesFor(rideType);
    assert d1 * r.perKm < d2 * r.perKm;
  }

  ghost predicate MonotoneRounding(round2: Rounding)
  {
    forall x, y :: x <= y ==> round2(x) <= round2(y)
  }

  /** With any order-preserving rounding, the rounded total is non-decreasing
      in distance too. */
  lemma RoundedFareMonotone(d1: real, d2: real, rideType: string, round2: Rounding)
    requires MonotoneRounding(round2)
    requires d1 <= d2
    ensures CalculateFare(d1, rideType, round2).total <= CalculateFare(d2, rideType, round2).total
  {
    FareMonotone(d1, d2, rideType);
  }

  /** A 0.1 km standard trip is charged the minimum: 80 + 10, plus 18% tax. */
  lemma ShortTripPaysMinimum()
    ensures ExactFare(0.1, "standard").tripFare == 80.0
    ensures ExactFare(0.1, "standard").total == 106.2
  {
  }

  // --- The lookup as written ---------------------------------------------

  /** Property names every object literal inherits from Object.prototype. */
  const PrototypeNames: set<string> := {
    "constructor", "__proto__", "hasOwnProperty", "isPrototypeOf",
    "propertyIsEnumerable", "toString", "toLocaleString", "valueOf",
    "__defineGetter__", "__defineSetter__", "__lookupGetter__", "__lookupSetter__"}

  /** What `pricing[rideType]` yields: an own rate table, an inherited
      prototype member (a function or object, truthy but without rates),
      or undefined. */
  datatype PricingEntry = RateTable(rates: Rates) | Inherited | Undefined

  function PricingLookup(rideType: string): PricingEntry
  {
    if rideType == "standard" then RateTable(StandardRates)
    else if rideType == "premium" then RateTable(PremiumRates)
    else if rideType == "shared" then RateTable(SharedRates)
    else if rideType in PrototypeNames then Inherited
    else Undefined
  }

  /** `pricing[rideType] || pricing.standard`: only undefined falls back. */
  function RatesAsWritten(rideType: string): PricingEntry
  {
    match PricingLookup(rideType)
    case Undefined => RateTable(StandardRates)
    case e => e
  }

  /** The total calculateFare computes as written; None stands for NaN, the
      result of arithmetic on the missing `baseFare` of an inherited member. */
  function FareTotalAsWritten(distanceKm: real, rideType: string): Option<real>
  {
    match RatesAsWritten(rideType)
    case RateTable(r) =>
      var raw := r.baseFare + distanceKm * r.perKm;
      var trip := if raw < r.minFare then r.minFare else raw;
      var subtotal := trip + r.serviceFee;
      Some(subtotal + subtotal * GstRate)
    case _ => None
  }

  /** As written, the ride type "toString" is priced NaN, where the standard
      table was intended. */
  lemma PrototypeRideTypeIsNaN()
    ensures FareTotalAsWritten(4.68, "toString") == None
    ensures ExactFare(4.68, "toString").total == ExactFare(4.68, "standard").total
  {
  }

  /** On every other string the lookup as written agrees with RatesFor. */
  lemma AsWrittenAgreesOffPrototype(distanceKm: real, rideType: string)
    requires rideType !in PrototypeNames
    ensures FareTotalAsWritten(distanceKm, rideType) == Some(ExactFare(distanceKm, rideType).total)
  {
  }

  // ---------------------------------------------------------------------
  // ETA
  // ---------------------------------------------------------------------

  /** Math.ceil */
  function Ceil(x: real): (c: int)
    ensures c as real - 1.0 < x <= c as real
  {
    -((-x).Floor)
  }

  const CitySpeedKmh: real := 30.0

  datatype Eta = Eta(minutes: int, formattedTime: string)

  /** "N min" below an hour (N printed with its sign), otherwise "Hh Mm". */
  function FormatEta(minutes: int): (s: string)
    ensures s != [] && (s[0] == '-' <==> minutes < 0)
    ensures 'h' in s <==> minutes >= 60
  {
    if minutes < 0 then "-" + (NatToString(-minutes) + " min")
    else if minutes < 60 then NatToString(minutes) + " min"
    else NatToString(minutes / 60) + ("h " + NatToString(minutes % 60) + "m")
  }

  /** Math.ceil(distanceKm / avgSpeed * 60): the least whole number of
      minutes in which the distance is covered at that speed. */
  function EtaMinutes(distanceKm: real, avgSpeed: real): (m: int)
    requires avgSpeed > 0.0
    ensures EtaCovers(m, distanceKm, avgSpeed)
  {
    var x := distanceKm / avgSpeed * 60.0;
    EtaBounds(distanceKm, avgSpeed, x, Ceil(x));
    Ceil(x)
  }

  /** `m` whole minutes at `avgSpeed` km/h cover `distanceKm`, and one
      minute less would not. */
  predicate EtaCovers(m: int, distanceKm: real, avgSpeed: real)
  {
    m as real * avgSpeed >= 60.0 * distanceKm
    && (m as real - 1.0) * avgSpeed < 60.0 * distanceKm
  }

  lemma EtaBounds(distanceKm: real, avgSpeed: real, x: real, m: int)
    requires avgSpeed > 0.0 && x == distanceKm / avgSpeed * 60.0
    requires m as real - 1.0 < x <= m as real
    ensures EtaCovers(m, distanceKm, avgSpeed)
  {
    assert x * avgSpeed == 60.0 * distanceKm;
    ScaleMonotone(x, m as real, avgSpeed);
    var below: real := (m - 1) as real;
    assert below == m as real - 1.0;
    ScaleStrict(below, x, avgSpeed);
    assert below * avgSpeed < x * avgSpeed;
  }

  /** calculateETA(distanceKm, avgSpeed) */
  function CalculateEta(distanceKm: real, avgSpeed: real): (e: Eta)
    requires avgSpeed > 0.0
    ensures EtaCovers(e.minutes, distanceKm, avgSpeed)
    ensures ParseEta(e.formattedTime) == Some(e.minutes)
  {
    var m := EtaMinutes(distanceKm, avgSpeed);
    FormatEtaRoundTrip(m);
    Eta(m, FormatEta(m))
  }

  lemma ScaleMonotone(a: real, b: real, s: real)
    requires a <= b && s > 0.0
    ensures a * s <= b * s
  {
  }

  lemma ScaleStrict(a: real, b: real, s: real)
    requires a < b && s > 0.0
    ensures a * s < b * s
  {
  }

  /** Reads an ETA text back: "<n> min" (n possibly negative) or
      "<h>h <m>m". */
  function ParseEta(s: string): Option<int>
  {
    var negative := s != [] && s[0] == '-';
    var body := if negative then s[1..] else s;
    var d := DigitPrefix(body);
    if d == [] then None else EtaUnits(negative, DigitsValue(d), body[|d|..])
  }

  /** What follows the leading number `n` of an ETA text. */
  function EtaUnits(negative: bool, n: int, rest: string): Option<int>
  {
    if rest == " min" then Some(if negative then 0 - n else n)
    else if !negative && |rest| >= 2 && rest[..2] == "h " then
      var e := DigitPrefix(rest[2..]);
      if e != [] && rest[2..][|e|..] == "m" then Some(n * 60 + DigitsValue(e)) else None
    else None
  }

  /** The formatted ETA determines the minutes it was made from. */
  lemma FormatEtaRoundTrip(minutes: int)
    ensures ParseEta(FormatEta(minutes)) == Some(minutes)
  {
    if minutes < 0 {
      NegativeEtaRoundTrip(-minutes);
    } else if minutes < 60 {
      MinutesEtaRoundTrip(minutes);
    } else {
      HoursEtaRoundTrip(minutes);
    }
  }

  lemma MinutesEtaRoundTrip(minutes: nat)
    requires minutes < 60
    ensures ParseEta(FormatEta(minutes)) == Some(minutes)
  {
    var s := FormatEta(minutes);
    assert s == NatToString(minutes) + " min";
    ParseEtaUnsigned(s, minutes, " min");
  }

  lemma HoursEtaRoundTrip(minutes: nat)
    requires minutes >= 60
    ensures ParseEta(FormatEta(minutes)) == Some(minutes)
  {
    var hours, rest := minutes / 60, minutes % 60;
    assert hours * 60 + rest == minutes;
    assert FormatEta(minutes) == NatToString(hours) + ("h " + NatToString(rest) + "m");
    HoursMinutesRoundTrip(hours, rest);
  }

  /** Reading the decimal text of `n` at the start of `body`. */
  lemma ReadNumber(body: string, n: nat, rest: string) returns (d: string)
    requires body == NatToString(n) + rest
    requires rest == [] || !IsDigit(rest[0])
    ensures d == NatToString(n) && d != [] && DigitPrefix(body) == d && DigitsValue(d) == n
    ensures body[|d|..] == rest && IsDigit(body[0])
  {
    d := NatToString(n);
    DigitPrefixOfDigits(d, rest);
    NatRoundTrip(n);
    assert body[0] == d[0];
  }

  /** An ETA text that starts with the digits of `n`. */
  lemma ParseEtaUnsigned(s: string, n: nat, rest: string)
    requires s == NatToString(n) + rest
    requires rest == [] || !IsDigit(rest[0])
    ensures ParseEta(s) == EtaUnits(false, n, rest)
  {
    var d := ReadNumber(s, n, rest);
  }

  /** "-<m> min" reads back as -m minutes. */
  lemma NegativeEtaRoundTrip(m: nat)
    ensures ParseEta("-" + (NatToString(m) + " min")) == Some(0 - m)
  {
    var body := NatToString(m) + " min";
    var d := ReadNumber(body, m, " min");
    ParseEtaNegative("-" + body, body, d, m);
  }

  /** A minus sign, the digits `d` of `m`, then " min". */
  lemma ParseEtaNegative(s: string, body: string, d: string, m: nat)
    requires s == "-" + body
    requires d != [] && DigitPrefix(body) == d && DigitsValue(d) == m && body[|d|..] == " min"
    ensures ParseEta(s) == Some(0 - m)
  {
    assert s[1..] == body;
  }

  /** "<hours>h <rest>m" reads back as hours * 60 + rest minutes. */
  lemma HoursMinutesRoundTrip(hours: nat, rest: nat)
    ensures ParseEta(NatToString(hours) + ("h " + NatToString(rest) + "m")) == Some(hours * 60 + rest)
  {
    var tail := "h " + NatToString(rest) + "m";
    ParseEtaUnsigned(NatToString(hours) + tail, hours, tail);
    HoursMinutesTail(hours, rest, tail);
  }

  /** Reading the "h <rest>m" that follows the hours. */
  lemma HoursMinutesTail(hours: nat, rest: nat, tail: string)
    requires tail == "h " + NatToString(rest) + "m"
    ensures EtaUnits(false, hours, tail) == Some(hours * 60 + rest)
  {
    assert tail != " min" by {
      assert tail[0] != " min"[0];
    }
    var after := NatToString(rest) + "m";
    assert tail[..2] == "h " && tail[2..] == after;
    var e := ReadNumber(after, rest, "m");
  }

  // ---------------------------------------------------------------------
  // Nearby drivers
  // ---------------------------------------------------------------------

  const DefaultRadiusKm: real := 5.0

  /** A driver annotated with its distance from the user (`distanceFromUser`). */
  type Annotated<D> = (D, real)

  /** drivers.map(driver => ({...driver, distanceFromUser})) */
  function Annotate<D>(origin: Point, drivers: seq<D>, position: D -> Point, dist: DistanceFn): (r: seq<Annotated<D>>)
    ensures |r| == |drivers|
    ensures forall i :: 0 <= i < |r| ==> r[i] == (drivers[i], dist(origin, position(drivers[i])))
  {
    if drivers == [] then []
    else [(drivers[0], dist(origin, position(drivers[0])))] + Annotate(origin, drivers[1..], position, dist)
  }

  /** .filter(driver => driver.distanceFromUser <= radiusKm): exactly the
      entries within the radius are kept. */
  function WithinRadius<D>(xs: seq<Annotated<D>>, radiusKm: real): (r: seq<Annotated<D>>)
    ensures |r| <= |xs|
    ensures forall k :: 0 <= k < |r| ==> r[k] in xs && r[k].1 <= radiusKm
    ensures forall k :: 0 <= k < |xs| && xs[k].1 <= radiusKm ==> xs[k] in r
  {
    if xs == [] then []
    else
      assert xs == [xs[0]] + xs[1..];
      (if xs[0].1 <= radiusKm then [xs[0]] else []) + WithinRadius(xs[1..], radiusKm)
  }

  ghost predicate SortedByDistance<D>(s: seq<Annotated<D>>)
  {
    forall i, j :: 0 <= i < j < |s| ==> s[i].1 <= s[j].1
  }

  /** Places `x` before the first element that is at least as far. */
  function Insert<D>(x: Annotated<D>, s: seq<Annotated<D>>): (r: seq<Annotated<D>>)
    ensures |r| == |s| + 1
  {
    if s == [] || x.1 <= s[0].1 then [x] + s
    else [s[0]] + Insert(x, s[1..])
  }

  /** Insertion adds `x` and loses nothing. */
  lemma {:induction false} InsertPermutes<D>(x: Annotated<D>, s: seq<Annotated<D>>)
    ensures multiset(Insert(x, s)) == multiset(s) + multiset{x}
  {
    if s != [] && x.1 > s[0].1 {
      InsertPermutes(x, s[1..]);
      assert s == [s[0]] + s[1..];
    }
  }

  lemma {:induction false} InsertKeepsSorted<D>(x: Annotated<D>, s: seq<Annotated<D>>)
    requires SortedByDistance(s)
    ensures SortedByDistance(Insert(x, s))
  {
    if s != [] && x.1 > s[0].1 {
      InsertKeepsSorted(x, s[1..]);
      var t := Insert(x, s[1..]);
      assert Insert(x, s) == [s[0]] + t;
      assert forall i :: 0 <= i < |t| ==> s[0].1 <= t[i].1 by {
        InsertPermutes(x, s[1..]);
        forall i | 0 <= i < |t| ensures s[0].1 <= t[i].1 {
          assert t[i] in multiset(t);
          if t[i] != x {
            assert t[i] in s[1..];
          }
        }
      }
    }
  }

  /** .sort((a, b) => a.distanceFromUser - b.distanceFromUser), a stable
      sort: nearest first, ties in input order. */
  function SortByDistance<D>(xs: seq<Annotated<D>>): (r: seq<Annotated<D>>)
    ensures SortedByDistance(r)
    ensures multiset(r) == multiset(xs)
  {
    if xs == [] then []
    else
      assert xs == [xs[0]] + xs[1..];
      InsertKeepsSorted(xs[0], SortByDistance(xs[1..]));
      InsertPermutes(xs[0], SortByDistance(xs[1..]));
      Insert(xs[0], SortByDistance(xs[1..]))
  }

  /** findNearbyDrivers(userLat, userLng, drivers, radiusKm): the annotated
      drivers within the radius, rearranged nearest first. */
  function FindNearbyDrivers<D>(origin: Point, drivers: seq<D>, position: D -> Point,
                                radiusKm: real, dist: DistanceFn): (r: seq<Annotated<D>>)
    ensures SortedByDistance(r)
    ensures multiset(r) == multiset(WithinRadius(Annotate(origin, drivers, position, dist), radiusKm))
  {
    SortByDistance(WithinRadius(Annotate(origin, drivers, position, dist), radiusKm))
  }

  /** findNearbyDrivers called without a radius: the default of 5 km. */
  function FindNearbyDriversDefaultRadius<D>(origin: Point, drivers: seq<D>, position: D -> Point,
                                             dist: DistanceFn): (r: seq<Annotated<D>>)
    ensures SortedByDistance(r)
    ensures forall k :: 0 <= k < |r| ==>
      r[k].0 in drivers && r[k].1 == dist(origin, position(r[k].0)) && r[k].1 <= 5.0
    ensures forall i :: 0 <= i < |drivers| && dist(origin, position(drivers[i])) <= 5.0 ==>
      (drivers[i], dist(origin, position(drivers[i]))) in r
  {
    NearbyDriversByIndex(origin, drivers, position, DefaultRadiusKm, dist);
    FindNearbyDrivers(origin, drivers, position, DefaultRadiusKm, dist)
  }

  /** The entries of `s` at distance `k`, in order. */
  function AtDistance<D>(s: seq<Annotated<D>>, k: real): seq<Annotated<D>>
  {
    if s == [] then [] else (if s[0].1 == k then [s[0]] else []) + AtDistance(s[1..], k)
  }

  lemma {:induction false} InsertAtDistance<D>(x: Annotated<D>, s: seq<Annotated<D>>, k: real)
    ensures AtDistance(Insert(x, s), k) == (if x.1 == k then [x] else []) + AtDistance(s, k)
  {
    if s == [] || x.1 <= s[0].1 {
      assert Insert(x, s) == [x] + s;
      assert ([x] + s)[1..] == s;
    } else {
      var t := Insert(x, s[1..]);
      InsertAtDistance(x, s[1..], k);
      var head := if s[0].1 == k then [s[0]] else [];
      var own := if x.1 == k then [x] else [];
      assert Insert(x, s) == [s[0]] + t;
      assert ([s[0]] + t)[1..] == t;
      assert AtDistance(Insert(x, s), k) == head + AtDistance(t, k);
      assert AtDistance(s, k) == head + AtDistance(s[1..], k);
      assert head + (own + AtDistance(s[1..], k)) == own + (head + AtDistance(s[1..], k));
    }
  }

  /** Sorting keeps drivers at equal distance in their input order. */
  lemma {:induction false} SortIsStable<D>(xs: seq<Annotated<D>>, k: real)
    ensures AtDistance(SortByDistance(xs), k) == AtDistance(xs, k)
  {
    if xs != [] {
      SortIsStable(xs[1..], k);
      InsertAtDistance(xs[0], SortByDistance(xs[1..]), k);
    }
  }

  lemma {:induction false} AnnotateMembers<D>(origin: Point, drivers: seq<D>, position: D -> Point, dist: DistanceFn)
    ensures forall d, x :: (d, x) in Annotate(origin, drivers, position, dist) <==>
                           d in drivers && x == dist(origin, position(d))
  {
    var a := Annotate(origin, drivers, position, dist);
    forall d, x ensures (d, x) in a <==> d in drivers && x == dist(origin, position(d)) {
      if (d, x) in a {
        var i :| 0 <= i < |a| && a[i] == (d, x);
        assert drivers[i] == d;
      }
      if d in drivers && x == dist(origin, position(d)) {
        var i :| 0 <= i < |drivers| && drivers[i] == d;
        assert a[i] == (d, x);
      }
    }
  }

  /** findNearbyDrivers returns exactly the input drivers within the radius,
      each paired with its own distance and otherwise unchanged, nearest
      first, ties in input order. */
  lemma FindNearbyDriversSpec<D>(origin: Point, drivers: seq<D>, position: D -> Point,
                                 radiusKm: real, dist: DistanceFn)
    ensures var within := WithinRadius(Annotate(origin, drivers, position, dist), radiusKm);
            var r := FindNearbyDrivers(origin, drivers, position, radiusKm, dist);
      && SortedByDistance(r)
      && multiset(r) == multiset(within)
      && (forall d, x :: (d, x) in r <==> d in drivers && x == dist(origin, position(d)) && x <= radiusKm)
      && (forall k :: AtDistance(r, k) == AtDistance(within, k))
  {
    var annotated := Annotate(origin, drivers, position, dist);
    var within := WithinRadius(annotated, radiusKm);
    var r := SortByDistance(within);
    AnnotateMembers(origin, drivers, position, dist);
    forall y ensures y in r <==> y in within {
      assert multiset(r)[y] == multiset(within)[y];
    }
    forall k ensures AtDistance(r, k) == AtDistance(within, k) {
      SortIsStable(within, k);
    }
  }

  /** The membership part of FindNearbyDriversSpec, position by position. */
  lemma NearbyDriversByIndex<D>(origin: Point, drivers: seq<D>, position: D -> Point,
                                radiusKm: real, dist: DistanceFn)
    ensures var r := FindNearbyDrivers(origin, drivers, position, radiusKm, dist);
      && (forall k :: 0 <= k < |r| ==>
            r[k].0 in drivers && r[k].1 == dist(origin, position(r[k].0)) && r[k].1 <= radiusKm)
      && (forall i :: 0 <= i < |drivers| && dist(origin, position(drivers[i])) <= radiusKm ==>
            (drivers[i], dist(origin, position(drivers[i]))) in r)
  {
    var r := FindNearbyDrivers(origin, drivers, position, radiusKm, dist);
    FindNearbyDriversSpec(origin, drivers, position, radiusKm, dist);
    forall k | 0 <= k < |r|
      ensures r[k].0 in drivers && r[k].1 == dist(origin, position(r[k].0)) && r[k].1 <= radiusKm
    {
      var (d, x) := r[k];
      assert (d, x) in r;
      assert d in drivers && x == dist(origin, position(d)) && x <= radiusKm;
    }
    forall i | 0 <= i < |drivers| && dist(origin, position(drivers[i])) <= radiusKm
      ensures (drivers[i], dist(origin, position(drivers[i]))) in r
    {
      assert drivers[i] in drivers;
    }
  }

  // ---------------------------------------------------------------------
  // Driver ETA to pickup
  // ---------------------------------------------------------------------

  datatype DriverEta = DriverEta(distanceKm: real, etaMinutes: int, etaFormatted: string)

  /** calculateDriverETA: distance from the driver to the pickup, and the
      ETA over it at the city speed of 30 km/h. */
  function CalculateDriverEta(driver: Point, pickup: Point, dist: DistanceFn): (r: DriverEta)
    ensures r.distanceKm == dist(driver, pickup)
    ensures EtaCovers(r.etaMinutes, r.distanceKm, CitySpeedKmh)
    ensures ParseEta(r.etaFormatted) == Some(r.etaMinutes)
  {
    var d := dist(driver, pickup);
    var e := CalculateEta(d, CitySpeedKmh);
    DriverEta(d, e.minutes, e.formattedTime)
  }
}
