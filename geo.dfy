/** The discrete part of the geometry behind the guess feedback: degree/radian
    conversion, the antimeridian wrap of the longitude difference, the degree
    normalisation, and the mapping of a bearing to one of eight compass arrows.

    The transcendental functions (atan2, the Mercator log-tan term and the haversine
    distance) are not computed here: they are supplied as a `Trig` record, and only
    the range of atan2 is assumed. */
module Geo {
  import opened Countries

  /** `Math.PI`, approximated by the real 3.141592653589793, the shortest decimal
      that reads back as that double. */
  const PI: real := 3.141592653589793

  /** Reference distance (km) for the closeness percentage of the guess display. */
  const MAX_DISTANCE: real := 20000.0

  /** The transcendental functions the geometry relies on. */
  datatype Trig = Trig(
    atan2: (real, real) -> real,           // Math.atan2(y, x), in radians
    lnTanRatio: (real, real) -> real,      // ln(tan(lat2/2 + PI/4) / tan(lat1/2 + PI/4)), arguments in radians
    distance: (Country, Country) -> real)  // the haversine great-circle distance in km
  {
    /** The range guarantee of `Math.atan2`. */
    ghost predicate Valid() {
      forall y: real, x: real :: -PI <= atan2(y, x) <= PI
    }
  }

  /** Degrees to radians: a half turn either way stays within half a turn. */
  function Rad(d: real): (r: real)
    ensures -180.0 <= d <= 180.0 ==> -PI <= r <= PI
  {
    d * PI / 180.0
  }

  /** Radians to degrees: converting back with `Rad` gives the input again. */
  function Deg(r: real): (d: real)
    ensures Rad(d) == r
    ensures -PI <= r <= PI ==> -180.0 <= d <= 180.0
  {
    r * 180.0 / PI
  }

  /** Converting degrees to radians and back gives the degrees again. */
  lemma DegOfRad(d: real)
    ensures Deg(Rad(d)) == d
  {
  }

  function Abs(x: real): real {
    if x < 0.0 then -x else x
  }

  /** The antimeridian wrap of a longitude difference (in radians): a difference of
      more than half a turn is replaced by the equivalent one the other way round. */
  function WrapLongitude(delta: real): (r: real)
    ensures r == delta || r == delta - 2.0 * PI || r == delta + 2.0 * PI
    ensures -PI <= delta <= PI ==> r == delta
    ensures -2.0 * PI <= delta <= 2.0 * PI ==> -PI <= r <= PI
  {
    if Abs(delta) > PI then
      if delta > 0.0 then (PI * 2.0 - delta) * -1.0 else PI * 2.0 + delta
    else
      delta
  }

  /** JavaScript's `a % 360`: the remainder of a division truncated toward zero,
      so it has the sign of `a`. */
  function Mod360(a: real): (r: real)
    ensures 0.0 <= a ==> 0.0 <= r < 360.0
    ensures a < 0.0 ==> -360.0 < r <= 0.0
    ensures 0.0 <= a < 360.0 ==> r == a
    ensures 360.0 <= a < 720.0 ==> r == a - 360.0
    ensures ((a - r) / 360.0).Floor as real == (a - r) / 360.0
  {
    var t := TruncatedQuotient360(a);
    TruncatedQuotient360Bounds(a);
    var r := a - 360.0 * t as real;
    assert (a - r) / 360.0 == t as real;
    r
  }

  /** `a / 360` truncated toward zero. */
  function TruncatedQuotient360(a: real): int {
    var q := a / 360.0;
    if q >= 0.0 then q.Floor else -((-q).Floor)
  }

  lemma TruncatedQuotient360Bounds(a: real)
    ensures var t := TruncatedQuotient360(a) as real;
      && (0.0 <= a ==> 0.0 <= t && 360.0 * t <= a < 360.0 * t + 360.0)
      && (a < 0.0 ==> t <= 0.0 && 360.0 * t - 360.0 < a <= 360.0 * t)
      && (0.0 <= a < 360.0 ==> t == 0.0)
      && (360.0 <= a < 720.0 ==> t == 1.0)
  {
  }

  /** `(x + 360) % 360`: a bearing of at least -360 degrees brought into [0, 360). */
  function NormalizeDegrees(x: real): (r: real)
    ensures -360.0 <= x ==> 0.0 <= r < 360.0
    ensures -360.0 <= x < 0.0 ==> r == x + 360.0
    ensures 0.0 <= x < 360.0 ==> r == x
  {
    Mod360(x + 360.0)
  }

  /** The bearing, in degrees clockwise from north, from `c1` toward `c2` on the
      Mercator projection. */
  function AngleOf(trig: Trig, c1: Country, c2: Country): (a: real)
    requires trig.Valid()
    ensures 0.0 <= a < 360.0
  {
    var deltaLongitude := WrapLongitude(Rad(c2.longitude - c1.longitude));
    var deltaLatitude := trig.lnTanRatio(Rad(c1.latitude), Rad(c2.latitude));
    NormalizeDegrees(Deg(trig.atan2(deltaLongitude, deltaLatitude)))
  }

  /** The bearing computed as written: the longitude difference is held in a
      variable that the wrap reassigns. */
  method Angle(trig: Trig, c1: Country, c2: Country) returns (a: real)
    requires trig.Valid()
    ensures a == AngleOf(trig, c1, c2)
    ensures 0.0 <= a < 360.0
  {
    var deltaLongitude := Rad(c2.longitude - c1.longitude);
    var deltaLatitude := trig.lnTanRatio(Rad(c1.latitude), Rad(c2.latitude));
    if Abs(deltaLongitude) > PI {
      if deltaLongitude > 0.0 {
        deltaLongitude := (PI * 2.0 - deltaLongitude) * -1.0;
      } else {
        deltaLongitude := PI * 2.0 + deltaLongitude;
      }
    }
    a := NormalizeDegrees(Deg(trig.atan2(deltaLongitude, deltaLatitude)));
  }

  /** `Math.round`: the nearest integer, halves rounded up. */
  function Round(x: real): (n: int)
    ensures n as real - 0.5 <= x < n as real + 0.5
  {
    (x + 0.5).Floor
  }

  datatype Compass = North | NorthEast | East | SouthEast | South | SouthWest | West | NorthWest

  /** The feedback arrow of a guess: the celebration sentinel, or a compass heading. */
  datatype Arrow = Celebration | Heading(dir: Compass)

  /** The nine-entry arrow table; the last entry repeats north for bearings that
      round up to a full turn. */
  const ArrowTable: seq<Compass> :=
    [North, NorthEast, East, SouthEast, South, SouthWest, West, NorthWest, North]

  /** The position of a direction among the first eight, clockwise from north. */
  function Index(d: Compass): (i: nat)
    ensures i < 8 && ArrowTable[i] == d
  {
    match d
    case North => 0
    case NorthEast => 1
    case East => 2
    case SouthEast => 3
    case South => 4
    case SouthWest => 5
    case West => 6
    case NorthWest => 7
  }

  /** The bearing of a compass direction, in degrees clockwise from north. */
  function Bearing(d: Compass): real {
    45.0 * Index(d) as real
  }

  /** `angle` lies in the 45-degree sector centred on the bearing of `d`
      (north's sector wraps past 360). */
  ghost predicate InSector(angle: real, d: Compass) {
    || Bearing(d) - 22.5 <= angle < Bearing(d) + 22.5
    || (d == North && 337.5 <= angle)
  }

  /** The table lookup `ArrowTable[Math.round(angle / 45)]`: defined on every
      normalised bearing, and it picks the sector the bearing lies in. */
  function CompassOf(angle: real): (d: Compass)
    requires 0.0 <= angle < 360.0
    ensures InSector(angle, d)
  {
    var i := Round(angle / 45.0);
    assert 0 <= i <= 8;
    TableSectors(i);
    ArrowTable[i]
  }

  lemma TableSectors(i: int)
    requires 0 <= i <= 8
    ensures i < 8 ==> Index(ArrowTable[i]) == i
    ensures i == 8 ==> ArrowTable[i] == North
  {
  }

  /** The sectors do not overlap: a bearing in the sector of `d` is mapped to `d`. */
  lemma SectorUnique(angle: real, d: Compass)
    requires 0.0 <= angle < 360.0
    requires InSector(angle, d)
    ensures CompassOf(angle) == d
  {
    var e := CompassOf(angle);
    var i, k := Index(d), Index(e);
    if d == North && 337.5 <= angle {
      assert k == 0;
    } else {
      assert i == k;
    }
  }

  /** Bearings of 337.5 degrees or more round to table index 8, whose entry is north. */
  lemma NearFullTurnIsNorth(angle: real)
    requires 337.5 <= angle < 360.0
    ensures Round(angle / 45.0) == 8
    ensures CompassOf(angle) == North
  {
  }

  /** The nine-entry table agrees with reading an eight-entry table at the rounded
      index modulo 8. */
  lemma TableIsModEight(angle: real)
    requires 0.0 <= angle < 360.0
    ensures CompassOf(angle) == ArrowTable[Round(angle / 45.0) % 8]
  {
  }

  /** `arrowToAnswer`: the celebration sentinel exactly when the two codes are
      equal, otherwise the heading whose sector holds the bearing to the answer. */
  function ArrowToAnswer(trig: Trig, c1: Country, c2: Country): (r: Arrow)
    requires trig.Valid()
    ensures r == Celebration <==> c1.code == c2.code
    ensures r.Heading? ==> InSector(AngleOf(trig, c1, c2), r.dir)
  {
    if c1.code == c2.code then Celebration
    else Heading(CompassOf(AngleOf(trig, c1, c2)))
  }
}
