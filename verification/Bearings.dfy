// Compass bearings in exact degrees, the distance between two of them, and the
// aspect of a contact.
module Bearings {

  datatype Bearing = TrueBearing(theta: real) | MagneticBearing(theta: real)

  datatype Aspect = Unknown | Hot | Flank | Beam | Drag

  // ---- normalisation ----

  // A number of whole turns, in degrees.
  function Turns(n: int): real {
    360.0 * n as real
  }

  // The angle in (0, 360] that a is a whole number of turns from.
  function Normalize(a: real): real {
    var r := a - 360.0 * (a / 360.0).Floor as real;
    if r == 0.0 then 360.0 else r
  }

  lemma NormalizeUnique(a: real, r: real)
    ensures r == Normalize(a) <==> 0.0 < r <= 360.0 && exists turns: int :: a == r + Turns(turns)
  {
    var k := (a / 360.0).Floor;
    assert 360.0 * k as real <= a < 360.0 * (k as real + 1.0);
    if r == Normalize(a) {
      assert a == r + Turns(if a == Turns(k) then k - 1 else k);
    }
    if turns: int :| a == r + Turns(turns) {
      if 0.0 < r <= 360.0 {
        assert -1.0 < (turns - k) as real < 1.0 || r == 360.0;
        assert r == 360.0 ==> a == Turns(turns + 1) && a / 360.0 == (turns + 1) as real;
      }
    }
  }

  // math.Mod for what is not negative
  function Mod(a: real, m: real): real
    requires a >= 0.0 && m > 0.0
  {
    a - m * (a / m).Floor as real
  }

  // normalize
  method NormalizeAngle(a: real) returns (r: real)
    ensures r == Normalize(a)
  {
    var theta := a;
    ghost var turns := 0;
    while theta < 0.0
      invariant theta == a + Turns(turns)
      decreases -theta
    {
      theta := theta + 360.0;
      turns := turns + 1;
    }
    ghost var k := (theta / 360.0).Floor;
    assert 360.0 * k as real <= theta < 360.0 * (k as real + 1.0);
    r := Mod(theta, 360.0);
    assert a == r + Turns(k - turns);
    if r == 0.0 {
      r := 360.0;
      assert a == r + Turns(k - turns - 1);
    }
    NormalizeUnique(a, r);
  }

  // Angles a whole number of turns apart normalise alike.
  lemma NormalizeTurns(a: real, turns: int)
    ensures Normalize(a + Turns(turns)) == Normalize(a)
  {
    NormalizeUnique(a, Normalize(a));
    var k: int :| a == Normalize(a) + Turns(k);
    assert a + Turns(turns) == Normalize(a) + Turns(k + turns);
    NormalizeUnique(a + Turns(turns), Normalize(a));
  }

  // A turn before normalising is a turn after it.
  lemma NormalizeShift(a: real, x: real)
    ensures Normalize(Normalize(a) + x) == Normalize(a + x)
  {
    NormalizeUnique(a, Normalize(a));
    var k: int :| a == Normalize(a) + Turns(k);
    NormalizeTurns(Normalize(a) + x, k);
  }

  // ---- bearings ----

  // NewTrueBearing, NewMagneticBearing
  function NewTrue(angle: real): Bearing {
    TrueBearing(Normalize(angle))
  }

  function NewMagnetic(angle: real): Bearing {
    MagneticBearing(Normalize(angle))
  }

  function Value(b: Bearing): (v: real) {
    Normalize(b.theta)
  }

  function ToTrue(b: Bearing, declination: real): Bearing {
    if b.TrueBearing? then b else NewTrue(Value(b) + declination)
  }

  function ToMagnetic(b: Bearing, declination: real): Bearing {
    if b.MagneticBearing? then b else NewMagnetic(Value(b) - declination)
  }

  function Reciprocal(b: Bearing): Bearing {
    if b.TrueBearing? then NewTrue(Value(b) + 180.0) else NewMagnetic(Value(b) + 180.0)
  }

  // What the two constructors make.
  predicate Constructed(b: Bearing) {
    0.0 < b.theta <= 360.0
  }

  lemma NormalizeFixed(a: real)
    requires 0.0 < a <= 360.0
    ensures Normalize(a) == a
  {
    assert a == a + Turns(0);
    NormalizeUnique(a, a);
  }

  // Converting with a declination is undone by converting back with the same.
  lemma ConversionInverse(b: Bearing, declination: real)
    requires Constructed(b)
    ensures b.MagneticBearing? ==> ToMagnetic(ToTrue(b, declination), declination) == b
    ensures b.TrueBearing? ==> ToTrue(ToMagnetic(b, declination), declination) == b
    ensures Constructed(ToTrue(b, declination)) && Constructed(ToMagnetic(b, declination))
  {
    hide Normalize;
    var v := b.theta;
    NormalizeFixed(v);
    NormalizeUnique(v + declination, Normalize(v + declination));
    NormalizeUnique(v - declination, Normalize(v - declination));
    NormalizeFixed(Normalize(v + declination));
    NormalizeFixed(Normalize(v - declination));
    NormalizeShift(v + declination, -declination);
    NormalizeShift(v - declination, declination);
  }

  // A true bearing is the magnetic one plus the declination, up to whole turns; a
  // bearing of the wanted kind stays.
  lemma ConversionTurns(b: Bearing, declination: real) returns (up: int, down: int)
    requires Constructed(b)
    ensures ToTrue(b, declination).TrueBearing? && ToMagnetic(b, declination).MagneticBearing?
    ensures b.TrueBearing? ==> ToTrue(b, declination) == b
    ensures b.MagneticBearing? ==> ToMagnetic(b, declination) == b
    ensures b.MagneticBearing? ==> ToTrue(b, declination).theta == b.theta + declination + 360.0 * up as real
    ensures b.TrueBearing? ==> ToMagnetic(b, declination).theta == b.theta - declination + 360.0 * down as real
  {
    hide Normalize;
    NormalizeFixed(b.theta);
    up := TurnsTo(b.theta + declination);
    down := TurnsTo(b.theta - declination);
  }

  lemma TurnsTo(a: real) returns (turns: int)
    ensures Normalize(a) == a + 360.0 * turns as real
  {
    NormalizeUnique(a, Normalize(a));
    var k: int :| a == Normalize(a) + Turns(k);
    turns := -k;
  }

  lemma ReciprocalTwice(b: Bearing)
    requires Constructed(b)
    ensures Reciprocal(Reciprocal(b)) == b && Constructed(Reciprocal(b))
  {
    hide Normalize;
    NormalizeFixed(b.theta);
    var r := Normalize(b.theta + 180.0);
    NormalizeUnique(b.theta + 180.0, r);
    NormalizeFixed(r);
    NormalizeShift(b.theta + 180.0, 180.0);
    NormalizeTurns(b.theta, 1);
  }

  // The reciprocal is of the same kind, half a turn away.
  lemma ReciprocalOpposite(b: Bearing)
    requires Constructed(b)
    ensures Reciprocal(b).TrueBearing? == b.TrueBearing?
    ensures Reciprocal(b).theta == b.theta + 180.0 || Reciprocal(b).theta == b.theta - 180.0
  {
    hide Normalize;
    NormalizeFixed(b.theta);
    var turns := TurnsTo(b.theta + 180.0);
    NormalizeUnique(b.theta + 180.0, Reciprocal(b).theta);
    assert turns == 0 || turns == -1;
  }

  // ---- distance ----

  function Abs(x: real): real {
    if x < 0.0 then -x else x
  }

  function AngularDistance(a: Bearing, b: Bearing): real {
    var diff := Abs(Value(a) - Value(b));
    if diff > 180.0 then 360.0 - diff else diff
  }

  // The distance is the least way round from one to the other.
  lemma DistanceLeast(a: Bearing, b: Bearing, turns: int)
    ensures AngularDistance(a, b) <= Abs(a.theta - b.theta + Turns(turns))
    ensures exists k: int :: AngularDistance(a, b) == Abs(a.theta - b.theta + Turns(k))
  {
    NormalizeUnique(a.theta, Value(a));
    NormalizeUnique(b.theta, Value(b));
    var i: int :| a.theta == Value(a) + Turns(i);
    var j: int :| b.theta == Value(b) + Turns(j);
    var d := Value(a) - Value(b);
    assert a.theta - b.theta + Turns(turns) == d + Turns(i - j + turns);
    assert a.theta - b.theta + Turns(j - i) == d;
    assert a.theta - b.theta + Turns(j - i - 1) == d - 360.0;
    assert a.theta - b.theta + Turns(j - i + 1) == d + 360.0;
    var n := i - j + turns;
    assert n == 0 || n as real >= 1.0 || n as real <= -1.0;
  }

  lemma DistanceMetric(a: Bearing, b: Bearing, c: Bearing)
    ensures 0.0 <= AngularDistance(a, b) <= 180.0
    ensures AngularDistance(a, b) == AngularDistance(b, a)
    ensures AngularDistance(a, b) == 0.0 <==> Value(a) == Value(b)
    ensures AngularDistance(a, c) <= AngularDistance(a, b) + AngularDistance(b, c)
  {
    hide Normalize;
    NormalizeUnique(a.theta, Value(a));
    NormalizeUnique(b.theta, Value(b));
    NormalizeUnique(c.theta, Value(c));
  }

  // Turning both bearings alike keeps their distance: so do reciprocals and
  // conversions with one declination.
  lemma DistanceTurned(a: Bearing, b: Bearing, x: real)
    ensures AngularDistance(NewMagnetic(Value(a) + x), NewMagnetic(Value(b) + x)) == AngularDistance(a, b)
    ensures AngularDistance(NewTrue(Value(a) + x), NewTrue(Value(b) + x)) == AngularDistance(a, b)
  {
    hide Normalize;
    var u, v := Value(a) + x, Value(b) + x;
    var p, q := Normalize(u), Normalize(v);
    NormalizeUnique(a.theta, Value(a));
    NormalizeUnique(b.theta, Value(b));
    NormalizeUnique(u, p);
    NormalizeUnique(v, q);
    NormalizeFixed(p);
    NormalizeFixed(q);
    var i: int :| u == p + Turns(i);
    var j: int :| v == q + Turns(j);
    assert p - q == Value(a) - Value(b) - Turns(i - j);
    assert i - j >= 2 ==> (i - j) as real >= 2.0;
    assert i - j <= -2 ==> (i - j) as real <= -2.0;
    assert i - j == 0 || i - j == 1 || i - j == -1;
  }

  // ---- aspect ----

  function AspectFromAngle(bearing: Bearing, track: Bearing): Aspect {
    var angle :=
      if Value(Reciprocal(bearing)) > Value(track) then Value(Reciprocal(bearing)) - Value(track)
      else Value(Reciprocal(track)) - Value(bearing);
    var theta := Value(NewMagnetic(angle));
    if 0.0 <= theta <= 35.0 then Hot
    else if 35.0 < theta <= 75.0 then Flank
    else if 75.0 < theta <= 115.0 then Beam
    else if 115.0 < theta <= 245.0 then Drag
    else if 245.0 < theta <= 285.0 then Beam
    else if 285.0 < theta <= 325.0 then Flank
    else if 325.0 < theta <= 360.0 then Hot
    else Unknown
  }

  // The aspect for a distance between the reciprocal bearing and the track, each
  // limit belonging to the hotter side.
  function AspectAt(distance: real): Aspect {
    if distance <= 35.0 then Hot
    else if distance <= 75.0 then Flank
    else if distance <= 115.0 then Beam
    else Drag
  }

  // The angle the aspect is read from is the difference of the reciprocal bearing
  // and the track, a whole turn when there is none.
  lemma AspectAngle(bearing: Bearing, track: Bearing)
    requires Constructed(bearing) && Constructed(track)
    ensures var diff := Abs(Value(Reciprocal(bearing)) - Value(track));
      var angle :=
        if Value(Reciprocal(bearing)) > Value(track) then Value(Reciprocal(bearing)) - Value(track)
        else Value(Reciprocal(track)) - Value(bearing);
      Value(NewMagnetic(angle)) == if diff == 0.0 then 360.0 else diff
  {
    hide Normalize;
    var r, t := Value(Reciprocal(bearing)), Value(track);
    ReciprocalTwice(bearing);
    ReciprocalTwice(track);
    NormalizeFixed(bearing.theta);
    NormalizeFixed(track.theta);
    NormalizeFixed(Reciprocal(bearing).theta);
    NormalizeFixed(Reciprocal(track).theta);
    var s, b := Value(Reciprocal(track)), Value(bearing);
    NormalizeUnique(b + 180.0, r);
    NormalizeUnique(t + 180.0, s);
    var i: int :| b + 180.0 == r + Turns(i);
    var j: int :| t + 180.0 == s + Turns(j);
    var diff := Abs(r - t);
    var angle := if r > t then r - t else s - b;
    var full := if diff == 0.0 then 360.0 else diff;
    NormalizeFixed(full);
    assert r <= t ==> s - b == t - r + Turns(1 - i - j);
    assert angle == full + Turns(if r > t then 0 else if r == t then -i - j else 1 - i - j);
    NormalizeUnique(angle, full);
  }

  // The track lies past the half turn from the reciprocal bearing.
  predicate Past(bearing: Bearing, track: Bearing) {
    Abs(Value(Reciprocal(bearing)) - Value(track)) > 180.0
  }

  predicate IsLimit(distance: real) {
    distance == 35.0 || distance == 75.0 || distance == 115.0
  }

  // The aspect is that of the distance, except at a limit past the half turn.
  lemma AspectOfDistance(bearing: Bearing, track: Bearing)
    requires Constructed(bearing) && Constructed(track)
    ensures var distance := AngularDistance(Reciprocal(bearing), track);
      AspectFromAngle(bearing, track) == AspectAt(distance) <==> !(IsLimit(distance) && Past(bearing, track))
    ensures AspectFromAngle(bearing, track) != Unknown
  {
    hide Normalize;
    AspectAngle(bearing, track);
    NormalizeUnique(Reciprocal(bearing).theta, Value(Reciprocal(bearing)));
    NormalizeUnique(track.theta, Value(track));
  }

  // Two pairs at one distance have one aspect, unless the distance is a limit and
  // they lie on different sides of the half turn.
  lemma AspectsAgree(b1: Bearing, t1: Bearing, b2: Bearing, t2: Bearing)
    requires Constructed(b1) && Constructed(t1) && Constructed(b2) && Constructed(t2)
    requires AngularDistance(Reciprocal(b1), t1) == AngularDistance(Reciprocal(b2), t2)
    ensures AspectFromAngle(b1, t1) == AspectFromAngle(b2, t2)
       <==> !(IsLimit(AngularDistance(Reciprocal(b1), t1)) && Past(b1, t1) != Past(b2, t2))
  {
    hide Normalize;
    AspectAngle(b1, t1);
    AspectAngle(b2, t2);
    NormalizeUnique(Reciprocal(b1).theta, Value(Reciprocal(b1)));
    NormalizeUnique(Reciprocal(b2).theta, Value(Reciprocal(b2)));
    NormalizeUnique(t1.theta, Value(t1));
    NormalizeUnique(t2.theta, Value(t2));
  }

  // At every limit, north seen from the south: tracks on the two sides of it are at
  // one distance and of two aspects.
  lemma LimitSides(limit: real)
    requires IsLimit(limit)
    ensures var bearing, left, right := MagneticBearing(180.0), MagneticBearing(360.0 - limit), MagneticBearing(limit);
      && AngularDistance(Reciprocal(bearing), left) == AngularDistance(Reciprocal(bearing), right) == limit
      && AspectFromAngle(bearing, left) != AspectFromAngle(bearing, right)
  {
    hide Normalize;
    var bearing, left, right := MagneticBearing(180.0), MagneticBearing(360.0 - limit), MagneticBearing(limit);
    NormalizeFixed(180.0);
    NormalizeFixed(360.0);
    NormalizeFixed(360.0 - limit);
    NormalizeFixed(limit);
    AspectsAgree(bearing, left, bearing, right);
  }
}
