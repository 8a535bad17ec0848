/** Conversion of the GPS block to signed decimal degrees
    (`convert_to_degrees` and `get_lat_lon`, extract_metadata.py lines 40-63).
    Real numbers stand in for Python's floats. */
module Gps {
  import opened Outcomes
  import opened Exif

  const LatitudeName := "GPSLatitude"
  const LatitudeRefName := "GPSLatitudeRef"
  const LongitudeName := "GPSLongitude"
  const LongitudeRefName := "GPSLongitudeRef"

  /** `gps_info.get(name)`. */
  function Field(g: map<Key, Scalar>, name: string): Option<Scalar>
  {
    if Name(name) in g then Some(g[Name(name)]) else None
  }

  /** The field is there and truthy. */
  predicate Present(f: Option<Scalar>)
  {
    f.Some? && TruthyScalar(f.value)
  }

  /** Degrees, minutes and seconds as decimal degrees. */
  function Degrees(d: real, m: real, s: real): real
  {
    d + m / 60.0 + s / 3600.0
  }

  /** `convert_to_degrees`: indexing a value that is not a tuple of at least
      three numbers raises. */
  function ConvertToDegrees(v: Scalar): (r: Result<real>)
    ensures r.Ok? <==> v.Numbers? && |v.parts| >= 3
    ensures r.Ok? && 0.0 <= v.parts[1] && 0.0 <= v.parts[2] ==> v.parts[0] <= r.value
  {
    if v.Numbers? && |v.parts| >= 3 then Ok(Degrees(v.parts[0], v.parts[1], v.parts[2])) else Raised
  }

  /** The magnitude, negated unless the reference is exactly `positive`. */
  function Signed(magnitude: real, ref: Scalar, positive: string): real
  {
    if ref == Text(positive) then magnitude else -magnitude
  }

  /** The GPS block carries all four coordinate fields, each truthy. */
  predicate HasFullGps(exif: map<Key, Value>)
  {
    && Name(GpsInfoName) in exif
    && exif[Name(GpsInfoName)].GpsTable?
    && var g := exif[Name(GpsInfoName)].fields;
    && Present(Field(g, LatitudeName)) && Present(Field(g, LatitudeRefName))
    && Present(Field(g, LongitudeName)) && Present(Field(g, LongitudeRefName))
  }

  /** `get_lat_lon`: the pair (lat, lon), either of which may be `None`.
      `.get` on a "GPSInfo" value that is not a dictionary raises. */
  function GetLatLon(exif: map<Key, Value>): (r: Result<(Option<real>, Option<real>)>)
    ensures r.Ok? ==> (r.value.0.Some? <==> r.value.1.Some?)
    ensures r.Ok? && r.value.0.Some? ==> HasFullGps(exif)
  {
    if Name(GpsInfoName) !in exif then Ok((None, None))
    else
      match exif[Name(GpsInfoName)]
      case Plain(_) => Raised
      case Table(_) => Ok((None, None))
      case GpsTable(g) =>
        var lat, latRef := Field(g, LatitudeName), Field(g, LatitudeRefName);
        var lon, lonRef := Field(g, LongitudeName), Field(g, LongitudeRefName);
        if Present(lat) && Present(latRef) && Present(lon) && Present(lonRef) then
          match ConvertToDegrees(lat.value)
          case Raised => Raised
          case Ok(latDegrees) =>
            match ConvertToDegrees(lon.value)
            case Raised => Raised
            case Ok(lonDegrees) =>
              Ok((Some(Signed(latDegrees, latRef.value, "N")), Some(Signed(lonDegrees, lonRef.value, "E"))))
        else Ok((None, None))
  }

  /** Without all four coordinate fields there is no position (only a
      "GPSInfo" value that is not a dictionary at all raises). */
  lemma MissingFieldNoPosition(exif: map<Key, Value>)
    requires !HasFullGps(exif)
    ensures GetLatLon(exif) == (if Name(GpsInfoName) in exif && exif[Name(GpsInfoName)].Plain? then Raised else Ok((None, None)))
  {
  }

  /** With all four fields present, each coordinate is the signed decimal
      value of its degrees, minutes and seconds: latitude is negated iff its
      reference is not "N", longitude iff its reference is not "E". */
  lemma CoordinatesFromFields(exif: map<Key, Value>)
    requires HasFullGps(exif)
    ensures var g := exif[Name(GpsInfoName)].fields;
      var lat, lon := Field(g, LatitudeName).value, Field(g, LongitudeName).value;
      GetLatLon(exif).Ok? <==> (lat.Numbers? && |lat.parts| >= 3 && lon.Numbers? && |lon.parts| >= 3)
    ensures var g := exif[Name(GpsInfoName)].fields;
      var lat, lon := Field(g, LatitudeName).value, Field(g, LongitudeName).value;
      GetLatLon(exif).Ok? ==>
        && GetLatLon(exif).value.0 == Some(Signed(Degrees(lat.parts[0], lat.parts[1], lat.parts[2]), Field(g, LatitudeRefName).value, "N"))
        && GetLatLon(exif).value.1 == Some(Signed(Degrees(lon.parts[0], lon.parts[1], lon.parts[2]), Field(g, LongitudeRefName).value, "E"))
  {
  }

  /** The sign rule: the magnitude is kept, and the result is negative iff
      the magnitude is positive and the reference is not the positive
      hemisphere. */
  lemma SignedMagnitude(magnitude: real, ref: Scalar, positive: string)
    requires magnitude >= 0.0
    ensures var r := Signed(magnitude, ref, positive);
      (if r < 0.0 then -r else r) == magnitude && (r < 0.0 <==> magnitude > 0.0 && ref != Text(positive))
  {
  }

  /** Going back from decimal degrees to degrees, minutes and seconds
      recovers the original triple when minutes are whole and both minutes
      and seconds are below 60. */
  lemma DegreesRoundTrip(d: nat, m: nat, s: real)
    requires m < 60 && 0.0 <= s < 60.0
    ensures var x := Degrees(d as real, m as real, s);
      && x.Floor == d
      && ((x - d as real) * 60.0).Floor == m
      && ((x - d as real) * 60.0 - m as real) * 60.0 == s
  {
    var x := Degrees(d as real, m as real, s);
    var frac := m as real / 60.0 + s / 3600.0;
    assert 0.0 <= frac < 1.0;
    assert x == d as real + frac;
    var minutes := (x - d as real) * 60.0;
    assert minutes == m as real + s / 60.0;
    assert 0.0 <= s / 60.0 < 1.0;
  }
}
