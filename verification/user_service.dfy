/** internal/user_service/user_service.go: its own copy of
    validateCoordinates, and the search box of getUsersInLocation. */
module UserService {
  import opened Lexical
  import opened GoText
  import opened CoordinatePattern
  import Cli
  import opened Models

  // ---------------------------------------------------------------------------
  // validateCoordinates

  /** The service's copy of the validator, written out step by step; it
      behaves exactly as the command-line client's. */
  function ValidateCoordinates(coordStr: string): (r: Validated)
    ensures r == Cli.ValidateCoordinates(coordStr)
  {
    if !Recognize(coordStr) then Failure(InvalidFormat)
    else
      var parts := Split(coordStr, ',');
      match ParseFloat(parts[0])
      case None => Failure(InvalidLatitude)
      case Some(latitude) =>
        match ParseFloat(parts[1])
        case None => Failure(InvalidLongitude)
        case Some(longitude) =>
          if latitude < -90.0 || latitude > 90.0 then Failure(LatitudeOutOfRange)
          else if longitude < -180.0 || longitude > 180.0 then Failure(LongitudeOutOfRange)
          else Validated(latitude, longitude, None)
  }

  // ---------------------------------------------------------------------------
  // The search box of getUsersInLocation

  function Abs(x: real): real {
    if x < 0.0 then -x else x
  }

  /** `latitude BETWEEN lat-radius AND lat+radius AND longitude BETWEEN
      lon-radius AND lon+radius`; SQL's BETWEEN includes both ends. */
  predicate InBox(lat: real, lon: real, radius: real, pointLat: real, pointLon: real) {
    && lat - radius <= pointLat <= lat + radius
    && lon - radius <= pointLon <= lon + radius
  }

  /** A point is in the box exactly when each of its coordinates is within
      `radius` of the centre's. */
  lemma InBoxIff(lat: real, lon: real, radius: real, pointLat: real, pointLon: real)
    ensures InBox(lat, lon, radius, pointLat, pointLon)
            <==> Abs(pointLat - lat) <= radius && Abs(pointLon - lon) <= radius
  {
  }

  /** The centre is in its own box exactly when the radius is not negative. */
  lemma CentreInBox(lat: real, lon: real, radius: real)
    ensures InBox(lat, lon, radius, lat, lon) <==> radius >= 0.0
  {
  }

  /** A negative radius gives an empty box. */
  lemma NegativeRadiusEmpty(lat: real, lon: real, radius: real, pointLat: real, pointLon: real)
    requires radius < 0.0
    ensures !InBox(lat, lon, radius, pointLat, pointLon)
  {
  }

  /** The rows the query returns: those whose coordinates are in the box.
      The query has no ORDER BY, so only which rows come back is specified. */
  function RowsInBox(rows: seq<Location>, lat: real, lon: real, radius: real): (r: seq<Location>)
    ensures forall x :: x in r <==> x in rows && InBox(lat, lon, radius, x.latitude, x.longitude)
  {
    if rows == [] then []
    else
      var rest := RowsInBox(rows[1..], lat, lon, radius);
      assert forall x :: x in rows <==> x == rows[0] || x in rows[1..];
      if InBox(lat, lon, radius, rows[0].latitude, rows[0].longitude) then [rows[0]] + rest else rest
  }
}
