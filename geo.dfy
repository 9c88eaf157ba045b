/** The `geo:` URI parser: a location as latitude, longitude and an optional altitude,
    comma-separated after a `geo:` or `GEO:` scheme, with an optional `?` query that is
    ignored. Number parsing (`Double.parseDouble`) is a parameter that yields `None` where
    Java throws `NumberFormatException`. */
module GeoResult {
  import opened Base

  /** The parsed location with the URI it came from. */
  datatype GeoParsedResult = GeoParsedResult(geoURI: string, latitude: real, longitude: real, altitude: real)

  /** `Double.parseDouble`, which is not part of this model. */
  type NumberParser = string -> Option<real>

  predicate HasGeoScheme(rawText: string)
  {
    StartsWith(rawText, "geo:") || StartsWith(rawText, "GEO:")
  }

  /** The text between the scheme and the first `?` at or after index 4 (or the end). */
  function WithoutQuery(rawText: string): (body: string)
    requires |rawText| >= 4
    ensures '?' !in body
  {
    var queryStart := IndexOfFrom(rawText, '?', 4);
    if queryStart < 0 then rawText[4..] else rawText[4..queryStart]
  }

  /** `GeoResultParser.parse` on the text of a result: `None` stands for Java's `null`. */
  function Parse(rawText: Option<string>, parseDouble: NumberParser): (r: Option<GeoParsedResult>)
    ensures r.Some? ==> rawText.Some? && HasGeoScheme(rawText.value)
    ensures r.Some? ==>
      r.value.geoURI == if StartsWith(rawText.value, "GEO:") then "geo:" + rawText.value[4..] else rawText.value
  {
    if rawText.None? || !HasGeoScheme(rawText.value) then None
    else
      var raw := rawText.value;
      var body := WithoutQuery(raw);
      var latitudeEnd := IndexOfFrom(body, ',', 0);
      if latitudeEnd < 0 then None
      else
        var longitudeEnd := IndexOfFrom(body, ',', latitudeEnd + 1);
        var latitude := parseDouble(body[..latitudeEnd]);
        var longitude := parseDouble(if longitudeEnd < 0 then body[latitudeEnd + 1..] else body[latitudeEnd + 1..longitudeEnd]);
        var altitude := if longitudeEnd < 0 then Some(0.0) else parseDouble(body[longitudeEnd + 1..]);
        if latitude.None? || longitude.None? || altitude.None? then None
        else
          var uri := if StartsWith(raw, "GEO:") then "geo:" + raw[4..] else raw;
          Some(GeoParsedResult(uri, latitude.value, longitude.value, altitude.value))
  }

  /** The text of a geo URI built from its parts: the scheme, the latitude and longitude
      texts, an optional altitude text and an optional query. */
  function GeoText(scheme: string, latitude: string, longitude: string, altitude: Option<string>, query: Option<string>): string
  {
    scheme + GeoBody(latitude, longitude, altitude) + QuerySuffix(query)
  }

  /** The comma-separated numbers of a geo URI. */
  function GeoBody(latitude: string, longitude: string, altitude: Option<string>): string
  {
    latitude + "," + longitude + (if altitude.Some? then "," + altitude.value else "")
  }

  function QuerySuffix(query: Option<string>): string
  {
    if query.Some? then "?" + query.value else ""
  }

  /** The query, if any, is cut off at its `?`, leaving the text between scheme and query. */
  lemma WithoutQueryOf(scheme: string, body: string, query: Option<string>)
    requires |scheme| == 4 && '?' !in body
    ensures WithoutQuery(scheme + body + QuerySuffix(query)) == body
  {
    var text := scheme + body + QuerySuffix(query);
    assert text[4..4 + |body|] == body;
    if query.Some? {
      assert text[4 + |body|] == '?';
      assert forall k :: 4 <= k < 4 + |body| ==> text[k] == body[k - 4];
    } else {
      assert text[4..] == body;
    }
  }

  /** `indexOf` over a concatenation whose first part, from `from` on, lacks the character. */
  lemma {:induction false} IndexOfPast(a: string, b: string, c: char, from: nat)
    requires from <= |a|
    requires forall k :: from <= k < |a| ==> a[k] != c
    ensures IndexOfFrom(a + b, c, from) == if IndexOfFrom(b, c, 0) < 0 then -1 else |a| + IndexOfFrom(b, c, 0)
    decreases |a| - from
  {
    if from < |a| {
      assert (a + b)[from] == a[from];
      IndexOfPast(a, b, c, from + 1);
    } else {
      IndexOfShift(a, b, c, 0);
    }
  }

  /** `indexOf` in the second part of a concatenation, searched from its start. */
  lemma {:induction false} IndexOfShift(a: string, b: string, c: char, from: nat)
    requires from <= |b|
    ensures IndexOfFrom(a + b, c, |a| + from) == if IndexOfFrom(b, c, from) < 0 then -1 else |a| + IndexOfFrom(b, c, from)
    decreases |b| - from
  {
    if from < |b| {
      assert (a + b)[|a| + from] == b[from];
      IndexOfShift(a, b, c, from + 1);
    }
  }

  lemma Assoc(a: string, b: string, c: string)
    ensures a + b + c == a + (b + c)
  {
  }

  /** The first comma in the text between scheme and query ends the latitude. */
  lemma LatitudeComma(latitude: string, rest: string)
    requires ',' !in latitude
    ensures var body := latitude + "," + rest;
      IndexOfFrom(body, ',', 0) == |latitude| && body[..|latitude|] == latitude
  {
    Assoc(latitude, ",", rest);
    IndexOfPast(latitude, "," + rest, ',', 0);
    assert IndexOfFrom("," + rest, ',', 0) == 0;
    assert (latitude + "," + rest)[..|latitude|] == latitude;
  }

  /** With an altitude, the next comma after the latitude's ends the longitude. */
  lemma LongitudeThenAltitude(head: string, longitude: string, altitude: string)
    requires ',' !in longitude
    ensures IndexOfFrom(head + longitude + "," + altitude, ',', |head|) == |head| + |longitude|
    ensures (head + longitude + "," + altitude)[|head|..|head| + |longitude|] == longitude
    ensures (head + longitude + "," + altitude)[|head| + |longitude| + 1..] == altitude
  {
    var tail := "," + altitude;
    assert head + longitude + "," + altitude == head + longitude + tail;
    Assoc(head, longitude, tail);
    IndexOfShift(head, longitude + tail, ',', 0);
    IndexOfPast(longitude, tail, ',', 0);
    assert IndexOfFrom(tail, ',', 0) == 0;
  }

  /** Without an altitude, no comma follows the latitude's and the longitude runs to the end. */
  lemma LongitudeLast(head: string, longitude: string)
    requires ',' !in longitude
    ensures IndexOfFrom(head + longitude, ',', |head|) == -1
    ensures (head + longitude)[|head|..] == longitude
  {
    IndexOfShift(head, longitude, ',', 0);
  }

  /** Where the commas of `latitude,longitude,altitude` are and what lies between them. */
  lemma CommasWithAltitude(latitude: string, longitude: string, altitude: string)
    requires ',' !in latitude && ',' !in longitude
    ensures var body := latitude + "," + longitude + "," + altitude;
      && IndexOfFrom(body, ',', 0) == |latitude|
      && body[..|latitude|] == latitude
      && IndexOfFrom(body, ',', |latitude| + 1) == |latitude| + 1 + |longitude|
      && body[|latitude| + 1..|latitude| + 1 + |longitude|] == longitude
      && body[|latitude| + 1 + |longitude| + 1..] == altitude
  {
    Assoc(latitude + "," + longitude, ",", altitude);
    Assoc(latitude, ",", longitude);
    Assoc(latitude, "," + longitude, "," + altitude);
    LatitudeComma(latitude, longitude + "," + altitude);
    LongitudeThenAltitude(latitude + ",", longitude, altitude);
  }

  /** Where the comma of `latitude,longitude` is and what lies on either side. */
  lemma CommasWithoutAltitude(latitude: string, longitude: string)
    requires ',' !in latitude && ',' !in longitude
    ensures var body := latitude + "," + longitude;
      && IndexOfFrom(body, ',', 0) == |latitude|
      && body[..|latitude|] == latitude
      && IndexOfFrom(body, ',', |latitude| + 1) == -1
      && body[|latitude| + 1..] == longitude
  {
    LatitudeComma(latitude, longitude);
    LongitudeLast(latitude + ",", longitude);
  }

  /** The text of a geo URI around the part between its scheme and its query. */
  lemma GeoTextShape(scheme: string, body: string, query: Option<string>)
    requires scheme == "geo:" || scheme == "GEO:"
    requires '?' !in body
    ensures var text := scheme + body + QuerySuffix(query);
      && HasGeoScheme(text) && WithoutQuery(text) == body
      && (if StartsWith(text, "GEO:") then "geo:" + text[4..] else text) == "geo:" + text[4..]
  {
    var text := scheme + body + QuerySuffix(query);
    assert text[..4] == scheme;
    WithoutQueryOf(scheme, body, query);
    assert text == text[..4] + text[4..];
  }

  /** Parsing text whose part between scheme and query splits at known commas. */
  lemma ParseSplit(text: string, body: string, n: nat, m: int, parseDouble: NumberParser)
    requires HasGeoScheme(text) && WithoutQuery(text) == body
    requires n < |body| && IndexOfFrom(body, ',', 0) == n
    requires IndexOfFrom(body, ',', n + 1) == m
    requires var latitude := parseDouble(body[..n]);
      var longitude := parseDouble(if m < 0 then body[n + 1..] else body[n + 1..m]);
      var altitude := if m < 0 then Some(0.0) else parseDouble(body[m + 1..]);
      latitude.Some? && longitude.Some? && altitude.Some?
    ensures Parse(Some(text), parseDouble) == Some(GeoParsedResult(
      if StartsWith(text, "GEO:") then "geo:" + text[4..] else text,
      parseDouble(body[..n]).value,
      parseDouble(if m < 0 then body[n + 1..] else body[n + 1..m]).value,
      if m < 0 then 0.0 else parseDouble(body[m + 1..]).value))
  {
  }

  /** A geo URI built from parseable parts parses back to their numbers, with altitude 0 when
      there is none, whatever the query holds; the URI kept is the text with its scheme in
      lower case. */
  lemma ParseGeoText(scheme: string, latitude: string, longitude: string, altitude: Option<string>,
                     query: Option<string>, parseDouble: NumberParser)
    requires scheme == "geo:" || scheme == "GEO:"
    requires ',' !in latitude && '?' !in latitude && ',' !in longitude && '?' !in longitude
    requires altitude.Some? ==> '?' !in altitude.value
    requires parseDouble(latitude).Some? && parseDouble(longitude).Some?
    requires altitude.Some? ==> parseDouble(altitude.value).Some?
    ensures var text := GeoText(scheme, latitude, longitude, altitude, query);
      Parse(Some(text), parseDouble) == Some(GeoParsedResult(
        "geo:" + text[4..],
        parseDouble(latitude).value,
        parseDouble(longitude).value,
        if altitude.Some? then parseDouble(altitude.value).value else 0.0))
  {
    var text := GeoText(scheme, latitude, longitude, altitude, query);
    var body := GeoBody(latitude, longitude, altitude);
    GeoTextShape(scheme, body, query);
    var n := |latitude|;
    if altitude.Some? {
      Assoc(latitude + "," + longitude, ",", altitude.value);
      CommasWithAltitude(latitude, longitude, altitude.value);
      ParseSplit(text, body, n, n + 1 + |longitude|, parseDouble);
    } else {
      assert body == latitude + "," + longitude;
      CommasWithoutAltitude(latitude, longitude);
      ParseSplit(text, body, n, -1, parseDouble);
    }
  }

  /** Text without a comma before its query yields `null`, and so does text whose latitude, the
      field before the first comma, does not parse. */
  lemma ParseRejects(rawText: string, parseDouble: NumberParser)
    requires HasGeoScheme(rawText)
    ensures ',' !in WithoutQuery(rawText) ==> Parse(Some(rawText), parseDouble).None?
    ensures var body := WithoutQuery(rawText);
      var latitudeEnd := IndexOfFrom(body, ',', 0);
      latitudeEnd >= 0 && parseDouble(body[..latitudeEnd]).None? ==> Parse(Some(rawText), parseDouble).None?
  {
  }
}
