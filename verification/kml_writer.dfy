/** `write_kml` (kml_writer.py): read the geodetic origin from a manifest,
    clamp the altitude when the model sits on the ground, and place the model
    with zero heading, tilt and roll; plus `_escape`, the XML escaping the
    rendered document relies on. */
module KmlWriter {
  import opened Wrappers
  import opened Json
  import opened Matrix
  import opened Geo
  import Text
  import Origin
  import Manifest

  /** The errors `write_kml` raises before anything is written: a
      `ValueError` for a missing origin, and the `ValueError` or `TypeError`
      of `float()` for an entry it rejects. */
  datatype KmlError =
    | MissingOrigin   // the manifest's `origin` is not a dictionary
    | MissingEcef     // no 3-element `lla` list and no 3-element `ecef` list
    | NotANumber      // an `lla` or `ecef` entry that `float()` rejects

  /** `KmlResult`, without the output path. */
  datatype KmlResult = KmlResult(latitude: real, longitude: real, altitude: real)

  /** The values `_render_kml` writes into the placemark, before formatting:
      the two strings already escaped. */
  datatype Placemark = Placemark(
    altitudeMode: string,
    longitude: real,
    latitude: real,
    altitude: real,
    heading: real,
    tilt: real,
    roll: real,
    href: string)

  datatype Kml = Kml(result: KmlResult, placemark: Placemark)

  // ---------------------------------------------------------------- escaping

  /** `s.replace(c, rep)` for a one-character pattern: every occurrence of
      `c`, left to right, becomes `rep`. */
  function ReplaceChar(s: string, c: char, rep: string): string
    decreases |s|
  {
    if |s| == 0 then "" else (if s[0] == c then rep else [s[0]]) + ReplaceChar(s[1..], c, rep)
  }

  /** `_escape`: the five replacements, ampersand first. */
  function Escape(s: string): string {
    var amp := ReplaceChar(s, '&', "&amp;");
    var lt := ReplaceChar(amp, '<', "&lt;");
    var gt := ReplaceChar(lt, '>', "&gt;");
    var quot := ReplaceChar(gt, '"', "&quot;");
    ReplaceChar(quot, '\'', "&apos;")
  }

  /** The five characters XML text must not carry raw. */
  predicate IsMarkup(c: char) {
    c == '&' || c == '<' || c == '>' || c == '"' || c == '\''
  }

  /** What each character escapes to, one at a time: the reference definition
      `Escape` is measured against. */
  function EscapeChar(c: char): (r: string)
    ensures |r| >= 1
  {
    match c
    case '&' => "&amp;"
    case '<' => "&lt;"
    case '>' => "&gt;"
    case '"' => "&quot;"
    case '\'' => "&apos;"
    case _ => [c]
  }

  function EscapeRef(s: string): string
    decreases |s|
  {
    if |s| == 0 then "" else EscapeChar(s[0]) + EscapeRef(s[1..])
  }

  /** The text begins with one of the five entities. */
  predicate StartsEntity(t: string) {
    Text.StartsWith(t, "&amp;") || Text.StartsWith(t, "&lt;") || Text.StartsWith(t, "&gt;")
      || Text.StartsWith(t, "&quot;") || Text.StartsWith(t, "&apos;")
  }

  /** No raw `<`, `>`, `"` or `'` anywhere in the text. */
  predicate NoRawMarkup(r: string) {
    forall i :: 0 <= i < |r| ==> r[i] != '<' && r[i] != '>' && r[i] != '"' && r[i] != '\''
  }

  /** Every `&` in the text starts one of the five entities. */
  predicate AmpersandsStartEntities(r: string) {
    forall i :: 0 <= i < |r| && r[i] == '&' ==> StartsEntity(r[i..])
  }

  /** The inverse of escaping: the five entities decode to their characters,
      left to right, and every other character stands for itself. */
  function Unescape(t: string): string
    decreases |t|
  {
    if |t| == 0 then ""
    else if t[0] != '&' then [t[0]] + Unescape(t[1..])
    else if Text.StartsWith(t, "&amp;") then "&" + Unescape(t[5..])
    else if Text.StartsWith(t, "&lt;") then "<" + Unescape(t[4..])
    else if Text.StartsWith(t, "&gt;") then ">" + Unescape(t[4..])
    else if Text.StartsWith(t, "&quot;") then "\"" + Unescape(t[6..])
    else if Text.StartsWith(t, "&apos;") then "'" + Unescape(t[6..])
    else [t[0]] + Unescape(t[1..])
  }

  lemma {:induction false} ReplaceAppend(a: string, b: string, c: char, rep: string)
    ensures ReplaceChar(a + b, c, rep) == ReplaceChar(a, c, rep) + ReplaceChar(b, c, rep)
    decreases |a|
  {
    if |a| == 0 {
      assert a + b == b;
    } else {
      assert (a + b)[1..] == a[1..] + b;
      ReplaceAppend(a[1..], b, c, rep);
    }
  }

  lemma {:induction false} ReplaceAbsent(s: string, c: char, rep: string)
    requires c !in s
    ensures ReplaceChar(s, c, rep) == s
    decreases |s|
  {
    if |s| > 0 {
      ReplaceAbsent(s[1..], c, rep);
    }
  }

  /** Escaping is done piecewise: `escape(s + t) == escape(s) + escape(t)`. */
  lemma {:induction false} EscapeAppend(s: string, t: string)
    ensures Escape(s + t) == Escape(s) + Escape(t)
  {
    ReplaceAppend(s, t, '&', "&amp;");
    var a1, a2 := ReplaceChar(s, '&', "&amp;"), ReplaceChar(t, '&', "&amp;");
    ReplaceAppend(a1, a2, '<', "&lt;");
    var b1, b2 := ReplaceChar(a1, '<', "&lt;"), ReplaceChar(a2, '<', "&lt;");
    ReplaceAppend(b1, b2, '>', "&gt;");
    var c1, c2 := ReplaceChar(b1, '>', "&gt;"), ReplaceChar(b2, '>', "&gt;");
    ReplaceAppend(c1, c2, '"', "&quot;");
    var d1, d2 := ReplaceChar(c1, '"', "&quot;"), ReplaceChar(c2, '"', "&quot;");
    ReplaceAppend(d1, d2, '\'', "&apos;");
  }

  /** One replacement applied to a single character, or to text the
      character does not occur in. */
  lemma ReplaceStage(x: string, c: char, rep: string)
    requires |x| == 1 || c !in x
    ensures ReplaceChar(x, c, rep) == if x == [c] then rep else x
  {
    if |x| == 1 {
      assert x[1..] == [];
      if x != [c] { assert x == [x[0]]; }
    } else {
      ReplaceAbsent(x, c, rep);
    }
  }

  /** A single character escapes to its entity: no later replacement touches
      an entity an earlier one produced, because `&` goes first. */
  lemma EscapeSingle(c: char)
    ensures Escape([c]) == EscapeChar(c)
  {
    if IsMarkup(c) {
      EscapeMarkup(c);
    } else {
      ReplaceStage([c], '&', "&amp;");
      ReplaceStage([c], '<', "&lt;");
      ReplaceStage([c], '>', "&gt;");
      ReplaceStage([c], '"', "&quot;");
      ReplaceStage([c], '\'', "&apos;");
    }
  }

  lemma EscapeMarkup(c: char)
    requires IsMarkup(c)
    ensures Escape([c]) == EscapeChar(c)
  {
    if c == '&' {
      EscapeAmp(c);
    } else if c == '<' {
      EscapeLt(c);
    } else if c == '>' {
      EscapeGt(c);
    } else if c == '"' {
      EscapeQuot(c);
    } else {
      EscapeApos(c);
    }
  }

  lemma EscapeAmp(c: char)
    requires c == '&'
    ensures Escape([c]) == EscapeChar(c)
  {
    var x: string := [c];
    var e := EscapeChar(c);
    assert forall i :: 0 <= i < |e| ==> e[i] != '<' && e[i] != '>' && e[i] != '"' && e[i] != '\'';
    ReplaceStage(x, '&', "&amp;");
    ReplaceAbsent(e, '<', "&lt;");
    ReplaceAbsent(e, '>', "&gt;");
    ReplaceAbsent(e, '"', "&quot;");
    ReplaceAbsent(e, '\'', "&apos;");
  }

  lemma EscapeLt(c: char)
    requires c == '<'
    ensures Escape([c]) == EscapeChar(c)
  {
    var x: string := [c];
    var e := EscapeChar(c);
    assert forall i :: 0 <= i < |e| ==> e[i] != '<' && e[i] != '>' && e[i] != '"' && e[i] != '\'';
    ReplaceStage(x, '&', "&amp;");
    ReplaceStage(x, '<', "&lt;");
    ReplaceAbsent(e, '>', "&gt;");
    ReplaceAbsent(e, '"', "&quot;");
    ReplaceAbsent(e, '\'', "&apos;");
  }

  lemma EscapeGt(c: char)
    requires c == '>'
    ensures Escape([c]) == EscapeChar(c)
  {
    var x: string := [c];
    var e := EscapeChar(c);
    assert forall i :: 0 <= i < |e| ==> e[i] != '<' && e[i] != '>' && e[i] != '"' && e[i] != '\'';
    ReplaceStage(x, '&', "&amp;");
    ReplaceStage(x, '<', "&lt;");
    ReplaceStage(x, '>', "&gt;");
    ReplaceAbsent(e, '"', "&quot;");
    ReplaceAbsent(e, '\'', "&apos;");
  }

  lemma EscapeQuot(c: char)
    requires c == '"'
    ensures Escape([c]) == EscapeChar(c)
  {
    var x: string := [c];
    var e := EscapeChar(c);
    assert forall i :: 0 <= i < |e| ==> e[i] != '<' && e[i] != '>' && e[i] != '"' && e[i] != '\'';
    ReplaceStage(x, '&', "&amp;");
    ReplaceStage(x, '<', "&lt;");
    ReplaceStage(x, '>', "&gt;");
    ReplaceStage(x, '"', "&quot;");
    ReplaceAbsent(e, '\'', "&apos;");
  }

  lemma EscapeApos(c: char)
    requires c == '\''
    ensures Escape([c]) == EscapeChar(c)
  {
    var x: string := [c];
    var e := EscapeChar(c);
    assert forall i :: 0 <= i < |e| ==> e[i] != '<' && e[i] != '>' && e[i] != '"' && e[i] != '\'';
    ReplaceStage(x, '&', "&amp;");
    ReplaceStage(x, '<', "&lt;");
    ReplaceStage(x, '>', "&gt;");
    ReplaceStage(x, '"', "&quot;");
    ReplaceStage(x, '\'', "&apos;");
  }

  /** An escaped character holds no raw markup other than a leading `&`,
      and that `&` starts an entity whatever follows. */
  lemma EscapeCharFacts(c: char, rest: string)
    ensures var e := EscapeChar(c);
            forall i :: 0 <= i < |e| ==> e[i] != '<' && e[i] != '>' && e[i] != '"' && e[i] != '\''
    ensures var e := EscapeChar(c);
            forall i :: 0 < i < |e| ==> e[i] != '&'
    ensures EscapeChar(c)[0] == '&' ==> StartsEntity(EscapeChar(c) + rest)
  {
    var e := EscapeChar(c);
    var t := e + rest;
    assert t[..|e|] == e;
  }

  /** The chained replacements agree with the character-by-character
      definition on every string. */
  lemma {:induction false} EscapeIsRef(s: string)
    ensures Escape(s) == EscapeRef(s)
    decreases |s|
  {
    if |s| == 0 {
    } else {
      assert s == [s[0]] + s[1..];
      EscapeAppend([s[0]], s[1..]);
      EscapeSingle(s[0]);
      EscapeIsRef(s[1..]);
    }
  }

  /** Escaped text holds no raw `<`, `>`, `"` or `'`, and every `&` in it
      starts one of the five entities. */
  lemma {:induction false} EscapeRefWellFormed(s: string)
    ensures NoRawMarkup(EscapeRef(s)) && AmpersandsStartEntities(EscapeRef(s))
    decreases |s|
  {
    if |s| > 0 {
      EscapeRefWellFormed(s[1..]);
      var e, rest := EscapeChar(s[0]), EscapeRef(s[1..]);
      var r := e + rest;
      EscapeCharFacts(s[0], rest);
      assert r == EscapeRef(s);
      forall i | 0 <= i < |r|
        ensures r[i] != '<' && r[i] != '>' && r[i] != '"' && r[i] != '\''
        ensures r[i] == '&' ==> StartsEntity(r[i..])
      {
        if i < |e| {
          assert r[i] == e[i];
          if i == 0 { assert r[i..] == e + rest; }
        } else {
          var k := i - |e|;
          assert r[i] == rest[k];
          assert r[i..] == rest[k..];
        }
      }
    }
  }

  lemma EscapeWellFormed(s: string)
    ensures NoRawMarkup(Escape(s))
    ensures AmpersandsStartEntities(Escape(s))
  {
    EscapeIsRef(s);
    EscapeRefWellFormed(s);
  }

  /** Decoding the first escaped character gives it back and leaves the rest. */
  lemma UnescapeStep(c: char, rest: string)
    ensures Unescape(EscapeChar(c) + rest) == [c] + Unescape(rest)
  {
    var t := EscapeChar(c) + rest;
    if c == '&' {
      UnescapeAmp(t, rest);
    } else if c == '<' {
      UnescapeLt(t, rest);
    } else if c == '>' {
      UnescapeGt(t, rest);
    } else if c == '"' {
      UnescapeQuot(t, rest);
    } else if c == '\'' {
      UnescapeApos(t, rest);
    } else {
      UnescapePlain(c, rest);
    }
  }

  lemma UnescapePlain(c: char, rest: string)
    requires !IsMarkup(c)
    ensures Unescape([c] + rest) == [c] + Unescape(rest)
  {
    var t := [c] + rest;
    assert t[0] == c && t[1..] == rest;
  }

  lemma UnescapeAmp(t: string, rest: string)
    requires t == "&amp;" + rest
    ensures Unescape(t) == "&" + Unescape(rest)
  {
    assert t[..5] == "&amp;" && t[5..] == rest;
  }

  lemma UnescapeLt(t: string, rest: string)
    requires t == "&lt;" + rest
    ensures Unescape(t) == "<" + Unescape(rest)
  {
    assert t[1] == 'l' && t[..4] == "&lt;" && t[4..] == rest;
  }

  lemma UnescapeGt(t: string, rest: string)
    requires t == "&gt;" + rest
    ensures Unescape(t) == ">" + Unescape(rest)
  {
    assert t[1] == 'g' && t[..4] == "&gt;" && t[4..] == rest;
  }

  lemma UnescapeQuot(t: string, rest: string)
    requires t == "&quot;" + rest
    ensures Unescape(t) == "\"" + Unescape(rest)
  {
    assert t[1] == 'q' && t[..6] == "&quot;" && t[6..] == rest;
  }

  lemma UnescapeApos(t: string, rest: string)
    requires t == "&apos;" + rest
    ensures Unescape(t) == "'" + Unescape(rest)
  {
    assert t[1] == 'a' && t[2] == 'p' && t[..6] == "&apos;" && t[6..] == rest;
  }

  lemma {:induction false} UnescapeEscapeRef(s: string)
    ensures Unescape(EscapeRef(s)) == s
    decreases |s|
  {
    if |s| > 0 {
      UnescapeStep(s[0], EscapeRef(s[1..]));
      UnescapeEscapeRef(s[1..]);
    }
  }

  /** Escaping loses nothing: unescaping the output gives the input back. */
  lemma EscapeRoundTrip(s: string)
    ensures Unescape(Escape(s)) == s
  {
    EscapeIsRef(s);
    UnescapeEscapeRef(s);
  }

  lemma {:induction false} EscapeRefLength(s: string)
    ensures |EscapeRef(s)| >= |s|
    ensures |EscapeRef(s)| == |s| <==> forall i :: 0 <= i < |s| ==> !IsMarkup(s[i])
    ensures (forall i :: 0 <= i < |s| ==> !IsMarkup(s[i])) ==> EscapeRef(s) == s
    decreases |s|
  {
    if |s| > 0 {
      EscapeRefLength(s[1..]);
      assert forall i :: 1 <= i < |s| ==> s[i] == s[1..][i - 1];
      if forall i :: 0 <= i < |s| ==> !IsMarkup(s[i]) {
        assert forall i :: 0 <= i < |s[1..]| ==> !IsMarkup(s[1..][i]);
        assert s == [s[0]] + s[1..];
      }
    }
  }

  /** Escaping never shortens a string; it keeps the length exactly when
      nothing needs escaping, and then it is the identity. */
  lemma EscapeLength(s: string)
    ensures |Escape(s)| >= |s|
    ensures |Escape(s)| == |s| <==> forall i :: 0 <= i < |s| ==> !IsMarkup(s[i])
    ensures (forall i :: 0 <= i < |s| ==> !IsMarkup(s[i])) ==> Escape(s) == s
  {
    EscapeIsRef(s);
    EscapeRefLength(s);
  }

  // ---------------------------------------------------------------- the origin

  /** The three numbers of a 3-element list, as `float()` reads them. */
  function Triple(j: Json): Option<Vec3>
    requires IsListOfLength(j, 3)
  {
    match ToReals(j.items)
    case Some(v) => Some(Vec3(v[0], v[1], v[2]))
    case None => None
  }

  /** `_origin_lla`: a 3-element `lla` list is taken as it is; otherwise a
      3-element `ecef` list is converted; otherwise the origin is unusable. */
  function OriginLla(geo: Geodesy, origin: seq<Member>): (r: Result<Vec3, KmlError>)
    ensures IsListOfLength(Lookup(origin, "lla"), 3) ==>
              (r.Success? <==> Triple(Lookup(origin, "lla")).Some?) &&
              (r.Success? ==> Some(r.value) == Triple(Lookup(origin, "lla")))
    ensures !IsListOfLength(Lookup(origin, "lla"), 3) && !IsListOfLength(Lookup(origin, "ecef"), 3) ==>
              r == Failure(MissingEcef)
    ensures !IsListOfLength(Lookup(origin, "lla"), 3) && IsListOfLength(Lookup(origin, "ecef"), 3) ==>
              (r.Success? <==> Triple(Lookup(origin, "ecef")).Some?) &&
              (r.Success? ==> r.value == geo.ecefToLlaDegrees(Triple(Lookup(origin, "ecef")).value))
    ensures r.Failure? ==> r.error != MissingOrigin
  {
    var lla := Lookup(origin, "lla");
    if IsListOfLength(lla, 3) then
      match Triple(lla)
      case Some(v) => Success(v)
      case None => Failure(NotANumber)
    else
      var ecef := Lookup(origin, "ecef");
      if !IsListOfLength(ecef, 3) then Failure(MissingEcef)
      else
        match Triple(ecef)
        case Some(v) => Success(geo.ecefToLlaDegrees(v))
        case None => Failure(NotANumber)
  }

  /** `write_kml`, up to the text rendering: the placemark values and the result. */
  function WriteKml(geo: Geodesy, manifest: seq<Member>, modelHref: string, altitudeMode: string): (r: Result<Kml, KmlError>)
    ensures !Lookup(manifest, "origin").JObj? ==> r == Failure(MissingOrigin)
    // otherwise the outcome is decided by `_origin_lla`: latitude and longitude
    // are kept, and the altitude is zero exactly in `clampToGround` mode
    ensures Lookup(manifest, "origin").JObj? ==>
              var o := OriginLla(geo, Lookup(manifest, "origin").members);
              (r.Success? <==> o.Success?) &&
              (r.Failure? ==> r.error == o.error) &&
              (r.Success? ==>
                 r.value.result.latitude == o.value.x && r.value.result.longitude == o.value.y &&
                 (altitudeMode == "clampToGround" ==> r.value.result.altitude == 0.0) &&
                 (altitudeMode != "clampToGround" ==> r.value.result.altitude == o.value.z))
    ensures r.Success? ==>
              var p := r.value.placemark;
              p.heading == 0.0 && p.tilt == 0.0 && p.roll == 0.0
    ensures r.Success? ==>
              var p, k := r.value.placemark, r.value.result;
              k.latitude == p.latitude && k.longitude == p.longitude && k.altitude == p.altitude
    ensures r.Success? ==>
              r.value.placemark.href == Escape(modelHref) && r.value.placemark.altitudeMode == Escape(altitudeMode)
  {
    var origin := Lookup(manifest, "origin");
    if !origin.JObj? then Failure(MissingOrigin)
    else
      var lla :- OriginLla(geo, origin.members);
      var alt := if altitudeMode == "clampToGround" then 0.0 else lla.z;
      Success(Kml(KmlResult(lla.x, lla.y, alt),
                  Placemark(Escape(altitudeMode), lla.y, lla.x, alt, 0.0, 0.0, 0.0, Escape(modelHref))))
  }

  /** The origin section `build_manifest` writes reads back as the origin's
      own geodetic point: the `lla` list wins over the `ecef` one. */
  lemma OriginDocumentLla(geo: Geodesy, o: Origin.Origin)
    ensures Manifest.OriginDocument(o).JObj?
    ensures OriginLla(geo, Manifest.OriginDocument(o).members) == Success(o.lla)
  {
    var lla := Manifest.Vec3Json(o.lla);
    var ms := Manifest.OriginDocument(o).members;
    assert Lookup(ms, "lla") == lla;
    ToRealsOfNumbers(lla.items, [o.lla.x, o.lla.y, o.lla.z]);
  }

  /** Placing a freshly built manifest puts the model at the origin's
      latitude and longitude, on the ground or at the origin's altitude. */
  lemma KmlOfManifest(geo: Geodesy, tiles: Json, o: Origin.Origin, modelHref: string, altitudeMode: string)
    ensures var r := WriteKml(geo, Manifest.ManifestDocument(tiles, o), modelHref, altitudeMode);
            r.Success? &&
            r.value.result == KmlResult(o.lla.x, o.lla.y, if altitudeMode == "clampToGround" then 0.0 else o.lla.z)
  {
    var m := Manifest.ManifestDocument(tiles, o);
    assert Lookup(m, "origin") == Manifest.OriginDocument(o);
    OriginDocumentLla(geo, o);
  }

  /** An origin carrying only `ecef` is converted; an `lla` of the wrong
      length is ignored in favour of it. */
  lemma EcefFallback(geo: Geodesy, x: real, y: real, z: real)
    ensures var origin := [Member("lla", JArr([JNum(1.0), JNum(2.0)])),
                           Member("ecef", JArr([JNum(x), JNum(y), JNum(z)]))];
            OriginLla(geo, origin) == Success(geo.ecefToLlaDegrees(Vec3(x, y, z)))
  {
    var ecef := JArr([JNum(x), JNum(y), JNum(z)]);
    var origin := [Member("lla", JArr([JNum(1.0), JNum(2.0)])), Member("ecef", ecef)];
    assert Lookup(origin, "ecef") == ecef;
    assert Lookup(origin, "lla") == JArr([JNum(1.0), JNum(2.0)]);
    ToRealsOfNumbers(ecef.items, [x, y, z]);
  }
}
