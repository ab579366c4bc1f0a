/** `_derive_origin`: the representative point of a tileset, chosen from the
    root tile's bounding volume by a fixed priority (tileset_manifest.py). */
module Origin {
  import opened Wrappers
  import opened Json
  import opened Matrix
  import opened Tileset
  import opened Geo

  datatype Strategy = Region | Sphere | Box | Root

  datatype Origin = Origin(strategy: Strategy, ecef: Vec3, lla: Vec3)

  /** The root's `boundingVolume` entry `key`, when the volume is an object. */
  function VolumeEntry(root: Tile, key: string): Json {
    var bv := Lookup(root, "boundingVolume");
    if bv.JObj? then Get(bv, key) else JNull
  }

  predicate HasRegion(root: Tile) { IsListOfLength(VolumeEntry(root, "region"), 6) }
  predicate HasSphere(root: Tile) { IsListOfLength(VolumeEntry(root, "sphere"), 4) }
  predicate HasBox(root: Tile) { IsListOfLength(VolumeEntry(root, "box"), 12) }

  /** The centre (the first three numbers) of a sphere or box, as `float()` reads it. */
  function Center(entry: Json): Option<Vec3>
    requires entry.JArr? && |entry.items| >= 3
  {
    match ToReals(entry.items[..3])
    case Some(c) => Some(Vec3(c[0], c[1], c[2]))
    case None => None
  }

  /** The centre transformed by the root's full transform, as an origin. */
  function Transformed(geo: Geodesy, strategy: Strategy, entry: Json, rootFull: Mat4): Result<Origin, ManifestError>
    requires entry.JArr? && |entry.items| >= 3
  {
    match Center(entry)
    case None => Failure(BadNumber)
    case Some(c) =>
      var ecef := ApplyPoint(rootFull, c);
      Success(Origin(strategy, ecef, geo.ecefToLlaDegrees(ecef)))
  }

  /** `_derive_origin`. A volume entry of the wrong shape falls through to the
      next strategy; one of the right length whose numbers `float()` rejects
      aborts. */
  function DeriveOrigin(geo: Geodesy, root: Tile, rootFull: Mat4): (r: Result<Origin, ManifestError>)
    // region first: midpoint of the bounds, lowest height, never transformed
    ensures HasRegion(root) ==>
              match ToReals(VolumeEntry(root, "region").items)
              case None => r == Failure(BadNumber)
              case Some(v) =>
                var lla := Vec3(geo.degrees((v[1] + v[3]) / 2.0), geo.degrees((v[0] + v[2]) / 2.0), v[4]);
                r == Success(Origin(Region, geo.llaDegreesToEcef(lla), lla))
    // then the sphere centre, then the box centre, under the root transform
    ensures !HasRegion(root) && HasSphere(root) ==>
              match Center(VolumeEntry(root, "sphere"))
              case None => r == Failure(BadNumber)
              case Some(c) => r == Success(Origin(Sphere, ApplyPoint(rootFull, c), geo.ecefToLlaDegrees(ApplyPoint(rootFull, c))))
    ensures !HasRegion(root) && !HasSphere(root) && HasBox(root) ==>
              match Center(VolumeEntry(root, "box"))
              case None => r == Failure(BadNumber)
              case Some(c) => r == Success(Origin(Box, ApplyPoint(rootFull, c), geo.ecefToLlaDegrees(ApplyPoint(rootFull, c))))
    // otherwise the translation of the root transform, which cannot fail
    ensures !HasRegion(root) && !HasSphere(root) && !HasBox(root) ==>
              r == Success(Origin(Root, Translation(rootFull), geo.ecefToLlaDegrees(Translation(rootFull))))
    // the geodetic point is always the conversion of the earth-centred one
    ensures r.Success? && r.value.strategy != Region ==> r.value.lla == geo.ecefToLlaDegrees(r.value.ecef)
    ensures r.Failure? ==> r.error == BadNumber
    // the only failure is a chosen entry with a number `float()` rejects
    ensures r.Failure? <==>
              || (HasRegion(root) && ToReals(VolumeEntry(root, "region").items).None?)
              || (!HasRegion(root) && HasSphere(root) && Center(VolumeEntry(root, "sphere")).None?)
              || (!HasRegion(root) && !HasSphere(root) && HasBox(root) && Center(VolumeEntry(root, "box")).None?)
  {
    var region := VolumeEntry(root, "region");
    var sphere := VolumeEntry(root, "sphere");
    var box := VolumeEntry(root, "box");
    if IsListOfLength(region, 6) then
      match ToReals(region.items)
      case None => Failure(BadNumber)
      case Some(v) =>
        var west, south, east, north, minH := v[0], v[1], v[2], v[3], v[4];
        var lla := Vec3(geo.degrees((south + north) * 0.5), geo.degrees((west + east) * 0.5), minH);
        Success(Origin(Region, geo.llaDegreesToEcef(lla), lla))
    else if IsListOfLength(sphere, 4) then Transformed(geo, Sphere, sphere, rootFull)
    else if IsListOfLength(box, 12) then Transformed(geo, Box, box, rootFull)
    else
      var ecef := Translation(rootFull);
      Success(Origin(Root, ecef, geo.ecefToLlaDegrees(ecef)))
  }

  /** A region origin does not depend on the root transform at all. */
  lemma RegionIgnoresTransform(geo: Geodesy, root: Tile, a: Mat4, b: Mat4)
    requires HasRegion(root)
    ensures DeriveOrigin(geo, root, a) == DeriveOrigin(geo, root, b)
  {
  }

  /** A sphere centred at the local origin gives the same earth-centred point as
      the translation fallback would. */
  lemma SphereAtLocalOriginIsTranslation(geo: Geodesy, root: Tile, rootFull: Mat4)
    requires !HasRegion(root) && HasSphere(root)
    requires Center(VolumeEntry(root, "sphere")) == Some(Vec3(0.0, 0.0, 0.0))
    ensures DeriveOrigin(geo, root, rootFull).Success?
    ensures DeriveOrigin(geo, root, rootFull).value.ecef == Translation(rootFull)
  {
    ApplyOriginIsTranslation(rootFull);
  }

  /** A region of [-1, -0.5, 1, 0.5, 10, 50] next to a sphere: the region wins
      and its midpoint is latitude 0, longitude 0 at altitude 10. */
  lemma RegionBeatsSphere(geo: Geodesy, rootFull: Mat4)
    ensures var region := JArr([JNum(-1.0), JNum(-0.5), JNum(1.0), JNum(0.5), JNum(10.0), JNum(50.0)]);
            var sphere := JArr([JNum(0.0), JNum(0.0), JNum(0.0), JNum(5.0)]);
            var root := [Member("boundingVolume", JObj([Member("region", region), Member("sphere", sphere)]))];
            var lla := Vec3(geo.degrees(0.0), geo.degrees(0.0), 10.0);
            DeriveOrigin(geo, root, rootFull) == Success(Origin(Region, geo.llaDegreesToEcef(lla), lla))
  {
    var region := JArr([JNum(-1.0), JNum(-0.5), JNum(1.0), JNum(0.5), JNum(10.0), JNum(50.0)]);
    var sphere := JArr([JNum(0.0), JNum(0.0), JNum(0.0), JNum(5.0)]);
    var root := [Member("boundingVolume", JObj([Member("region", region), Member("sphere", sphere)]))];
    assert VolumeEntry(root, "region") == region;
    ToRealsOfNumbers(region.items, [-1.0, -0.5, 1.0, 0.5, 10.0, 50.0]);
  }

  /** A lone sphere [0, 0, 0, 5] under the identity transform puts the origin
      at the earth's centre. */
  lemma SphereUnderIdentity(geo: Geodesy)
    ensures var sphere := JArr([JNum(0.0), JNum(0.0), JNum(0.0), JNum(5.0)]);
            var root := [Member("boundingVolume", JObj([Member("sphere", sphere)]))];
            var r := DeriveOrigin(geo, root, Identity());
            r.Success? && r.value.strategy == Sphere && r.value.ecef == Vec3(0.0, 0.0, 0.0)
  {
    var sphere := JArr([JNum(0.0), JNum(0.0), JNum(0.0), JNum(5.0)]);
    var root := [Member("boundingVolume", JObj([Member("sphere", sphere)]))];
    assert VolumeEntry(root, "region") == JNull;
    assert VolumeEntry(root, "sphere") == sphere;
    assert sphere.items[..3] == [JNum(0.0), JNum(0.0), JNum(0.0)];
    ToRealsOfNumbers(sphere.items[..3], [0.0, 0.0, 0.0]);
  }
}
