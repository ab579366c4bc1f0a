/** The export step (blender_export.py): re-express every tile transform in
    the east-north-up frame at the manifest origin, and prepare the Blender
    run that turns the tiles into one COLLADA model. Running Blender itself
    is a foreign call and is not modelled. */
module BlenderExport {
  import opened Wrappers
  import opened Json
  import opened Matrix
  import opened Geo
  import BlenderExporter

  // ---------------------------------------------------------------- the ENU frame

  /** A 3×3 rotation given by its rows. */
  datatype Rotation = Rotation(east: Vec3, north: Vec3, up: Vec3)

  function Dot3(a: Vec3, b: Vec3): real {
    a.x * b.x + a.y * b.y + a.z * b.z
  }

  function Sub(a: Vec3, b: Vec3): Vec3 {
    Vec3(a.x - b.x, a.y - b.y, a.z - b.z)
  }

  function Add(a: Vec3, b: Vec3): Vec3 {
    Vec3(a.x + b.x, a.y + b.y, a.z + b.z)
  }

  function Neg(a: Vec3): Vec3 {
    Vec3(-a.x, -a.y, -a.z)
  }

  /** `rotation @ p`. */
  function Rotate(r: Rotation, p: Vec3): Vec3 {
    Vec3(Dot3(r.east, p), Dot3(r.north, p), Dot3(r.up, p))
  }

  /** The transpose of a rotation. */
  function Transpose(r: Rotation): Rotation {
    Rotation(Vec3(r.east.x, r.north.x, r.up.x), Vec3(r.east.y, r.north.y, r.up.y), Vec3(r.east.z, r.north.z, r.up.z))
  }

  /** The rows east, north and up at a latitude and longitude, from their
      sines and cosines. */
  function EnuRotation(sinLat: real, cosLat: real, sinLon: real, cosLon: real): Rotation {
    Rotation(
      Vec3(-sinLon, cosLon, 0.0),
      Vec3(-sinLat * cosLon, -sinLat * sinLon, cosLat),
      Vec3(cosLat * cosLon, cosLat * sinLon, sinLat))
  }

  /** The homogeneous matrix with `r` as its top-left block and
      `-rotation @ origin` as its translation. */
  function EnuMatrix(r: Rotation, origin: Vec3): (m: Mat4)
    ensures IsAffine(m)
  {
    var n := Rotation(Neg(r.east), Neg(r.north), Neg(r.up));
    var t := Rotate(n, origin);
    [[r.east.x, r.east.y, r.east.z, t.x],
     [r.north.x, r.north.y, r.north.z, t.y],
     [r.up.x, r.up.y, r.up.z, t.z],
     [0.0, 0.0, 0.0, 1.0]]
  }

  /** The rotation `_ecef_to_enu_matrix` builds at the origin's latitude and longitude. */
  function EnuRotationAt(geo: Geodesy, origin: Vec3): Rotation {
    var lla := geo.ecefToLlaRadians(origin);
    EnuRotation(geo.sin(lla.x), geo.cos(lla.x), geo.sin(lla.y), geo.cos(lla.y))
  }

  /** `_ecef_to_enu_matrix`. */
  function EcefToEnuMatrix(geo: Geodesy, origin: Vec3): (m: Mat4)
    ensures IsAffine(m)
  {
    EnuMatrix(EnuRotationAt(geo, origin), origin)
  }

  /** One coordinate: `a·p + (-a)·o == a·(p - o)`. */
  lemma DotOffset(a: Vec3, p: Vec3, o: Vec3)
    ensures a.x * p.x + a.y * p.y + a.z * p.z + Dot3(Neg(a), o) == Dot3(a, Sub(p, o))
  {
    calc {
      Dot3(a, Sub(p, o));
      a.x * (p.x - o.x) + a.y * (p.y - o.y) + a.z * (p.z - o.z);
      a.x * p.x + a.y * p.y + a.z * p.z + ((-a.x) * o.x + (-a.y) * o.y + (-a.z) * o.z);
    }
  }

  /** The matrix takes a point to its offset from the origin, rotated: the
      origin itself lands on (0, 0, 0) and the top-left block is the rotation. */
  lemma EnuMatrixIsRotatedOffset(r: Rotation, origin: Vec3, p: Vec3)
    ensures ApplyPoint(EnuMatrix(r, origin), p) == Rotate(r, Sub(p, origin))
    ensures ApplyPoint(EnuMatrix(r, origin), origin) == Vec3(0.0, 0.0, 0.0)
    ensures var m := EnuMatrix(r, origin);
            m[0][..3] == [r.east.x, r.east.y, r.east.z] &&
            m[1][..3] == [r.north.x, r.north.y, r.north.z] &&
            m[2][..3] == [r.up.x, r.up.y, r.up.z]
  {
    DotOffset(r.east, p, origin);
    DotOffset(r.north, p, origin);
    DotOffset(r.up, p, origin);
    DotOffset(r.east, origin, origin);
    DotOffset(r.north, origin, origin);
    DotOffset(r.up, origin, origin);
  }

  /** Unit rows, pairwise orthogonal. */
  predicate Orthonormal(r: Rotation) {
    Dot3(r.east, r.east) == 1.0 && Dot3(r.north, r.north) == 1.0 && Dot3(r.up, r.up) == 1.0 &&
    Dot3(r.east, r.north) == 0.0 && Dot3(r.east, r.up) == 0.0 && Dot3(r.north, r.up) == 0.0
  }

  /** Whenever the sines and cosines satisfy `sin² + cos² = 1`, the east,
      north and up rows are orthonormal. */
  lemma EnuRowsOrthonormal(sinLat: real, cosLat: real, sinLon: real, cosLon: real)
    requires sinLat * sinLat + cosLat * cosLat == 1.0
    requires sinLon * sinLon + cosLon * cosLon == 1.0
    ensures Orthonormal(EnuRotation(sinLat, cosLat, sinLon, cosLon))
  {
    var sa, ca, so, co := sinLat, cosLat, sinLon, cosLon;
    var r := EnuRotation(sa, ca, so, co);
    assert Dot3(r.north, r.north) == sa * sa * (co * co + so * so) + ca * ca;
    assert Dot3(r.up, r.up) == ca * ca * (co * co + so * so) + sa * sa;
    assert Dot3(r.north, r.up) == -sa * ca * (co * co + so * so) + ca * sa;
  }

  /** Under the same condition the columns are orthonormal too. */
  lemma EnuColumnsOrthonormal(sinLat: real, cosLat: real, sinLon: real, cosLon: real)
    requires sinLat * sinLat + cosLat * cosLat == 1.0
    requires sinLon * sinLon + cosLon * cosLon == 1.0
    ensures Orthonormal(Transpose(EnuRotation(sinLat, cosLat, sinLon, cosLon)))
  {
    var sa, ca, so, co := sinLat, cosLat, sinLon, cosLon;
    var t := Transpose(EnuRotation(sa, ca, so, co));
    assert Dot3(t.east, t.east) == so * so + co * co * (sa * sa + ca * ca);
    assert Dot3(t.north, t.north) == co * co + so * so * (sa * sa + ca * ca);
    assert Dot3(t.east, t.north) == -so * co + co * so * (sa * sa + ca * ca);
  }

  /** Back from the frame: rotate by the transpose, then add the origin. */
  function EnuToEcef(r: Rotation, origin: Vec3, local: Vec3): Vec3 {
    Add(Rotate(Transpose(r), local), origin)
  }

  /** `Rᵀ (R d) == d` once the columns of `R` are orthonormal. */
  lemma TransposeUndoesRotate(r: Rotation, d: Vec3)
    requires Orthonormal(Transpose(r))
    ensures Rotate(Transpose(r), Rotate(r, d)) == d
  {
    var t := Transpose(r);
    var q := Rotate(r, d);
    assert Rotate(t, q).x == d.x * Dot3(t.east, t.east) + d.y * Dot3(t.east, t.north) + d.z * Dot3(t.east, t.up);
    assert Rotate(t, q).y == d.x * Dot3(t.north, t.east) + d.y * Dot3(t.north, t.north) + d.z * Dot3(t.north, t.up);
    assert Rotate(t, q).z == d.x * Dot3(t.up, t.east) + d.y * Dot3(t.up, t.north) + d.z * Dot3(t.up, t.up);
  }

  /** The ENU matrix loses nothing: with `sin² + cos² = 1`, every earth-centred
      point is recovered from its local coordinates. */
  lemma EnuRoundTrip(sinLat: real, cosLat: real, sinLon: real, cosLon: real, origin: Vec3, p: Vec3)
    requires sinLat * sinLat + cosLat * cosLat == 1.0
    requires sinLon * sinLon + cosLon * cosLon == 1.0
    ensures var r := EnuRotation(sinLat, cosLat, sinLon, cosLon);
            EnuToEcef(r, origin, ApplyPoint(EnuMatrix(r, origin), p)) == p
  {
    var r := EnuRotation(sinLat, cosLat, sinLon, cosLon);
    EnuColumnsOrthonormal(sinLat, cosLat, sinLon, cosLon);
    EnuMatrixIsRotatedOffset(r, origin, p);
    TransposeUndoesRotate(r, Sub(p, origin));
  }

  /** `_ecef_to_enu_matrix` puts the origin at (0, 0, 0), and, as long as
      the sine and cosine parameters obey `sin² + cos² = 1` at the origin's
      latitude and longitude, every earth-centred point comes back from its
      local coordinates. */
  lemma EcefToEnuRoundTrip(geo: Geodesy, origin: Vec3, p: Vec3)
    requires var lla := geo.ecefToLlaRadians(origin);
             geo.sin(lla.x) * geo.sin(lla.x) + geo.cos(lla.x) * geo.cos(lla.x) == 1.0 &&
             geo.sin(lla.y) * geo.sin(lla.y) + geo.cos(lla.y) * geo.cos(lla.y) == 1.0
    ensures ApplyPoint(EcefToEnuMatrix(geo, origin), origin) == Vec3(0.0, 0.0, 0.0)
    ensures EnuToEcef(EnuRotationAt(geo, origin), origin, ApplyPoint(EcefToEnuMatrix(geo, origin), p)) == p
  {
    var lla := geo.ecefToLlaRadians(origin);
    EnuMatrixIsRotatedOffset(EnuRotationAt(geo, origin), origin, p);
    EnuRoundTrip(geo.sin(lla.x), geo.cos(lla.x), geo.sin(lla.y), geo.cos(lla.y), origin, p);
  }

  // ---------------------------------------------------------------- local tiles

  datatype ExportError =
    | NoTiles                   // `tiles` is missing, not a list, or empty
    | MissingOrigin             // `origin` is not a dictionary
    | MissingEcef               // `origin.ecef` is not a 3-element list
    | BadNumber                 // an `ecef` or transform entry numpy cannot read as a float
    | TileNotAnObject           // a tile without `.get`
    | MissingKey(key: string)   // `glb_path` or `tile_id` is not a string
    | MissingTransform          // `transform_ecef` is not a 16-element list
    | MissingGlb(path: string)  // the tile's glb file does not exist

  /** The file system as the export step sees it: `str(Path(p))`, the
      directory join `/`, and the files that exist. */
  datatype Files = Files(norm: string -> string, join: (string, string) -> string, present: set<string>)

  /** One entry of the export manifest. */
  datatype LocalTile = LocalTile(tileId: string, glbPath: string, transformEnu: seq<real>)

  /** `_require_str`. */
  function RequireStr(tile: seq<Member>, key: string): (r: Result<string, ExportError>)
    ensures r.Success? <==> Lookup(tile, key).JStr?
    ensures r.Success? ==> r.value == Lookup(tile, key).s
    ensures r.Failure? ==> r.error == MissingKey(key)
  {
    match Lookup(tile, key)
    case JStr(s) => Success(s)
    case _ => Failure(MissingKey(key))
  }

  /** A tile `_build_local_tiles` accepts: an object with a string
      `glb_path` naming an existing file, a 16-element `transform_ecef` of
      numbers, and a string `tile_id`. */
  predicate AcceptedTile(files: Files, tile: Json) {
    && tile.JObj?
    && Lookup(tile.members, "glb_path").JStr?
    && IsListOfLength(Lookup(tile.members, "transform_ecef"), 16)
    && files.norm(Lookup(tile.members, "glb_path").s) in files.present
    && ToReals(Lookup(tile.members, "transform_ecef").items).Some?
    && Lookup(tile.members, "tile_id").JStr?
  }

  /** One iteration of `_build_local_tiles`, with the checks in the source's
      order: the glb path, the transform's shape, the glb file, the
      transform's numbers, the tile id. */
  function LocalTileOf(files: Files, enu: Mat4, tile: Json): (r: Result<LocalTile, ExportError>)
    ensures r.Success? <==> AcceptedTile(files, tile)
    ensures !tile.JObj? ==> r == Failure(TileNotAnObject)
    ensures tile.JObj? && !Lookup(tile.members, "glb_path").JStr? ==> r == Failure(MissingKey("glb_path"))
    ensures tile.JObj? && Lookup(tile.members, "glb_path").JStr? && !IsListOfLength(Lookup(tile.members, "transform_ecef"), 16) ==>
              r == Failure(MissingTransform)
    ensures tile.JObj? && Lookup(tile.members, "glb_path").JStr? && IsListOfLength(Lookup(tile.members, "transform_ecef"), 16) &&
            files.norm(Lookup(tile.members, "glb_path").s) !in files.present ==>
              r == Failure(MissingGlb(files.norm(Lookup(tile.members, "glb_path").s)))
    ensures tile.JObj? && Lookup(tile.members, "glb_path").JStr? && IsListOfLength(Lookup(tile.members, "transform_ecef"), 16) &&
            files.norm(Lookup(tile.members, "glb_path").s) in files.present &&
            ToReals(Lookup(tile.members, "transform_ecef").items).None? ==>
              r == Failure(BadNumber)
    ensures tile.JObj? && Lookup(tile.members, "glb_path").JStr? && IsListOfLength(Lookup(tile.members, "transform_ecef"), 16) &&
            files.norm(Lookup(tile.members, "glb_path").s) in files.present &&
            ToReals(Lookup(tile.members, "transform_ecef").items).Some? && !Lookup(tile.members, "tile_id").JStr? ==>
              r == Failure(MissingKey("tile_id"))
    // a tile that passes keeps its id, points at an existing glb, and carries
    // the ENU matrix times its own transform
    ensures r.Success? ==>
              tile.JObj? && Lookup(tile.members, "tile_id") == JStr(r.value.tileId) &&
              Lookup(tile.members, "glb_path").JStr? &&
              r.value.glbPath == files.norm(Lookup(tile.members, "glb_path").s) && r.value.glbPath in files.present
    ensures r.Success? ==>
              var t := Lookup(tile.members, "transform_ecef");
              |r.value.transformEnu| == 16 &&
              IsListOfLength(t, 16) && ToReals(t.items).Some? && |ToReals(t.items).value| == 16 &&
              FromColumnMajor(r.value.transformEnu) == Mul(enu, FromColumnMajor(ToReals(t.items).value))
  {
    if !tile.JObj? then Failure(TileNotAnObject)
    else
      var raw :- RequireStr(tile.members, "glb_path");
      var glb := files.norm(raw);
      var t := Lookup(tile.members, "transform_ecef");
      if !IsListOfLength(t, 16) then Failure(MissingTransform)
      else if glb !in files.present then Failure(MissingGlb(glb))
      else
        match ToReals(t.items)
        case None => Failure(BadNumber)
        case Some(v) =>
          var id :- RequireStr(tile.members, "tile_id");
          var local := Mul(enu, FromColumnMajor(v));
          FromToColumnMajor(local);
          Success(LocalTile(id, glb, ToColumnMajor(local)))
  }

  /** Tile `k` is the first one `LocalTileOf` rejects, with `err`. */
  predicate FailsFirstAt(files: Files, enu: Mat4, tiles: seq<Json>, k: int, err: ExportError) {
    0 <= k < |tiles| &&
    (forall j :: 0 <= j < k ==> LocalTileOf(files, enu, tiles[j]).Success?) &&
    LocalTileOf(files, enu, tiles[k]) == Failure(err)
  }

  /** `_build_local_tiles` over the tiles, in order, stopping at the first
      tile it rejects. */
  method BuildLocalTiles(geo: Geodesy, files: Files, tiles: seq<Json>, origin: Vec3)
    returns (r: Result<seq<LocalTile>, ExportError>)
    ensures r.Success? <==> forall k :: 0 <= k < |tiles| ==> LocalTileOf(files, EcefToEnuMatrix(geo, origin), tiles[k]).Success?
    ensures r.Success? ==>
              |r.value| == |tiles| &&
              forall k :: 0 <= k < |tiles| ==> LocalTileOf(files, EcefToEnuMatrix(geo, origin), tiles[k]) == Success(r.value[k])
    ensures r.Failure? ==> exists k :: FailsFirstAt(files, EcefToEnuMatrix(geo, origin), tiles, k, r.error)
  {
    var enu := EcefToEnuMatrix(geo, origin);
    var out: seq<LocalTile> := [];
    for i := 0 to |tiles|
      invariant |out| == i
      invariant forall k :: 0 <= k < i ==> LocalTileOf(files, enu, tiles[k]) == Success(out[k])
    {
      var one := LocalTileOf(files, enu, tiles[i]);
      if one.Failure? {
        assert FailsFirstAt(files, enu, tiles, i, one.error);
        return Failure(one.error);
      }
      out := out + [one.value];
    }
    return Success(out);
  }

  // ---------------------------------------------------------------- export_collada

  /** What `export_collada` hands to Blender: the local tiles written to the
      export manifest, where that manifest and the model go, and the command. */
  datatype ExportPlan = ExportPlan(
    tiles: seq<LocalTile>,
    manifestPath: string,
    outputPath: string,
    command: seq<string>,
    tileCount: nat)

  /** The command line `_run_blender` starts. */
  function BlenderCommand(script: string, manifestPath: string, outputPath: string): seq<string> {
    ["blender", "--background", "--python", script, "--", "--manifest", manifestPath, "--output", outputPath]
  }

  /** `export_collada` up to the Blender run: the manifest checks in the
      source's order, then the local tiles. */
  method ExportCollada(geo: Geodesy, files: Files, manifest: seq<Member>, cacheDir: string, tempDir: string, script: string)
    returns (r: Result<ExportPlan, ExportError>)
    ensures var tiles := Lookup(manifest, "tiles");
            !tiles.JArr? || |tiles.items| == 0 ==> r == Failure(NoTiles)
    ensures var tiles, origin := Lookup(manifest, "tiles"), Lookup(manifest, "origin");
            tiles.JArr? && |tiles.items| > 0 && !origin.JObj? ==> r == Failure(MissingOrigin)
    ensures var tiles, origin := Lookup(manifest, "tiles"), Lookup(manifest, "origin");
            tiles.JArr? && |tiles.items| > 0 && origin.JObj? && !IsListOfLength(Get(origin, "ecef"), 3) ==>
              r == Failure(MissingEcef)
    ensures var tiles, origin := Lookup(manifest, "tiles"), Lookup(manifest, "origin");
            tiles.JArr? && |tiles.items| > 0 && origin.JObj? && IsListOfLength(Get(origin, "ecef"), 3) &&
            ToReals(Get(origin, "ecef").items).None? ==>
              r == Failure(BadNumber)
    // past the manifest checks, the export succeeds exactly when every tile
    // is accepted under the ENU matrix at the origin, and otherwise fails
    // with the first rejected tile's error
    ensures var tiles, origin := Lookup(manifest, "tiles"), Lookup(manifest, "origin");
            tiles.JArr? && |tiles.items| > 0 && origin.JObj? && IsListOfLength(Get(origin, "ecef"), 3) &&
            ToReals(Get(origin, "ecef").items).Some? ==>
              var e := ToReals(Get(origin, "ecef").items).value;
              var enu := EcefToEnuMatrix(geo, Vec3(e[0], e[1], e[2]));
              && (r.Success? <==> forall k :: 0 <= k < |tiles.items| ==> LocalTileOf(files, enu, tiles.items[k]).Success?)
              && (r.Failure? ==> exists k :: FailsFirstAt(files, enu, tiles.items, k, r.error))
    ensures r.Success? ==>
              var tiles, origin := Lookup(manifest, "tiles"), Lookup(manifest, "origin");
              tiles.JArr? && origin.JObj? && IsListOfLength(Get(origin, "ecef"), 3) &&
              var e := ToReals(Get(origin, "ecef").items);
              e.Some? &&
              var enu := EcefToEnuMatrix(geo, Vec3(e.value[0], e.value[1], e.value[2]));
              r.value.tileCount == |r.value.tiles| == |tiles.items| > 0 &&
              (forall k :: 0 <= k < |tiles.items| ==> LocalTileOf(files, enu, tiles.items[k]) == Success(r.value.tiles[k]))
    ensures r.Success? ==>
              r.value.manifestPath == files.join(tempDir, "export_manifest.json") &&
              r.value.outputPath == files.join(files.join(cacheDir, "dae"), "model.dae") &&
              r.value.command == BlenderCommand(script, r.value.manifestPath, r.value.outputPath)
  {
    var tiles := Lookup(manifest, "tiles");
    if !tiles.JArr? || |tiles.items| == 0 {
      return Failure(NoTiles);
    }
    var origin := Lookup(manifest, "origin");
    if !origin.JObj? {
      return Failure(MissingOrigin);
    }
    var ecef := Get(origin, "ecef");
    if !IsListOfLength(ecef, 3) {
      return Failure(MissingEcef);
    }
    var e := ToReals(ecef.items);
    if e.None? {
      return Failure(BadNumber);
    }
    var exportDir := files.join(cacheDir, "dae");
    var manifestPath := files.join(tempDir, "export_manifest.json");
    var local := BuildLocalTiles(geo, files, tiles.items, Vec3(e.value[0], e.value[1], e.value[2]));
    if local.Failure? {
      return Failure(local.error);
    }
    var outputPath := files.join(exportDir, "model.dae");
    var command := BlenderCommand(script, manifestPath, outputPath);
    return Success(ExportPlan(local.value, manifestPath, outputPath, command, |local.value|));
  }

  /** The script reads back exactly the two paths the command passes,
      provided neither looks like a flag. */
  lemma CommandRoundTrip(script: string, manifestPath: string, outputPath: string)
    requires script != "--"
    requires !BlenderExporter.IsFlag(manifestPath) && !BlenderExporter.IsFlag(outputPath)
    ensures BlenderExporter.ParseArgs(BlenderCommand(script, manifestPath, outputPath)) ==
              Success(map["manifest" := manifestPath, "output" := outputPath])
  {
    var argv := BlenderCommand(script, manifestPath, outputPath);
    assert argv[4] == "--";
    assert argv[0] != "--" && argv[1] != "--" && argv[2] != "--" && argv[3] != "--";
    assert BlenderExporter.IndexOf(argv, "--") == 4;
    var ts := ["--manifest", manifestPath, "--output", outputPath];
    assert BlenderExporter.ScriptArgs(argv) == ts;
    var s1 := BlenderExporter.Feed(BlenderExporter.ArgState(map[], None), "--manifest");
    assert s1 == BlenderExporter.ArgState(map["manifest" := ""], Some("manifest"));
    var s2 := BlenderExporter.Feed(s1, manifestPath);
    assert s2 == BlenderExporter.ArgState(map["manifest" := manifestPath], None);
    var s3 := BlenderExporter.Feed(s2, "--output");
    var s4 := BlenderExporter.Feed(s3, outputPath);
    assert s4.args == map["manifest" := manifestPath, "output" := outputPath];
    var p1: seq<string> := ["--manifest"];
    var p2 := p1 + [manifestPath];
    var p3 := p2 + ["--output"];
    assert p1[..0] == [] && p2[..1] == p1 && p3[..2] == p2 && ts[..3] == p3;
    assert BlenderExporter.Scan(p1) == s1;
    assert BlenderExporter.Scan(p2) == s2;
    assert BlenderExporter.Scan(p3) == s3;
    assert BlenderExporter.Scan(ts) == s4;
  }

  /** The export-manifest entry of a local tile, as `json.dumps` writes it. */
  function LocalTileJson(t: LocalTile): Json {
    JObj([Member("tile_id", JStr(t.tileId)),
          Member("glb_path", JStr(t.glbPath)),
          Member("transform_enu", JArr(seq(|t.transformEnu|, i requires 0 <= i < |t.transformEnu| => JNum(t.transformEnu[i]))))])
  }

  /** The entry carries the glb path and the 16 numbers unchanged. */
  lemma LocalTileJsonFields(lt: LocalTile)
    requires |lt.transformEnu| == 16
    ensures Get(LocalTileJson(lt), "glb_path") == JStr(lt.glbPath)
    ensures var j := Get(LocalTileJson(lt), "transform_enu");
            IsListOfLength(j, 16) && ToReals(j.items) == Some(lt.transformEnu)
  {
    var ms := LocalTileJson(lt).members;
    assert Lookup(ms, "transform_enu") == ms[2].value;
    assert ms[..2][1].key == "glb_path";
    assert Lookup(ms, "glb_path") == Lookup(ms[..2], "glb_path");
    var j := ms[2].value;
    ToRealsOfNumbers(j.items, lt.transformEnu);
  }

  /** What the Blender script does with an entry the export step wrote: it
      finds the glb path and a 16-number `transform_enu`, and the matrix it
      reads back places each vertex of the tile by the tile's own transform
      into earth-centred coordinates and then into the frame at the origin. */
  lemma ExporterReadsLocalTile(files: Files, enu: Mat4, tile: Json, lt: LocalTile, p: Vec3)
    requires LocalTileOf(files, enu, tile) == Success(lt)
    ensures Get(LocalTileJson(lt), "glb_path") == JStr(lt.glbPath)
    ensures var j := Get(LocalTileJson(lt), "transform_enu");
            IsListOfLength(j, 16) && ToReals(j.items) == Some(lt.transformEnu)
    ensures var t := Lookup(tile.members, "transform_ecef");
            var m := BlenderExporter.ExporterMatrix(lt.transformEnu);
            var tileMatrix := FromColumnMajor(ToReals(t.items).value);
            m == Mul(enu, tileMatrix) &&
            (IsAffine(tileMatrix) ==> ApplyPoint(m, p) == ApplyPoint(enu, ApplyPoint(tileMatrix, p)))
  {
    var t := Lookup(tile.members, "transform_ecef");
    var tileMatrix := FromColumnMajor(ToReals(t.items).value);
    assert FromColumnMajor(lt.transformEnu) == Mul(enu, tileMatrix);
    LocalTileJsonFields(lt);
    BlenderExporter.ExporterMatrixIsColumnMajor(lt.transformEnu);
    if IsAffine(tileMatrix) {
      ApplyMul(enu, tileMatrix, p);
    }
  }
}
