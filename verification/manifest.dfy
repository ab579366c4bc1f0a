/** `build_manifest` (tileset_manifest.py): load the top-level tileset, walk
    it with the record-collecting consumer, and derive the origin from the
    root tile and the first yielded transform. */
module Manifest {
  import opened Wrappers
  import opened Json
  import opened Matrix
  import opened Tileset
  import opened Geo
  import opened Origin
  import opened TileWalker

  /** `ManifestResult`, without the path the manifest is written to. */
  datatype ManifestResult = ManifestResult(
    tiles: seq<TileRecord>,
    origin: Origin,
    tileCount: nat,
    rootEcef: Vec3)

  /** The walk `build_manifest` drives, from the root tile of the document
      at `path`, based at the document's directory. */
  function ManifestWalk(env: Env, path: string, root: Tile): Result<WalkState, ManifestError> {
    Run(env, ManifestConsumer(env), Init(root, env.parent(path)))
  }

  function BuildManifest(env: Env, geo: Geodesy, path: string): (r: Result<ManifestResult, ManifestError>)
    ensures r.Success? ==> r.value.tileCount == |r.value.tiles| && r.value.rootEcef == r.value.origin.ecef
  {
    var doc :- LoadDocument(env, path);
    var root := Lookup(doc, "root");
    if !root.JObj? then Failure(MissingRoot)
    else
      var w :- ManifestWalk(env, path, root.members);
      Assemble(geo, root.members, w)
  }

  /** What follows the walk: `root_full` is the transform yielded first. */
  function Assemble(geo: Geodesy, root: Tile, w: WalkState): (r: Result<ManifestResult, ManifestError>)
    ensures r.Success? ==> r.value.tiles == w.records
  {
    if |w.trace| == 0 then Failure(NoTiles)
    else
      var origin :- DeriveOrigin(geo, root, w.trace[0].full);
      Success(ManifestResult(w.records, origin, |w.records|, origin.ecef))
  }

  /** The first tile a successful walk yields is the root itself, with id 0,
      under the identity, so its full transform is the root's own transform.
      This holds for any consumer. */
  lemma RootVisitedFirst(env: Env, consume: Consumer, root: Tile, baseDir: string)
    requires Run(env, consume, Init(root, baseDir)).Success?
    ensures LocalTransform(root).Success?
    ensures var w := Run(env, consume, Init(root, baseDir)).value;
            && |w.trace| > 0
            && w.trace[0] == Visit(0, root, Identity(), LocalTransform(root).value, baseDir, Start)
  {
    var s := Init(root, baseDir);
    var v, c := StepVisit(env, consume, s);
    var d := AfterYieldDrain(env, s, v, c);
    var n := Step(env, consume, s).value;
    assert n.trace == [v];
    assert Run(env, consume, s) == Run(env, consume, n);
    RunExtends(env, consume, n);
    MulIdentity(LocalTransform(root).value);
  }

  /** The errors of `build_manifest`, in the order it raises them; "no tiles
      found" is never raised, because the root is always yielded first. */
  lemma BuildManifestErrors(env: Env, geo: Geodesy, path: string)
    ensures path !in env.docs ==> BuildManifest(env, geo, path) == Failure(UnreadableTileset(path))
    ensures path in env.docs && !env.docs[path].JObj? ==> BuildManifest(env, geo, path) == Failure(NotAnObject(path))
    ensures path in env.docs && env.docs[path].JObj? && !Get(env.docs[path], "root").JObj? ==>
              BuildManifest(env, geo, path) == Failure(MissingRoot)
    ensures BuildManifest(env, geo, path) != Failure(NoTiles)
  {
    if path in env.docs && env.docs[path].JObj? && Get(env.docs[path], "root").JObj? {
      var root := Get(env.docs[path], "root").members;
      var walk := ManifestWalk(env, path, root);
      if walk.Success? {
        RootVisitedFirst(env, ManifestConsumer(env), root, env.parent(path));
        assert Assemble(geo, root, walk.value) != Failure(NoTiles);
      } else {
        ManifestConsumerRaises(env);
        RunRaises(env, ManifestConsumer(env), Init(root, env.parent(path)));
      }
    }
  }

  /** The walk of a tileset that was built into a manifest keeps the walk
      invariant, yields the root first, and collects exactly the records its
      leaves call for: each belongs to a leaf it visited, and each `.b3dm`
      URI of a visited leaf has its record. */
  lemma ManifestWalkFacts(env: Env, path: string, root: Tile)
    requires ManifestWalk(env, path, root).Success?
    ensures var w := ManifestWalk(env, path, root).value;
            && Inv(env, ManifestConsumer(env), w)
            && LocalTransform(root).Success?
            && |w.trace| > 0
            && w.trace[0].full == LocalTransform(root).value
            && (forall k :: 0 <= k < |w.records| ==> Belongs(env, w.trace, w.records[k]))
            && w.records == WalkRecords(env, w.trace)
            && (forall i, u :: 0 <= i < |w.trace| && IsLeaf(w.trace[i].tile) && u in ContentUris(w.trace[i].tile) && IsB3dmUri(u) ==>
                  RecordFor(env, w.trace[i], ContentPath(env, w.trace[i].baseDir, u)) in w.records)
  {
    var w := ManifestWalk(env, path, root).value;
    RootVisitedFirst(env, ManifestConsumer(env), root, env.parent(path));
    ManifestWalkInv(env, path, root);
    assert ConsumerOk(ManifestConsumer(env), w);
    AllRecordsBelong(env, w.trace, w.records);
    AllRecordsExact(env, w.trace);
    LeafOutputsCollected(env, w);
  }

  lemma ManifestWalkInv(env: Env, path: string, root: Tile)
    requires ManifestWalk(env, path, root).Success?
    ensures Inv(env, ManifestConsumer(env), ManifestWalk(env, path, root).value)
  {
    var s := Init(root, env.parent(path));
    InitInv(env, ManifestConsumer(env), root, env.parent(path));
    RunInv(env, ManifestConsumer(env), s);
  }

  /** A manifest that was built: the origin is derived from the root tile
      and the root's own transform; the tiles are exactly the records the
      visited leaves' `.b3dm` URIs call for, in visit and URI order, so each
      belongs to a leaf and no payload of a visited leaf is left out. */
  lemma BuildManifestSound(env: Env, geo: Geodesy, path: string)
    requires BuildManifest(env, geo, path).Success?
    ensures var root := Get(env.docs[path], "root").members;
            var w := ManifestWalk(env, path, root);
            var m := BuildManifest(env, geo, path).value;
            && path in env.docs && env.docs[path].JObj?
            && w.Success?
            && Inv(env, ManifestConsumer(env), w.value)
            && LocalTransform(root).Success?
            && DeriveOrigin(geo, root, LocalTransform(root).value) == Success(m.origin)
            && m.tiles == w.value.records
            && m.tiles == WalkRecords(env, w.value.trace)
            && (forall k :: 0 <= k < |m.tiles| ==> Belongs(env, w.value.trace, m.tiles[k]))
            && (forall i, u :: 0 <= i < |w.value.trace| && IsLeaf(w.value.trace[i].tile) &&
                               u in ContentUris(w.value.trace[i].tile) && IsB3dmUri(u) ==>
                  RecordFor(env, w.value.trace[i], ContentPath(env, w.value.trace[i].baseDir, u)) in m.tiles)
  {
    var root := Get(env.docs[path], "root").members;
    var w := ManifestWalk(env, path, root).value;
    ManifestWalkFacts(env, path, root);
    assert BuildManifest(env, geo, path) == Assemble(geo, root, w);
  }

  /** A tileset whose root is an empty object: the walk yields the root, a
      leaf without content, so the manifest has no tiles, and the origin
      falls back to the root transform's translation, the earth's centre. */
  lemma EmptyRootManifest(env: Env, geo: Geodesy, path: string)
    requires path in env.docs && env.docs[path] == JObj([Member("root", JObj([]))])
    ensures BuildManifest(env, geo, path) ==
              Success(ManifestResult([], Origin(Root, Vec3(0.0, 0.0, 0.0), geo.ecefToLlaDegrees(Vec3(0.0, 0.0, 0.0))),
                                     0, Vec3(0.0, 0.0, 0.0)))
  {
    var consume := ManifestConsumer(env);
    var root: Tile := [];
    var s := Init(root, env.parent(path));
    assert Get(env.docs[path], "root") == JObj([]);
    assert LocalTransform(root) == Success(Identity());
    MulIdentity(Identity());
    var v := Visit(0, root, Identity(), Identity(), env.parent(path), Start);
    assert IsLeaf(root) && ContentUris(root) == [];
    assert Consume(env, v) == Success(Consumed([], []));
    assert consume(v) == Success(Consumed([], []));
    var n := WalkState([], 0, {}, [v], [[]], [], []);
    assert Kids(s, v) == [];
    assert s.stack[..|s.stack| - 1] + Kids(s, v) == [];
    assert Drain(env, [], [], 0, {}, [], 0) == Success(Drained([], 0, {}, []));
    var a := AfterYield(env, s, v, Consumed([], []));
    assert a.Success?;
    assert a.value.stack == [] && a.value.counter == 0 && a.value.visited == {};
    assert a.value.trace == [v] && a.value.queued == [[]];
    assert a.value.records == [] && a.value.loaded == [];
    assert a == Success(n);
    assert Step(env, consume, s) == Success(n);
    assert Run(env, consume, n) == Success(n);
    assert ManifestWalk(env, path, root) == Success(n);
    assert VolumeEntry(root, "region") == JNull;
  }

  /** The strategy name `_derive_origin` reports. */
  function StrategyName(s: Strategy): string {
    match s
    case Region => "region"
    case Sphere => "sphere"
    case Box => "box"
    case Root => "root"
  }

  function Vec3Json(v: Vec3): Json {
    JArr([JNum(v.x), JNum(v.y), JNum(v.z)])
  }

  /** The `origin` section of the manifest dictionary. */
  function OriginDocument(o: Origin): Json {
    JObj([Member("strategy", JStr(StrategyName(o.strategy))), Member("ecef", Vec3Json(o.ecef)), Member("lla", Vec3Json(o.lla))])
  }

  /** The manifest dictionary: the tile list (kept abstract here) and the origin. */
  function ManifestDocument(tiles: Json, o: Origin): seq<Member> {
    [Member("tiles", tiles), Member("origin", OriginDocument(o))]
  }
}
