/** `_TileWalker` together with the record-selection loop of `build_manifest`
    (tileset_manifest.py): an explicit-stack, pre-order walk over one or more
    linked tilesets that composes transforms, assigns ids from one counter,
    expands external tilesets after the children are pushed, and loads every
    external path at most once. */
module TileWalker {
  import opened Wrappers
  import opened Json
  import opened Matrix
  import opened Tileset
  import Decimal

  /** The file system as the walker sees it. `docs` maps a resolved path to the
      JSON document read from it (a path that cannot be read or decoded is
      absent); `present` holds the paths that exist; `resolve(dir, uri)` is
      `(dir / uri).expanduser().resolve()`; `parent` is `Path.parent`; `join` is
      the `/` operator on paths. */
  datatype Env = Env(
    docs: map<string, Json>,
    present: set<string>,
    resolve: (string, string) -> string,
    parent: string -> string,
    join: (string, string) -> string,
    glbDir: string)

  /** Why a frame is on the stack: the walk's root, a child of the visit at a
      trace index, or the root of an external tileset referenced by the visit at
      a trace index. This is bookkeeping for the proofs; the code keeps no such
      field. */
  datatype Cause = Start | ChildOf(parent: nat) | ReferencedBy(parent: nat, path: string)

  /** A stack entry: `(tile_id, tile, parent_transform, tile_base_dir)`. */
  datatype Frame = Frame(id: nat, tile: Tile, parentFull: Mat4, baseDir: string, cause: Cause)

  /** A yielded tile: `(tile_id, tile, full_transform, tile_base_dir)`. */
  datatype Visit = Visit(id: nat, tile: Tile, parentFull: Mat4, full: Mat4, baseDir: string, cause: Cause)

  /** One entry of the manifest's `tiles` list. */
  datatype TileRecord = TileRecord(
    tileId: string,
    id: nat,
    b3dmPath: string,
    glbPath: string,
    transformEcef: seq<real>,
    boundingVolume: Json)

  /** An entry of `_queued_tilesets`. */
  datatype Pending = Pending(path: string, parentFull: Mat4)

  /** The walker's state between two pops. `trace` lists the yielded tiles,
      `queued` what the consumer queued at each of them, and `loaded` the
      external paths in the order they were loaded; these three are
      bookkeeping for the proofs. */
  datatype WalkState = WalkState(
    stack: seq<Frame>,
    counter: nat,
    visited: set<string>,
    trace: seq<Visit>,
    queued: seq<seq<Pending>>,
    records: seq<TileRecord>,
    loaded: seq<string>)

  /** `f"tile_{n:06d}"`. */
  function TileName(n: nat): string {
    "tile_" + Decimal.ZeroPad(Decimal.Format(n), 6)
  }

  /** The digits of a tile name follow its five-character prefix. */
  lemma TileNameDigits(n: nat)
    ensures TileName(n)[5..] == Decimal.ZeroPad(Decimal.Format(n), 6)
  {
  }

  /** Distinct counters give distinct tile names. */
  lemma TileNameInjective(a: nat, b: nat)
    ensures TileName(a) == TileName(b) ==> a == b
  {
    if TileName(a) == TileName(b) {
      TileNameDigits(a);
      TileNameDigits(b);
      Decimal.ValueZeroPad(a, 6);
      Decimal.ValueZeroPad(b, 6);
    }
  }

  /** The root, numbered 0, is `tile_000000`. */
  lemma TileNameRoot()
    ensures TileName(0) == "tile_000000"
  {
    assert Decimal.Format(0) == "0";
    assert Decimal.ZeroPad("0", 6) == "000000";
  }

  // ---------------------------------------------------------------- loading

  /** `_load_tileset`: the document must be readable JSON and an object. */
  function LoadDocument(env: Env, path: string): (r: Result<Tile, ManifestError>)
    ensures r.Success? <==> path in env.docs && env.docs[path].JObj?
    ensures r.Success? ==> r.value == env.docs[path].members
  {
    if path !in env.docs then Failure(UnreadableTileset(path))
    else if !env.docs[path].JObj? then Failure(NotAnObject(path))
    else Success(env.docs[path].members)
  }

  /** The root tile of an external tileset, or the error `walk_tileset` raises. */
  function LoadExternalRoot(env: Env, path: string): (r: Result<Tile, ManifestError>)
    ensures r.Success? ==> path in env.docs
  {
    var doc :- LoadDocument(env, path);
    var root := Lookup(doc, "root");
    if root.JObj? then Success(root.members) else Failure(ExternalMissingRoot(path))
  }

  /** The errors a walk can raise: a bad `transform`, a missing payload, or
      an external tileset that cannot be loaded. */
  predicate RaisedByWalk(e: ManifestError) {
    e.BadTransform? || e.MissingContent? || e.UnreadableTileset? || e.NotAnObject? || e.ExternalMissingRoot?
  }

  // ---------------------------------------------------------------- children

  /** The children that are objects, in list order. */
  function DictChildren(items: seq<Json>): (r: seq<Tile>)
    ensures |r| <= |items|
    decreases |items|
  {
    if |items| == 0 then []
    else (if items[0].JObj? then [items[0].members] else []) + DictChildren(items[1..])
  }

  /** `for child in reversed(children): if isinstance(child, dict): counter += 1; push`.
      The frames come back in push order; the last one pushed is on top. */
  function PushChildren(items: seq<Json>, counter: nat, full: Mat4, baseDir: string, parent: nat): (r: seq<Frame>)
    ensures |r| == |DictChildren(items)|
    ensures forall k :: 0 <= k < |r| ==>
              r[k] == Frame(counter + k + 1, DictChildren(items)[|r| - 1 - k], full, baseDir, ChildOf(parent))
    decreases |items|
  {
    if |items| == 0 then []
    else
      var last := items[|items| - 1];
      DictChildrenSnoc(items);
      if last.JObj? then
        [Frame(counter + 1, last.members, full, baseDir, ChildOf(parent))]
          + PushChildren(items[..|items| - 1], counter + 1, full, baseDir, parent)
      else PushChildren(items[..|items| - 1], counter, full, baseDir, parent)
  }

  lemma {:induction false} DictChildrenSnoc(items: seq<Json>)
    requires |items| > 0
    ensures DictChildren(items) ==
              DictChildren(items[..|items| - 1])
                + (if items[|items| - 1].JObj? then [items[|items| - 1].members] else [])
    decreases |items|
  {
    if |items| > 1 {
      DictChildrenSnoc(items[1..]);
      assert items[1..][..|items| - 2] == items[..|items| - 1][1..];
    }
  }

  /** The tiles a `children` value pushes: its object items when it is a
      non-empty list, nothing otherwise. */
  function PushedTiles(children: Json): seq<Tile> {
    if Truthy(children) && children.JArr? then DictChildren(children.items) else []
  }

  /** `children = tile.get("children") or []`, pushed when it is a list. */
  function ChildFrames(children: Json, counter: nat, full: Mat4, baseDir: string, parent: nat): seq<Frame> {
    if Truthy(children) && children.JArr? then PushChildren(children.items, counter, full, baseDir, parent)
    else []
  }

  /** A list without object children pushes nothing. */
  lemma {:induction false} NoDictChildren(items: seq<Json>)
    requires forall k :: 0 <= k < |items| ==> !items[k].JObj?
    ensures DictChildren(items) == []
    decreases |items|
  {
    if |items| > 0 {
      NoDictChildren(items[1..]);
    }
  }

  /** A tile whose `children` is present and not an empty list is not a leaf,
      even when nothing is pushed for it (a non-list value, or a list without
      objects): its content is never inspected and no tile replaces it. */
  lemma ChildlessInnerTile(t: Tile, counter: nat, full: Mat4, baseDir: string, parent: nat)
    requires Lookup(t, "children") != JNull && Lookup(t, "children") != JArr([])
    requires var c := Lookup(t, "children");
             !c.JArr? || forall k :: 0 <= k < |c.items| ==> !c.items[k].JObj?
    ensures !IsLeaf(t)
    ensures ChildFrames(Lookup(t, "children"), counter, full, baseDir, parent) == []
  {
    var c := Lookup(t, "children");
    if c.JArr? {
      NoDictChildren(c.items);
    }
  }

  // ---------------------------------------------------------------- the consumer

  /** What the consumer of one yielded tile produced: tilesets to queue and records. */
  datatype Consumed = Consumed(queue: seq<Pending>, records: seq<TileRecord>)

  /** The code that runs at the generator's `yield`. The walk is proved for
      any consumer; `ManifestConsumer` is the one `build_manifest` supplies. */
  type Consumer = Visit -> Result<Consumed, ManifestError>

  /** `_resolve_content_path`: the URI without its query and fragment, under
      the tile's directory. */
  function ContentPath(env: Env, baseDir: string, uri: string): string {
    env.resolve(baseDir, StripQueryFragment(uri))
  }

  /** The manifest entry `build_manifest` appends for payload `b3dmPath` of `v`. */
  function RecordFor(env: Env, v: Visit, b3dmPath: string): TileRecord {
    TileRecord(
      TileName(v.id), v.id, b3dmPath,
      env.join(env.glbDir, TileName(v.id) + ".glb"),
      ToColumnMajor(v.full),
      Lookup(v.tile, "boundingVolume"))
  }

  /** The body of `for uri in _extract_content_uris(tile)` in `build_manifest`. */
  function ConsumeUri(env: Env, v: Visit, uri: string): (r: Result<Consumed, ManifestError>)
    ensures r.Success? ==> |r.value.queue| + |r.value.records| <= 1
    ensures r.Success? ==> forall k :: 0 <= k < |r.value.queue| ==>
              IsTilesetUri(uri) && r.value.queue[k].path == ContentPath(env, v.baseDir, uri)
  {
    if IsTilesetUri(uri) then
      var path := ContentPath(env, v.baseDir, uri);
      // `queue_external_tileset` drops a resolved path without a `.json` suffix
      Success(Consumed(if HasJsonSuffix(path) then [Pending(path, v.full)] else [], []))
    else if !IsB3dmUri(uri) then Success(Consumed([], []))
    else
      var path := ContentPath(env, v.baseDir, uri);
      if path !in env.present then Failure(MissingContent(path))
      else Success(Consumed([], [RecordFor(env, v, path)]))
  }

  /** What one URI makes the consumer do: a tileset URI queues its resolved
      path with the tile's full transform when that path has a `.json`
      suffix; a `.b3dm` URI records its resolved path when that exists and
      aborts otherwise; any other URI is skipped. */
  lemma ConsumeUriCases(env: Env, v: Visit, uri: string)
    ensures var p := ContentPath(env, v.baseDir, uri);
            IsTilesetUri(uri) ==>
              ConsumeUri(env, v, uri) == Success(Consumed(if HasJsonSuffix(p) then [Pending(p, v.full)] else [], []))
    ensures var p := ContentPath(env, v.baseDir, uri);
            IsB3dmUri(uri) && p in env.present ==> ConsumeUri(env, v, uri) == Success(Consumed([], [RecordFor(env, v, p)]))
    ensures var p := ContentPath(env, v.baseDir, uri);
            IsB3dmUri(uri) && p !in env.present ==> ConsumeUri(env, v, uri) == Failure(MissingContent(p))
    ensures !IsTilesetUri(uri) && !IsB3dmUri(uri) ==> ConsumeUri(env, v, uri) == Success(Consumed([], []))
  {
    UriClassification(uri);
  }

  /** One URI makes the consumer fail exactly when it is a `.b3dm` URI whose
      resolved path does not exist, and the error names that path. */
  lemma ConsumeUriFails(env: Env, v: Visit, uri: string)
    ensures var p := ContentPath(env, v.baseDir, uri);
            ConsumeUri(env, v, uri).Failure? <==> IsB3dmUri(uri) && p !in env.present
    ensures ConsumeUri(env, v, uri).Failure? ==>
              ConsumeUri(env, v, uri).error == MissingContent(ContentPath(env, v.baseDir, uri))
  {
    UriClassification(uri);
  }

  /** A record that belongs to visit `v`: its id and name, the glb path named
      after it, its full transform written column-major, its bounding volume,
      and a payload path that exists. */
  predicate RecordOf(env: Env, v: Visit, rec: TileRecord) {
    && rec.id == v.id
    && rec.tileId == TileName(v.id)
    && rec.glbPath == env.join(env.glbDir, TileName(v.id) + ".glb")
    && rec.transformEcef == ToColumnMajor(v.full)
    && rec.boundingVolume == Lookup(v.tile, "boundingVolume")
    && rec.b3dmPath in env.present
    && IsLeaf(v.tile)
  }

  /** `path` is the resolution of one of the `.b3dm` URIs in `uris`. */
  predicate RecordedFrom(env: Env, v: Visit, uris: seq<string>, path: string) {
    exists u :: u in uris && IsB3dmUri(u) && path == ContentPath(env, v.baseDir, u)
  }

  /** `path` is the resolution of one of the tileset URIs in `uris`. */
  predicate QueuedFrom(env: Env, v: Visit, uris: seq<string>, path: string) {
    exists u :: u in uris && IsTilesetUri(u) && path == ContentPath(env, v.baseDir, u)
  }

  /** What the consumer may produce for visit `v` from `uris`: records that
      belong to `v` and resolve one of its `.b3dm` URIs, and `.json` paths
      resolved from tileset URIs, queued with `v`'s full transform. */
  predicate ConsumedBy(env: Env, v: Visit, uris: seq<string>, c: Consumed) {
    && (forall k :: 0 <= k < |c.records| ==>
          RecordOf(env, v, c.records[k]) && RecordedFrom(env, v, uris, c.records[k].b3dmPath))
    && (forall k :: 0 <= k < |c.queue| ==> QueuedBy(env, v, uris, c.queue[k]))
  }

  /** The consumer's loop over the URIs, first URI first; the first missing
      payload aborts. */
  function ConsumeUris(env: Env, v: Visit, uris: seq<string>): (r: Result<Consumed, ManifestError>)
    requires IsLeaf(v.tile)
    ensures r.Success? ==> |r.value.queue| + |r.value.records| <= |uris|
    decreases |uris|
  {
    if |uris| == 0 then Success(Consumed([], []))
    else
      var head :- ConsumeUri(env, v, uris[0]);
      var tail :- ConsumeUris(env, v, uris[1..]);
      Success(Consumed(head.queue + tail.queue, head.records + tail.records))
  }

  // ---------------------------------------------------------------- what a leaf must produce

  /** The records the URIs of leaf `v` call for, in URI order: one for each
      `.b3dm` URI, at its resolved path. */
  function B3dmRecords(env: Env, v: Visit, uris: seq<string>): seq<TileRecord>
    decreases |uris|
  {
    if |uris| == 0 then []
    else (if IsB3dmUri(uris[0]) then [RecordFor(env, v, ContentPath(env, v.baseDir, uris[0]))] else [])
           + B3dmRecords(env, v, uris[1..])
  }

  /** The tilesets the URIs of leaf `v` queue, in URI order: one for each
      tileset URI whose resolved path has a `.json` suffix, with `v`'s full
      transform. */
  function TilesetQueue(env: Env, v: Visit, uris: seq<string>): seq<Pending>
    decreases |uris|
  {
    if |uris| == 0 then []
    else
      var p := ContentPath(env, v.baseDir, uris[0]);
      (if IsTilesetUri(uris[0]) && HasJsonSuffix(p) then [Pending(p, v.full)] else [])
        + TilesetQueue(env, v, uris[1..])
  }

  /** Every `.b3dm` URI among `uris` resolves to a path that exists. */
  predicate PayloadsPresent(env: Env, v: Visit, uris: seq<string>) {
    forall i :: 0 <= i < |uris| && IsB3dmUri(uris[i]) ==> ContentPath(env, v.baseDir, uris[i]) in env.present
  }

  /** `uris[i]` is the first `.b3dm` URI whose resolved path does not exist. */
  predicate FirstMissing(env: Env, v: Visit, uris: seq<string>, i: int) {
    && 0 <= i < |uris|
    && IsB3dmUri(uris[i]) && ContentPath(env, v.baseDir, uris[i]) !in env.present
    && forall j :: 0 <= j < i && IsB3dmUri(uris[j]) ==> ContentPath(env, v.baseDir, uris[j]) in env.present
  }

  /** The consumer of a leaf succeeds exactly when every payload exists, and
      then yields one record per `.b3dm` URI and one queue entry per `.json`
      tileset URI, in URI order; otherwise it reports the first missing payload. */
  lemma ConsumeUrisExact(env: Env, v: Visit, uris: seq<string>)
    requires IsLeaf(v.tile)
    ensures ConsumeUris(env, v, uris).Success? <==> PayloadsPresent(env, v, uris)
    ensures ConsumeUris(env, v, uris).Success? ==>
              ConsumeUris(env, v, uris).value == Consumed(TilesetQueue(env, v, uris), B3dmRecords(env, v, uris))
    ensures ConsumeUris(env, v, uris).Failure? ==>
              exists i :: FirstMissing(env, v, uris, i) &&
                          ConsumeUris(env, v, uris).error == MissingContent(ContentPath(env, v.baseDir, uris[i]))
  {
    if ConsumeUris(env, v, uris).Success? {
      ConsumeUrisOutputs(env, v, uris);
      ConsumeUrisPresent(env, v, uris);
    } else {
      ConsumeUrisFirstMissing(env, v, uris);
    }
  }

  /** A successful consumer yields exactly the reference queue and records. */
  lemma {:induction false} ConsumeUrisOutputs(env: Env, v: Visit, uris: seq<string>)
    requires IsLeaf(v.tile)
    requires ConsumeUris(env, v, uris).Success?
    ensures ConsumeUris(env, v, uris).value == Consumed(TilesetQueue(env, v, uris), B3dmRecords(env, v, uris))
    decreases |uris|
  {
    if |uris| > 0 {
      var rest := uris[1..];
      ConsumeUriCases(env, v, uris[0]);
      ConsumeUrisOutputs(env, v, rest);
      var head := ConsumeUri(env, v, uris[0]).value;
      var tail := ConsumeUris(env, v, rest).value;
      assert ConsumeUris(env, v, uris).value == Consumed(head.queue + tail.queue, head.records + tail.records);
    }
  }

  /** A successful consumer found every payload. */
  lemma {:induction false} ConsumeUrisPresent(env: Env, v: Visit, uris: seq<string>)
    requires IsLeaf(v.tile)
    requires ConsumeUris(env, v, uris).Success?
    ensures PayloadsPresent(env, v, uris)
    decreases |uris|
  {
    if |uris| > 0 {
      ConsumeUriFails(env, v, uris[0]);
      ConsumeUrisPresent(env, v, uris[1..]);
      PayloadsPresentCons(env, v, uris);
    }
  }

  /** A failing consumer reports the first missing payload. */
  lemma {:induction false} ConsumeUrisFirstMissing(env: Env, v: Visit, uris: seq<string>)
    requires IsLeaf(v.tile)
    requires ConsumeUris(env, v, uris).Failure?
    ensures exists i :: FirstMissing(env, v, uris, i) &&
                        ConsumeUris(env, v, uris).error == MissingContent(ContentPath(env, v.baseDir, uris[i]))
    decreases |uris|
  {
    var rest := uris[1..];
    ConsumeUriFails(env, v, uris[0]);
    if ConsumeUri(env, v, uris[0]).Failure? {
      assert FirstMissing(env, v, uris, 0);
    } else {
      ConsumeUrisFirstMissing(env, v, rest);
      var i :| FirstMissing(env, v, rest, i) &&
               ConsumeUris(env, v, rest).error == MissingContent(ContentPath(env, v.baseDir, rest[i]));
      FirstMissingCons(env, v, uris, i);
    }
  }

  /** Payloads present after the first URI, and at the first URI when that is
      a payload, are present throughout. */
  lemma PayloadsPresentCons(env: Env, v: Visit, uris: seq<string>)
    requires |uris| > 0 && PayloadsPresent(env, v, uris[1..])
    requires IsB3dmUri(uris[0]) ==> ContentPath(env, v.baseDir, uris[0]) in env.present
    ensures PayloadsPresent(env, v, uris)
  {
    forall i | 0 <= i < |uris| && IsB3dmUri(uris[i])
      ensures ContentPath(env, v.baseDir, uris[i]) in env.present
    {
      if i > 0 {
        assert uris[i] == uris[1..][i - 1];
      }
    }
  }

  /** The first missing payload after a first URI that is not missing is the
      first missing payload overall, one position on. */
  lemma FirstMissingCons(env: Env, v: Visit, uris: seq<string>, i: int)
    requires |uris| > 0 && FirstMissing(env, v, uris[1..], i)
    requires IsB3dmUri(uris[0]) ==> ContentPath(env, v.baseDir, uris[0]) in env.present
    ensures FirstMissing(env, v, uris, i + 1)
    ensures uris[i + 1] == uris[1..][i]
  {
    forall j | 0 <= j < i + 1 && IsB3dmUri(uris[j])
      ensures ContentPath(env, v.baseDir, uris[j]) in env.present
    {
      if j > 0 {
        assert uris[j] == uris[1..][j - 1];
      }
    }
  }

  /** Every `.b3dm` URI has its record, at its resolved path, among the
      records called for. */
  lemma {:induction false} B3dmRecordsComplete(env: Env, v: Visit, uris: seq<string>)
    ensures forall u :: u in uris && IsB3dmUri(u) ==>
              RecordFor(env, v, ContentPath(env, v.baseDir, u)) in B3dmRecords(env, v, uris)
    decreases |uris|
  {
    if |uris| > 0 {
      var rest := uris[1..];
      B3dmRecordsComplete(env, v, rest);
      var head := if IsB3dmUri(uris[0]) then [RecordFor(env, v, ContentPath(env, v.baseDir, uris[0]))] else [];
      assert B3dmRecords(env, v, uris) == head + B3dmRecords(env, v, rest);
      forall u | u in uris && IsB3dmUri(u)
        ensures RecordFor(env, v, ContentPath(env, v.baseDir, u)) in B3dmRecords(env, v, uris)
      {
        if u != uris[0] {
          assert u in rest;
        }
      }
    }
  }

  /** A path recorded from some of the URIs is recorded from all of them. */
  lemma RecordedFromMore(env: Env, v: Visit, some: seq<string>, uris: seq<string>, path: string)
    requires forall u :: u in some ==> u in uris
    requires RecordedFrom(env, v, some, path)
    ensures RecordedFrom(env, v, uris, path)
  {
    var u :| u in some && IsB3dmUri(u) && path == ContentPath(env, v.baseDir, u);
    assert u in uris;
  }

  /** Every `.json` tileset URI has its entry in the queue called for. */
  lemma {:induction false} TilesetQueueComplete(env: Env, v: Visit, uris: seq<string>)
    ensures forall u :: u in uris && IsTilesetUri(u) && HasJsonSuffix(ContentPath(env, v.baseDir, u)) ==>
              Pending(ContentPath(env, v.baseDir, u), v.full) in TilesetQueue(env, v, uris)
    decreases |uris|
  {
    if |uris| > 0 {
      var rest := uris[1..];
      TilesetQueueComplete(env, v, rest);
      forall u | u in uris && IsTilesetUri(u) && HasJsonSuffix(ContentPath(env, v.baseDir, u))
        ensures Pending(ContentPath(env, v.baseDir, u), v.full) in TilesetQueue(env, v, uris)
      {
        if u != uris[0] {
          assert u in rest;
        }
      }
    }
  }

  /** The records and queue entries one URI produces. */
  lemma ConsumeUriFacts(env: Env, v: Visit, uri: string)
    requires IsLeaf(v.tile) && ConsumeUri(env, v, uri).Success?
    ensures ConsumedBy(env, v, [uri], ConsumeUri(env, v, uri).value)
  {
    ConsumeUriCases(env, v, uri);
    assert uri in [uri];
  }

  /** `ConsumedBy` over the URIs `[u] + rest` from its two parts. */
  lemma ConsumedByJoin(env: Env, v: Visit, uris: seq<string>, h: Consumed, t: Consumed)
    requires |uris| > 0
    requires ConsumedBy(env, v, [uris[0]], h) && ConsumedBy(env, v, uris[1..], t)
    ensures ConsumedBy(env, v, uris, Consumed(h.queue + t.queue, h.records + t.records))
  {
    RecordsJoin(env, v, uris, h.records, t.records);
    QueueJoin(env, v, uris, h.queue, t.queue);
  }

  lemma RecordsJoin(env: Env, v: Visit, uris: seq<string>, a: seq<TileRecord>, b: seq<TileRecord>)
    requires |uris| > 0
    requires forall k :: 0 <= k < |a| ==> RecordOf(env, v, a[k]) && RecordedFrom(env, v, [uris[0]], a[k].b3dmPath)
    requires forall k :: 0 <= k < |b| ==> RecordOf(env, v, b[k]) && RecordedFrom(env, v, uris[1..], b[k].b3dmPath)
    ensures forall k :: 0 <= k < |a + b| ==> RecordOf(env, v, (a + b)[k]) && RecordedFrom(env, v, uris, (a + b)[k].b3dmPath)
  {
    forall k | 0 <= k < |a + b|
      ensures RecordOf(env, v, (a + b)[k]) && RecordedFrom(env, v, uris, (a + b)[k].b3dmPath)
    {
      if k < |a| {
        assert (a + b)[k] == a[k];
        RecordedFromMore(env, v, [uris[0]], uris, a[k].b3dmPath);
      } else {
        assert (a + b)[k] == b[k - |a|];
        RecordedFromMore(env, v, uris[1..], uris, b[k - |a|].b3dmPath);
      }
    }
  }

  /** A path queued from some of the URIs is queued from all of them. */
  lemma QueuedFromMore(env: Env, v: Visit, some: seq<string>, uris: seq<string>, path: string)
    requires forall u :: u in some ==> u in uris
    requires QueuedFrom(env, v, some, path)
    ensures QueuedFrom(env, v, uris, path)
  {
    var u :| u in some && IsTilesetUri(u) && path == ContentPath(env, v.baseDir, u);
    assert u in uris;
  }

  /** A queue entry as the consumer of `v` makes it from `uris`. */
  predicate QueuedBy(env: Env, v: Visit, uris: seq<string>, e: Pending) {
    e.parentFull == v.full && HasJsonSuffix(e.path) && QueuedFrom(env, v, uris, e.path)
  }

  lemma QueueJoin(env: Env, v: Visit, uris: seq<string>, a: seq<Pending>, b: seq<Pending>)
    requires |uris| > 0
    requires forall k :: 0 <= k < |a| ==> QueuedBy(env, v, [uris[0]], a[k])
    requires forall k :: 0 <= k < |b| ==> QueuedBy(env, v, uris[1..], b[k])
    ensures forall k :: 0 <= k < |a + b| ==> QueuedBy(env, v, uris, (a + b)[k])
  {
    forall k | 0 <= k < |a + b|
      ensures QueuedBy(env, v, uris, (a + b)[k])
    {
      if k < |a| {
        assert (a + b)[k] == a[k];
        QueuedFromMore(env, v, [uris[0]], uris, a[k].path);
      } else {
        assert (a + b)[k] == b[k - |a|];
        QueuedFromMore(env, v, uris[1..], uris, b[k - |a|].path);
      }
    }
  }

  lemma {:induction false} ConsumeUrisFacts(env: Env, v: Visit, uris: seq<string>)
    requires IsLeaf(v.tile) && ConsumeUris(env, v, uris).Success?
    ensures ConsumedBy(env, v, uris, ConsumeUris(env, v, uris).value)
    decreases |uris|
  {
    if |uris| > 0 {
      var head := ConsumeUri(env, v, uris[0]).value;
      var tail := ConsumeUris(env, v, uris[1..]).value;
      ConsumeUriFacts(env, v, uris[0]);
      ConsumeUrisFacts(env, v, uris[1..]);
      ConsumedByJoin(env, v, uris, head, tail);
    }
  }

  /** The consumer fails only on a missing payload. */
  lemma {:induction false} ConsumeUrisRaises(env: Env, v: Visit, uris: seq<string>)
    requires IsLeaf(v.tile) && ConsumeUris(env, v, uris).Failure?
    ensures ConsumeUris(env, v, uris).error.MissingContent?
    decreases |uris|
  {
    if ConsumeUri(env, v, uris[0]).Success? {
      ConsumeUrisRaises(env, v, uris[1..]);
    }
  }

  /** `if not _is_leaf_tile(tile): continue`: only leaves are inspected. */
  function Consume(env: Env, v: Visit): (r: Result<Consumed, ManifestError>)
    ensures !IsLeaf(v.tile) ==> r == Success(Consumed([], []))
  {
    if IsLeaf(v.tile) then ConsumeUris(env, v, ContentUris(v.tile)) else Success(Consumed([], []))
  }

  /** What the consumer made of a visit belongs to it and comes from its
      content URIs; only a leaf produces anything. */
  lemma ConsumeFacts(env: Env, v: Visit)
    requires Consume(env, v).Success?
    ensures ConsumedBy(env, v, ContentUris(v.tile), Consume(env, v).value)
    ensures |Consume(env, v).value.queue| + |Consume(env, v).value.records| > 0 ==> IsLeaf(v.tile)
  {
    if IsLeaf(v.tile) {
      ConsumeUrisFacts(env, v, ContentUris(v.tile));
    }
  }

  /** The loop body of `build_manifest` as a consumer of the walk. */
  function ManifestConsumer(env: Env): Consumer {
    v => Consume(env, v)
  }

  /** A consumer whose only error is one the walk itself could raise. */
  ghost predicate RaisesWalkErrors(consume: Consumer) {
    forall v :: consume(v).Failure? ==> RaisedByWalk(consume(v).error)
  }

  lemma ManifestConsumerRaises(env: Env)
    ensures RaisesWalkErrors(ManifestConsumer(env))
  {
    forall v | ManifestConsumer(env)(v).Failure?
      ensures RaisedByWalk(ManifestConsumer(env)(v).error)
    {
      ConsumeUrisRaises(env, v, ContentUris(v.tile));
    }
  }

  // ---------------------------------------------------------------- draining the queue

  datatype Drained = Drained(stack: seq<Frame>, counter: nat, visited: set<string>, loaded: seq<string>)

  /** `while self._queued_tilesets: ... pop() ...`: the queue is drained from
      its end; a visited path is skipped; any other path is marked visited,
      loaded, and its root pushed with a fresh id and the queued transform. */
  function Drain(env: Env, queue: seq<Pending>, stack: seq<Frame>, counter: nat,
                 visited: set<string>, loaded: seq<string>, parent: nat): (r: Result<Drained, ManifestError>)
    ensures r.Success? ==>
              && |r.value.stack| >= |stack|
              && r.value.stack[..|stack|] == stack
              && r.value.counter == counter + (|r.value.stack| - |stack|)
              && |r.value.loaded| - |loaded| == |r.value.stack| - |stack|
              && r.value.loaded[..|loaded|] == loaded
    decreases |queue|
  {
    if |queue| == 0 then Success(Drained(stack, counter, visited, loaded))
    else
      var q := queue[|queue| - 1];
      var rest := queue[..|queue| - 1];
      if q.path in visited then
        Drain(env, rest, stack, counter, visited, loaded, parent)
      else
        var root :- LoadExternalRoot(env, q.path);
        var frame := Frame(counter + 1, root, q.parentFull, env.parent(q.path), ReferencedBy(parent, q.path));
        var r := Drain(env, rest, stack + [frame], counter + 1, visited + {q.path}, loaded + [q.path], parent);
        assert r.Success? ==>
                 && r.value.stack[..|stack|] == r.value.stack[..|stack| + 1][..|stack|]
                 && r.value.loaded[..|loaded|] == r.value.loaded[..|loaded| + 1][..|loaded|];
        r
  }

  /** A frame the drain pushed for path `p`: the root of the tileset loaded
      from `p`, based at its directory, carrying the transform queued with `p`. */
  predicate PushedFor(env: Env, queue: seq<Pending>, visited: set<string>, parent: nat, f: Frame, p: string) {
    && f.cause == ReferencedBy(parent, p)
    && p in env.docs
    && p !in visited
    && LoadExternalRoot(env, p) == Success(f.tile)
    && f.baseDir == env.parent(p)
    && Pending(p, f.parentFull) in queue
  }

  /** Every frame the drain pushes is the root of a newly loaded tileset, with
      the next id from the counter; the k-th pushed frame belongs to the k-th
      newly loaded path. */
  lemma {:induction false} DrainFrames(env: Env, queue: seq<Pending>, stack: seq<Frame>, counter: nat,
                                       visited: set<string>, loaded: seq<string>, parent: nat)
    requires Drain(env, queue, stack, counter, visited, loaded, parent).Success?
    ensures var d := Drain(env, queue, stack, counter, visited, loaded, parent).value;
            forall k :: |stack| <= k < |d.stack| ==>
              && d.stack[k].id == counter + 1 + (k - |stack|)
              && PushedFor(env, queue, visited, parent, d.stack[k], d.loaded[|loaded| + k - |stack|])
    decreases |queue|
  {
    var d := Drain(env, queue, stack, counter, visited, loaded, parent).value;
    if |queue| > 0 {
      var q := queue[|queue| - 1];
      var rest := queue[..|queue| - 1];
      assert forall x :: x in rest ==> x in queue;
      if q.path in visited {
        DrainFrames(env, rest, stack, counter, visited, loaded, parent);
      } else {
        var root := LoadExternalRoot(env, q.path).value;
        var frame := Frame(counter + 1, root, q.parentFull, env.parent(q.path), ReferencedBy(parent, q.path));
        DrainFrames(env, rest, stack + [frame], counter + 1, visited + {q.path}, loaded + [q.path], parent);
        assert d.stack[|stack|] == d.stack[..|stack| + 1][|stack|] == frame;
        assert d.loaded[|loaded|] == d.loaded[..|loaded| + 1][|loaded|] == q.path;
      }
    }
  }

  /** The drain marks every queued path visited, and loads exactly the queued
      paths that were not visited, each once. */
  lemma {:induction false} DrainVisited(env: Env, queue: seq<Pending>, stack: seq<Frame>, counter: nat,
                                        visited: set<string>, loaded: seq<string>, parent: nat)
    requires Drain(env, queue, stack, counter, visited, loaded, parent).Success?
    ensures var d := Drain(env, queue, stack, counter, visited, loaded, parent).value;
            && (forall p :: p in d.visited <==> p in visited || p in d.loaded[|loaded|..])
            && (forall i :: |loaded| <= i < |d.loaded| ==> d.loaded[i] !in visited)
            && (forall i, j :: |loaded| <= i < j < |d.loaded| ==> d.loaded[i] != d.loaded[j])
            && (forall q :: 0 <= q < |queue| ==> queue[q].path in d.visited)
    decreases |queue|
  {
    var d := Drain(env, queue, stack, counter, visited, loaded, parent).value;
    if |queue| > 0 {
      var q := queue[|queue| - 1];
      var rest := queue[..|queue| - 1];
      if q.path in visited {
        DrainVisited(env, rest, stack, counter, visited, loaded, parent);
        assert forall i :: 0 <= i < |rest| ==> rest[i] == queue[i];
      } else {
        var root := LoadExternalRoot(env, q.path).value;
        var frame := Frame(counter + 1, root, q.parentFull, env.parent(q.path), ReferencedBy(parent, q.path));
        DrainVisited(env, rest, stack + [frame], counter + 1, visited + {q.path}, loaded + [q.path], parent);
        assert d.loaded[|loaded|] == d.loaded[..|loaded| + 1][|loaded|] == q.path;
        assert d.loaded[|loaded|..] == [q.path] + d.loaded[|loaded| + 1..];
        assert forall i :: 0 <= i < |rest| ==> rest[i] == queue[i];
      }
    } else {
      assert d.loaded[|loaded|..] == [];
    }
  }

  /** A queue of paths that were all visited already drains to nothing. */
  lemma {:induction false} DrainAllVisited(env: Env, queue: seq<Pending>, stack: seq<Frame>, counter: nat,
                                           visited: set<string>, loaded: seq<string>, parent: nat)
    requires forall q :: 0 <= q < |queue| ==> queue[q].path in visited
    ensures Drain(env, queue, stack, counter, visited, loaded, parent) == Success(Drained(stack, counter, visited, loaded))
    decreases |queue|
  {
    if |queue| > 0 {
      var rest := queue[..|queue| - 1];
      assert forall i :: 0 <= i < |rest| ==> rest[i] == queue[i];
      DrainAllVisited(env, rest, stack, counter, visited, loaded, parent);
    }
  }

  /** A drain fails only when an external tileset cannot be loaded. */
  lemma {:induction false} DrainRaises(env: Env, queue: seq<Pending>, stack: seq<Frame>, counter: nat,
                                       visited: set<string>, loaded: seq<string>, parent: nat)
    requires Drain(env, queue, stack, counter, visited, loaded, parent).Failure?
    ensures var e := Drain(env, queue, stack, counter, visited, loaded, parent).error;
            e.UnreadableTileset? || e.NotAnObject? || e.ExternalMissingRoot?
    decreases |queue|
  {
    var q := queue[|queue| - 1];
    var rest := queue[..|queue| - 1];
    if q.path in visited {
      DrainRaises(env, rest, stack, counter, visited, loaded, parent);
    } else if LoadExternalRoot(env, q.path).Success? {
      var root := LoadExternalRoot(env, q.path).value;
      var frame := Frame(counter + 1, root, q.parentFull, env.parent(q.path), ReferencedBy(parent, q.path));
      DrainRaises(env, rest, stack + [frame], counter + 1, visited + {q.path}, loaded + [q.path], parent);
    }
  }

  // ---------------------------------------------------------------- one pop

  /** The tile's own transform, or the error raised for it. */
  function LocalTransform(t: Tile): Result<Mat4, ManifestError> {
    MatrixFromTile(Lookup(t, "transform"))
  }

  /** One iteration of `while stack:` in `walk_tileset`, with the consumer's
      work at the `yield` in between: pop, compose, yield (consume), push the
      children, drain the queued tilesets. */
  function Step(env: Env, consume: Consumer, s: WalkState): Result<WalkState, ManifestError>
    requires |s.stack| > 0
  {
    var f := s.stack[|s.stack| - 1];
    match LocalTransform(f.tile)
    case Failure(e) => Failure(e)
    case Success(local) =>
      var v := Visit(f.id, f.tile, f.parentFull, Mul(f.parentFull, local), f.baseDir, f.cause);
      match consume(v)
      case Failure(e) => Failure(e)
      case Success(c) => AfterYield(env, s, v, c)
  }

  /** The children of the visited tile, pushed with the next ids. */
  function Kids(s: WalkState, v: Visit): seq<Frame> {
    ChildFrames(Lookup(v.tile, "children"), s.counter, v.full, v.baseDir, |s.trace|)
  }

  /** What happens once the consumer resumes the generator: the children are
      pushed, then the queued tilesets are drained. */
  function AfterYield(env: Env, s: WalkState, v: Visit, c: Consumed): Result<WalkState, ManifestError>
    requires |s.stack| > 0
  {
    var kids := Kids(s, v);
    match Drain(env, c.queue, s.stack[..|s.stack| - 1] + kids, s.counter + |kids|, s.visited, s.loaded, |s.trace|)
    case Failure(e) => Failure(e)
    case Success(d) => Success(WalkState(d.stack, d.counter, d.visited, s.trace + [v], s.queued + [c.queue], s.records + c.records, d.loaded))
  }

  // ---------------------------------------------------------------- termination measure

  function TileSize(t: Tile): nat {
    Size(JObj(t))
  }

  /** Total size of the tiles on a stack. */
  function Weight(st: seq<Frame>): nat
    decreases |st|
  {
    if |st| == 0 then 0 else Weight(st[..|st| - 1]) + TileSize(st[|st| - 1].tile)
  }

  lemma {:induction false} WeightAppend(a: seq<Frame>, b: seq<Frame>)
    ensures Weight(a + b) == Weight(a) + Weight(b)
    decreases |b|
  {
    if |b| == 0 {
      assert a + b == a;
    } else {
      assert (a + b)[..|a + b| - 1] == a + b[..|b| - 1];
      WeightAppend(a, b[..|b| - 1]);
    }
  }

  lemma {:induction false} SizeSeqSnoc(items: seq<Json>)
    requires |items| > 0
    ensures SizeSeq(items) == SizeSeq(items[..|items| - 1]) + Size(items[|items| - 1])
    decreases |items|
  {
    if |items| > 1 {
      SizeSeqSnoc(items[1..]);
      assert items[1..][..|items| - 2] == items[..|items| - 1][1..];
    }
  }

  /** The pushed children weigh no more than the list they come from. */
  lemma {:induction false} PushChildrenWeight(items: seq<Json>, counter: nat, full: Mat4, baseDir: string, parent: nat)
    ensures Weight(PushChildren(items, counter, full, baseDir, parent)) <= SizeSeq(items)
    decreases |items|
  {
    if |items| > 0 {
      var last := items[|items| - 1];
      SizeSeqSnoc(items);
      if last.JObj? {
        var f := Frame(counter + 1, last.members, full, baseDir, ChildOf(parent));
        var rest := PushChildren(items[..|items| - 1], counter + 1, full, baseDir, parent);
        PushChildrenWeight(items[..|items| - 1], counter + 1, full, baseDir, parent);
        WeightAppend([f], rest);
        assert Weight([f]) == TileSize(last.members) by {
          assert [f][..0] == [];
        }
      } else {
        PushChildrenWeight(items[..|items| - 1], counter, full, baseDir, parent);
      }
    }
  }

  /** The children pushed for a tile weigh strictly less than the tile. */
  lemma ChildFramesWeight(t: Tile, counter: nat, full: Mat4, baseDir: string, parent: nat)
    ensures Weight(ChildFrames(Lookup(t, "children"), counter, full, baseDir, parent)) < TileSize(t)
  {
    var children := Lookup(t, "children");
    GetSmaller(JObj(t), "children");
    if Truthy(children) && children.JArr? {
      PushChildrenWeight(children.items, counter, full, baseDir, parent);
    }
  }

  /** The visit a successful `Step` yields and what the consumer made of it. */
  lemma StepVisit(env: Env, consume: Consumer, s: WalkState) returns (v: Visit, c: Consumed)
    requires |s.stack| > 0 && Step(env, consume, s).Success?
    ensures var top := s.stack[|s.stack| - 1];
            && LocalTransform(top.tile).Success?
            && v == Visit(top.id, top.tile, top.parentFull, Mul(top.parentFull, LocalTransform(top.tile).value),
                          top.baseDir, top.cause)
    ensures consume(v) == Success(c)
    ensures Step(env, consume, s) == AfterYield(env, s, v, c)
  {
    var f := s.stack[|s.stack| - 1];
    var local := LocalTransform(f.tile).value;
    v := Visit(f.id, f.tile, f.parentFull, Mul(f.parentFull, local), f.baseDir, f.cause);
    c := consume(v).value;
  }

  /** The drain a successful `AfterYield` ran, and the state it assembles. */
  lemma AfterYieldDrain(env: Env, s: WalkState, v: Visit, c: Consumed) returns (d: Drained)
    requires |s.stack| > 0 && AfterYield(env, s, v, c).Success?
    ensures Drain(env, c.queue, s.stack[..|s.stack| - 1] + Kids(s, v), s.counter + |Kids(s, v)|,
                  s.visited, s.loaded, |s.trace|) == Success(d)
    ensures AfterYield(env, s, v, c) ==
              Success(WalkState(d.stack, d.counter, d.visited, s.trace + [v], s.queued + [c.queue], s.records + c.records, d.loaded))
  {
    var kids := Kids(s, v);
    d := Drain(env, c.queue, s.stack[..|s.stack| - 1] + kids, s.counter + |kids|, s.visited, s.loaded, |s.trace|).value;
  }

  lemma {:induction false} SubsetCard<T>(a: set<T>, b: set<T>)
    requires a <= b
    ensures |a| <= |b|
    decreases |b|
  {
    if a != {} {
      var y :| y in a;
      SubsetCard(a - {y}, b - {y});
    }
  }

  /** Replacing the top frame by its children lightens the stack. */
  lemma PopWeight(s: WalkState, v: Visit)
    requires |s.stack| > 0 && v.tile == s.stack[|s.stack| - 1].tile
    ensures Weight(s.stack[..|s.stack| - 1] + Kids(s, v)) < Weight(s.stack)
  {
    var top := s.stack[|s.stack| - 1];
    var rest := s.stack[..|s.stack| - 1];
    ChildFramesWeight(v.tile, s.counter, v.full, v.baseDir, |s.trace|);
    WeightAppend(rest, Kids(s, v));
  }

  /** Each pop either loads a tileset not loaded before, or leaves the visited
      set alone and shrinks the stack's total tile size. */
  lemma StepDecreases(env: Env, consume: Consumer, s: WalkState)
    requires |s.stack| > 0 && Step(env, consume, s).Success?
    ensures var n := Step(env, consume, s).value;
            || |env.docs.Keys - n.visited| < |env.docs.Keys - s.visited|
            || (n.visited == s.visited && Weight(n.stack) < Weight(s.stack))
  {
    var v, c := StepVisit(env, consume, s);
    AfterYieldDecreases(env, s, v, c, Step(env, consume, s).value);
  }

  /** The measure drops over the part of a pop after the yield. */
  lemma AfterYieldDecreases(env: Env, s: WalkState, v: Visit, c: Consumed, n: WalkState)
    requires |s.stack| > 0 && v.tile == s.stack[|s.stack| - 1].tile
    requires AfterYield(env, s, v, c) == Success(n)
    ensures || |env.docs.Keys - n.visited| < |env.docs.Keys - s.visited|
            || (n.visited == s.visited && Weight(n.stack) < Weight(s.stack))
  {
    var d := AfterYieldDrain(env, s, v, c);
    var kids := Kids(s, v);
    DrainShrinks(env, c.queue, s.stack[..|s.stack| - 1] + kids, s.counter + |kids|, s.visited, s.loaded, |s.trace|, d);
    PopWeight(s, v);
    MeasureDrops(env.docs.Keys, s.visited, d.visited, s.stack, s.stack[..|s.stack| - 1] + kids, d.stack);
    assert n.stack == d.stack && n.visited == d.visited;
  }

  /** The termination measure, in the abstract: the pop lightens the stack,
      and the drain either leaves it alone or loads an unvisited document. */
  lemma MeasureDrops(keys: set<string>, visited: set<string>, visited': set<string>,
                     before: seq<Frame>, popped: seq<Frame>, after: seq<Frame>)
    requires Weight(popped) < Weight(before)
    requires (visited' == visited && after == popped) || |keys - visited'| < |keys - visited|
    ensures |keys - visited'| < |keys - visited| || (visited' == visited && Weight(after) < Weight(before))
  {
  }

  // ---------------------------------------------------------------- the shape of one pop

  /** A successful drain, spelled out: it pushes the roots `ext` on top of the
      stack it was given and loads `newPaths`, one path per root. */
  lemma DrainSplit(env: Env, queue: seq<Pending>, stack: seq<Frame>, counter: nat,
                   visited: set<string>, loaded: seq<string>, parent: nat)
    returns (ext: seq<Frame>, newPaths: seq<string>)
    requires Drain(env, queue, stack, counter, visited, loaded, parent).Success?
    ensures var d := Drain(env, queue, stack, counter, visited, loaded, parent).value;
            && d.stack == stack + ext
            && d.counter == counter + |ext|
            && d.loaded == loaded + newPaths
            && (forall p :: p in d.visited <==> p in visited || p in newPaths)
    ensures |newPaths| == |ext|
    ensures forall k :: 0 <= k < |ext| ==>
              ext[k].id == counter + 1 + k && PushedFor(env, queue, visited, parent, ext[k], newPaths[k])
    ensures forall i :: 0 <= i < |newPaths| ==> newPaths[i] !in visited
    ensures forall i, j :: 0 <= i < j < |newPaths| ==> newPaths[i] != newPaths[j]
  {
    var d := Drain(env, queue, stack, counter, visited, loaded, parent).value;
    DrainFrames(env, queue, stack, counter, visited, loaded, parent);
    DrainVisited(env, queue, stack, counter, visited, loaded, parent);
    ext := d.stack[|stack|..];
    newPaths := d.loaded[|loaded|..];
    assert d.stack == d.stack[..|stack|] + ext;
    assert d.loaded == d.loaded[..|loaded|] + newPaths;
  }

  /** A drain either loads nothing, leaving the stack and the visited set as
      they were, or loads at least one document not visited before. */
  lemma DrainShrinks(env: Env, queue: seq<Pending>, stack: seq<Frame>, counter: nat,
                     visited: set<string>, loaded: seq<string>, parent: nat, d: Drained)
    requires Drain(env, queue, stack, counter, visited, loaded, parent) == Success(d)
    ensures || (d.visited == visited && d.stack == stack)
            || |env.docs.Keys - d.visited| < |env.docs.Keys - visited|
  {
    var ext, newPaths := DrainSplit(env, queue, stack, counter, visited, loaded, parent);
    if |newPaths| == 0 {
      assert d.stack == stack;
      assert d.visited == visited;
    } else {
      assert PushedFor(env, queue, visited, parent, ext[0], newPaths[0]);
      FewerUnvisited(env.docs.Keys, visited, d.visited, newPaths[0]);
    }
  }

  /** Marking a new member of `keys` visited leaves fewer of them unvisited. */
  lemma FewerUnvisited(keys: set<string>, visited: set<string>, visited': set<string>, x: string)
    requires visited <= visited' && x in keys && x !in visited && x in visited'
    ensures |keys - visited'| < |keys - visited|
  {
    var before, after := keys - visited, keys - visited';
    assert after <= before - {x};
    SubsetCard(after, before - {x});
  }

  /** `n` is what a pop makes of `s`: the top frame is replaced by its
      children (`Kids`) and then by the roots `ext` of the newly loaded
      tilesets `newPaths`; the visit `v` is appended to the trace and the
      consumer's records `c.records` to the records. */
  ghost predicate Shape(env: Env, consume: Consumer, s: WalkState, n: WalkState, v: Visit, c: Consumed,
                        ext: seq<Frame>, newPaths: seq<string>) {
    && |s.stack| > 0
    && var top := s.stack[|s.stack| - 1];
    && LocalTransform(top.tile).Success?
    && v == Visit(top.id, top.tile, top.parentFull, Mul(top.parentFull, LocalTransform(top.tile).value),
                  top.baseDir, top.cause)
    && consume(v) == Success(c)
    && n.stack == s.stack[..|s.stack| - 1] + Kids(s, v) + ext
    && n.counter == s.counter + |Kids(s, v)| + |ext|
    && n.trace == s.trace + [v]
    && n.queued == s.queued + [c.queue]
    && n.records == s.records + c.records
    && n.loaded == s.loaded + newPaths
    && (forall p :: p in n.visited <==> p in s.visited || p in newPaths)
    && |newPaths| == |ext|
    && (forall k :: 0 <= k < |ext| ==>
          && ext[k].id == s.counter + |Kids(s, v)| + 1 + k
          && PushedFor(env, c.queue, s.visited, |s.trace|, ext[k], newPaths[k]))
    && (forall i :: 0 <= i < |newPaths| ==> newPaths[i] !in s.visited)
    && (forall i, j :: 0 <= i < j < |newPaths| ==> newPaths[i] != newPaths[j])
  }

  /** Every successful pop has that shape. */
  lemma StepShape(env: Env, consume: Consumer, s: WalkState) returns (v: Visit, c: Consumed, ext: seq<Frame>, newPaths: seq<string>)
    requires |s.stack| > 0 && Step(env, consume, s).Success?
    ensures Shape(env, consume, s, Step(env, consume, s).value, v, c, ext, newPaths)
  {
    v, c := StepVisit(env, consume, s);
    var d := AfterYieldDrain(env, s, v, c);
    var kids := Kids(s, v);
    ext, newPaths := DrainSplit(env, c.queue, s.stack[..|s.stack| - 1] + kids, s.counter + |kids|,
                                s.visited, s.loaded, |s.trace|);
    var n := Step(env, consume, s).value;
    assert n == WalkState(d.stack, d.counter, d.visited, s.trace + [v], s.queued + [c.queue], s.records + c.records, d.loaded);
    assert n.stack == s.stack[..|s.stack| - 1] + kids + ext;
    assert d.loaded == s.loaded + newPaths;
    assert n.loaded == d.loaded;
  }

  // ---------------------------------------------------------------- the walk invariant

  /** `t` is one of the object children listed under `parent`'s `children`. */
  predicate IsChildTile(parent: Tile, t: Tile) {
    var children := Lookup(parent, "children");
    children.JArr? && t in DictChildren(children.items)
  }

  /** The children frames of a visit: fresh ids from the counter, the visit's
      full transform and base directory, and tiles taken from its `children`. */
  lemma KidsFacts(s: WalkState, v: Visit)
    ensures var kids := Kids(s, v);
            forall k :: 0 <= k < |kids| ==>
              && kids[k].id == s.counter + k + 1
              && kids[k].parentFull == v.full
              && kids[k].baseDir == v.baseDir
              && kids[k].cause == ChildOf(|s.trace|)
              && IsChildTile(v.tile, kids[k].tile)
    ensures IsLeaf(v.tile) ==> Kids(s, v) == []
  {
  }

  function FrameOf(v: Visit): Frame {
    Frame(v.id, v.tile, v.parentFull, v.baseDir, v.cause)
  }

  /** How a frame hangs off the first `n` visits of a trace: the walk's root
      comes before any visit under the identity; a child carries its parent
      visit's full transform and directory; an external root carries the full
      transform of the leaf whose consumer queued its path, and is based at
      that path's directory. */
  predicate Linked(env: Env, trace: seq<Visit>, queued: seq<seq<Pending>>, f: Frame, n: nat)
    requires n <= |trace|
  {
    match f.cause
    case Start => n == 0 && f.id == 0 && f.parentFull == Identity()
    case ChildOf(i) =>
      && i < n
      && f.parentFull == trace[i].full
      && f.baseDir == trace[i].baseDir
      && IsChildTile(trace[i].tile, f.tile)
    case ReferencedBy(i, p) =>
      && i < n
      && i < |queued|
      && Pending(p, f.parentFull) in queued[i]
      && LoadExternalRoot(env, p) == Success(f.tile)
      && f.baseDir == env.parent(p)
  }

  /** A visit's full transform is its parent transform times its own. */
  predicate Composed(v: Visit) {
    LocalTransform(v.tile).Success? && v.full == Mul(v.parentFull, LocalTransform(v.tile).value)
  }

  /** Ids: increasing up the stack, distinct over the trace, never shared
      between the trace and the stack, and none above the counter. */
  predicate IdsOk(s: WalkState) {
    && (forall i, j :: 0 <= i < j < |s.stack| ==> s.stack[i].id < s.stack[j].id)
    && (forall i :: 0 <= i < |s.stack| ==> s.stack[i].id <= s.counter)
    && (forall i :: 0 <= i < |s.trace| ==> s.trace[i].id <= s.counter)
    && (forall i, j :: 0 <= i < j < |s.trace| ==> s.trace[i].id != s.trace[j].id)
    && (forall i, k :: 0 <= i < |s.trace| && 0 <= k < |s.stack| ==> s.trace[i].id != s.stack[k].id)
  }

  predicate LinksOk(env: Env, s: WalkState) {
    && (|s.trace| == 0 ==> |s.stack| == 1)
    && |s.queued| == |s.trace|
    && (forall k :: 0 <= k < |s.stack| ==> Linked(env, s.trace, s.queued, s.stack[k], |s.trace|))
    && (forall k :: 0 <= k < |s.trace| ==> Linked(env, s.trace, s.queued, FrameOf(s.trace[k]), k) && Composed(s.trace[k]))
  }

  /** The records the consumer made of one visit, or none when it failed. */
  function OwnRecords(consume: Consumer, v: Visit): seq<TileRecord> {
    match consume(v) case Success(c) => c.records case _ => []
  }

  /** The records of a trace: each visit's records, in visit order. */
  function AllRecords(consume: Consumer, trace: seq<Visit>): seq<TileRecord>
    decreases |trace|
  {
    if |trace| == 0 then []
    else
      var last := trace[|trace| - 1];
      AllRecords(consume, trace[..|trace| - 1]) + OwnRecords(consume, last)
  }

  /** Every visit was consumed without error; `queued` holds what each
      consumer queued and `records` what they recorded, in visit order. */
  predicate ConsumerOk(consume: Consumer, s: WalkState) {
    && |s.queued| == |s.trace|
    && (forall k :: 0 <= k < |s.trace| ==>
          consume(s.trace[k]).Success? && consume(s.trace[k]).value.queue == s.queued[k])
    && s.records == AllRecords(consume, s.trace)
  }

  /** The visited set is the set of loaded paths; each was loaded once and
      is a readable document. */
  predicate LoadedOk(env: Env, s: WalkState) {
    && (forall p :: p in s.visited ==> p in s.loaded)
    && (forall i :: 0 <= i < |s.loaded| ==> s.loaded[i] in s.visited)
    && (forall i, j :: 0 <= i < j < |s.loaded| ==> s.loaded[i] != s.loaded[j])
    && (forall i :: 0 <= i < |s.loaded| ==> s.loaded[i] in env.docs)
  }

  predicate Inv(env: Env, consume: Consumer, s: WalkState) {
    IdsOk(s) && LinksOk(env, s) && ConsumerOk(consume, s) && LoadedOk(env, s)
  }

  lemma IdsStep(s: WalkState, n: WalkState, v: Visit, kids: seq<Frame>, ext: seq<Frame>)
    requires |s.stack| > 0 && v.id == s.stack[|s.stack| - 1].id
    requires n.stack == s.stack[..|s.stack| - 1] + kids + ext
    requires n.counter == s.counter + |kids| + |ext|
    requires n.trace == s.trace + [v]
    requires forall k :: 0 <= k < |kids| ==> kids[k].id == s.counter + k + 1
    requires forall k :: 0 <= k < |ext| ==> ext[k].id == s.counter + |kids| + 1 + k
    requires IdsOk(s)
    ensures IdsOk(n)
  {
    var top := s.stack[|s.stack| - 1];
    var r := |s.stack| - 1;
    // below the popped frame nothing moves; above it the ids count up from the counter
    forall k | 0 <= k < |n.stack|
      ensures k < r ==> n.stack[k] == s.stack[k] && n.stack[k].id < top.id
      ensures k >= r ==> n.stack[k].id == s.counter + 1 + (k - r)
    {
      if k < r {
        assert n.stack[k] == s.stack[k];
      } else if k < r + |kids| {
        assert n.stack[k] == kids[k - r];
      } else {
        assert n.stack[k] == ext[k - r - |kids|];
      }
    }
    assert |n.stack| == r + |kids| + |ext|;
    forall i, j | 0 <= i < j < |n.stack|
      ensures n.stack[i].id < n.stack[j].id
    {
    }
    forall i | 0 <= i < |n.trace|
      ensures n.trace[i].id <= s.counter
      ensures i < |s.trace| ==> n.trace[i] == s.trace[i]
    {
      if i < |s.trace| {
        assert n.trace[i] == s.trace[i];
      } else {
        assert n.trace[i] == v;
      }
    }
    forall i, j | 0 <= i < j < |n.trace|
      ensures n.trace[i].id != n.trace[j].id
    {
      if j == |s.trace| {
        assert n.trace[j] == v;
        assert s.stack[r] == top;
      }
    }
    forall i, k | 0 <= i < |n.trace| && 0 <= k < |n.stack|
      ensures n.trace[i].id != n.stack[k].id
    {
      if i == |s.trace| {
        assert n.trace[i] == v;
        assert s.stack[r] == top;
      }
    }
  }

  lemma LoadedStep(env: Env, consume: Consumer, s: WalkState, n: WalkState, v: Visit, c: Consumed, ext: seq<Frame>, newPaths: seq<string>)
    requires Shape(env, consume, s, n, v, c, ext, newPaths) && LoadedOk(env, s)
    ensures LoadedOk(env, n)
  {
    forall i | 0 <= i < |newPaths|
      ensures newPaths[i] in env.docs
    {
      assert PushedFor(env, c.queue, s.visited, |s.trace|, ext[i], newPaths[i]);
    }
    LoadedAppend(env, s, n, newPaths);
  }

  /** Loading new, distinct, known paths and marking them visited keeps the
      loaded list in step with the visited set. */
  lemma LoadedAppend(env: Env, s: WalkState, n: WalkState, newPaths: seq<string>)
    requires LoadedOk(env, s)
    requires n.loaded == s.loaded + newPaths
    requires forall p :: p in n.visited <==> p in s.visited || p in newPaths
    requires forall i :: 0 <= i < |newPaths| ==> newPaths[i] in env.docs && newPaths[i] !in s.visited
    requires forall i, j :: 0 <= i < j < |newPaths| ==> newPaths[i] != newPaths[j]
    ensures LoadedOk(env, n)
  {
    forall i | 0 <= i < |n.loaded|
      ensures i < |s.loaded| ==> n.loaded[i] == s.loaded[i]
      ensures i >= |s.loaded| ==> n.loaded[i] == newPaths[i - |s.loaded|]
    {
    }
  }

  /** A link to the first `n` visits survives appending a visit, and may be
      read against a longer prefix unless it is the root's. */
  lemma LinkedExtend(env: Env, trace: seq<Visit>, queued: seq<seq<Pending>>, v: Visit, q: seq<Pending>,
                     f: Frame, n: nat, m: nat)
    requires n <= m <= |trace| + 1 && n <= |trace|
    requires Linked(env, trace, queued, f, n)
    requires n == m || !f.cause.Start?
    ensures Linked(env, trace + [v], queued + [q], f, m)
  {
    match f.cause
    case Start =>
    case ChildOf(i) => assert (trace + [v])[i] == trace[i];
    case ReferencedBy(i, _) => assert (trace + [v])[i] == trace[i] && (queued + [q])[i] == queued[i];
  }

  /** The frames below the popped one keep their links. */
  lemma RestLinksStep(env: Env, consume: Consumer, s: WalkState, n: WalkState, v: Visit, c: Consumed, ext: seq<Frame>, newPaths: seq<string>)
    requires Shape(env, consume, s, n, v, c, ext, newPaths) && LinksOk(env, s)
    ensures forall k :: 0 <= k < |s.stack| - 1 ==> Linked(env, n.trace, n.queued, n.stack[k], |n.trace|)
  {
    var t := |s.trace|;
    forall k | 0 <= k < |s.stack| - 1
      ensures Linked(env, n.trace, n.queued, n.stack[k], |n.trace|)
    {
      assert n.stack[k] == s.stack[k];
      LinkedExtend(env, s.trace, s.queued, v, c.queue, s.stack[k], t, t + 1);
    }
  }

  /** The pushed children hang off the new visit. */
  lemma KidsLinksStep(env: Env, consume: Consumer, s: WalkState, n: WalkState, v: Visit, c: Consumed, ext: seq<Frame>, newPaths: seq<string>)
    requires Shape(env, consume, s, n, v, c, ext, newPaths)
    ensures forall k :: |s.stack| - 1 <= k < |s.stack| - 1 + |Kids(s, v)| ==> Linked(env, n.trace, n.queued, n.stack[k], |n.trace|)
  {
    KidsFacts(s, v);
    var r := |s.stack| - 1;
    var kids := Kids(s, v);
    assert n.trace[|s.trace|] == v;
    forall k | r <= k < r + |kids|
      ensures Linked(env, n.trace, n.queued, n.stack[k], |n.trace|)
    {
      assert n.stack[k] == kids[k - r];
    }
  }

  /** A root pushed for a path the visit's consumer queued hangs off that visit. */
  lemma ExtLink(env: Env, trace: seq<Visit>, queued: seq<seq<Pending>>, v: Visit, queue: seq<Pending>,
                e: Frame, p: string, visited: set<string>)
    requires |queued| == |trace|
    requires PushedFor(env, queue, visited, |trace|, e, p)
    ensures Linked(env, trace + [v], queued + [queue], e, |trace| + 1)
  {
    var j :| 0 <= j < |queue| && queue[j] == Pending(p, e.parentFull);
    assert (trace + [v])[|trace|] == v && (queued + [queue])[|trace|] == queue;
  }

  /** The pushed external roots hang off the new visit, a leaf whose consumer
      queued their paths. */
  lemma ExtLinksStep(env: Env, s: WalkState, n: WalkState, v: Visit, queue: seq<Pending>,
                     kids: seq<Frame>, ext: seq<Frame>, newPaths: seq<string>)
    requires |s.stack| > 0 && |s.queued| == |s.trace|
    requires n.stack == s.stack[..|s.stack| - 1] + kids + ext
    requires n.trace == s.trace + [v] && n.queued == s.queued + [queue]
    requires |newPaths| == |ext|
    requires forall k :: 0 <= k < |ext| ==> PushedFor(env, queue, s.visited, |s.trace|, ext[k], newPaths[k])
    ensures forall k :: |s.stack| - 1 + |kids| <= k < |n.stack| ==> Linked(env, n.trace, n.queued, n.stack[k], |n.trace|)
  {
    var b := |s.stack| - 1 + |kids|;
    forall k | b <= k < |n.stack|
      ensures Linked(env, n.trace, n.queued, n.stack[k], |n.trace|)
    {
      assert n.stack[k] == ext[k - b];
      ExtLink(env, s.trace, s.queued, v, queue, ext[k - b], newPaths[k - b], s.visited);
    }
  }

  lemma TraceLinksStep(env: Env, consume: Consumer, s: WalkState, n: WalkState, v: Visit, c: Consumed, ext: seq<Frame>, newPaths: seq<string>)
    requires Shape(env, consume, s, n, v, c, ext, newPaths) && LinksOk(env, s)
    ensures forall k :: 0 <= k < |n.trace| ==> Linked(env, n.trace, n.queued, FrameOf(n.trace[k]), k) && Composed(n.trace[k])
  {
    var top := s.stack[|s.stack| - 1];
    var t := |s.trace|;
    assert n.trace[t] == v && FrameOf(v) == top;
    forall k | 0 <= k < |n.trace|
      ensures Linked(env, n.trace, n.queued, FrameOf(n.trace[k]), k) && Composed(n.trace[k])
    {
      if k < t {
        assert n.trace[k] == s.trace[k];
        LinkedExtend(env, s.trace, s.queued, v, c.queue, FrameOf(s.trace[k]), k, k);
      } else {
        LinkedExtend(env, s.trace, s.queued, v, c.queue, top, t, t);
      }
    }
  }

  lemma AllRecordsSnoc(consume: Consumer, trace: seq<Visit>, v: Visit, c: Consumed)
    requires consume(v) == Success(c)
    ensures AllRecords(consume, trace + [v]) == AllRecords(consume, trace) + c.records
  {
    assert (trace + [v])[..|trace|] == trace;
  }

  lemma ConsumerStep(env: Env, consume: Consumer, s: WalkState, n: WalkState, v: Visit, c: Consumed, ext: seq<Frame>, newPaths: seq<string>)
    requires Shape(env, consume, s, n, v, c, ext, newPaths) && ConsumerOk(consume, s)
    ensures ConsumerOk(consume, n)
  {
    AllRecordsSnoc(consume, s.trace, v, c);
    forall k | 0 <= k < |n.trace|
      ensures consume(n.trace[k]).Success? && consume(n.trace[k]).value.queue == n.queued[k]
    {
      if k < |s.trace| {
        assert n.trace[k] == s.trace[k];
      } else {
        assert n.trace[k] == v;
      }
    }
  }

  lemma StepKeepsIds(env: Env, consume: Consumer, s: WalkState)
    requires |s.stack| > 0 && Step(env, consume, s).Success? && IdsOk(s)
    ensures IdsOk(Step(env, consume, s).value)
  {
    var v, c, ext, newPaths := StepShape(env, consume, s);
    KidsFacts(s, v);
    IdsStep(s, Step(env, consume, s).value, v, Kids(s, v), ext);
  }

  lemma StepKeepsLinks(env: Env, consume: Consumer, s: WalkState)
    requires |s.stack| > 0 && Step(env, consume, s).Success? && LinksOk(env, s)
    ensures LinksOk(env, Step(env, consume, s).value)
  {
    var n := Step(env, consume, s).value;
    var v, c, ext, newPaths := StepShape(env, consume, s);
    RestLinksStep(env, consume, s, n, v, c, ext, newPaths);
    KidsLinksStep(env, consume, s, n, v, c, ext, newPaths);
    ExtLinksStep(env, s, n, v, c.queue, Kids(s, v), ext, newPaths);
    TraceLinksStep(env, consume, s, n, v, c, ext, newPaths);
  }

  lemma StepKeepsConsumer(env: Env, consume: Consumer, s: WalkState)
    requires |s.stack| > 0 && Step(env, consume, s).Success? && ConsumerOk(consume, s)
    ensures ConsumerOk(consume, Step(env, consume, s).value)
  {
    var v, c, ext, newPaths := StepShape(env, consume, s);
    ConsumerStep(env, consume, s, Step(env, consume, s).value, v, c, ext, newPaths);
  }

  lemma StepKeepsLoaded(env: Env, consume: Consumer, s: WalkState)
    requires |s.stack| > 0 && Step(env, consume, s).Success? && LoadedOk(env, s)
    ensures LoadedOk(env, Step(env, consume, s).value)
  {
    var v, c, ext, newPaths := StepShape(env, consume, s);
    LoadedStep(env, consume, s, Step(env, consume, s).value, v, c, ext, newPaths);
  }

  /** One pop keeps the walk invariant. */
  lemma StepPreservesInv(env: Env, consume: Consumer, s: WalkState)
    requires |s.stack| > 0 && Step(env, consume, s).Success? && Inv(env, consume, s)
    ensures Inv(env, consume, Step(env, consume, s).value)
  {
    StepKeepsIds(env, consume, s);
    StepKeepsLinks(env, consume, s);
    StepKeepsConsumer(env, consume, s);
    StepKeepsLoaded(env, consume, s);
  }

  /** The walk starts in a state satisfying the invariant. */
  lemma InitInv(env: Env, consume: Consumer, root: Tile, baseDir: string)
    ensures Inv(env, consume, Init(root, baseDir))
  {
  }

  // ---------------------------------------------------------------- the whole walk

  /** The stack as `walk_tileset` seeds it: the root with id `tile_000000`
      under the identity transform. */
  function Init(root: Tile, baseDir: string): WalkState {
    WalkState([Frame(0, root, Identity(), baseDir, Start)], 0, {}, [], [], [], [])
  }

  /** The walk run to completion: pops until the stack is empty or a step
      raises. It terminates even when tilesets reference each other in a
      cycle, because each path is loaded at most once. */
  function Run(env: Env, consume: Consumer, s: WalkState): Result<WalkState, ManifestError>
    decreases |env.docs.Keys - s.visited|, Weight(s.stack)
  {
    if |s.stack| == 0 then Success(s)
    else
      match Step(env, consume, s)
      case Failure(e) => Failure(e)
      case Success(n) =>
        StepDecreases(env, consume, s);
        Run(env, consume, n)
  }

  /** A pop fails only with an error the walk raises. */
  lemma StepRaises(env: Env, consume: Consumer, s: WalkState)
    requires RaisesWalkErrors(consume)
    requires |s.stack| > 0 && Step(env, consume, s).Failure?
    ensures RaisedByWalk(Step(env, consume, s).error)
  {
    var f := s.stack[|s.stack| - 1];
    if LocalTransform(f.tile).Success? {
      var v := Visit(f.id, f.tile, f.parentFull, Mul(f.parentFull, LocalTransform(f.tile).value), f.baseDir, f.cause);
      if consume(v).Success? {
        AfterYieldRaises(env, s, v, consume(v).value);
      }
    }
  }

  /** Once the consumer is done, only loading an external tileset can fail. */
  lemma AfterYieldRaises(env: Env, s: WalkState, v: Visit, c: Consumed)
    requires |s.stack| > 0 && AfterYield(env, s, v, c).Failure?
    ensures var e := AfterYield(env, s, v, c).error;
            e.UnreadableTileset? || e.NotAnObject? || e.ExternalMissingRoot?
  {
    var kids := Kids(s, v);
    DrainRaises(env, c.queue, s.stack[..|s.stack| - 1] + kids, s.counter + |kids|, s.visited, s.loaded, |s.trace|);
  }

  /** A run fails only with an error the walk raises. */
  lemma {:induction false} RunRaises(env: Env, consume: Consumer, s: WalkState)
    requires RaisesWalkErrors(consume)
    requires Run(env, consume, s).Failure?
    ensures RaisedByWalk(Run(env, consume, s).error)
    decreases |env.docs.Keys - s.visited|, Weight(s.stack)
  {
    if Step(env, consume, s).Failure? {
      StepRaises(env, consume, s);
    } else {
      var n := Step(env, consume, s).value;
      StepDecreases(env, consume, s);
      assert Run(env, consume, s) == Run(env, consume, n);
      RunRaises(env, consume, n);
    }
  }

  /** A pop appends exactly one visit to the trace and only appends records. */
  lemma StepExtends(env: Env, consume: Consumer, s: WalkState)
    requires |s.stack| > 0 && Step(env, consume, s).Success?
    ensures var n := Step(env, consume, s).value;
            && |n.trace| == |s.trace| + 1 && n.trace[..|s.trace|] == s.trace
            && |s.records| <= |n.records| && n.records[..|s.records|] == s.records
  {
    var v, c := StepVisit(env, consume, s);
    var d := AfterYieldDrain(env, s, v, c);
    var n := Step(env, consume, s).value;
    assert n.trace == s.trace + [v];
    assert n.records == s.records + c.records;
  }

  /** A run that succeeds ends with an empty stack and only ever appends to
      the trace and to the records. */
  lemma {:induction false} RunExtends(env: Env, consume: Consumer, s: WalkState)
    requires Run(env, consume, s).Success?
    ensures var r := Run(env, consume, s).value;
            && |r.stack| == 0
            && |s.trace| <= |r.trace| && r.trace[..|s.trace|] == s.trace
            && |s.records| <= |r.records| && r.records[..|s.records|] == s.records
    decreases |env.docs.Keys - s.visited|, Weight(s.stack)
  {
    if |s.stack| > 0 {
      var n := Step(env, consume, s).value;
      StepDecreases(env, consume, s);
      assert Run(env, consume, s) == Run(env, consume, n);
      StepExtends(env, consume, s);
      RunExtends(env, consume, n);
      var r := Run(env, consume, n).value;
      assert r.trace[..|s.trace|] == r.trace[..|n.trace|][..|s.trace|];
      assert r.records[..|s.records|] == r.records[..|n.records|][..|s.records|];
    }
  }

  /** The invariant holds at the end of every successful run started in it. */
  lemma {:induction false} RunInv(env: Env, consume: Consumer, s: WalkState)
    requires Inv(env, consume, s) && Run(env, consume, s).Success?
    ensures Inv(env, consume, Run(env, consume, s).value)
    decreases |env.docs.Keys - s.visited|, Weight(s.stack)
  {
    if |s.stack| > 0 {
      var n := Step(env, consume, s).value;
      StepDecreases(env, consume, s);
      assert Run(env, consume, s) == Run(env, consume, n);
      StepPreservesInv(env, consume, s);
      RunInv(env, consume, n);
    }
  }

  /** `walk_tileset` driven by the loop of `build_manifest`: the explicit
      stack is popped until it is empty or an error is raised. */
  method Walk(env: Env, consume: Consumer, root: Tile, baseDir: string) returns (r: Result<WalkState, ManifestError>)
    ensures r == Run(env, consume, Init(root, baseDir))
    ensures r.Success? ==> Inv(env, consume, r.value) && |r.value.stack| == 0
  {
    var s := Init(root, baseDir);
    InitInv(env, consume, root, baseDir);
    while |s.stack| > 0
      invariant Inv(env, consume, s)
      invariant Run(env, consume, s) == Run(env, consume, Init(root, baseDir))
      decreases |env.docs.Keys - s.visited|, Weight(s.stack)
    {
      match Step(env, consume, s)
      case Failure(e) =>
        return Failure(e);
      case Success(n) =>
        StepDecreases(env, consume, s);
        StepPreservesInv(env, consume, s);
        s := n;
    }
    return Success(s);
  }

  // ---------------------------------------------------------------- order of the walk

  /** Popping an inner tile pushes its object children so that the first
      child in list order is on top: children are visited in list order, yet
      the ids were handed out from the last child to the first. Nothing
      below is touched and nothing is loaded. */
  lemma ChildrenOrder(env: Env, s: WalkState, n: WalkState)
    requires |s.stack| > 0 && Step(env, ManifestConsumer(env), s) == Success(n)
    requires !IsLeaf(s.stack[|s.stack| - 1].tile)
    ensures var children := Lookup(s.stack[|s.stack| - 1].tile, "children");
            var dc := PushedTiles(children);
            && n.stack[..|s.stack| - 1] == s.stack[..|s.stack| - 1]
            && |n.stack| == |s.stack| - 1 + |dc|
            && n.counter == s.counter + |dc|
            && n.visited == s.visited
            && (forall k :: 0 <= k < |dc| ==>
                  n.stack[|n.stack| - 1 - k].tile == dc[k] && n.stack[|n.stack| - 1 - k].id == s.counter + |dc| - k)
  {
    var v := InnerStep(env, s);
    PushedChildrenOrder(s, v, n);
  }

  /** The order of the children once they replace the popped tile. */
  lemma PushedChildrenOrder(s: WalkState, v: Visit, n: WalkState)
    requires |s.stack| > 0 && v.tile == s.stack[|s.stack| - 1].tile
    requires n.stack == s.stack[..|s.stack| - 1] + Kids(s, v)
    requires n.counter == s.counter + |Kids(s, v)|
    ensures var children := Lookup(v.tile, "children");
            var dc := PushedTiles(children);
            && n.stack[..|s.stack| - 1] == s.stack[..|s.stack| - 1]
            && |n.stack| == |s.stack| - 1 + |dc|
            && n.counter == s.counter + |dc|
            && (forall k :: 0 <= k < |dc| ==>
                  n.stack[|n.stack| - 1 - k].tile == dc[k] && n.stack[|n.stack| - 1 - k].id == s.counter + |dc| - k)
  {
    var rest := s.stack[..|s.stack| - 1];
    assert |rest| == |s.stack| - 1;
    KidsOrder(rest, Kids(s, v), n.stack, Lookup(v.tile, "children"), s.counter, v.full, v.baseDir, |s.trace|);
  }

  /** A pop of an inner tile: its consumer queues nothing, so the drain does
      nothing and the children alone replace it. */
  lemma InnerStep(env: Env, s: WalkState) returns (v: Visit)
    requires |s.stack| > 0 && Step(env, ManifestConsumer(env), s).Success?
    requires !IsLeaf(s.stack[|s.stack| - 1].tile)
    ensures v.tile == s.stack[|s.stack| - 1].tile
    ensures var n := Step(env, ManifestConsumer(env), s).value;
            && n.stack == s.stack[..|s.stack| - 1] + Kids(s, v)
            && n.counter == s.counter + |Kids(s, v)|
            && n.visited == s.visited
  {
    var c;
    v, c := StepVisit(env, ManifestConsumer(env), s);
    assert c == Consumed([], []);
    var d := AfterYieldDrain(env, s, v, c);
    var kids := Kids(s, v);
    assert d == Drained(s.stack[..|s.stack| - 1] + kids, s.counter + |kids|, s.visited, s.loaded);
  }

  /** Pushed children sit above the frames below them, the first object
      child on top, with ids counting down from the top. */
  lemma KidsOrder(rest: seq<Frame>, kids: seq<Frame>, stack: seq<Frame>,
                  children: Json, counter: nat, full: Mat4, baseDir: string, parent: nat)
    requires kids == ChildFrames(children, counter, full, baseDir, parent)
    requires stack == rest + kids
    ensures var dc := PushedTiles(children);
            && stack[..|rest|] == rest
            && |stack| == |rest| + |dc|
            && |kids| == |dc|
            && (forall k :: 0 <= k < |dc| ==>
                  stack[|stack| - 1 - k].tile == dc[k] && stack[|stack| - 1 - k].id == counter + |dc| - k)
  {
    var dc := PushedTiles(children);
    assert stack[..|rest|] == rest;
    forall k | 0 <= k < |dc|
      ensures stack[|stack| - 1 - k].tile == dc[k] && stack[|stack| - 1 - k].id == counter + |dc| - k
    {
      assert stack[|stack| - 1 - k] == kids[|kids| - 1 - k];
    }
  }

  /** Popping a leaf pushes no children; whatever it pushes goes on top of the
      frames already waiting, and every such frame is the root of an external
      tileset this leaf referenced, with an id above the counter. So external
      roots are visited before the siblings stacked earlier. This holds for
      any consumer. */
  lemma ExternalRootsOnTop(env: Env, consume: Consumer, s: WalkState)
    requires |s.stack| > 0 && Step(env, consume, s).Success?
    requires IsLeaf(s.stack[|s.stack| - 1].tile)
    ensures var n := Step(env, consume, s).value;
            && |n.stack| >= |s.stack| - 1
            && n.stack[..|s.stack| - 1] == s.stack[..|s.stack| - 1]
            && forall k :: |s.stack| - 1 <= k < |n.stack| ==>
                 && n.stack[k].cause.ReferencedBy?
                 && n.stack[k].cause.parent == |s.trace|
                 && n.stack[k].id > s.counter
  {
    var ext := LeafStep(env, consume, s);
    var n := Step(env, consume, s).value;
    assert n.stack[..|s.stack| - 1] == s.stack[..|s.stack| - 1];
    forall k | |s.stack| - 1 <= k < |n.stack|
      ensures n.stack[k].cause.ReferencedBy? && n.stack[k].cause.parent == |s.trace| && n.stack[k].id > s.counter
    {
      assert n.stack[k] == ext[k - (|s.stack| - 1)];
    }
  }

  /** A pop of a leaf: no children, only the roots the drain pushed. */
  lemma LeafStep(env: Env, consume: Consumer, s: WalkState) returns (ext: seq<Frame>)
    requires |s.stack| > 0 && Step(env, consume, s).Success?
    requires IsLeaf(s.stack[|s.stack| - 1].tile)
    ensures Step(env, consume, s).value.stack == s.stack[..|s.stack| - 1] + ext
    ensures forall k :: 0 <= k < |ext| ==>
              ext[k].cause.ReferencedBy? && ext[k].cause.parent == |s.trace| && ext[k].id == s.counter + 1 + k
  {
    var v, c := StepVisit(env, consume, s);
    ext := LeafAfterYield(env, s, v, c, Step(env, consume, s).value);
  }

  /** The part of a leaf's pop after the yield: no children, only the roots
      the drain pushed. */
  lemma LeafAfterYield(env: Env, s: WalkState, v: Visit, c: Consumed, n: WalkState) returns (ext: seq<Frame>)
    requires |s.stack| > 0 && IsLeaf(v.tile)
    requires AfterYield(env, s, v, c) == Success(n)
    ensures n.stack == s.stack[..|s.stack| - 1] + ext
    ensures forall k :: 0 <= k < |ext| ==>
              ext[k].cause.ReferencedBy? && ext[k].cause.parent == |s.trace| && ext[k].id == s.counter + 1 + k
  {
    var d := AfterYieldDrain(env, s, v, c);
    KidsFacts(s, v);
    var newPaths;
    ext, newPaths := DrainSplit(env, c.queue, s.stack[..|s.stack| - 1] + Kids(s, v), s.counter, s.visited, s.loaded, |s.trace|);
    forall k | 0 <= k < |ext|
      ensures ext[k].cause.ReferencedBy? && ext[k].cause.parent == |s.trace| && ext[k].id == s.counter + 1 + k
    {
      assert PushedFor(env, c.queue, s.visited, |s.trace|, ext[k], newPaths[k]);
    }
  }

  /** When every tileset a tile references has been visited already, popping
      it loads nothing; a leaf then leaves just the frames below it. */
  lemma VisitedSkipped(env: Env, s: WalkState)
    requires |s.stack| > 0 && Step(env, ManifestConsumer(env), s).Success?
    requires var top := s.stack[|s.stack| - 1];
             forall u :: u in ContentUris(top.tile) && IsTilesetUri(u) ==>
               ContentPath(env, top.baseDir, u) in s.visited
    ensures var n := Step(env, ManifestConsumer(env), s).value;
            && n.visited == s.visited
            && n.loaded == s.loaded
            && (IsLeaf(s.stack[|s.stack| - 1].tile) ==> n.stack == s.stack[..|s.stack| - 1])
  {
    var v, c := StepVisit(env, ManifestConsumer(env), s);
    ConsumeFacts(env, v);
    forall k | 0 <= k < |c.queue|
      ensures c.queue[k].path in s.visited
    {
      assert QueuedFrom(env, v, ContentUris(v.tile), c.queue[k].path);
    }
    QueuedVisitedStep(env, ManifestConsumer(env), s, v, c);
    KidsFacts(s, v);
  }

  /** For any consumer: when it queues only visited paths, the drain loads
      nothing and only the children replace the popped tile. */
  lemma QueuedVisitedStep(env: Env, consume: Consumer, s: WalkState, v: Visit, c: Consumed)
    requires |s.stack| > 0 && Step(env, consume, s).Success?
    requires Step(env, consume, s) == AfterYield(env, s, v, c)
    requires forall k :: 0 <= k < |c.queue| ==> c.queue[k].path in s.visited
    ensures var n := Step(env, consume, s).value;
            && n.visited == s.visited
            && n.loaded == s.loaded
            && n.stack == s.stack[..|s.stack| - 1] + Kids(s, v)
  {
    var d := AfterYieldDrain(env, s, v, c);
    var base := s.stack[..|s.stack| - 1] + Kids(s, v);
    DrainAllVisited(env, c.queue, base, s.counter + |Kids(s, v)|, s.visited, s.loaded, |s.trace|);
  }

  // ---------------------------------------------------------------- facts about a finished walk

  /** Distinct visits carry distinct tile names. */
  lemma DistinctTileNames(s: WalkState)
    requires IdsOk(s)
    ensures forall i, j :: 0 <= i < j < |s.trace| ==> TileName(s.trace[i].id) != TileName(s.trace[j].id)
  {
    forall i, j | 0 <= i < j < |s.trace|
      ensures TileName(s.trace[i].id) != TileName(s.trace[j].id)
    {
      TileNameInjective(s.trace[i].id, s.trace[j].id);
    }
  }

  /** An external root hangs off a leaf of the walk: its path was queued by
      that leaf's consumer from one of its tileset URIs, has a `.json`
      suffix, and comes with the leaf's full transform. */
  lemma ExternalRootOrigin(env: Env, s: WalkState, f: Frame, n: nat)
    requires ConsumerOk(ManifestConsumer(env), s)
    requires n <= |s.trace| && Linked(env, s.trace, s.queued, f, n) && f.cause.ReferencedBy?
    ensures var v := s.trace[f.cause.parent];
            && IsLeaf(v.tile)
            && f.parentFull == v.full
            && HasJsonSuffix(f.cause.path)
            && QueuedFrom(env, v, ContentUris(v.tile), f.cause.path)
  {
    var i, p := f.cause.parent, f.cause.path;
    var v := s.trace[i];
    var c := Consume(env, v).value;
    assert c.queue == s.queued[i];
    ConsumeFacts(env, v);
    var j :| 0 <= j < |c.queue| && c.queue[j] == Pending(p, f.parentFull);
  }

  /** A record belongs to one of the visits of a trace. */
  predicate Belongs(env: Env, trace: seq<Visit>, rec: TileRecord) {
    exists i :: 0 <= i < |trace| && BelongsTo(env, trace[i], rec)
  }

  /** `rec` is a record of visit `v`, for one of its `.b3dm` content URIs. */
  predicate BelongsTo(env: Env, v: Visit, rec: TileRecord) {
    RecordOf(env, v, rec) && RecordedFrom(env, v, ContentUris(v.tile), rec.b3dmPath)
  }

  lemma OwnRecordsBelong(env: Env, v: Visit)
    ensures forall k :: 0 <= k < |OwnRecords(ManifestConsumer(env), v)| ==>
              BelongsTo(env, v, OwnRecords(ManifestConsumer(env), v)[k])
  {
    if Consume(env, v).Success? {
      ConsumeFacts(env, v);
    }
  }

  /** `rec` is one of the records some visit of `trace` produced. */
  predicate ProducedIn(consume: Consumer, trace: seq<Visit>, rec: TileRecord) {
    exists i :: 0 <= i < |trace| && rec in OwnRecords(consume, trace[i])
  }

  /** Every record collected over a trace is one of the records some visit's
      consumer produced, for any consumer. */
  lemma {:induction false} AllRecordsFrom(consume: Consumer, trace: seq<Visit>)
    ensures forall k :: 0 <= k < |AllRecords(consume, trace)| ==> ProducedIn(consume, trace, AllRecords(consume, trace)[k])
    decreases |trace|
  {
    if |trace| > 0 {
      var init := trace[..|trace| - 1];
      var last := trace[|trace| - 1];
      AllRecordsFrom(consume, init);
      var all := AllRecords(consume, trace);
      var front := AllRecords(consume, init);
      var own := OwnRecords(consume, last);
      assert all == front + own;
      forall k | 0 <= k < |all|
        ensures ProducedIn(consume, trace, all[k])
      {
        if k < |front| {
          assert ProducedIn(consume, init, front[k]);
          var i :| 0 <= i < |init| && front[k] in OwnRecords(consume, init[i]);
          assert all[k] == front[k] && trace[i] == init[i];
        } else {
          assert all[k] == own[k - |front|];
          assert trace[|trace| - 1] == last;
        }
      }
    }
  }

  /** Every record the manifest consumer collected over a trace belongs to
      one of its visits: a leaf, with that leaf's id, name, transform and
      bounding volume. */
  lemma AllRecordsBelong(env: Env, trace: seq<Visit>, records: seq<TileRecord>)
    requires records == AllRecords(ManifestConsumer(env), trace)
    ensures forall k :: 0 <= k < |records| ==> Belongs(env, trace, records[k])
  {
    var consume := ManifestConsumer(env);
    var all := AllRecords(consume, trace);
    AllRecordsFrom(consume, trace);
    forall k | 0 <= k < |all|
      ensures Belongs(env, trace, all[k])
    {
      assert ProducedIn(consume, trace, all[k]);
      var i :| 0 <= i < |trace| && all[k] in OwnRecords(consume, trace[i]);
      OwnRecordBelongs(env, trace[i], all[k]);
    }
  }

  lemma OwnRecordBelongs(env: Env, v: Visit, rec: TileRecord)
    requires rec in OwnRecords(ManifestConsumer(env), v)
    ensures BelongsTo(env, v, rec)
  {
    OwnRecordsBelong(env, v);
    var own := OwnRecords(ManifestConsumer(env), v);
    var j :| 0 <= j < |own| && own[j] == rec;
  }

  // ---------------------------------------------------------------- what the walk collects

  /** The records visit `v` calls for: one per `.b3dm` content URI of a leaf,
      none for an inner tile. */
  function LeafRecords(env: Env, v: Visit): seq<TileRecord> {
    if IsLeaf(v.tile) then B3dmRecords(env, v, ContentUris(v.tile)) else []
  }

  /** The records a trace calls for: each visit's, in visit order. */
  function WalkRecords(env: Env, trace: seq<Visit>): seq<TileRecord>
    decreases |trace|
  {
    if |trace| == 0 then [] else WalkRecords(env, trace[..|trace| - 1]) + LeafRecords(env, trace[|trace| - 1])
  }

  /** What the manifest consumer made of a visit it accepted: exactly the
      records and tilesets the visit's content URIs call for. */
  lemma ConsumeExact(env: Env, v: Visit)
    requires Consume(env, v).Success?
    ensures OwnRecords(ManifestConsumer(env), v) == LeafRecords(env, v)
    ensures IsLeaf(v.tile) ==> Consume(env, v).value.queue == TilesetQueue(env, v, ContentUris(v.tile))
  {
    if IsLeaf(v.tile) {
      ConsumeUrisExact(env, v, ContentUris(v.tile));
    }
  }

  /** When every visit was consumed, the records collected over a trace are
      exactly those its leaves' `.b3dm` URIs call for, in visit order and
      then URI order. */
  lemma {:induction false} AllRecordsExact(env: Env, trace: seq<Visit>)
    requires forall k :: 0 <= k < |trace| ==> Consume(env, trace[k]).Success?
    ensures AllRecords(ManifestConsumer(env), trace) == WalkRecords(env, trace)
    decreases |trace|
  {
    if |trace| > 0 {
      var init := trace[..|trace| - 1];
      assert forall k :: 0 <= k < |init| ==> init[k] == trace[k];
      AllRecordsExact(env, init);
      ConsumeExact(env, trace[|trace| - 1]);
    }
  }

  /** Every record a visit produced is among the records of the trace. */
  lemma {:induction false} AllRecordsHas(consume: Consumer, trace: seq<Visit>, i: nat)
    requires i < |trace|
    ensures forall r :: r in OwnRecords(consume, trace[i]) ==> r in AllRecords(consume, trace)
    decreases |trace|
  {
    var init := trace[..|trace| - 1];
    if i < |trace| - 1 {
      AllRecordsHas(consume, init, i);
      assert init[i] == trace[i];
    }
  }

  /** Nothing a leaf calls for is dropped: every `.b3dm` content URI of a
      leaf the walk visited gives a record at its resolved path, named after
      the leaf, and every tileset URI with a `.json` path is queued with the
      leaf's full transform. */
  lemma LeafOutputsCollected(env: Env, s: WalkState)
    requires ConsumerOk(ManifestConsumer(env), s)
    ensures forall i, u :: 0 <= i < |s.trace| && IsLeaf(s.trace[i].tile) && u in ContentUris(s.trace[i].tile) && IsB3dmUri(u) ==>
              RecordFor(env, s.trace[i], ContentPath(env, s.trace[i].baseDir, u)) in s.records
    ensures forall i, u :: 0 <= i < |s.trace| && IsLeaf(s.trace[i].tile) && u in ContentUris(s.trace[i].tile) &&
                           IsTilesetUri(u) && HasJsonSuffix(ContentPath(env, s.trace[i].baseDir, u)) ==>
              Pending(ContentPath(env, s.trace[i].baseDir, u), s.trace[i].full) in s.queued[i]
  {
    var consume := ManifestConsumer(env);
    forall i | 0 <= i < |s.trace| && IsLeaf(s.trace[i].tile)
      ensures forall u :: u in ContentUris(s.trace[i].tile) && IsB3dmUri(u) ==>
                RecordFor(env, s.trace[i], ContentPath(env, s.trace[i].baseDir, u)) in s.records
      ensures forall u :: u in ContentUris(s.trace[i].tile) && IsTilesetUri(u) && HasJsonSuffix(ContentPath(env, s.trace[i].baseDir, u)) ==>
                Pending(ContentPath(env, s.trace[i].baseDir, u), s.trace[i].full) in s.queued[i]
    {
      var v := s.trace[i];
      assert Consume(env, v).Success?;
      ConsumeExact(env, v);
      B3dmRecordsComplete(env, v, ContentUris(v.tile));
      TilesetQueueComplete(env, v, ContentUris(v.tile));
      AllRecordsHas(consume, s.trace, i);
    }
  }
}
