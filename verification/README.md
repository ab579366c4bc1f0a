# 3dtiles2kmz core, modelled in Dafny

3dtiles2kmz turns a 3D Tiles tileset into a KMZ that Google Earth can open. The
pipeline has these stages:

1. It flattens the tile tree into a manifest of `.b3dm` payloads. Each payload
   gets an earth-centred (ECEF) transform.
2. It derives one representative origin for the whole tileset.
3. It re-expresses every tile in the east-north-up (ENU) frame at that origin.
4. It has Blender merge the tiles into one COLLADA model.
5. It places that model with a KML placemark.

This project models the logic of those stages that decides what ends up in the
output.

- **Manifest flattener** (`Tileset`, `TileWalker`, `Origin`, `Manifest`; from
  tileset_manifest.py). The explicit-stack walk works across tilesets that
  reference each other:
  - it composes transforms;
  - it hands out `tile_NNNNNN` ids from one counter;
  - it drains queued external tilesets right after pushing the children;
  - it loads every path at most once.

  The flattener also covers:
  - the leaf and content-URI rules that select the records;
  - the 16-number column-major transform reader;
  - the origin's region → sphere → box → root-translation priority.
- **KML writer** (`KmlWriter`; from kml_writer.py). It covers `_escape`, the
  `lla`-then-`ecef` origin lookup, and the altitude/orientation choices of
  `write_kml`.
- **COLLADA check** (`DaeQc`; from dae_qc.py). It covers:
  - namespace detection;
  - the accessor-stride table;
  - the strided scan that gives the bounding box and position count;
  - the triangle total.
- **Blender export** (`BlenderExport`, `BlenderExporter`; from blender_export.py
  and blender_exporter.py). It covers:
  - the ECEF→ENU matrix;
  - the per-tile local transforms and their validation;
  - the checks and paths of `export_collada`;
  - the command line and the script's own argument parser and matrix reader.

Supporting modules:

| module | what it holds |
|---|---|
| `Wrappers` | `Option`/`Result` |
| `Json` | the JSON values the code probes with `isinstance` and `dict.get` |
| `Text` | string predicates |
| `Decimal` | `str(n)`, `{n:06d}` and `int()` on digit strings |
| `Matrix` | 4×4 real matrices, product, column-major reading and writing |
| `Geo` | the geodesy functions, taken as parameters |

How the model handles the environment:

- **File system.** It is a parameter:
  - a map from resolved path to decoded document;
  - the set of paths that exist;
  - the path functions (`resolve`, `parent`, `/`, `str(Path(...))`).
- **Geodesy and floats.** The WGS84 conversions, `math.degrees`, `sin` and
  `cos` are parameters (`Geo.Geodesy`). Numbers are `real`, so floating-point
  rounding is not modelled.

## Model

| member | source | states |
|---|---|---|
| Tileset.StripQueryFragment | tileset_manifest.py:252-254 | the result is a prefix of the URI holding neither `?` nor `#`; a URI holding neither comes back unchanged |
| Tileset.UriClassification | tileset_manifest.py:237-244 | a URI is a tileset URI exactly when its stripped, lower-cased path ends in `.json` (the `tileset.json` disjunct adds nothing), and no URI is both a `.b3dm` payload and a tileset |
| Tileset.JsonSuffixEndsWithJson | tileset_manifest.py:152-155 | a path whose last suffix lower-cases to `.json` ends in `.json` ignoring case, so every queued external path is a JSON file name |
| Tileset.Suffix | tileset_manifest.py:153 | `Path.suffix` is empty or a dot followed by no further dot, and it ends the path |
| Tileset.UriOfFallback | tileset_manifest.py:214-216 | a non-empty string `uri` is taken; a truthy non-string `uri` gives nothing and does not fall back; a falsy `uri` (missing, empty, null) falls back to a string `url` |
| Tileset.ListUrisAppend | tileset_manifest.py:217-224 | extraction over `contents` is order-preserving and splits over concatenation of the entry list |
| Tileset.ListUrisFromEntries | tileset_manifest.py:217-224 | every extracted URI is the `uri`/`url` string of some object entry of the list |
| Tileset.ListUrisKeepsEntry | tileset_manifest.py:217-224 | an object entry with a URI contributes it exactly at its place: the URIs of the entries before it, its own, then those after it |
| Tileset.ContentUriFirst | tileset_manifest.py:210-216 | the single `content` URI, when present, is the first extracted URI |
| Tileset.ContentUrisSources | tileset_manifest.py:210-225 | every extracted URI is the `uri`/`url` string of `content` or of an object entry of `contents` |
| Tileset.MatrixFromTile | tileset_manifest.py:158-163 | a falsy transform is the identity; the reader fails exactly when a truthy transform is not a 16-element list or holds an element that is neither a number nor a boolean (a `null` element is not modelled, see "Left out"); otherwise entry (i, j) is element 4j+i |
| Tileset.MatrixFromTileRoundTrip | tileset_manifest.py:158-167 | reading a valid 16-number transform and writing it back in column-major order returns the same 16 numbers |
| Matrix.FromToColumnMajor | blender_export.py:96-101 | writing a matrix column-major and reading it back gives the same matrix |
| Matrix.ToFromColumnMajor | blender_export.py:96-101 | reading 16 numbers column-major and writing them back gives the same numbers |
| Matrix.ApplyMul | blender_export.py:76-77 | applying a product to a point is applying the right factor then the left one, when the right factor is affine |
| Origin.DeriveOrigin | tileset_manifest.py:175-207 | priority region, sphere, box, root translation; the region gives the midpoint latitude and longitude in degrees at the minimum height and ignores the transform; a sphere or box of the right length gives exactly its centre under the root transform, converted to a geodetic point, whenever its first three entries are numbers; the root case cannot fail; the derivation fails exactly when the chosen entry holds a non-numeric value, and then with `BadNumber` |
| Origin.RegionIgnoresTransform | tileset_manifest.py:180-189 | with a region present, the origin does not depend on the root transform |
| Origin.SphereAtLocalOriginIsTranslation | tileset_manifest.py:190-196 | a sphere centred at the local origin yields the root transform's translation |
| Origin.RegionBeatsSphere | tileset_manifest.py:180-189 | for region [-1, -0.5, 1, 0.5, 10, 50] next to a sphere, the origin is the region midpoint at latitude and longitude 0 and altitude 10 |
| Origin.SphereUnderIdentity | tileset_manifest.py:190-196 | a sphere [0, 0, 0, 5] under the identity gives the ECEF origin (0, 0, 0) with the sphere strategy |
| TileWalker.TileNameInjective | tileset_manifest.py:123-126 | distinct counter values give distinct `tile_{n:06d}` names, also past six digits |
| TileWalker.TileNameRoot | tileset_manifest.py:111-113 | the root's name `tile_000000` is the name of id 0 |
| TileWalker.LoadDocument | tileset_manifest.py:89-96 | loading succeeds exactly for a readable document that is a JSON object, and returns its members |
| TileWalker.PushChildren | tileset_manifest.py:119-131 | the object children are pushed in reverse list order with consecutive fresh ids, the parent's full transform and directory |
| TileWalker.ChildlessInnerTile | tileset_manifest.py:228-234 | a tile whose `children` is present and not an empty list is not a leaf even when nothing is pushed for it (a non-list value, or a list without objects) |
| TileWalker.ConsumeUri | tileset_manifest.py:47-65 | one URI produces at most one record or one queue entry, and a queue entry comes only from a tileset URI and carries that URI's resolved path |
| TileWalker.ConsumeUriCases | tileset_manifest.py:47-65 | a tileset URI queues its resolved path with the leaf's full transform when that path has a `.json` suffix and nothing otherwise; a `.b3dm` URI whose resolved path exists gives the record for that path, and one whose path is absent fails with `MissingContent` of that path; any other URI gives nothing |
| TileWalker.ConsumeUriFails | tileset_manifest.py:52-56 | one URI makes the consumer fail exactly when it is a `.b3dm` URI whose resolved path does not exist, and the error names that path |
| TileWalker.ConsumeUrisExact | tileset_manifest.py:47-65 | the consumer of a leaf succeeds exactly when every `.b3dm` URI resolves to an existing path; it then yields one record per `.b3dm` URI and one queue entry per `.json` tileset URI, in URI order; otherwise it fails with the first missing payload |
| TileWalker.B3dmRecordsComplete | tileset_manifest.py:52-65 | every `.b3dm` URI of the list has its record, at its resolved path, among the records called for |
| TileWalker.TilesetQueueComplete | tileset_manifest.py:48-51 | every tileset URI whose resolved path has a `.json` suffix is queued with the leaf's full transform |
| TileWalker.ConsumeUrisFacts | tileset_manifest.py:47-65 | every record of a leaf carries its tile's id and name, the glb path `glb_dir/<tile_id>.glb`, its column-major full transform and bounding volume, and the existing resolved path of one of its `.b3dm` URIs; every queue entry is a resolved tileset URI of it queued with the leaf's full transform |
| TileWalker.ConsumeUrisRaises | tileset_manifest.py:54-56 | the consumer fails only on a missing payload |
| TileWalker.ConsumeFacts | tileset_manifest.py:45-65 | a tile that is not a leaf yields nothing; what a leaf yields is what its content URIs produce |
| TileWalker.DrainFrames | tileset_manifest.py:132-150 | every frame the drain pushes is the root of a newly loaded external tileset with the next counter id, the queued parent transform and the document's directory |
| TileWalker.DrainVisited | tileset_manifest.py:132-136 | after a drain every queued path is visited, and exactly the not-yet-visited paths were loaded, each once |
| TileWalker.DrainAllVisited | tileset_manifest.py:134-135 | a queue of already visited paths changes nothing |
| TileWalker.DrainRaises | tileset_manifest.py:137-140 | a drain fails only when an external tileset is unreadable, not an object, or has no object root |
| TileWalker.StepDecreases | tileset_manifest.py:114-150 | each pop either visits a new external path or shrinks the stack's total tile size, so the walk terminates even on cyclic references |
| TileWalker.StepPreservesInv | tileset_manifest.py:114-150 | one pop keeps the walk invariant: ids increase up the stack and are distinct over the trace, every frame is linked to the visit that caused it, full transforms compose, records and queues are the consumer's, visited paths were loaded once |
| TileWalker.InitInv | tileset_manifest.py:111-113 | the initial stack holding the root under the identity satisfies the invariant |
| TileWalker.RunInv | tileset_manifest.py:114-150 | the invariant holds at the end of every successful walk |
| TileWalker.RunRaises | tileset_manifest.py:114-150 | a walk fails only with an error the walker or the consumer raises |
| TileWalker.RunExtends | tileset_manifest.py:114-150 | a successful walk empties the stack and only appends to the trace and records |
| TileWalker.Walk | tileset_manifest.py:105-150 | the loop computes the run and ends with an empty stack in the invariant |
| TileWalker.ChildrenOrder | tileset_manifest.py:119-131 | popping an inner tile leaves the frames below untouched and puts its object children on top, the first child uppermost, with ids counting down from the top; nothing is loaded |
| TileWalker.ExternalRootsOnTop | tileset_manifest.py:132-150 | popping a leaf leaves the frames below untouched; everything above them is an external root referenced by that leaf with an id above the counter |
| TileWalker.LeafStep | tileset_manifest.py:132-150 | the frames a leaf leaves are exactly the pushed external roots, with ids counter+1, counter+2, … |
| TileWalker.VisitedSkipped | tileset_manifest.py:132-136 | when every tileset a tile references is already visited, popping it loads nothing, and a leaf then just disappears from the stack |
| TileWalker.QueuedVisitedStep | tileset_manifest.py:132-136 | for any consumer queueing only visited paths, only the children replace the popped tile |
| TileWalker.DistinctTileNames | tileset_manifest.py:123-145 | the walk never gives the same tile name twice |
| TileWalker.ExternalRootOrigin | tileset_manifest.py:48-50 | an external root hangs off a leaf: the path came from one of its tileset URIs, has a `.json` suffix, and carries the leaf's full transform |
| TileWalker.AllRecordsBelong | tileset_manifest.py:57-65 | every collected record belongs to a visited leaf: that leaf's id, name, glb path, transform and bounding volume, and the resolved path of one of its `.b3dm` URIs |
| TileWalker.ConsumeExact | tileset_manifest.py:45-65 | what the manifest consumer makes of an accepted visit is exactly what its content URIs call for: the `.b3dm` records of a leaf, nothing for an inner tile, and the leaf's `.json` tilesets |
| TileWalker.AllRecordsExact | tileset_manifest.py:36-65 | once every visit is consumed, the records collected are exactly the `.b3dm` records of the visited leaves, in visit order and then URI order |
| TileWalker.LeafOutputsCollected | tileset_manifest.py:47-65 | nothing a visited leaf calls for is dropped: each of its `.b3dm` URIs has its record among the walk's records, and each `.json` tileset URI is queued with the leaf's full transform |
| Manifest.RootVisitedFirst | tileset_manifest.py:36-44 | the first yielded tile is the root with id 0 under the identity, so `root_full` is the root's own transform |
| Manifest.BuildManifestErrors | tileset_manifest.py:26-34 | an unreadable top-level document, a non-object one, and one without an object `root` each fail with their own error; "No tiles found" can never be raised |
| Manifest.BuildManifestSound | tileset_manifest.py:21-86 | a built manifest's tiles are exactly the `.b3dm` records of the visited leaves, in visit and URI order: each belongs to a visited leaf, and every `.b3dm` URI of a visited leaf has its record; the origin is derived from the root tile and its own transform |
| Manifest.ManifestWalkFacts | tileset_manifest.py:36-65 | a successful walk ends in the invariant and begins with the root's own transform; its records are exactly those its leaves call for, each belonging to a visit, and none of a visited leaf's `.b3dm` URIs goes without its record |
| Manifest.EmptyRootManifest | tileset_manifest.py:67-86 | a tileset whose root is an empty object gives an empty tile list with the root strategy at (0, 0, 0) |
| KmlWriter.EscapeIsRef | kml_writer.py:119-126 | the five chained replacements equal escaping character by character |
| KmlWriter.EscapeSingle | kml_writer.py:119-126 | each markup character becomes its own entity, because `&` is replaced first |
| KmlWriter.EscapeAppend | kml_writer.py:119-126 | escaping splits over concatenation |
| KmlWriter.EscapeWellFormed | kml_writer.py:119-126 | escaped text holds no raw `<`, `>`, `"` or `'`, and every `&` starts one of the five entities |
| KmlWriter.EscapeRoundTrip | kml_writer.py:119-126 | decoding the five entities recovers the original text |
| KmlWriter.EscapeLength | kml_writer.py:119-126 | escaping never shortens text, and leaves it unchanged exactly when it holds no markup character |
| KmlWriter.OriginLla | kml_writer.py:59-67 | a 3-element `lla` is used as is; otherwise a 3-element `ecef` is converted; with neither, it fails with the missing-ECEF error |
| KmlWriter.WriteKml | kml_writer.py:19-56 | a non-object origin fails first; otherwise it succeeds exactly when the origin lookup does; the altitude is zero exactly in `clampToGround` mode; heading, tilt and roll are zero; href and mode are escaped |
| KmlWriter.OriginDocumentLla | kml_writer.py:59-63 | the origin section a manifest writes is read back to its own geodetic point |
| KmlWriter.KmlOfManifest | kml_writer.py:25-35 | any manifest the flattener writes yields a placemark at its origin's latitude and longitude |
| KmlWriter.EcefFallback | kml_writer.py:60-67 | an `lla` of the wrong length falls back to converting `ecef` |
| DaeQc.DetectNamespace | dae_qc.py:72-75 | a namespace exists exactly when the tag starts with `{` and holds a `}`; it is the text up to the first `}` |
| DaeQc.NamespaceOfQualified | dae_qc.py:72-75 | `{ns}local` gives back `ns` |
| DaeQc.SourceId | dae_qc.py:119-122 | an accessor names an array exactly when its source starts with `#`, and the name is the rest |
| DaeQc.StrideOf | dae_qc.py:121-127 | a missing stride is 3; a stride `int()` reads (white space, a sign, digits) is its value; one `int()` rejects falls back to 3 |
| Decimal.ParseIntFormat | dae_qc.py:124-125 | `int()` reads back any integer `str` writes, with or without surrounding white space |
| DaeQc.CollectAccessorsKeys | dae_qc.py:116-129 | the table has a key exactly for the arrays some accessor names |
| DaeQc.CollectAccessorsLastWins | dae_qc.py:116-129 | each key holds the stride of the last accessor naming that array |
| DaeQc.ScanStride | dae_qc.py:84-96 | an array is scanned exactly when its id mentions `positions` ignoring case, it has values and its stride is at least 3; the stride is the table's entry or 3 |
| DaeQc.ArrayPointsExactly | dae_qc.py:97-98 | point k is read exactly when k·stride+2 is inside the array, and it is the three values there |
| DaeQc.BoxOfEncloses | dae_qc.py:97-113 | there is a box exactly when there is a point, and it holds every point |
| DaeQc.BoxOfTight | dae_qc.py:100-109 | every face of the box touches some point |
| DaeQc.BoxOfOrdered | dae_qc.py:100-109 | the box's minimum is below its maximum in each coordinate |
| DaeQc.ScanTriples | dae_qc.py:97-109 | the loop adds the number of strided points of one array to the count, and leaves the box of all points scanned so far plus these |
| DaeQc.ComputeBbox | dae_qc.py:78-113 | the count is the number of scanned points, and the box is their bounding box |
| DaeQc.TriangleCountAppend | dae_qc.py:35-39 | the triangle total is a sum over the elements |
| DaeQc.TriangleCountSkips | dae_qc.py:35-39 | elements without a decimal count contribute nothing |
| DaeQc.TriangleCountAsWrittenAgrees | dae_qc.py:35-39 | the loop as written fails exactly when some count passes `isdigit()` without being decimal; otherwise it equals the corrected total |
| DaeQc.SuperscriptCountRaises | dae_qc.py:38-39 | the count `²` makes the loop as written raise, while the corrected total skips it |
| DaeQc.QcDae | dae_qc.py:21-51 | every document is reported, whatever its root tag; the result carries the document's counts, the corrected triangle total, and the position count and tight enclosing box of the scanned positions |
| DaeQc.QcDaeAsWrittenAgrees | dae_qc.py:29-51 | the check as written fails exactly when the root tag has no namespace or an empty one (the `c:` prefix is then missing from the prefix map), or when a count passes `isdigit()` but `int()` rejects it; wherever it finishes it reports what the corrected check reports |
| DaeQc.UnqualifiedRootRaises | dae_qc.py:29-32 | a root tag `COLLADA` or `{}COLLADA` makes the check as written fail at its first query, whatever the document holds |
| DaeQc.QualifiedRootReported | dae_qc.py:29-51 | the same document under any non-empty namespace, with no counts to trip the guard, is reported by the check as written exactly as the corrected check reports it |
| BlenderExporter.IndexOf | blender_exporter.py:57-58 | `list.index`: the first position holding the token, or the length when absent |
| BlenderExporter.ScanKeys | blender_exporter.py:62-70 | the parsed keys are exactly those some flag token registers |
| BlenderExporter.ScanValues | blender_exporter.py:62-70 | each key holds what its last flag took: the next token if it is not a flag and the key is not empty, else the empty string |
| BlenderExporter.ParseArgs | blender_exporter.py:55-73 | parsing succeeds exactly when the tokens after the first `--` register both `manifest` and `output`; the keys and values are as the scan gives them |
| BlenderExporter.NoSeparatorFails | blender_exporter.py:57-60 | without `--` the parser fails |
| BlenderExporter.ExporterMatrixIsColumnMajor | blender_exporter.py:86-93 | the listed rows put element 4j+i at row i, column j, the same reading as the Fortran-order reshape |
| BlenderExport.EnuMatrixIsRotatedOffset | blender_export.py:104-124 | the ENU matrix maps p to R(p − origin), so the origin maps to zero, and its rotation block is R |
| BlenderExport.EnuMatrix | blender_export.py:121-124 | the matrix built from any rotation and origin has bottom row (0, 0, 0, 1) |
| BlenderExport.EnuRowsOrthonormal | blender_export.py:111-118 | with sin²+cos²=1, the east, north and up rows are orthonormal |
| BlenderExport.EnuColumnsOrthonormal | blender_export.py:111-118 | with sin²+cos²=1, the columns are orthonormal too |
| BlenderExport.EnuRoundTrip | blender_export.py:104-124 | rotating local coordinates back by the transpose and adding the origin recovers the ECEF point |
| BlenderExport.EcefToEnuRoundTrip | blender_export.py:104-124 | with the trigonometric identity at the origin's latitude and longitude, the matrix sends the origin to zero and loses no point |
| BlenderExport.RequireStr | blender_export.py:89-93 | succeeds exactly on a string value and returns it; otherwise names the missing key |
| BlenderExport.LocalTileOf | blender_export.py:68-84 | succeeds exactly on an object with a string `glb_path` naming an existing file, a 16-element `transform_ecef` of numbers and a string `tile_id`; otherwise fails with the first failing check in the source's order (glb path, transform shape, glb file, numbers, tile id); a local tile keeps the id and normalised path, and its matrix is the ENU matrix times the tile matrix |
| BlenderExport.BuildLocalTiles | blender_export.py:63-86 | succeeds exactly when every tile does, with one local tile per tile in order; a failure is the first rejected tile's error |
| BlenderExport.ExportCollada | blender_export.py:23-54 | fails with no tiles, then a missing origin, then a missing ECEF, then a non-numeric ECEF, in that order; past these it succeeds exactly when every tile is accepted under the ENU matrix at the origin, and otherwise fails with the first rejected tile's error; a plan has one local tile per tile under the ENU matrix at the manifest origin, the manifest at `temp/export_manifest.json`, the model at `cache/dae/model.dae`, and the command naming both |
| BlenderExport.CommandRoundTrip | blender_export.py:132-142 | the script's parser reads back exactly the manifest and output paths of the command, when neither path starts with `--` |
| BlenderExport.LocalTileJsonFields | blender_export.py:78-84 | the export manifest entry stores the glb path and the 16 local transform numbers as written |
| BlenderExport.ExporterReadsLocalTile | blender_export.py:76-84 | the script reads back the glb path and a matrix equal to ENU times tile matrix, which places every point as the tile transform followed by the ENU change |

## Left out

- **Geodesy.** The WGS84 conversions of geo.py, `math.degrees`, `sin` and
  `cos` are parameters. geo.py is not part of this model. The proofs hold for
  any such functions; the ENU round trip additionally assumes sin²+cos²=1.
- **Floating point.** Numbers are exact reals:
  - no rounding;
  - no NaN or infinity;
  - `_fmt`'s refusal of non-finite values and the `%.8f` rendering are not
    modelled.
- **Rendering.** `_render_kml`'s text template is not modelled. The placemark
  fields it receives are.
- **Number conversion.** `float()` is modelled on JSON numbers and booleans
  only. A numeric string such as `"1.5"`, which `float()` and numpy accept,
  counts as a conversion failure.
- Tileset.MatrixFromTile: a JSON `null` element of a 16-element transform is
  a conversion failure (`BadTransform`). numpy's `np.array(..., dtype=float)`
  instead reads it as NaN and goes on. The model has no NaN, because numbers
  are exact reals.
- BlenderExport.LocalTileOf: the same holds for a `null` element of
  `transform_ecef`, which fails with `BadNumber`.
- BlenderExport.ExportCollada: the same holds for a `null` element of the
  origin's `ecef`, which fails with `BadNumber`.
- **`int()` on strides.** Surrounding ASCII white space, a sign and ASCII
  digits are modelled. Underscores, non-ASCII white space and non-ASCII
  decimal digits are not.
- **`isdigit()`.** ASCII digits and the superscripts ¹ ² ³ are modelled. Other
  Unicode digits are not.
- **Lower-casing.** Case folding of URIs and suffixes is ASCII only.
- **Paths.** `resolve`, `expanduser`, `Path.parent`, `/` and `str(Path(...))`
  are uninterpreted functions. Existence is a set of paths.
- **File contents.** Reading a file is a map from path to decoded document.
  - An unreadable file and invalid JSON are both one error (`UnreadableTileset`).
  - Writing `manifest.json` and `export_manifest.json` is not modelled. The
    content of the export manifest is (`LocalTileJson`).
- **Directory creation.** The `mkdir` calls are not modelled.
- **JSON objects.** An object is a list of members in which the last duplicate
  key wins, as `json.loads` keeps it.
- **XML.** `ET.parse` and the element queries are not modelled. A COLLADA
  document is the list of what each query selects. `_parse_floats` is taken as
  already applied (an array holds its parsed values), so only empty-text
  skipping is modelled. A document's lists are taken to be what the queries
  select. With a non-empty namespace, that is what the `c:`-prefixed queries
  select. For the corrected check on a root without one, it is what the same
  queries select without the prefix. The namespace also decides whether the
  queries run at all. With no namespace, or an empty one, the prefix map is
  empty, and the first query raises `SyntaxError` because the prefix `c` is
  unknown. That is `QcDaeAsWritten`'s `PrefixNotFound` (see "Findings").
- **DaeQc.QcDae.** The file existence check and `stat` are not modelled; the
  size is an input.
- **log_qc.** It only writes log lines.
- **Blender.** The scene operations of blender_exporter.py `main` are not
  modelled: clearing the scene, glTF import, the −90° X correction, the
  grounding offset and the COLLADA export. The parts that read the manifest are
  modelled (`ExporterReadsLocalTile`).
- **BlenderExport.ExportCollada.** The model stops where Blender is started:
  - the `subprocess.run` call is not modelled;
  - neither are its return-code and output-file checks;
  - neither is the script-existence check of `_run_blender`.
- **Other stages.** kmz_packager.py, b3dm_to_glb.py and the command-line entry
  point are outside this core.
- **Manifest.BuildManifest.** The manifest file path and the returned
  dictionary are not modelled. The tiles, origin, count and root ECEF are.
- **Root path of the top-level tileset.** The walk never adds this path to the
  visited set. An external reference back to the top-level `tileset.json`
  therefore expands the root once more. This is modelled as written.
- **Duplicate `tile_id`s.** A leaf with several `.b3dm` contents gives several
  records with the same `tile_id` and glb path. This is modelled as written;
  `DistinctTileNames` is about visits, not records.

## Findings

| source | as written | input that shows it | evidently intended | confidence | as-written member | corrected member |
|---|---|---|---|---|---|---|
| dae_qc.py:38-39 | the guard `count_attr.isdigit()` accepts characters such as superscript two, which `int()` then rejects with `ValueError`, aborting the whole check | a `<triangles count="²">` element | skip counts that are not decimal numbers, as the guard is there to do | not executed | DaeQc.TriangleCountAsWritten, exhibited by DaeQc.SuperscriptCountRaises | DaeQc.TriangleCount, with DaeQc.TriangleCountSkips and DaeQc.TriangleCountAsWrittenAgrees, used by DaeQc.QcDae |
| dae_qc.py:29-32 | with no namespace on the root tag, or an empty one, the prefix map is `{}`, yet every query names the prefix `c`, so the first query raises `SyntaxError` and no namespace-less document can be checked | a COLLADA file whose root tag is `<COLLADA>` with no `xmlns` | check a namespace-less document with unprefixed queries, as the `else {}` branch is there to allow | not executed | DaeQc.QcDaeAsWritten, exhibited by DaeQc.UnqualifiedRootRaises and characterised by DaeQc.QcDaeAsWrittenAgrees | DaeQc.QcDae, equal to DaeQc.QcSummary for every root tag, with DaeQc.QualifiedRootReported |
