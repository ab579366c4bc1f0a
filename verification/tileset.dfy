/** Per-tile helpers of the tileset flattener: query/fragment stripping, URI
    classification, the leaf test, content-URI extraction and the tile
    transform parser (tileset_manifest.py). */
module Tileset {
  import opened Wrappers
  import opened Json
  import opened Matrix
  import Text

  /** A tile node is a JSON object; the walker skips any child that is not. */
  type Tile = seq<Member>

  /** Everything that aborts building a manifest. */
  datatype ManifestError =
    | UnreadableTileset(path: string)    // the file is missing or not valid JSON
    | NotAnObject(path: string)          // the document is not a JSON object
    | MissingRoot                        // the top-level document has no object `root`
    | ExternalMissingRoot(path: string)  // an external document has no object `root`
    | BadTransform                       // a `transform` that is truthy but not 16 numbers
    | MissingContent(path: string)       // a `.b3dm` leaf payload that does not exist
    | BadNumber                          // a bounding-volume entry `float()` rejects
    | NoTiles                            // the walk yielded no tile at all

  /** `_strip_query_fragment`: drop everything from the first `?`, then from the first `#`. */
  function StripQueryFragment(uri: string): (r: string)
    ensures |r| <= |uri| && r == uri[..|r|]
    ensures '?' !in r && '#' !in r
    ensures '?' !in uri && '#' !in uri ==> r == uri
  {
    var noQuery := Text.Before(uri, '?');
    Text.Before(noQuery, '#')
  }

  /** The lower-cased path part of a content URI, which is what gets classified. */
  function NormalizedUri(uri: string): string {
    Text.Lower(StripQueryFragment(uri))
  }

  /** `_is_b3dm_uri`. */
  predicate IsB3dmUri(uri: string) {
    Text.EndsWith(NormalizedUri(uri), ".b3dm")
  }

  /** `_is_tileset_uri`, with both of its disjuncts. */
  predicate IsTilesetUri(uri: string) {
    var n := NormalizedUri(uri);
    Text.EndsWith(n, "tileset.json") || Text.EndsWith(n, ".json")
  }

  /** The `tileset.json` disjunct adds nothing: a tileset URI is exactly one
      whose path ends in `.json`, and no URI is both a payload and a tileset. */
  lemma UriClassification(uri: string)
    ensures IsTilesetUri(uri) <==> Text.EndsWith(NormalizedUri(uri), ".json")
    ensures !(IsB3dmUri(uri) && IsTilesetUri(uri))
  {
    var n := NormalizedUri(uri);
    if Text.EndsWith(n, "tileset.json") {
      assert n[|n| - 5..] == n[|n| - 12..][7..];
    }
  }

  /** The final component of a slash-separated path. */
  function BaseName(path: string): (r: string)
    ensures '/' !in r
    ensures |r| <= |path|
    decreases |path|
  {
    if |path| == 0 then ""
    else if path[|path| - 1] == '/' then ""
    else BaseName(path[..|path| - 1]) + [path[|path| - 1]]
  }

  /** Position of the last `.` in `s`, or -1 (`str.rfind`). */
  function LastDot(s: string): (i: int)
    ensures -1 <= i < |s|
    ensures i >= 0 ==> s[i] == '.'
    ensures forall k :: i < k < |s| ==> s[k] != '.'
    decreases |s|
  {
    if |s| == 0 then -1
    else if s[|s| - 1] == '.' then |s| - 1
    else LastDot(s[..|s| - 1])
  }

  /** `PurePath.suffix`: from the last dot of the final component, provided the
      dot is neither its first nor its last character. */
  function Suffix(path: string): (r: string)
    ensures r == "" || (r[0] == '.' && '.' !in r[1..] && Text.EndsWith(path, r))
  {
    var name := BaseName(path);
    var i := LastDot(name);
    if 0 < i < |name| - 1 then
      assert name[i..][1..] == name[i + 1..];
      SuffixOfBaseName(path);
      assert path[|path| - |name[i..]|..] == name[i..] by {
        assert path[|path| - |name|..][i..] == name[i..];
      }
      name[i..]
    else ""
  }

  lemma {:induction false} SuffixOfBaseName(path: string)
    ensures Text.EndsWith(path, BaseName(path))
    decreases |path|
  {
    if |path| > 0 && path[|path| - 1] != '/' {
      SuffixOfBaseName(path[..|path| - 1]);
    }
  }

  /** The check `queue_external_tileset` makes on the resolved path. */
  predicate HasJsonSuffix(path: string) {
    Text.Lower(Suffix(path)) == ".json"
  }

  /** A resolved path with a `.json` suffix ends in `.json`, ignoring case. */
  lemma JsonSuffixEndsWithJson(path: string)
    requires HasJsonSuffix(path)
    ensures Text.EndsWith(Text.Lower(path), ".json")
  {
    var s := Suffix(path);
    assert |s| == 5;
    assert Text.Lower(path)[|path| - 5..] == Text.Lower(s);
  }

  /** `_is_leaf_tile`: `children` is missing, null, or an empty list. */
  predicate IsLeaf(t: Tile) {
    var children := Lookup(t, "children");
    children == JNull || children == JArr([])
  }

  /** `entry.get("uri") or entry.get("url")`, kept when it is a string. */
  function UriOf(entry: Json): (r: Option<string>)
    requires entry.JObj?
  {
    match Or(Get(entry, "uri"), Get(entry, "url"))
    case JStr(s) => Some(s)
    case _ => None
  }

  /** The `uri` key wins when it is truthy; `url` is consulted only when `uri`
      is missing or falsy; a truthy non-string `uri` yields nothing. */
  lemma UriOfFallback(entry: Json)
    requires entry.JObj?
    ensures Get(entry, "uri").JStr? && Get(entry, "uri").s != "" ==> UriOf(entry) == Some(Get(entry, "uri").s)
    ensures Truthy(Get(entry, "uri")) && !Get(entry, "uri").JStr? ==> UriOf(entry) == None
    ensures !Truthy(Get(entry, "uri")) ==>
              UriOf(entry) == (if Get(entry, "url").JStr? then Some(Get(entry, "url").s) else None)
  {
  }

  /** The URIs of the `contents` entries, in list order, skipping entries that
      are not objects or carry no string URI. */
  function ListUris(entries: seq<Json>): seq<string>
    decreases |entries|
  {
    if |entries| == 0 then []
    else
      var head := if entries[0].JObj? then UriOf(entries[0]) else None;
      (if head.Some? then [head.value] else []) + ListUris(entries[1..])
  }

  /** `ListUris` is determined entry by entry: it maps concatenation to
      concatenation, so the order of `contents` is kept. */
  lemma {:induction false} ListUrisAppend(a: seq<Json>, b: seq<Json>)
    ensures ListUris(a + b) == ListUris(a) + ListUris(b)
    decreases |a|
  {
    if |a| > 0 {
      assert (a + b)[0] == a[0];
      assert (a + b)[1..] == a[1..] + b;
      ListUrisAppend(a[1..], b);
      var head := if a[0].JObj? then UriOf(a[0]) else None;
      var h := if head.Some? then [head.value] else [];
      calc {
        ListUris(a + b);
        h + ListUris(a[1..] + b);
        h + (ListUris(a[1..]) + ListUris(b));
        (h + ListUris(a[1..])) + ListUris(b);
        ListUris(a) + ListUris(b);
      }
    } else {
      assert a + b == b;
    }
  }

  /** One entry contributes its URI, or nothing. */
  lemma ListUrisSingle(e: Json)
    ensures ListUris([e]) == if e.JObj? && UriOf(e).Some? then [UriOf(e).value] else []
  {
    assert [e][1..] == [];
  }

  /** `_extract_content_uris`: the single `content` URI first, then the
      `contents` URIs in list order. */
  function ContentUris(t: Tile): seq<string> {
    var content := Lookup(t, "content");
    var single := if content.JObj? then UriOf(content) else None;
    var contents := Lookup(t, "contents");
    (if single.Some? then [single.value] else [])
      + (if contents.JArr? then ListUris(contents.items) else [])
  }

  /** Every extracted URI is the `uri`/`url` string of `content` or of an entry of `contents`. */
  lemma {:induction false} ListUrisFromEntries(entries: seq<Json>, u: string)
    requires u in ListUris(entries)
    ensures exists i :: 0 <= i < |entries| && entries[i].JObj? && UriOf(entries[i]) == Some(u)
    decreases |entries|
  {
    var head := if entries[0].JObj? then UriOf(entries[0]) else None;
    if !(head.Some? && head.value == u) {
      ListUrisFromEntries(entries[1..], u);
      var i :| 0 <= i < |entries[1..]| && entries[1..][i].JObj? && UriOf(entries[1..][i]) == Some(u);
      assert entries[i + 1] == entries[1..][i];
    }
  }

  /** An object entry with a URI keeps its place among the extracted URIs:
      those of the entries before it, its own, then those of the entries after it. */
  lemma ListUrisKeepsEntry(entries: seq<Json>, i: nat)
    requires i < |entries| && entries[i].JObj? && UriOf(entries[i]).Some?
    ensures ListUris(entries) == ListUris(entries[..i]) + [UriOf(entries[i]).value] + ListUris(entries[i + 1..])
  {
    assert entries == entries[..i] + [entries[i]] + entries[i + 1..];
    ListUrisAppend(entries[..i] + [entries[i]], entries[i + 1..]);
    ListUrisAppend(entries[..i], [entries[i]]);
    ListUrisSingle(entries[i]);
  }

  /** `u` is the `uri`/`url` string of some object entry. */
  predicate UriOfEntry(entries: seq<Json>, u: string) {
    exists i :: 0 <= i < |entries| && entries[i].JObj? && UriOf(entries[i]) == Some(u)
  }

  /** The `content` URI, when there is one, comes first. */
  lemma ContentUriFirst(t: Tile)
    requires Lookup(t, "content").JObj? && UriOf(Lookup(t, "content")).Some?
    ensures |ContentUris(t)| > 0 && ContentUris(t)[0] == UriOf(Lookup(t, "content")).value
  {
  }

  /** Every extracted URI is the `uri`/`url` string of `content` or of an
      object entry of `contents`. */
  lemma ContentUrisSources(t: Tile, u: string)
    requires u in ContentUris(t)
    ensures var c, cs := Lookup(t, "content"), Lookup(t, "contents");
            (c.JObj? && UriOf(c) == Some(u)) || (cs.JArr? && UriOfEntry(cs.items, u))
  {
    var c, cs := Lookup(t, "content"), Lookup(t, "contents");
    var single := if c.JObj? then UriOf(c) else None;
    if !(single.Some? && single.value == u) {
      assert cs.JArr? && u in ListUris(cs.items);
      ListUrisFromEntries(cs.items, u);
    }
  }

  /** `_matrix_from_tile`: a falsy transform is the identity; a 16-element list
      is read in column-major order; anything else is an error. */
  function MatrixFromTile(transform: Json): (r: Result<Mat4, ManifestError>)
    ensures !Truthy(transform) ==> r == Success(Identity())
    ensures r.Failure? <==>
              Truthy(transform) &&
              !(IsListOfLength(transform, 16) && ToReals(transform.items).Some?)
    ensures r.Success? && Truthy(transform) ==>
              forall i, j :: 0 <= i < 4 && 0 <= j < 4 ==>
                Some(r.value[i][j]) == ToReal(transform.items[4 * j + i])
  {
    if !Truthy(transform) then Success(Identity())
    else if IsListOfLength(transform, 16) then
      match ToReals(transform.items)
      case Some(v) => Success(FromColumnMajor(v))
      case None => Failure(BadTransform)
    else Failure(BadTransform)
  }

  /** A transform written as 16 numbers is read back, and written out again by
      `_matrix_to_column_major`, as the same 16 numbers. */
  lemma MatrixFromTileRoundTrip(t: Json)
    requires IsListOfLength(t, 16) && ToReals(t.items).Some?
    ensures MatrixFromTile(t).Success?
    ensures ToColumnMajor(MatrixFromTile(t).value) == ToReals(t.items).value
  {
    ToFromColumnMajor(ToReals(t.items).value);
  }
}
