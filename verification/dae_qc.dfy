/** The COLLADA quality check (dae_qc.py): the document namespace, the
    accessor strides, the bounding box of the position arrays and the
    triangle total. The XML tree itself is not modelled: a document is the
    list of elements each query selects. */
module DaeQc {
  import opened Wrappers
  import opened Matrix
  import Text
  import Decimal

  // ---------------------------------------------------------------- namespace

  /** `_detect_namespace`: the text between a leading `{` and the first `}`. */
  function DetectNamespace(tag: string): (r: Option<string>)
    ensures r.Some? <==> |tag| > 0 && tag[0] == '{' && '}' in tag
    ensures r.Some? ==> Text.StartsWith(tag, "{" + r.value + "}") && '}' !in r.value
  {
    if |tag| > 0 && tag[0] == '{' && '}' in tag then
      var rest := tag[1..];
      assert '}' in rest by {
        var k :| 0 <= k < |tag| && tag[k] == '}';
        assert rest[k - 1] == '}';
      }
      var ns := Text.Before(rest, '}');
      assert tag[..|ns| + 2] == "{" + ns + "}";
      Some(ns)
    else None
  }

  /** A qualified tag `{ns}local` gives back `ns`, whatever the local name. */
  lemma NamespaceOfQualified(ns: string, local: string)
    requires '}' !in ns
    ensures DetectNamespace("{" + ns + "}" + local) == Some(ns)
  {
    var tag := "{" + ns + "}" + local;
    assert tag[|ns| + 1] == '}';
    assert tag[1..] == ns + ("}" + local);
    BeforeFirst(ns, "}" + local, '}');
  }

  /** Splitting on `c` stops at the first `c`. */
  lemma {:induction false} BeforeFirst(a: string, b: string, c: char)
    requires c !in a && |b| > 0 && b[0] == c
    ensures Text.Before(a + b, c) == a
    decreases |a|
  {
    if |a| == 0 {
      assert a + b == b;
    } else {
      assert (a + b)[1..] == a[1..] + b;
      BeforeFirst(a[1..], b, c);
    }
  }

  // ---------------------------------------------------------------- accessors

  /** An `<accessor>` element: its `source` and `stride` attributes, when present. */
  datatype Accessor = Accessor(source: Option<string>, stride: Option<string>)

  /** The array an accessor reads: its `source` without the leading `#`;
      a missing source, or one without `#`, names none. */
  function SourceId(a: Accessor): (r: Option<string>)
    ensures r.Some? <==> a.source.Some? && Text.StartsWith(a.source.value, "#")
    ensures r.Some? ==> a.source.value == "#" + r.value
  {
    var source := if a.source.Some? then a.source.value else "";
    if Text.StartsWith(source, "#") then
      assert source == "#" + source[1..];
      Some(source[1..])
    else None
  }

  /** The declared stride, or 3 when it is missing or `int()` rejects it. */
  function StrideOf(a: Accessor): (r: int)
    ensures a.stride.None? ==> r == 3
    ensures a.stride.Some? && Decimal.AllDigits(a.stride.value) ==> r == Decimal.Value(a.stride.value)
    // every form `int()` accepts is taken, and the `ValueError` fallback is 3
    ensures a.stride.Some? && Decimal.ParseInt(a.stride.value).Some? ==> r == Decimal.ParseInt(a.stride.value).value
    ensures a.stride.Some? && Decimal.ParseInt(a.stride.value).None? ==> r == 3
  {
    var text := if a.stride.Some? then a.stride.value else "3";
    assert Decimal.AllDigits("3") && Decimal.Value("3") == 3;
    match Decimal.ParseInt(text)
    case Some(n) => n
    case None => 3
  }

  /** `accessors[k]` ends up holding the stride of accessor `i`: the last one
      that reads `k`. */
  predicate IsLastFor(accs: seq<Accessor>, k: string, i: int) {
    0 <= i < |accs| && SourceId(accs[i]) == Some(k) &&
    forall j :: i < j < |accs| ==> SourceId(accs[j]) != Some(k)
  }

  /** `_collect_accessors`: array id to stride, a later accessor for the same
      id overwriting an earlier one. */
  function CollectAccessors(accs: seq<Accessor>): map<string, int>
    decreases |accs|
  {
    if |accs| == 0 then map[]
    else
      var m := CollectAccessors(accs[..|accs| - 1]);
      var a := accs[|accs| - 1];
      match SourceId(a)
      case Some(id) => m[id := StrideOf(a)]
      case None => m
  }

  /** Some accessor reads array `k`. */
  predicate ReadsArray(accs: seq<Accessor>, k: string) {
    exists i :: 0 <= i < |accs| && SourceId(accs[i]) == Some(k)
  }

  /** The map has a key for every array some accessor reads, and no other. */
  lemma {:induction false} CollectAccessorsKeys(accs: seq<Accessor>)
    ensures forall k :: k in CollectAccessors(accs) <==> ReadsArray(accs, k)
    decreases |accs|
  {
    if |accs| > 0 {
      var init := accs[..|accs| - 1];
      var a := accs[|accs| - 1];
      CollectAccessorsKeys(init);
      CollectAccessorsKeysLast(accs);
      var r := CollectAccessors(accs);
      forall k
        ensures k in r <==> ReadsArray(accs, k)
      {
        if ReadsArray(init, k) {
          var i :| 0 <= i < |init| && SourceId(init[i]) == Some(k);
          assert accs[i] == init[i];
        }
        if SourceId(a) == Some(k) {
          assert SourceId(accs[|accs| - 1]) == Some(k);
        }
        if ReadsArray(accs, k) && SourceId(a) != Some(k) {
          var i :| 0 <= i < |accs| && SourceId(accs[i]) == Some(k);
          assert SourceId(accs[i]) != SourceId(a);
          assert i != |accs| - 1;
          assert init[i] == accs[i];
        }
      }
    }
  }

  /** The last accessor adds its own array id, if any, to the keys. */
  lemma CollectAccessorsKeysLast(accs: seq<Accessor>)
    requires |accs| > 0
    ensures forall k :: k in CollectAccessors(accs) <==>
              k in CollectAccessors(accs[..|accs| - 1]) || SourceId(accs[|accs| - 1]) == Some(k)
  {
  }

  /** Under each key is the stride of the last accessor reading that array. */
  lemma {:induction false} CollectAccessorsLastWins(accs: seq<Accessor>)
    ensures forall k, i :: IsLastFor(accs, k, i) ==> k in CollectAccessors(accs) && CollectAccessors(accs)[k] == StrideOf(accs[i])
    decreases |accs|
  {
    if |accs| > 0 {
      var init := accs[..|accs| - 1];
      var a := accs[|accs| - 1];
      CollectAccessorsLastWins(init);
      var r := CollectAccessors(accs);
      forall k, i | IsLastFor(accs, k, i)
        ensures k in r && r[k] == StrideOf(accs[i])
      {
        if i < |init| {
          assert init[i] == accs[i];
          assert forall j :: i < j < |init| ==> init[j] == accs[j];
          assert IsLastFor(init, k, i);
          assert SourceId(a) != Some(k);
        }
      }
    }
  }

  // ---------------------------------------------------------------- bounding box

  /** A `<float_array>` element: its `id` attribute and the numbers its text
      holds (what `_parse_floats` reads from the stripped text). */
  datatype FloatArray = FloatArray(id: Option<string>, values: seq<real>)

  function ArrayId(a: FloatArray): string {
    if a.id.Some? then a.id.value else ""
  }

  /** The stride `_compute_bbox` scans an array with, or nothing when the
      array is skipped: its id must mention `positions` in any case, it must
      hold numbers, and its stride (3 unless an accessor says otherwise) must
      be at least 3. */
  function ScanStride(a: FloatArray, accessors: map<string, int>): (r: Option<nat>)
    ensures r.Some? <==>
              Text.Contains(Text.Lower(ArrayId(a)), "positions") && |a.values| > 0 &&
              (if ArrayId(a) in accessors then accessors[ArrayId(a)] else 3) >= 3
    ensures r.Some? ==> r.value >= 3 && r.value == if ArrayId(a) in accessors then accessors[ArrayId(a)] else 3
  {
    var id := ArrayId(a);
    if !Text.Contains(Text.Lower(id), "positions") then None
    else if |a.values| == 0 then None
    else
      var stride := if id in accessors then accessors[id] else 3;
      if stride < 3 then None else Some(stride)
  }

  /** The points `range(i, len(v) - 2, s)` visits. */
  function ArrayPoints(v: seq<real>, s: nat, i: nat): seq<Vec3>
    requires s >= 1
    decreases |v| - i
  {
    if i + 2 < |v| then [Vec3(v[i], v[i + 1], v[i + 2])] + ArrayPoints(v, s, i + s) else []
  }

  /** The `k`-th point scanned starts at index `i + k s`, and it is a whole triple. */
  lemma {:induction false} ArrayPointsAt(v: seq<real>, s: nat, i: nat, k: nat)
    requires s >= 1 && k < |ArrayPoints(v, s, i)|
    ensures i + k * s + 2 < |v|
    ensures ArrayPoints(v, s, i)[k] == Vec3(v[i + k * s], v[i + k * s + 1], v[i + k * s + 2])
    decreases k
  {
    if k > 0 {
      ArrayPointsAt(v, s, i + s, k - 1);
      assert i + s + (k - 1) * s == i + k * s;
    }
  }

  /** Every start index `i + k s` that leaves a whole triple is scanned. */
  lemma {:induction false} ArrayPointsComplete(v: seq<real>, s: nat, i: nat, k: nat)
    requires s >= 1 && i + k * s + 2 < |v|
    ensures k < |ArrayPoints(v, s, i)|
    decreases k
  {
    if k > 0 {
      assert i + s + (k - 1) * s == i + k * s;
      ArrayPointsComplete(v, s, i + s, k - 1);
    }
  }

  /** The points of an array are exactly the triples starting at 0, s, 2s, …
      below `len - 2`; a trailing partial triple is ignored. */
  lemma ArrayPointsExactly(v: seq<real>, s: nat)
    requires s >= 1
    ensures forall k: nat :: k < |ArrayPoints(v, s, 0)| <==> k * s + 2 < |v|
    ensures forall k :: 0 <= k < |ArrayPoints(v, s, 0)| ==>
              ArrayPoints(v, s, 0)[k] == Vec3(v[k * s], v[k * s + 1], v[k * s + 2])
  {
    forall k: nat
      ensures k < |ArrayPoints(v, s, 0)| <==> k * s + 2 < |v|
    {
      if k < |ArrayPoints(v, s, 0)| { ArrayPointsAt(v, s, 0, k); }
      if k * s + 2 < |v| { ArrayPointsComplete(v, s, 0, k); }
    }
    forall k | 0 <= k < |ArrayPoints(v, s, 0)|
      ensures ArrayPoints(v, s, 0)[k] == Vec3(v[k * s], v[k * s + 1], v[k * s + 2])
    {
      ArrayPointsAt(v, s, 0, k);
    }
  }

  /** The points one array contributes. */
  function ArrayPositions(a: FloatArray, accessors: map<string, int>): seq<Vec3> {
    match ScanStride(a, accessors)
    case None => []
    case Some(s) => ArrayPoints(a.values, s, 0)
  }

  /** Every point the scan counts, array by array in document order. */
  function Positions(arrays: seq<FloatArray>, accessors: map<string, int>): seq<Vec3>
    decreases |arrays|
  {
    if |arrays| == 0 then []
    else Positions(arrays[..|arrays| - 1], accessors) + ArrayPositions(arrays[|arrays| - 1], accessors)
  }

  datatype Box = Box(lo: Vec3, hi: Vec3)

  /** Python's `min(a, b)` and `max(a, b)`: the first argument unless the
      second is strictly beyond it. */
  function Min(a: real, b: real): real { if b < a then b else a }
  function Max(a: real, b: real): real { if b > a then b else a }

  /** One step of the scan: the first point opens the box, later ones widen it. */
  function Extend(b: Option<Box>, p: Vec3): Box {
    match b
    case None => Box(p, p)
    case Some(Box(lo, hi)) =>
      Box(Vec3(Min(lo.x, p.x), Min(lo.y, p.y), Min(lo.z, p.z)),
          Vec3(Max(hi.x, p.x), Max(hi.y, p.y), Max(hi.z, p.z)))
  }

  /** The box the scan ends with after the points `ps`, in order. */
  function BoxOf(ps: seq<Vec3>): Option<Box>
    decreases |ps|
  {
    if |ps| == 0 then None else Some(Extend(BoxOf(ps[..|ps| - 1]), ps[|ps| - 1]))
  }

  predicate Inside(p: Vec3, b: Box) {
    b.lo.x <= p.x <= b.hi.x && b.lo.y <= p.y <= b.hi.y && b.lo.z <= p.z <= b.hi.z
  }

  /** Each face of the box touches some point. */
  predicate Tight(b: Box, ps: seq<Vec3>) {
    (exists k :: 0 <= k < |ps| && ps[k].x == b.lo.x) && (exists k :: 0 <= k < |ps| && ps[k].x == b.hi.x) &&
    (exists k :: 0 <= k < |ps| && ps[k].y == b.lo.y) && (exists k :: 0 <= k < |ps| && ps[k].y == b.hi.y) &&
    (exists k :: 0 <= k < |ps| && ps[k].z == b.lo.z) && (exists k :: 0 <= k < |ps| && ps[k].z == b.hi.z)
  }

  /** The box is missing exactly when there are no points; otherwise it holds
      every point, so `min <= max` in each coordinate. */
  lemma {:induction false} BoxOfEncloses(ps: seq<Vec3>)
    ensures BoxOf(ps).None? <==> |ps| == 0
    ensures BoxOf(ps).Some? ==> forall k :: 0 <= k < |ps| ==> Inside(ps[k], BoxOf(ps).value)
    decreases |ps|
  {
    if |ps| > 0 {
      var init := ps[..|ps| - 1];
      BoxOfEncloses(init);
      assert forall k :: 0 <= k < |init| ==> ps[k] == init[k];
    }
  }

  lemma BoxOfOrdered(ps: seq<Vec3>)
    requires |ps| > 0
    ensures var b := BoxOf(ps).value;
            b.lo.x <= b.hi.x && b.lo.y <= b.hi.y && b.lo.z <= b.hi.z
  {
    BoxOfEncloses(ps);
    assert Inside(ps[0], BoxOf(ps).value);
  }

  /** The box is the smallest one: each of its faces is reached by a point. */
  lemma {:induction false} BoxOfTight(ps: seq<Vec3>)
    requires |ps| > 0
    ensures Tight(BoxOf(ps).value, ps)
    decreases |ps|
  {
    var init := ps[..|ps| - 1];
    var p := ps[|ps| - 1];
    var b := BoxOf(ps).value;
    if |init| == 0 {
      assert BoxOf(init) == None;
      assert ps[0] == p && b == Box(p, p);
      assert ps[0].x == b.lo.x && ps[0].y == b.lo.y && ps[0].z == b.lo.z;
      assert ps[0].x == b.hi.x && ps[0].y == b.hi.y && ps[0].z == b.hi.z;
    } else {
      BoxOfTight(init);
      var c := BoxOf(init).value;
      assert forall k :: 0 <= k < |init| ==> ps[k] == init[k];
      TightStep(c, init, p, ps);
    }
  }

  lemma TightStep(c: Box, init: seq<Vec3>, p: Vec3, ps: seq<Vec3>)
    requires ps == init + [p] && Tight(c, init)
    ensures Tight(Extend(Some(c), p), ps)
  {
    var b := Extend(Some(c), p);
    var last := |ps| - 1;
    assert ps[last] == p;
    assert forall k :: 0 <= k < |init| ==> ps[k] == init[k];
    var k1 :| 0 <= k1 < |init| && init[k1].x == c.lo.x;
    var k2 :| 0 <= k2 < |init| && init[k2].x == c.hi.x;
    var k3 :| 0 <= k3 < |init| && init[k3].y == c.lo.y;
    var k4 :| 0 <= k4 < |init| && init[k4].y == c.hi.y;
    var k5 :| 0 <= k5 < |init| && init[k5].z == c.lo.z;
    var k6 :| 0 <= k6 < |init| && init[k6].z == c.hi.z;
    assert ps[if b.lo.x == p.x then last else k1].x == b.lo.x;
    assert ps[if b.hi.x == p.x then last else k2].x == b.hi.x;
    assert ps[if b.lo.y == p.y then last else k3].y == b.lo.y;
    assert ps[if b.hi.y == p.y then last else k4].y == b.hi.y;
    assert ps[if b.lo.z == p.z then last else k5].z == b.lo.z;
    assert ps[if b.hi.z == p.z then last else k6].z == b.hi.z;
  }

  /** Adding a point to the scan widens the box by `Extend`. */
  lemma BoxOfSnoc(done: seq<Vec3>, p: Vec3)
    ensures BoxOf(done + [p]) == Some(Extend(BoxOf(done), p))
  {
    assert (done + [p])[..|done|] == done;
  }

  /** The inner loop of `_compute_bbox`: the triples of one array, added to
      the count and the box of the points `done0` scanned before. */
  method ScanTriples(v: seq<real>, s: nat, bbox0: Option<Box>, count0: nat, ghost done0: seq<Vec3>)
    returns (bbox: Option<Box>, count: nat)
    requires s >= 1 && count0 == |done0| && bbox0 == BoxOf(done0)
    ensures count == count0 + |ArrayPoints(v, s, 0)|
    ensures bbox == BoxOf(done0 + ArrayPoints(v, s, 0))
  {
    bbox, count := bbox0, count0;
    ghost var done := done0;
    var i := 0;
    while i + 2 < |v|
      invariant done0 + ArrayPoints(v, s, 0) == done + ArrayPoints(v, s, i)
      invariant count == |done| && bbox == BoxOf(done)
      decreases |v| - i
    {
      var p := Vec3(v[i], v[i + 1], v[i + 2]);
      assert ArrayPoints(v, s, i) == [p] + ArrayPoints(v, s, i + s);
      BoxOfSnoc(done, p);
      bbox := Some(Extend(bbox, p));
      count := count + 1;
      done := done + [p];
      i := i + s;
    }
    assert done == done0 + ArrayPoints(v, s, 0);
  }

  /** The scan of `_compute_bbox`: over the position arrays, then over the
      triples of each, counting points and widening the box. */
  method ComputeBbox(arrays: seq<FloatArray>, accessors: map<string, int>) returns (bbox: Option<Box>, count: nat)
    ensures count == |Positions(arrays, accessors)|
    ensures bbox == BoxOf(Positions(arrays, accessors))
  {
    bbox, count := None, 0;
    ghost var done: seq<Vec3> := [];
    for j := 0 to |arrays|
      invariant done == Positions(arrays[..j], accessors)
      invariant count == |done| && bbox == BoxOf(done)
    {
      var a := arrays[j];
      assert arrays[..j + 1][..j] == arrays[..j];
      assert Positions(arrays[..j + 1], accessors) == done + ArrayPositions(a, accessors);
      var stride := ScanStride(a, accessors);
      if stride.Some? {
        bbox, count := ScanTriples(a.values, stride.value, bbox, count, done);
        done := done + ArrayPoints(a.values, stride.value, 0);
      } else {
        assert ArrayPositions(a, accessors) == [];
        assert done + [] == done;
      }
    }
    assert arrays[..|arrays|] == arrays;
  }

  // ---------------------------------------------------------------- triangles

  /** `str.isdigit()` on one character: the ASCII digits and, beyond them, the
      superscript digits ¹ ² ³ that Unicode classes as digits without being
      decimal digits. */
  predicate IsDigitChar(c: char) {
    Decimal.IsDigit(c) || c == '\U{b9}' || c == '\U{b2}' || c == '\U{b3}'
  }

  /** `s.isdigit()`: non-empty and every character a digit. */
  predicate IsDigitString(s: string) {
    |s| > 0 && forall i :: 0 <= i < |s| ==> IsDigitChar(s[i])
  }

  /** `int(count)` raising on a count that passed the `isdigit()` guard. */
  datatype DaeError =
    | InvalidCount(text: string)     // `int()` rejects a count that passed `isdigit()`
    | PrefixNotFound(prefix: string) // a query names a prefix the prefix map lacks

  /** The triangle total as the loop in `qc_dae` is written: the guard is
      `isdigit()`, the conversion `int()`. */
  function TriangleCountAsWritten(counts: seq<Option<string>>): Result<nat, DaeError>
    decreases |counts|
  {
    if |counts| == 0 then Success(0)
    else
      var total :- TriangleCountAsWritten(counts[..|counts| - 1]);
      var c := counts[|counts| - 1];
      if c.Some? && c.value != "" && IsDigitString(c.value) then
        if Decimal.AllDigits(c.value) then Success(total + Decimal.Value(c.value))
        else Failure(InvalidCount(c.value))
      else Success(total)
  }

  /** The count one `count` attribute contributes: its value when it is a
      non-empty string of decimal digits, nothing otherwise. */
  function CountOf(c: Option<string>): nat {
    if c.Some? && Decimal.AllDigits(c.value) then Decimal.Value(c.value) else 0
  }

  /** The triangle total with the guard accepting exactly what `int()` reads. */
  function TriangleCount(counts: seq<Option<string>>): nat
    decreases |counts|
  {
    if |counts| == 0 then 0 else TriangleCount(counts[..|counts| - 1]) + CountOf(counts[|counts| - 1])
  }

  /** The total is a sum: it splits over any division of the elements. */
  lemma {:induction false} TriangleCountAppend(a: seq<Option<string>>, b: seq<Option<string>>)
    ensures TriangleCount(a + b) == TriangleCount(a) + TriangleCount(b)
    decreases |b|
  {
    if |b| == 0 {
      assert a + b == a;
    } else {
      assert (a + b)[..|a + b| - 1] == a + b[..|b| - 1];
      TriangleCountAppend(a, b[..|b| - 1]);
    }
  }

  /** Elements without a decimal `count` add nothing. */
  lemma {:induction false} TriangleCountSkips(counts: seq<Option<string>>)
    requires forall i :: 0 <= i < |counts| ==> counts[i].None? || !Decimal.AllDigits(counts[i].value)
    ensures TriangleCount(counts) == 0
    decreases |counts|
  {
    if |counts| > 0 {
      TriangleCountSkips(counts[..|counts| - 1]);
    }
  }

  /** Where the written loop finishes, it computes the corrected total; it
      fails exactly when some `count` passes `isdigit()` but is not decimal. */
  lemma {:induction false} TriangleCountAsWrittenAgrees(counts: seq<Option<string>>)
    ensures TriangleCountAsWritten(counts).Success? ==> TriangleCountAsWritten(counts).value == TriangleCount(counts)
    ensures TriangleCountAsWritten(counts).Failure? <==>
              exists i :: 0 <= i < |counts| && counts[i].Some? && IsDigitString(counts[i].value) && !Decimal.AllDigits(counts[i].value)
    decreases |counts|
  {
    if |counts| > 0 {
      var init := counts[..|counts| - 1];
      TriangleCountAsWrittenAgrees(init);
      assert forall i :: 0 <= i < |init| ==> counts[i] == init[i];
      var c := counts[|counts| - 1];
      if c.Some? && Decimal.AllDigits(c.value) {
        assert IsDigitString(c.value);
      }
    }
  }

  /** A `count="²"` passes the `isdigit()` guard, and `int()` then raises;
      the corrected total skips it. */
  lemma SuperscriptCountRaises()
    ensures TriangleCountAsWritten([Some("\U{b2}")]) == Failure(InvalidCount("\U{b2}"))
    ensures TriangleCount([Some("\U{b2}")]) == 0
  {
    var s := "\U{b2}";
    assert s[0] == '\U{b2}';
    assert IsDigitString(s);
    assert !Decimal.IsDigit(s[0]);
    assert [Some(s)][..0] == [];
  }

  // ---------------------------------------------------------------- the check

  /** What the element queries select from a parsed document. */
  datatype DaeDocument = DaeDocument(
    sizeBytes: nat,
    rootTag: string,
    geometryCount: nat,
    nodeCount: nat,
    triangleCounts: seq<Option<string>>,
    accessors: seq<Accessor>,
    floatArrays: seq<FloatArray>)

  datatype DaeQcResult = DaeQcResult(
    sizeBytes: nat,
    geometryCount: nat,
    nodeCount: nat,
    trianglesCount: nat,
    bbox: Option<Box>,
    positionsCount: nat)

  /** What a check of `doc` reports: its query counts, the triangle total
      over decimal counts, and the box and number of its scanned positions. */
  function QcSummary(doc: DaeDocument): DaeQcResult {
    var ps := Positions(doc.floatArrays, CollectAccessors(doc.accessors));
    DaeQcResult(doc.sizeBytes, doc.geometryCount, doc.nodeCount, TriangleCount(doc.triangleCounts), BoxOf(ps), |ps|)
  }

  /** `qc_dae` after parsing, corrected: it reports every document, whatever
      its root tag, and skips counts that are not decimal. */
  method QcDae(doc: DaeDocument) returns (r: DaeQcResult)
    ensures r == QcSummary(doc)
    ensures r.sizeBytes == doc.sizeBytes && r.geometryCount == doc.geometryCount && r.nodeCount == doc.nodeCount
    ensures r.trianglesCount == TriangleCount(doc.triangleCounts)
    ensures var ps := Positions(doc.floatArrays, CollectAccessors(doc.accessors));
            r.positionsCount == |ps| &&
            (r.bbox.None? <==> |ps| == 0) &&
            (r.bbox.Some? ==> (forall k :: 0 <= k < |ps| ==> Inside(ps[k], r.bbox.value)) && Tight(r.bbox.value, ps))
  {
    var accessors := CollectAccessors(doc.accessors);
    var bbox, count := ComputeBbox(doc.floatArrays, accessors);
    var ps := Positions(doc.floatArrays, accessors);
    BoxOfEncloses(ps);
    if |ps| > 0 {
      BoxOfTight(ps);
    }
    r := DaeQcResult(doc.sizeBytes, doc.geometryCount, doc.nodeCount, TriangleCount(doc.triangleCounts), bbox, count);
  }

  // ---------------------------------------------------------------- the prefix map

  /** The prefix `c` is bound: the root tag has a namespace and it is not
      empty, so every query gets the prefix map `{"c": namespace}`. */
  predicate PrefixBound(rootTag: string) {
    DetectNamespace(rootTag).Some? && DetectNamespace(rootTag).value != ""
  }

  /** `qc_dae` after parsing, as written. Every query names the prefix `c`.
      With no namespace, or the empty one, the prefix map is `{}`, and the
      first query raises `SyntaxError` because `c` is not in it. Past that,
      the triangle loop raises on a count that `isdigit()` accepts and
      `int()` rejects. */
  function QcDaeAsWritten(doc: DaeDocument): Result<DaeQcResult, DaeError> {
    if !PrefixBound(doc.rootTag) then Failure(PrefixNotFound("c"))
    else
      var total :- TriangleCountAsWritten(doc.triangleCounts);
      Success(QcSummary(doc).(trianglesCount := total))
  }

  /** The written check fails exactly on a root without a non-empty
      namespace, or on a count `isdigit()` lets through and `int()` rejects;
      wherever it finishes it reports what the corrected check reports. */
  lemma QcDaeAsWrittenAgrees(doc: DaeDocument)
    ensures !PrefixBound(doc.rootTag) ==> QcDaeAsWritten(doc) == Failure(PrefixNotFound("c"))
    ensures QcDaeAsWritten(doc).Failure? <==>
              || !PrefixBound(doc.rootTag)
              || exists i :: 0 <= i < |doc.triangleCounts| && doc.triangleCounts[i].Some? &&
                             IsDigitString(doc.triangleCounts[i].value) && !Decimal.AllDigits(doc.triangleCounts[i].value)
    ensures QcDaeAsWritten(doc).Success? ==> QcDaeAsWritten(doc).value == QcSummary(doc)
  {
    TriangleCountAsWrittenAgrees(doc.triangleCounts);
  }

  /** A root tag without a namespace, or with the empty one, makes the
      written check raise whatever the document holds. */
  lemma UnqualifiedRootRaises(doc: DaeDocument)
    requires doc.rootTag == "COLLADA" || doc.rootTag == "{}COLLADA"
    ensures QcDaeAsWritten(doc) == Failure(PrefixNotFound("c"))
    ensures !PrefixBound(doc.rootTag)
  {
    if doc.rootTag == "{}COLLADA" {
      NamespaceOfQualified("", "COLLADA");
      assert "{" + "" + "}" + "COLLADA" == doc.rootTag;
    } else {
      assert doc.rootTag[0] != '{';
    }
  }

  /** The same document under a non-empty namespace is reported, with the
      total of its decimal counts; the corrected check reports it under any
      root tag. */
  lemma QualifiedRootReported(doc: DaeDocument, ns: string)
    requires ns != "" && '}' !in ns
    requires forall i :: 0 <= i < |doc.triangleCounts| ==> doc.triangleCounts[i].None?
    ensures QcDaeAsWritten(doc.(rootTag := "{" + ns + "}COLLADA")) == Success(QcSummary(doc))
  {
    var qualified := doc.(rootTag := "{" + ns + "}COLLADA");
    NamespaceOfQualified(ns, "COLLADA");
    assert PrefixBound(qualified.rootTag);
    TriangleCountAsWrittenAgrees(doc.triangleCounts);
    assert QcSummary(qualified) == QcSummary(doc);
  }
}
