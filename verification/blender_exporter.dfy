/** The script Blender runs (blender_exporter.py): its `--key value`
    argument parser and its column-major matrix reader. The scene
    operations are Blender's own and are not modelled. */
module BlenderExporter {
  import opened Wrappers
  import opened Matrix
  import Text

  /** The usage error the parser raises without `manifest` and `output`. */
  datatype UsageError = Usage

  /** Position of the first `x` in `xs`, or `|xs|` (`list.index`). */
  function IndexOf(xs: seq<string>, x: string): (i: nat)
    ensures i <= |xs|
    ensures i < |xs| ==> xs[i] == x
    ensures forall j :: 0 <= j < i ==> xs[j] != x
    decreases |xs|
  {
    if |xs| == 0 then 0
    else if xs[0] == x then 0
    else 1 + IndexOf(xs[1..], x)
  }

  /** The tokens meant for the script: those after the first `--`, or none. */
  function ScriptArgs(argv: seq<string>): (r: seq<string>)
    ensures "--" !in argv ==> r == []
  {
    var i := IndexOf(argv, "--");
    if i < |argv| then argv[i + 1..] else []
  }

  predicate IsFlag(t: string) {
    Text.StartsWith(t, "--")
  }

  function FlagKey(t: string): string
    requires IsFlag(t)
  {
    t[2..]
  }

  /** The parser between tokens: the arguments so far and `current_key`. */
  datatype ArgState = ArgState(args: map<string, string>, pending: Option<string>)

  /** One iteration of the token loop. A flag registers its key with an
      empty value and makes it pending; another token is the pending key's
      value when that key is truthy, and is ignored otherwise. */
  function Feed(st: ArgState, t: string): ArgState {
    if IsFlag(t) then ArgState(st.args[FlagKey(t) := ""], Some(FlagKey(t)))
    else if st.pending.Some? && st.pending.value != "" then ArgState(st.args[st.pending.value := t], None)
    else st
  }

  /** The loop over the tokens, in order. */
  function Scan(ts: seq<string>): ArgState
    decreases |ts|
  {
    if |ts| == 0 then ArgState(map[], None) else Feed(Scan(ts[..|ts| - 1]), ts[|ts| - 1])
  }

  /** Some token registers `k`. */
  predicate Mentions(ts: seq<string>, k: string) {
    exists i :: 0 <= i < |ts| && IsFlag(ts[i]) && FlagKey(ts[i]) == k
  }

  /** Token `i` is the last flag for `k`. */
  predicate IsLastFlag(ts: seq<string>, k: string, i: int) {
    0 <= i < |ts| && IsFlag(ts[i]) && FlagKey(ts[i]) == k &&
    forall j :: i < j < |ts| ==> !(IsFlag(ts[j]) && FlagKey(ts[j]) == k)
  }

  /** What the flag at `i` ends up with: the very next token when that is
      not a flag and the key is not empty, `""` otherwise. */
  function ValueAfter(ts: seq<string>, i: int): string
    requires 0 <= i < |ts| && IsFlag(ts[i])
  {
    if FlagKey(ts[i]) != "" && i + 1 < |ts| && !IsFlag(ts[i + 1]) then ts[i + 1] else ""
  }

  /** A truthy key is pending exactly right after its flag. */
  lemma ScanPending(ts: seq<string>)
    ensures var p := Scan(ts).pending;
            (p.Some? && p.value != "") <==>
              (|ts| > 0 && IsFlag(ts[|ts| - 1]) && FlagKey(ts[|ts| - 1]) != "")
    ensures var p := Scan(ts).pending;
            p.Some? && p.value != "" ==> p.value == FlagKey(ts[|ts| - 1])
  {
  }

  /** The parsed keys are exactly the keys some flag registers. */
  lemma {:induction false} ScanKeys(ts: seq<string>)
    ensures forall k :: k in Scan(ts).args <==> Mentions(ts, k)
    decreases |ts|
  {
    if |ts| > 0 {
      var init := ts[..|ts| - 1];
      var t := ts[|ts| - 1];
      ScanKeys(init);
      ScanPending(init);
      assert forall i :: 0 <= i < |init| ==> ts[i] == init[i];
      forall k
        ensures k in Scan(ts).args <==> Mentions(ts, k)
      {
        if Mentions(init, k) {
          var i :| 0 <= i < |init| && IsFlag(init[i]) && FlagKey(init[i]) == k;
          assert IsFlag(ts[i]) && FlagKey(ts[i]) == k;
        }
        if IsFlag(t) && FlagKey(t) == k {
          assert IsFlag(ts[|ts| - 1]) && FlagKey(ts[|ts| - 1]) == k;
        }
        if Mentions(ts, k) && !(IsFlag(t) && FlagKey(t) == k) {
          var i :| 0 <= i < |ts| && IsFlag(ts[i]) && FlagKey(ts[i]) == k;
          assert i < |init| && init[i] == ts[i];
        }
      }
    }
  }

  /** Each key holds the value its last flag takes: a repeated flag resets
      the key, and a later value overwrites an earlier one. */
  lemma {:induction false} ScanValues(ts: seq<string>)
    ensures forall k, i :: IsLastFlag(ts, k, i) ==> k in Scan(ts).args && Scan(ts).args[k] == ValueAfter(ts, i)
    decreases |ts|
  {
    if |ts| > 0 {
      var init := ts[..|ts| - 1];
      var t := ts[|ts| - 1];
      ScanValues(init);
      ScanPending(init);
      forall k, i | IsLastFlag(ts, k, i)
        ensures k in Scan(ts).args && Scan(ts).args[k] == ValueAfter(ts, i)
      {
        if i < |init| {
          LastFlagOfPrefix(ts, k, i);
        }
      }
    }
  }

  /** The last flag of the tokens, before the final one, is the last flag
      of the prefix; its value changes only through the final token. */
  lemma LastFlagOfPrefix(ts: seq<string>, k: string, i: int)
    requires |ts| > 0 && IsLastFlag(ts, k, i) && i < |ts| - 1
    ensures IsLastFlag(ts[..|ts| - 1], k, i)
    ensures ValueAfter(ts, i) == if i + 1 < |ts| - 1 then ValueAfter(ts[..|ts| - 1], i) else
              (if k != "" && !IsFlag(ts[i + 1]) then ts[i + 1] else "")
  {
    var init := ts[..|ts| - 1];
    assert forall j :: 0 <= j < |init| ==> ts[j] == init[j];
  }

  /** `_parse_args`: the tokens after the first `--` must register both
      `manifest` and `output`; an empty value still counts. */
  function ParseArgs(argv: seq<string>): (r: Result<map<string, string>, UsageError>)
    ensures var ts := ScriptArgs(argv);
            r.Success? <==> Mentions(ts, "manifest") && Mentions(ts, "output")
    ensures var ts := ScriptArgs(argv);
            r.Success? ==> forall k :: k in r.value <==> Mentions(ts, k)
    ensures var ts := ScriptArgs(argv);
            r.Success? ==> forall k, i :: IsLastFlag(ts, k, i) ==> r.value[k] == ValueAfter(ts, i)
    ensures r.Failure? ==> r.error == Usage
  {
    var ts := ScriptArgs(argv);
    ScanKeys(ts);
    ScanValues(ts);
    var st := Scan(ts);
    if "manifest" !in st.args || "output" !in st.args then Failure(Usage) else Success(st.args)
  }

  /** With no `--`, there is nothing to parse and the parser fails. */
  lemma NoSeparatorFails(argv: seq<string>)
    requires "--" !in argv
    ensures ParseArgs(argv) == Failure(Usage)
  {
    var ts := ScriptArgs(argv);
    assert ts == [];
    assert !Mentions(ts, "manifest");
  }

  /** `_matrix_from_column_major` as written: the four rows listed out. */
  function ExporterMatrix(values: seq<real>): Mat4
    requires |values| == 16
  {
    [[values[0], values[4], values[8], values[12]],
     [values[1], values[5], values[9], values[13]],
     [values[2], values[6], values[10], values[14]],
     [values[3], values[7], values[11], values[15]]]
  }

  /** The listed rows put `values[4j + i]` at row `i`, column `j`: the same
      reading as numpy's Fortran-order reshape, so the matrix written out by
      the export step is read back unchanged. */
  lemma ExporterMatrixIsColumnMajor(values: seq<real>)
    requires |values| == 16
    ensures forall i, j :: 0 <= i < 4 && 0 <= j < 4 ==> ExporterMatrix(values)[i][j] == values[4 * j + i]
    ensures ExporterMatrix(values) == FromColumnMajor(values)
  {
    var m := ExporterMatrix(values);
    var f := FromColumnMajor(values);
    forall i | 0 <= i < 4
      ensures m[i] == f[i]
    {
      assert m[i][0] == f[i][0] && m[i][1] == f[i][1] && m[i][2] == f[i][2] && m[i][3] == f[i][3];
    }
  }
}
