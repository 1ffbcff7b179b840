/**
  The input-file list of the command line: each specification is either `HANDLE=path`, which
  names a document, or a plain path. Paths are plain strings.
*/
module Utils {
  import opened Results
  import opened PyStrings

  /** A specification split at its first `=` into the handle as written and the path;
      `None` when it has no `=`. */
  function SplitAssignment(spec: string): (r: Option<(string, string)>)
    ensures r.None? <==> '=' !in spec
    ensures r.Some? ==> spec == r.value.0 + "=" + r.value.1
    ensures r.Some? ==> '=' !in r.value.0
  {
    match Find(spec, '=')
    case None => None
    case Some(k) =>
      assert spec == spec[..k] + "=" + spec[k + 1..];
      Some((spec[..k], spec[k + 1..]))
  }

  /** The path a specification contributes to the file list. */
  function PathOf(spec: string): string {
    match SplitAssignment(spec)
    case None => spec
    case Some((_, path)) => path
  }

  /** The handle a specification declares, upper-cased, with its path. */
  function Declaration(spec: string): Option<(string, string)> {
    match SplitAssignment(spec)
    case None => None
    case Some((handle, path)) => Some((Upper(handle), path))
  }

  function HandleOf(spec: string): Option<string> {
    match Declaration(spec)
    case None => None
    case Some((handle, _)) => Some(handle)
  }

  function Declarations(inputs: seq<string>): (ds: seq<Option<(string, string)>>)
    ensures |ds| == |inputs|
    ensures forall i :: 0 <= i < |inputs| ==> ds[i] == Declaration(inputs[i])
  {
    seq(|inputs|, i requires 0 <= i < |inputs| => Declaration(inputs[i]))
  }

  /** The map the declarations build in order; a later one for the same handle replaces an
      earlier one. */
  function Assign(ds: seq<Option<(string, string)>>): map<string, string> {
    if ds == [] then map[]
    else
      var earlier := Assign(ds[..|ds| - 1]);
      match ds[|ds| - 1]
      case None => earlier
      case Some((handle, path)) => earlier[handle := path]
  }

  function Handles(inputs: seq<string>): map<string, string> {
    Assign(Declarations(inputs))
  }

  /** The file list: one path per specification, in order. */
  function Files(inputs: seq<string>): (files: seq<string>)
    ensures |files| == |inputs|
    ensures forall i :: 0 <= i < |inputs| ==> files[i] == PathOf(inputs[i])
  {
    seq(|inputs|, i requires 0 <= i < |inputs| => PathOf(inputs[i]))
  }

  /** Splits the specifications into the handle map and the ordered file list. */
  method ParseInputFiles(inputs: seq<string>) returns (handles: map<string, string>, files: seq<string>)
    ensures handles == Handles(inputs)
    ensures files == Files(inputs)
  {
    handles := map[];
    files := [];
    for i := 0 to |inputs|
      invariant handles == Handles(inputs[..i])
      invariant files == Files(inputs[..i])
    {
      var spec := inputs[i];
      InputStep(inputs, i);
      match Find(spec, '=')
      case Some(k) =>
        var handle, path := spec[..k], spec[k + 1..];
        handles := handles[Upper(handle) := path];
        files := files + [path];
      case None =>
        files := files + [spec];
    }
    assert inputs[..|inputs|] == inputs;
  }

  /** One more specification extends the map and the list by what it contributes. */
  lemma InputStep(inputs: seq<string>, i: nat)
    requires i < |inputs|
    ensures Handles(inputs[..i + 1]) ==
              match Declaration(inputs[i])
              case None => Handles(inputs[..i])
              case Some((handle, path)) => Handles(inputs[..i])[handle := path]
    ensures Files(inputs[..i + 1]) == Files(inputs[..i]) + [PathOf(inputs[i])]
  {
    var ds := Declarations(inputs[..i + 1]);
    assert ds[..i] == Declarations(inputs[..i]);
  }

  // ---------------------------------------------------------------------------
  // Properties
  // ---------------------------------------------------------------------------

  /** No specifications: no handles and no files. */
  lemma NoInputs()
    ensures Handles([]) == map[] && Files([]) == []
  {
  }

  /** A specification with a handle is the upper-cased handle, `=`, and the path; the path keeps
      any further `=`. */
  lemma AssignmentParts(spec: string)
    requires '=' in spec
    ensures HandleOf(spec).Some?
    ensures exists handle :: spec == handle + "=" + PathOf(spec) && '=' !in handle && HandleOf(spec) == Some(Upper(handle))
  {
    var (handle, path) := SplitAssignment(spec).value;
    assert spec == handle + "=" + PathOf(spec);
  }

  /** Without `=`, the specification is the path and declares no handle. */
  lemma PlainSpec(spec: string)
    requires '=' !in spec
    ensures PathOf(spec) == spec && HandleOf(spec).None?
  {
  }

  /** The keys of the map are exactly the declared handles. */
  lemma {:induction false} AssignKeys(ds: seq<Option<(string, string)>>, h: string)
    ensures h in Assign(ds) <==> exists i :: 0 <= i < |ds| && ds[i].Some? && ds[i].value.0 == h
  {
    if ds != [] {
      var init := ds[..|ds| - 1];
      AssignKeys(init, h);
      assert forall i :: 0 <= i < |init| ==> init[i] == ds[i];
    }
  }

  /** Each key maps to the path of its last declaration. */
  lemma {:induction false} AssignLastWins(ds: seq<Option<(string, string)>>, h: string)
    requires h in Assign(ds)
    ensures exists i :: 0 <= i < |ds| && ds[i] == Some((h, Assign(ds)[h])) &&
              forall j :: i < j < |ds| ==> !(ds[j].Some? && ds[j].value.0 == h)
  {
    var init := ds[..|ds| - 1];
    var last := ds[|ds| - 1];
    if !(last.Some? && last.value.0 == h) {
      AssignLastWins(init, h);
      var i :| 0 <= i < |init| && init[i] == Some((h, Assign(init)[h])) &&
        forall j :: i < j < |init| ==> !(init[j].Some? && init[j].value.0 == h);
      assert ds[i] == init[i];
      assert forall j :: i < j < |init| ==> ds[j] == init[j];
    }
  }

  /** The handles are exactly those the specifications declare. */
  lemma HandlesKeys(inputs: seq<string>, h: string)
    ensures h in Handles(inputs) <==> exists i :: 0 <= i < |inputs| && HandleOf(inputs[i]) == Some(h)
  {
    var ds := Declarations(inputs);
    AssignKeys(ds, h);
    assert forall i :: 0 <= i < |inputs| ==> (HandleOf(inputs[i]) == Some(h) <==> ds[i].Some? && ds[i].value.0 == h);
  }

  /** Each handle maps to the path of the last specification that declares it. */
  lemma HandlesLastWins(inputs: seq<string>, h: string)
    requires h in Handles(inputs)
    ensures exists i :: 0 <= i < |inputs| && HandleOf(inputs[i]) == Some(h) && Handles(inputs)[h] == PathOf(inputs[i]) &&
              forall j :: i < j < |inputs| ==> HandleOf(inputs[j]) != Some(h)
  {
    var ds := Declarations(inputs);
    AssignLastWins(ds, h);
    var i :| 0 <= i < |ds| && ds[i] == Some((h, Assign(ds)[h])) &&
      forall j :: i < j < |ds| ==> !(ds[j].Some? && ds[j].value.0 == h);
    assert HandleOf(inputs[i]) == Some(h) && Handles(inputs)[h] == PathOf(inputs[i]);
    assert forall j :: i < j < |inputs| ==> (HandleOf(inputs[j]) == Some(h) <==> ds[j].Some? && ds[j].value.0 == h);
  }

  /** Every path in the handle map is also in the file list. */
  lemma HandlesInFiles(inputs: seq<string>, h: string)
    requires h in Handles(inputs)
    ensures Handles(inputs)[h] in Files(inputs)
  {
    HandlesLastWins(inputs, h);
    var i :| 0 <= i < |inputs| && HandleOf(inputs[i]) == Some(h) && Handles(inputs)[h] == PathOf(inputs[i]);
    assert Files(inputs)[i] == PathOf(inputs[i]);
  }

  /** Handles are stored upper-cased. */
  lemma HandlesAreUpper(inputs: seq<string>, h: string)
    requires h in Handles(inputs)
    ensures Upper(h) == h
  {
    HandlesKeys(inputs, h);
    var i :| 0 <= i < |inputs| && HandleOf(inputs[i]) == Some(h);
    var (handle, _) := SplitAssignment(inputs[i]).value;
    UpperIdempotent(handle);
  }
}
