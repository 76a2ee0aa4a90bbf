/**
 * The Python extractor: the bindings of the loaded library module, with
 * their parsed docstrings, turned into function records. Loading the
 * module and parsing the docstrings happen before this point (see
 * `PyBinding`).
 */
module PyDocs {
  import opened Options
  import opened PyStrings
  import opened Sequences
  import opened DocModel
  import DocsConfig

  /** One parsed argument: the docstring parser's `description`, `type_name` and `required` keys. */
  datatype PyArgInfo = PyArgInfo(description: Option<string>, typeName: string, required: Option<bool>)

  /** The parsed `return` section: its `description` and `type_name`. */
  datatype PyReturn = PyReturn(description: Option<string>, typeName: string)

  /** What the docstring parser returns for a non-empty docstring. */
  datatype ParsedDocstring = ParsedDocstring(description: string, arguments: map<string, PyArgInfo>, ret: PyReturn)

  /**
   * One name bound in the namespace after the module was executed:
   * whether it is callable, its parsed docstring (`None` when the
   * docstring is missing or empty) and its positional parameter names.
   */
  datatype PyBinding = PyBinding(name: string, isCallable: bool, docstring: Option<ParsedDocstring>, signature: seq<string>)

  /** The dictionary handed to the reformatting pass: the parsed docstring plus `name` and `argList`. */
  datatype PyEntry = PyEntry(
    name: string,
    description: string,
    arguments: map<string, PyArgInfo>,
    ret: PyReturn,
    argList: seq<string>)

  /** `createPyDocumentation`'s result: no records (`None`) when a docstring was empty. */
  datatype PyDocResult = PyDocResult(records: Option<seq<FunctionRecord>>, isError: bool)

  const DeprecationMarker: string := "deprecated"

  // ---------------------------------------------------------------------------
  // Collecting the documented callables

  /** The binding is examined: not the mock, callable, and not private. */
  predicate PyVisible(b: PyBinding) {
    b.name != DocsConfig.MockBinding && b.isCallable && b.name !in DocsConfig.PyPrivateFuncs
  }

  /** The binding is examined and has a docstring, so it yields an entry. */
  predicate PyDocumented(b: PyBinding) {
    PyVisible(b) && b.docstring.Some?
  }

  /** The argument order used for a function: the override list when there is one, else its signature. */
  function ArgListOf(name: string, signature: seq<string>): (r: seq<string>)
    ensures name !in DocsConfig.PyIrregularFuncs ==> r == signature
    ensures name == "LOG" ==> r == ["message"]
  {
    if name in DocsConfig.PyIrregularFuncs then DocsConfig.PyIrregularFuncs[name] else signature
  }

  function PyEntryOf(b: PyBinding): (e: PyEntry)
    requires b.docstring.Some?
    ensures e.name == b.name && e.argList == ArgListOf(b.name, b.signature)
    ensures e.description == b.docstring.value.description && e.arguments == b.docstring.value.arguments
    ensures e.ret == b.docstring.value.ret
  {
    var d := b.docstring.value;
    PyEntry(b.name, d.description, d.arguments, d.ret, ArgListOf(b.name, b.signature))
  }

  /** An examined binding without a docstring: an error is recorded. */
  predicate PyUndocumented(b: PyBinding) {
    PyVisible(b) && b.docstring.None?
  }

  /** The entries the namespace loop collects: one per documented binding, in namespace order. */
  function CollectedEntries(bindings: seq<PyBinding>): (r: seq<PyEntry>)
    ensures |r| <= |bindings|
  {
    if bindings == [] then []
    else
      var b := bindings[|bindings| - 1];
      var init := CollectedEntries(bindings[..|bindings| - 1]);
      if PyDocumented(b) then init + [PyEntryOf(b)] else init
  }

  /** The collected entries are the entries of the documented bindings, in order. */
  lemma {:induction false} CollectedEntriesMeaning(bindings: seq<PyBinding>)
    ensures var documented := Filter(bindings, PyDocumented);
      && |CollectedEntries(bindings)| == |documented|
      && forall k :: 0 <= k < |documented| ==> CollectedEntries(bindings)[k] == PyEntryOf(documented[k])
  {
    if bindings != [] {
      CollectedEntriesMeaning(bindings[..|bindings| - 1]);
    }
  }

  /**
   * The namespace loop of `createPyDocumentation`: one entry per examined
   * binding with a docstring, in namespace order; an examined binding
   * without one sets the error flag.
   */
  method CollectPyEntries(bindings: seq<PyBinding>) returns (entries: seq<PyEntry>, isErrorPy: bool)
    ensures entries == CollectedEntries(bindings)
    ensures isErrorPy <==> Any(bindings, PyUndocumented)
  {
    entries := [];
    isErrorPy := false;
    var i := 0;
    while i < |bindings|
      invariant 0 <= i <= |bindings|
      invariant entries == CollectedEntries(bindings[..i])
      invariant isErrorPy <==> Any(bindings[..i], PyUndocumented)
    {
      var b := bindings[i];
      assert bindings[..i + 1][..i] == bindings[..i];
      AnyExtend(bindings, i, PyUndocumented);
      if PyVisible(b) {
        if b.docstring.None? {
          isErrorPy := true;
        } else {
          entries := entries + [PyEntryOf(b)];
        }
      }
      i := i + 1;
    }
    assert bindings[..i] == bindings;
  }

  // ---------------------------------------------------------------------------
  // Reformatting

  /** `argDetails.get(argName, None) is not None`, as a filter. */
  function DocumentedIn(details: map<string, PyArgInfo>): string -> bool {
    n => n in details
  }

  /**
   * A name of `argList` that has an entry in `details` occurs twice. The
   * second occurrence reads `type_name` from the dictionary the first one
   * already stripped of it, which raises.
   */
  predicate ArgumentReused(argList: seq<string>, details: map<string, PyArgInfo>) {
    exists i, j :: 0 <= i < j < |argList| && argList[i] == argList[j] && argList[i] in details
  }

  /**
   * An argument in the output shape: its name is its key, `type` is the
   * former `type_name`, and `required` is whatever the parser gave: none is
   * made up.
   */
  function PyArgument(name: string, info: PyArgInfo): (a: ArgumentRecord)
    ensures a.name == Some(name) && a.description == info.description
    ensures a.argType == Some(info.typeName)
    ensures a.required == info.required && a.optional.None?
  {
    ArgumentRecord(Some(name), info.description, Some(info.typeName), info.required, None)
  }

  /**
   * The arguments of a record: the names of `argList` that are documented
   * in `details`, in `argList` order; undocumented names and documented
   * names missing from `argList` are dropped.
   */
  function PyArguments(argList: seq<string>, details: map<string, PyArgInfo>): (r: seq<ArgumentRecord>)
    ensures |r| <= |argList|
  {
    if argList == [] then []
    else
      var last := argList[|argList| - 1];
      var init := PyArguments(argList[..|argList| - 1], details);
      if last in details then init + [PyArgument(last, details[last])] else init
  }

  /** The arguments are the documented names of `argList`, in order, each with its parsed entry. */
  lemma {:induction false} PyArgumentsMeaning(argList: seq<string>, details: map<string, PyArgInfo>)
    ensures var named := Filter(argList, DocumentedIn(details));
      var r := PyArguments(argList, details);
      && |r| == |named|
      && forall k :: 0 <= k < |named| ==> named[k] in details && r[k] == PyArgument(named[k], details[named[k]])
  {
    if argList != [] {
      PyArgumentsMeaning(argList[..|argList| - 1], details);
    }
  }

  /** Some documented argument of `argList` lacks a description. */
  predicate ArgumentUndescribed(argList: seq<string>, details: map<string, PyArgInfo>) {
    exists k :: 0 <= k < |argList| && argList[k] in details && MissingOrEmpty(details[argList[k]].description)
  }

  /** Projecting one more name of `argList` appends its argument when it is documented. */
  lemma ProjectionExtend(argList: seq<string>, k: nat, details: map<string, PyArgInfo>)
    requires k < |argList|
    ensures var n := argList[k];
      PyArguments(argList[..k + 1], details) ==
        PyArguments(argList[..k], details) + (if n in details then [PyArgument(n, details[n])] else [])
  {
    assert argList[..k + 1][..k] == argList[..k];
  }

  /** One more name makes an argument undescribed exactly when it is documented without a description. */
  lemma UndescribedExtend(argList: seq<string>, k: nat, details: map<string, PyArgInfo>)
    requires k < |argList|
    ensures var n := argList[k];
      (ArgumentUndescribed(argList[..k + 1], details) <==>
        ArgumentUndescribed(argList[..k], details) || (n in details && MissingOrEmpty(details[n].description)))
  {
    var pre := argList[..k];
    var ext := argList[..k + 1];
    assert forall m :: 0 <= m < k ==> ext[m] == pre[m];
    assert ext[k] == argList[k];
  }

  /** One more name is a reuse exactly when it is documented and already occurred. */
  lemma ReusedExtend(argList: seq<string>, k: nat, details: map<string, PyArgInfo>)
    requires k < |argList|
    ensures var n := argList[k];
      (ArgumentReused(argList[..k + 1], details) <==>
        ArgumentReused(argList[..k], details) || (n in details && n in argList[..k]))
  {
    var pre := argList[..k];
    var ext := argList[..k + 1];
    assert forall m :: 0 <= m < k ==> ext[m] == pre[m];
    var n := argList[k];
    if n in details && n in pre {
      var i :| 0 <= i < k && pre[i] == n;
      assert ext[i] == ext[k];
    }
    if ArgumentReused(ext, details) {
      var i, j :| 0 <= i < j < |ext| && ext[i] == ext[j] && ext[i] in details;
      if j == k {
        assert pre[i] == n;
      } else {
        assert pre[i] == pre[j];
      }
    }
  }

  /**
   * The argument loop of `reformatPythonOutput`: raises exactly when a
   * documented name is reused; otherwise yields the projected arguments
   * and whether one of them lacks a description.
   */
  method ProjectArguments(argList: seq<string>, details: map<string, PyArgInfo>)
    returns (out: Outcome<seq<ArgumentRecord>>, argError: bool)
    ensures out.Crash? <==> ArgumentReused(argList, details)
    ensures out.Crash? ==> out.site == PyArgumentReused
    ensures out.Ok? ==> out.value == PyArguments(argList, details)
    ensures out.Ok? ==> (argError <==> ArgumentUndescribed(argList, details))
  {
    var z: seq<ArgumentRecord> := [];
    var consumed: set<string> := {};
    argError := false;
    var k := 0;
    while k < |argList|
      invariant 0 <= k <= |argList|
      invariant z == PyArguments(argList[..k], details)
      invariant forall n :: n in consumed <==> n in details && n in argList[..k]
      invariant !ArgumentReused(argList[..k], details)
      invariant argError <==> ArgumentUndescribed(argList[..k], details)
    {
      var argName := argList[k];
      ProjectionExtend(argList, k, details);
      UndescribedExtend(argList, k, details);
      ReusedExtend(argList, k, details);
      if argName in details {
        if argName in consumed {
          assert ArgumentReused(argList[..k + 1], details);
          assert ArgumentReused(argList, details) by {
            var i, j :| 0 <= i < j < k + 1 && argList[..k + 1][i] == argList[..k + 1][j] && argList[..k + 1][i] in details;
            assert argList[i] == argList[j];
          }
          return Crash(PyArgumentReused), argError;
        }
        var argInfo := PyArgument(argName, details[argName]);
        if MissingOrEmpty(argInfo.description) {
          argError := true;
        }
        z := z + [argInfo];
        consumed := consumed + {argName};
      }
      assert argList[..k + 1] == argList[..k] + [argName];
      k := k + 1;
    }
    assert argList[..k] == argList;
    return Ok(z), argError;
  }

  /** The entry survives the deprecation filter. */
  predicate PyKept(e: PyEntry) {
    !Contains(e.description, DeprecationMarker)
  }

  /** The entry triggers at least one validation error. */
  predicate PyDefective(e: PyEntry) {
    e.description == "" || ArgumentUndescribed(e.argList, e.arguments)
  }

  /**
   * The record of a kept entry: the parser's keys renamed (`return` to
   * `return_value`, `type_name` to `type`) and the scratch keys gone.
   */
  function PyRecord(e: PyEntry, origin: string, language: string): (r: FunctionRecord)
    ensures r.name == e.name && r.description == e.description
    ensures r.arguments == PyArguments(e.argList, e.arguments)
    ensures r.returnValue == Some(ReturnRecord(e.ret.description, e.ret.typeName))
    ensures r.markdown <==> e.name in DocsConfig.MarkdownDescFuncs
    ensures !r.automationOnly
    ensures r.language == language && r.origin == origin
  {
    FunctionRecord(
      e.name, e.description, PyArguments(e.argList, e.arguments),
      Some(ReturnRecord(e.ret.description, e.ret.typeName)),
      language, origin, e.name in DocsConfig.MarkdownDescFuncs, false)
  }

  /** `records` are the records of the kept entries of `entries`, in order. */
  predicate EmitsKept(entries: seq<PyEntry>, records: seq<FunctionRecord>, origin: string, language: string) {
    var kept := Filter(entries, PyKept);
    && |records| == |kept|
    && forall k :: 0 <= k < |kept| ==> records[k] == PyRecord(kept[k], origin, language)
  }

  /** The records `EmitsKept` describes are determined by the entries. */
  lemma EmitsKeptUnique(entries: seq<PyEntry>, records: seq<FunctionRecord>, others: seq<FunctionRecord>, origin: string, language: string)
    requires EmitsKept(entries, records, origin, language) && EmitsKept(entries, others, origin, language)
    ensures records == others
  {
  }

  /** Appending the record of entry `i` (when it is kept) keeps `EmitsKept` for one more entry. */
  lemma EmitsKeptExtend(entries: seq<PyEntry>, i: nat, res: seq<FunctionRecord>, origin: string, language: string)
    requires i < |entries|
    requires EmitsKept(entries[..i], res, origin, language)
    ensures PyKept(entries[i]) ==> EmitsKept(entries[..i + 1], res + [PyRecord(entries[i], origin, language)], origin, language)
    ensures !PyKept(entries[i]) ==> EmitsKept(entries[..i + 1], res, origin, language)
  {
    FilterExtend(entries, i, PyKept);
  }

  /**
   * The body of the entry loop of `reformatPythonOutput` for a kept entry:
   * its record and whether it has a validation error.
   */
  method ReformatEntry(a: PyEntry, origin: string, language: string) returns (out: Outcome<FunctionRecord>, entryError: bool)
    ensures out.Crash? <==> ArgumentReused(a.argList, a.arguments)
    ensures out.Crash? ==> out.site == PyArgumentReused
    ensures out.Ok? ==> out.value == PyRecord(a, origin, language)
    ensures out.Ok? ==> (entryError <==> PyDefective(a))
  {
    entryError := a.description == "";
    var z, argError := ProjectArguments(a.argList, a.arguments);
    if z.Crash? {
      return Crash(z.site), entryError;
    }
    if argError {
      entryError := true;
    }
    var returnValue := ReturnRecord(a.ret.description, a.ret.typeName);
    return Ok(FunctionRecord(
      a.name, a.description, z.value, Some(returnValue),
      language, origin, a.name in DocsConfig.MarkdownDescFuncs, false)), entryError;
  }

  /** A kept entry that reuses a documented argument name: reformatting it raises. */
  predicate PyKeptReused(e: PyEntry) {
    PyKept(e) && ArgumentReused(e.argList, e.arguments)
  }

  /** A kept entry with a validation error. */
  predicate PyKeptDefective(e: PyEntry) {
    PyKept(e) && PyDefective(e)
  }

  /**
   * `reformatPythonOutput`: drops the entries whose description mentions
   * deprecation, reformats the others in order, and records (without
   * stopping) every missing function or argument description.
   */
  method ReformatPythonOutput(entries: seq<PyEntry>, origin: string, language: string) returns (out: Outcome<Extracted>)
    ensures out.Crash? <==> Any(entries, PyKeptReused)
    ensures out.Crash? ==> out.site == PyArgumentReused
    ensures out.Ok? ==> EmitsKept(entries, out.value.records, origin, language)
    ensures out.Ok? ==> (out.value.isError <==> Any(entries, PyKeptDefective))
  {
    var res: seq<FunctionRecord> := [];
    var isError := false;
    var i := 0;
    while i < |entries|
      invariant 0 <= i <= |entries|
      invariant !Any(entries[..i], PyKeptReused)
      invariant EmitsKept(entries[..i], res, origin, language)
      invariant isError <==> Any(entries[..i], PyKeptDefective)
    {
      var a := entries[i];
      AnyExtend(entries, i, PyKeptReused);
      AnyExtend(entries, i, PyKeptDefective);
      EmitsKeptExtend(entries, i, res, origin, language);
      if PyKept(a) {
        var y, entryError := ReformatEntry(a, origin, language);
        if y.Crash? {
          assert PyKeptReused(entries[i]);
          return Crash(y.site);
        }
        if entryError {
          isError := true;
        }
        res := res + [y.value];
      }
      i := i + 1;
    }
    assert entries[..i] == entries;
    return Ok(Extracted(res, isError));
  }

  /**
   * `createPyDocumentation` after the module was loaded: an examined
   * binding without a docstring makes it return no records and the error
   * flag; otherwise the collected entries are reformatted.
   */
  method CreatePyDocumentation(bindings: seq<PyBinding>, origin: string, language: string) returns (out: Outcome<PyDocResult>)
    ensures Any(bindings, PyUndocumented) ==> out == Ok(PyDocResult(None, true))
    ensures out.Ok? ==> (out.value.records.None? <==> Any(bindings, PyUndocumented))
    ensures out.Ok? && out.value.records.None? ==> out.value.isError
    ensures out.Crash? <==> !Any(bindings, PyUndocumented) && Any(CollectedEntries(bindings), PyKeptReused)
    ensures out.Crash? ==> out.site == PyArgumentReused
    ensures out.Ok? && out.value.records.Some? ==>
      EmitsKept(CollectedEntries(bindings), out.value.records.value, origin, language)
    ensures out.Ok? && out.value.records.Some? ==>
      (out.value.isError <==> Any(CollectedEntries(bindings), PyKeptDefective))
  {
    var x, isErrorPy := CollectPyEntries(bindings);
    if isErrorPy {
      return Ok(PyDocResult(None, true));
    }
    var reformatted := ReformatPythonOutput(x, origin, language);
    match reformatted
    case Crash(site) => return Crash(site);
    case Ok(extracted) => return Ok(PyDocResult(Some(extracted.records), extracted.isError));
  }

  /**
   * The arguments of a record follow `argList`: the k-th argument is the
   * k-th name of `argList` that has a parsed entry, every such name
   * appears, and the positions increase.
   */
  lemma PyArgumentsFollowArgList(argList: seq<string>, details: map<string, PyArgInfo>)
    ensures var idx := KeptIndices(argList, DocumentedIn(details));
      var r := PyArguments(argList, details);
      && |r| == |idx|
      && (forall k :: 0 <= k < |idx| ==> argList[idx[k]] in details && r[k] == PyArgument(argList[idx[k]], details[argList[idx[k]]]))
      && (forall i :: 0 <= i < |argList| && argList[i] in details ==> i in idx)
  {
    PyArgumentsMeaning(argList, details);
    FilterFollowsKeptIndices(argList, DocumentedIn(details));
  }

  /**
   * No emitted record comes from the mock binding, from a private name, or
   * from a function whose description mentions deprecation; each comes from
   * a documented binding, in namespace order.
   */
  lemma PyEmitsOnlyPublicCurrentFunctions(bindings: seq<PyBinding>, records: seq<FunctionRecord>, origin: string, language: string)
    requires EmitsKept(CollectedEntries(bindings), records, origin, language)
    ensures forall k :: 0 <= k < |records| ==>
      && records[k].name != DocsConfig.MockBinding
      && records[k].name !in DocsConfig.PyPrivateFuncs
      && !Contains(records[k].description, DeprecationMarker)
  {
    var entries := CollectedEntries(bindings);
    CollectedEntriesMeaning(bindings);
    FilterFollowsKeptIndices(entries, PyKept);
    var idx := KeptIndices(entries, PyKept);
    forall k | 0 <= k < |records|
      ensures records[k].name != DocsConfig.MockBinding && records[k].name !in DocsConfig.PyPrivateFuncs
    {
      var e := entries[idx[k]];
      assert records[k].name == e.name;
      var documented := Filter(bindings, PyDocumented);
      assert PyDocumented(documented[idx[k]]);
    }
  }

  /** When no documented argument lacks a description, every argument of the record has one. */
  lemma PyArgumentsDescribed(argList: seq<string>, details: map<string, PyArgInfo>)
    requires !ArgumentUndescribed(argList, details)
    ensures forall j :: 0 <= j < |PyArguments(argList, details)| ==> !MissingOrEmpty(PyArguments(argList, details)[j].description)
  {
    PyArgumentsFollowArgList(argList, details);
  }

  /**
   * When no kept entry has a validation error, every record has a
   * description and so has each of its arguments.
   */
  lemma PyCleanRecordsDescribed(entries: seq<PyEntry>, records: seq<FunctionRecord>, origin: string, language: string)
    requires EmitsKept(entries, records, origin, language)
    requires !Any(entries, PyKeptDefective)
    ensures forall k :: 0 <= k < |records| ==> Described(records[k])
  {
    FilterFollowsKeptIndices(entries, PyKept);
    var idx := KeptIndices(entries, PyKept);
    forall k | 0 <= k < |records| ensures Described(records[k]) {
      var e := entries[idx[k]];
      assert !PyKeptDefective(e);
      assert records[k] == PyRecord(e, origin, language);
      PyArgumentsDescribed(e.argList, e.arguments);
    }
  }
}
