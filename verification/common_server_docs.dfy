/**
 * The driver: runs the three extractors, then writes the merged document
 * only when none of them recorded a validation error and the constants
 * file is non-empty.
 */
module CommonServerDocs {
  import opened Options
  import opened Sequences
  import opened DocModel
  import JsDocs
  import PyDocs
  import PsDocs

  const JsOrigin: string := "CommonServerJs"
  const JsLanguage: string := "javascript"
  const PyOrigin: string := "CommonServerPython"
  const PyLanguage: string := "python"
  const PsOrigin: string := "CommonServerPowerShell"
  const PsLanguage: string := "powershell"

  /**
   * One element of the output list: an entry of the constants file, kept
   * as its JSON text, or a function record.
   */
  datatype DocItem = Constant(json: string) | Function(record: FunctionRecord)

  /** How a run ends: an extractor raised, the run stopped with exit status 1, or the document was written. */
  datatype RunResult = Raised(site: CrashSite) | Aborted | Written(doc: seq<DocItem>)

  /** Function records as output items, in order. */
  function Functions(records: seq<FunctionRecord>): (r: seq<DocItem>)
    ensures |r| == |records|
    ensures forall k :: 0 <= k < |r| ==> r[k] == Function(records[k])
  {
    seq(|records|, k requires 0 <= k < |records| => Function(records[k]))
  }

  /**
   * The end of `main`: nothing is written when an extractor recorded an
   * error or the constants list is empty; otherwise the document is the
   * constants followed by the JavaScript, Python and PowerShell output.
   * The Python output is absent only together with its error flag.
   */
  function Merge<T>(constants: seq<T>, js: seq<T>, isErrorJS: bool, py: Option<seq<T>>, isErrorPy: bool,
                    ps: seq<T>, isErrorPS: bool): (r: Option<seq<T>>)
    requires py.None? ==> isErrorPy
    ensures r.Some? <==> !isErrorJS && !isErrorPy && !isErrorPS && |constants| > 0
    ensures r.Some? ==> |r.value| == |constants| + |js| + |py.value| + |ps|
    ensures r.Some? ==>
      var a := |constants|;
      var b := a + |js|;
      var c := b + |py.value|;
      && r.value[..a] == constants && r.value[a..b] == js && r.value[b..c] == py.value && r.value[c..] == ps
  {
    if isErrorJS || isErrorPy || isErrorPS || |constants| == 0 then None
    else
      var doc := constants + js + py.value + ps;
      assert doc[..|constants|] == constants;
      assert doc[|constants|..|constants| + |js|] == js;
      assert doc[|constants| + |js|..|constants| + |js| + |py.value|] == py.value;
      assert doc[|constants| + |js| + |py.value|..] == ps;
      Some(doc)
  }

  /** With nothing extracted and no error, the written document is the constants list unchanged. */
  lemma MergeOfEmptyExtractors<T>(constants: seq<T>)
    requires |constants| > 0
    ensures Merge(constants, [], false, Some([]), false, [], false) == Some(constants)
  {
    var r := Merge(constants, [], false, Some([]), false, [], false);
    assert r.value[..|constants|] == r.value;
  }

  /** Reading the JavaScript dump raises. */
  predicate JsRaises(jsEntries: seq<JsDocs.JsEntry>) {
    Any(jsEntries, JsDocs.JsKeptWithoutReturn)
  }

  /** Reformatting the Python entries raises: every binding had a docstring, and a kept entry reuses an argument. */
  predicate PyRaises(bindings: seq<PyDocs.PyBinding>) {
    !Any(bindings, PyDocs.PyUndocumented) && Any(PyDocs.CollectedEntries(bindings), PyDocs.PyKeptReused)
  }

  /** The PowerShell outcome: the records of all blocks, or the exception of the first that raises. */
  function PsOutcome(psMatches: seq<PsDocs.PsMatch>): Outcome<seq<FunctionRecord>> {
    Traverse(psMatches, PsDocs.BlockReader(PsOrigin, PsLanguage))
  }

  /** No validation error is recorded by any extractor. */
  predicate AllClean(jsEntries: seq<JsDocs.JsEntry>, bindings: seq<PyDocs.PyBinding>, psMatches: seq<PsDocs.PsMatch>) {
    && !Any(jsEntries, JsDocs.JsKeptDefective)
    && !Any(bindings, PyDocs.PyUndocumented)
    && !Any(PyDocs.CollectedEntries(bindings), PyDocs.PyKeptDefective)
    && !Any(psMatches, PsDocs.EmptyDescription)
  }

  /**
   * The tail of `main`: merges the three outputs after the constants, or
   * stops when an error was recorded or the constants list is empty.
   * Every record written passes the description checks.
   */
  method WriteDocument(constants: seq<DocItem>, js: Extracted, py: PyDocs.PyDocResult, ps: Extracted) returns (r: RunResult)
    requires py.records.None? ==> py.isError
    requires !js.isError ==> forall k :: 0 <= k < |js.records| ==> Described(js.records[k])
    requires !py.isError && py.records.Some? ==> forall k :: 0 <= k < |py.records.value| ==> Described(py.records.value[k])
    requires !ps.isError ==> forall k :: 0 <= k < |ps.records| ==> Described(ps.records[k])
    ensures !r.Raised?
    ensures r.Written? <==> !js.isError && !py.isError && !ps.isError && |constants| > 0
    ensures r.Written? ==> |r.doc| >= |constants| && r.doc[..|constants|] == constants
    ensures r.Written? ==>
      && py.records.Some?
      && r.doc == constants + Functions(js.records) + Functions(py.records.value) + Functions(ps.records)
    ensures r.Written? ==> forall k :: |constants| <= k < |r.doc| ==> r.doc[k].Function? && Described(r.doc[k].record)
  {
    var pyItems := match py.records
      case None => None
      case Some(records) => Some(Functions(records));
    var merged := Merge(constants, Functions(js.records), js.isError, pyItems, py.isError,
                        Functions(ps.records), ps.isError);
    if merged.None? {
      return Aborted;
    }
    RecordsAfterConstants(merged.value, constants, js.records, py.records.value, ps.records);
    ConcatOfSlices(merged.value, constants, Functions(js.records), Functions(py.records.value), Functions(ps.records));
    return Written(merged.value);
  }

  /**
   * `main` after its inputs are read: the extractors run in order and the
   * first exception ends the run. The document is written exactly when no
   * extractor raised, none recorded an error and the constants list is
   * non-empty; it then starts with the constants and every function record
   * after them passes the description checks.
   */
  method GenerateDocs(jsEntries: seq<JsDocs.JsEntry>, bindings: seq<PyDocs.PyBinding>,
                      psMatches: seq<PsDocs.PsMatch>, constants: seq<DocItem>) returns (r: RunResult)
    ensures JsRaises(jsEntries) ==> r == Raised(JsReturnsIndex)
    ensures !JsRaises(jsEntries) && PyRaises(bindings) ==> r == Raised(PyArgumentReused)
    ensures !JsRaises(jsEntries) && !PyRaises(bindings) && PsOutcome(psMatches).Crash? ==>
      r == Raised(PsOutcome(psMatches).site)
    ensures r.Raised? <==> JsRaises(jsEntries) || PyRaises(bindings) || PsOutcome(psMatches).Crash?
    ensures r.Written? <==> !r.Raised? && AllClean(jsEntries, bindings, psMatches) && |constants| > 0
    ensures r.Written? ==> |r.doc| >= |constants| && r.doc[..|constants|] == constants
    ensures r.Written? ==> PsOutcome(psMatches).Ok?
    ensures r.Written? ==> exists jsRecords :: (
      && JsDocs.EmitsKept(jsEntries, jsRecords, JsOrigin, JsLanguage)
      && exists pyRecords :: (
        && PyDocs.EmitsKept(PyDocs.CollectedEntries(bindings), pyRecords, PyOrigin, PyLanguage)
        && r.doc == constants + Functions(jsRecords) + Functions(pyRecords) + Functions(PsOutcome(psMatches).value)))
    ensures r.Written? ==> forall k :: |constants| <= k < |r.doc| ==> r.doc[k].Function? && Described(r.doc[k].record)
  {
    var js := JsDocs.CreateJsDocumentation(jsEntries, JsOrigin, JsLanguage);
    if js.Crash? {
      return Raised(js.site);
    }
    var py := PyDocs.CreatePyDocumentation(bindings, PyOrigin, PyLanguage);
    if py.Crash? {
      return Raised(py.site);
    }
    var ps := PsDocs.CreatePsDocumentation(psMatches, PsOrigin, PsLanguage);
    if ps.Crash? {
      return Raised(ps.site);
    }
    if !js.value.isError {
      JsDocs.JsCleanRecordsDescribed(jsEntries, js.value.records, JsOrigin, JsLanguage);
    }
    if !py.value.isError && py.value.records.Some? {
      PyDocs.PyCleanRecordsDescribed(PyDocs.CollectedEntries(bindings), py.value.records.value, PyOrigin, PyLanguage);
    }
    if !ps.value.isError {
      PsDocs.PsCleanRecordsDescribed(psMatches, ps.value.records, PsOrigin, PsLanguage);
    }
    r := WriteDocument(constants, js.value, py.value, ps.value);
    if r.Written? {
      var pyRecords := py.value.records.value;
      assert PyDocs.EmitsKept(PyDocs.CollectedEntries(bindings), pyRecords, PyOrigin, PyLanguage);
      assert r.doc == constants + Functions(js.value.records) + Functions(pyRecords) + Functions(PsOutcome(psMatches).value);
    }
  }

  /** A sequence cut into four consecutive slices is their concatenation. */
  lemma ConcatOfSlices<T>(d: seq<T>, a: seq<T>, b: seq<T>, c: seq<T>, e: seq<T>)
    requires |d| == |a| + |b| + |c| + |e|
    requires d[..|a|] == a && d[|a|..|a| + |b|] == b
    requires d[|a| + |b|..|a| + |b| + |c|] == c && d[|a| + |b| + |c|..] == e
    ensures d == a + b + c + e
  {
    var n := |a| + |b| + |c|;
    assert d == d[..|a|] + d[|a|..|a| + |b|] + d[|a| + |b|..n] + d[n..];
  }

  /** The items after the constants of a merged document are the records of the three extractors. */
  lemma RecordsAfterConstants(doc: seq<DocItem>, constants: seq<DocItem>,
                              js: seq<FunctionRecord>, py: seq<FunctionRecord>, ps: seq<FunctionRecord>)
    requires |doc| == |constants| + |js| + |py| + |ps|
    requires doc[|constants|..|constants| + |js|] == Functions(js)
    requires doc[|constants| + |js|..|constants| + |js| + |py|] == Functions(py)
    requires doc[|constants| + |js| + |py|..] == Functions(ps)
    requires forall k :: 0 <= k < |js| ==> Described(js[k])
    requires forall k :: 0 <= k < |py| ==> Described(py[k])
    requires forall k :: 0 <= k < |ps| ==> Described(ps[k])
    ensures forall k :: |constants| <= k < |doc| ==> doc[k].Function? && Described(doc[k].record)
  {
    var a := |constants|;
    var b := a + |js|;
    var c := b + |py|;
    forall k | a <= k < |doc| ensures doc[k].Function? && Described(doc[k].record) {
      if k < b {
        assert doc[k] == doc[a..b][k - a] == Function(js[k - a]);
        assert Described(js[k - a]);
      } else if k < c {
        assert doc[k] == doc[b..c][k - b] == Function(py[k - b]);
        assert Described(py[k - b]);
      } else {
        assert doc[k] == doc[c..][k - c] == Function(ps[k - c]);
        assert Described(ps[k - c]);
      }
    }
  }
}
