/**
 * The record shapes the documentation extractors produce, and how a run of
 * one of them can end.
 */
module DocModel {
  import opened Options

  /**
   * The places where an extractor raises instead of recording an error;
   * an exception there ends the whole run.
   */
  datatype CrashSite =
    | JsReturnsIndex           // `a.get("returns", None)[0]`: no returns list, or an empty one
    | PyArgumentReused         // `argInfo["type_name"]` on an argument dict already reformatted
    | PsDescriptionIndex       // `.split('.DESCRIPTION')[1]`: no `.DESCRIPTION` before the first `.PARAMETER`
    | PsParamNameIndex         // `split_param[0]`: a `.PARAMETER` chunk without a non-empty line
    | PsParamDescriptionIndex  // `split_param[1]`: a `.PARAMETER` chunk with a single non-empty line

  /** Either the value an extractor returns, or the exception it raised. */
  datatype Outcome<+T> = Ok(value: T) | Crash(site: CrashSite)

  /**
   * One documented argument. Absent dictionary keys are `None`; `argType`
   * is the output key `type`.
   */
  datatype ArgumentRecord = ArgumentRecord(
    name: Option<string>,
    description: Option<string>,
    argType: Option<string>,
    required: Option<bool>,
    optional: Option<bool>)

  /** The `return_value` of a function; `returnType` is the output key `type`. */
  datatype ReturnRecord = ReturnRecord(description: Option<string>, returnType: string)

  /**
   * One documented function in the merged output. `markdown` and
   * `automationOnly` stand for keys that are either absent or `True`.
   */
  datatype FunctionRecord = FunctionRecord(
    name: string,
    description: string,
    arguments: seq<ArgumentRecord>,
    returnValue: Option<ReturnRecord>,
    language: string,
    origin: string,
    markdown: bool,
    automationOnly: bool)

  /** What an extractor returns: its records and whether any validation error was recorded. */
  datatype Extracted = Extracted(records: seq<FunctionRecord>, isError: bool)

  /**
   * The record passes the checks the extractors make before output is
   * written: it has a description and so has each of its arguments.
   */
  predicate Described(r: FunctionRecord) {
    && r.description != ""
    && forall k :: 0 <= k < |r.arguments| ==> !MissingOrEmpty(r.arguments[k].description)
  }

  /** `d.get(key, "") == ""`: the key is absent or holds the empty string. */
  predicate MissingOrEmpty(v: Option<string>) {
    v.GetOr("") == ""
  }

  /**
   * Reading each element in turn, as a `for` loop that appends to a list
   * does: the list of results, or the exception of the first element whose
   * reading raises.
   */
  function Traverse<A, B>(xs: seq<A>, read: A -> Outcome<B>): (r: Outcome<seq<B>>)
    ensures r.Ok? ==> |r.value| == |xs|
  {
    if xs == [] then Ok([])
    else
      match Traverse(xs[..|xs| - 1], read)
      case Crash(site) => Crash(site)
      case Ok(init) =>
        match read(xs[|xs| - 1])
        case Crash(site) => Crash(site)
        case Ok(last) => Ok(init + [last])
  }

  /** Reading one more element: the prefix's results extended, or the first exception. */
  lemma TraverseExtend<A, B>(xs: seq<A>, i: nat, read: A -> Outcome<B>)
    requires i < |xs|
    ensures Traverse(xs[..i + 1], read) ==
      match Traverse(xs[..i], read)
      case Crash(site) => Crash(site)
      case Ok(init) =>
        match read(xs[i])
        case Crash(site) => Crash(site)
        case Ok(last) => Ok(init + [last])
  {
    assert xs[..i + 1][..i] == xs[..i];
  }

  /** Once a prefix raises, the whole traversal raises the same exception. */
  lemma {:induction false} TraversePrefixCrash<A, B>(xs: seq<A>, i: nat, read: A -> Outcome<B>)
    requires i <= |xs| && Traverse(xs[..i], read).Crash?
    decreases |xs| - i
    ensures Traverse(xs, read) == Traverse(xs[..i], read)
  {
    if i < |xs| {
      TraverseExtend(xs, i, read);
      TraversePrefixCrash(xs, i + 1, read);
    } else {
      assert xs[..i] == xs;
    }
  }

  /**
   * A traversal raises exactly when some element's reading raises, and
   * then with the exception of the first such element; otherwise its k-th
   * result is the reading of the k-th element.
   */
  lemma {:induction false} TraverseMeaning<A, B>(xs: seq<A>, read: A -> Outcome<B>)
    ensures var r := Traverse(xs, read);
      && (r.Crash? <==> exists k :: 0 <= k < |xs| && read(xs[k]).Crash?)
      && (r.Crash? ==> exists k :: 0 <= k < |xs| && read(xs[k]) == Crash(r.site) && forall j :: 0 <= j < k ==> read(xs[j]).Ok?)
      && (r.Ok? ==> forall k :: 0 <= k < |xs| ==> read(xs[k]) == Ok(r.value[k]))
  {
    if xs != [] {
      var init := xs[..|xs| - 1];
      TraverseMeaning(init, read);
      var r := Traverse(xs, read);
      var ri := Traverse(init, read);
      if ri.Crash? {
        var k :| 0 <= k < |init| && read(init[k]) == Crash(ri.site) && forall j :: 0 <= j < k ==> read(init[j]).Ok?;
        assert read(xs[k]) == Crash(r.site);
        assert forall j :: 0 <= j < k ==> xs[j] == init[j];
      } else {
        assert forall k :: 0 <= k < |init| ==> xs[k] == init[k];
        if r.Crash? {
          assert read(xs[|xs| - 1]) == Crash(r.site);
        }
      }
    }
  }
}
