/**
 * The JavaScript extractor: turns the doc-comment dump of the JavaScript
 * library into function records.
 */
module JsDocs {
  import opened Options
  import opened PyStrings
  import opened Sequences
  import opened DocModel
  import DocsConfig

  /** One `@param` entry; `typeNames` is `type.names`, `None` when `type` or `names` is absent. */
  datatype JsParam = JsParam(
    name: Option<string>,
    description: Option<string>,
    typeNames: Option<seq<string>>,
    optional: Option<bool>)

  /** One `@returns` entry. */
  datatype JsReturn = JsReturn(description: Option<string>, typeNames: Option<seq<string>>)

  /**
   * One function of the dump. `deprecated` says the entry carries a
   * non-null `deprecated` key; an absent `params` key is the empty list; `returnList` is the `returns` key.
   */
  datatype JsEntry = JsEntry(
    name: Option<string>,
    description: Option<string>,
    deprecated: bool,
    params: seq<JsParam>,
    returnList: Option<seq<JsReturn>>)

  const TypeSeparator: string := " or "

  /** A list of candidate type names, as one string. */
  function TypeText(names: Option<seq<string>>): (r: string)
    ensures names.None? || names.value == [] ==> r == ""
    ensures names.Some? && |names.value| == 1 ==> r == names.value[0]
    ensures names.Some? && |names.value| >= 1 ==> IsPrefix(names.value[0], r)
  {
    JoinWith(names.GetOr([]), TypeSeparator)
  }

  /** Python truthiness of an `optional` value. */
  predicate Truthy(flag: Option<bool>) {
    flag == Some(true)
  }

  /** The entry is processed: it is not deprecated and not a private helper. */
  predicate JsKept(e: JsEntry) {
    !e.deprecated && e.name.GetOr("") !in DocsConfig.JsPrivateFuncs
  }

  /** The entry has a first return descriptor to read. */
  predicate HasFirstReturn(e: JsEntry) {
    e.returnList.Some? && |e.returnList.value| > 0
  }

  predicate ParamDefective(p: JsParam) {
    MissingOrEmpty(p.name) || MissingOrEmpty(p.description)
  }

  /** The entry triggers at least one validation error. */
  predicate JsDefective(e: JsEntry) {
    || MissingOrEmpty(e.name)
    || MissingOrEmpty(e.description)
    || exists k :: 0 <= k < |e.params| && ParamDefective(e.params[k])
  }

  /**
   * A parameter in the output shape: `required` is false exactly when the
   * parameter was marked optional, and only then is `optional` dropped.
   */
  function JsArgument(p: JsParam): (a: ArgumentRecord)
    ensures a.name == p.name && a.description == p.description
    ensures a.argType == Some(TypeText(p.typeNames))
    ensures a.required.Some?
    ensures a.required == Some(false) <==> Truthy(p.optional)
    ensures Truthy(p.optional) ==> a.optional.None?
    ensures !Truthy(p.optional) ==> a.optional == p.optional
  {
    if Truthy(p.optional) then ArgumentRecord(p.name, p.description, Some(TypeText(p.typeNames)), Some(false), None)
    else ArgumentRecord(p.name, p.description, Some(TypeText(p.typeNames)), Some(true), p.optional)
  }

  /** The record emitted for a processed entry. */
  function JsRecord(e: JsEntry, origin: string, language: string): (r: FunctionRecord)
    requires HasFirstReturn(e)
    ensures r.name == e.name.GetOr("") && r.description == e.description.GetOr("")
    ensures |r.arguments| == |e.params|
    ensures forall k :: 0 <= k < |e.params| ==> r.arguments[k] == JsArgument(e.params[k])
    ensures r.returnValue == Some(ReturnRecord(e.returnList.value[0].description, TypeText(e.returnList.value[0].typeNames)))
    ensures r.markdown <==> r.name in DocsConfig.MarkdownDescFuncs
    ensures r.automationOnly <==> r.name in DocsConfig.JsAutomationOnly
    ensures r.language == language && r.origin == origin
  {
    var name := e.name.GetOr("");
    var first := e.returnList.value[0];
    FunctionRecord(
      name,
      e.description.GetOr(""),
      seq(|e.params|, k requires 0 <= k < |e.params| => JsArgument(e.params[k])),
      Some(ReturnRecord(first.description, TypeText(first.typeNames))),
      language,
      origin,
      name in DocsConfig.MarkdownDescFuncs,
      name in DocsConfig.JsAutomationOnly)
  }

  /**
   * `records` are the records of the processed entries of `entries`, in
   * order, and every processed entry has a first return descriptor.
   */
  predicate EmitsKept(entries: seq<JsEntry>, records: seq<FunctionRecord>, origin: string, language: string) {
    var kept := Filter(entries, JsKept);
    && |records| == |kept|
    && forall k :: 0 <= k < |kept| ==> HasFirstReturn(kept[k]) && records[k] == JsRecord(kept[k], origin, language)
  }

  /** The records `EmitsKept` describes are determined by the entries. */
  lemma EmitsKeptUnique(entries: seq<JsEntry>, records: seq<FunctionRecord>, others: seq<FunctionRecord>, origin: string, language: string)
    requires EmitsKept(entries, records, origin, language) && EmitsKept(entries, others, origin, language)
    ensures records == others
  {
  }

  /** Appending the record of entry `i` (when it is processed) keeps `EmitsKept` for one more entry. */
  lemma EmitsKeptExtend(entries: seq<JsEntry>, i: nat, x: seq<FunctionRecord>, origin: string, language: string)
    requires i < |entries|
    requires EmitsKept(entries[..i], x, origin, language)
    requires JsKept(entries[i]) ==> HasFirstReturn(entries[i])
    ensures JsKept(entries[i]) ==> EmitsKept(entries[..i + 1], x + [JsRecord(entries[i], origin, language)], origin, language)
    ensures !JsKept(entries[i]) ==> EmitsKept(entries[..i + 1], x, origin, language)
  {
    FilterExtend(entries, i, JsKept);
  }

  /**
   * The parameter loop of `createJsDocumentation`: converts every
   * parameter, in order, and reports whether any lacks a name or a
   * description.
   */
  method ConvertParams(params: seq<JsParam>) returns (args: seq<ArgumentRecord>, defective: bool)
    ensures |args| == |params| && forall k :: 0 <= k < |params| ==> args[k] == JsArgument(params[k])
    ensures defective <==> exists k :: 0 <= k < |params| && ParamDefective(params[k])
  {
    args := [];
    defective := false;
    var k := 0;
    while k < |params|
      invariant 0 <= k <= |params|
      invariant |args| == k && forall m :: 0 <= m < k ==> args[m] == JsArgument(params[m])
      invariant defective <==> exists m :: 0 <= m < k && ParamDefective(params[m])
    {
      var arg := JsArgument(params[k]);
      if arg.name.GetOr("") == "" || arg.description.GetOr("") == "" {
        defective := true;
      }
      args := args + [arg];
      k := k + 1;
    }
  }

  /**
   * The body of the entry loop of `createJsDocumentation` for a processed
   * entry: the record and whether the entry has a validation error. The
   * errors are found before the return descriptor is read.
   */
  method ConvertEntry(a: JsEntry, origin: string, language: string) returns (out: Outcome<FunctionRecord>, entryError: bool)
    ensures out.Crash? <==> !HasFirstReturn(a)
    ensures out.Crash? ==> out.site == JsReturnsIndex
    ensures out.Ok? ==> HasFirstReturn(a) && out.value == JsRecord(a, origin, language)
    ensures entryError <==> JsDefective(a)
  {
    entryError := false;
    var name := a.name.GetOr("");
    if name == "" {
      entryError := true;
    }
    var description := a.description.GetOr("");
    if description == "" {
      entryError := true;
    }
    var args, paramError := ConvertParams(a.params);
    if paramError {
      entryError := true;
    }
    if !HasFirstReturn(a) {
      return Crash(JsReturnsIndex), entryError;
    }
    var firstReturn := a.returnList.value[0];
    var y := FunctionRecord(
      name, description, args,
      Some(ReturnRecord(firstReturn.description, TypeText(firstReturn.typeNames))),
      language, origin,
      name in DocsConfig.MarkdownDescFuncs,
      name in DocsConfig.JsAutomationOnly);
    assert y == JsRecord(a, origin, language);
    return Ok(y), entryError;
  }

  /** A processed entry without a first return descriptor: converting it raises. */
  predicate JsKeptWithoutReturn(e: JsEntry) {
    JsKept(e) && !HasFirstReturn(e)
  }

  /** A processed entry with a validation error. */
  predicate JsKeptDefective(e: JsEntry) {
    JsKept(e) && JsDefective(e)
  }

  /**
   * `createJsDocumentation`: skips deprecated and private entries, converts
   * the others in order, and records (without stopping) every missing name
   * or description. Reading the first return descriptor of a processed
   * entry that has none raises.
   */
  method CreateJsDocumentation(entries: seq<JsEntry>, origin: string, language: string) returns (out: Outcome<Extracted>)
    ensures out.Crash? <==> Any(entries, JsKeptWithoutReturn)
    ensures out.Crash? ==> out.site == JsReturnsIndex
    ensures out.Ok? ==> EmitsKept(entries, out.value.records, origin, language)
    ensures out.Ok? ==> (out.value.isError <==> Any(entries, JsKeptDefective))
  {
    var x: seq<FunctionRecord> := [];
    var isError := false;
    var i := 0;
    while i < |entries|
      invariant 0 <= i <= |entries|
      invariant !Any(entries[..i], JsKeptWithoutReturn)
      invariant EmitsKept(entries[..i], x, origin, language)
      invariant isError <==> Any(entries[..i], JsKeptDefective)
    {
      var a := entries[i];
      AnyExtend(entries, i, JsKeptWithoutReturn);
      AnyExtend(entries, i, JsKeptDefective);
      if JsKept(a) {
        var y, entryError := ConvertEntry(a, origin, language);
        if entryError {
          isError := true;
        }
        if y.Crash? {
          assert JsKeptWithoutReturn(entries[i]);
          return Crash(y.site);
        }
        EmitsKeptExtend(entries, i, x, origin, language);
        x := x + [y.value];
      } else {
        EmitsKeptExtend(entries, i, x, origin, language);
      }
      i := i + 1;
    }
    assert entries[..i] == entries;
    return Ok(Extracted(x, isError));
  }

  /**
   * Every processed entry yields exactly one record, in input order:
   * the k-th record is the record of the k-th entry that is neither
   * deprecated nor private, whatever validation errors it has; no record
   * carries a private name.
   */
  lemma JsEmitsKeptEntriesInOrder(entries: seq<JsEntry>, records: seq<FunctionRecord>, origin: string, language: string)
    requires EmitsKept(entries, records, origin, language)
    ensures var idx := KeptIndices(entries, JsKept);
      && |records| == |idx|
      && (forall k :: 0 <= k < |idx| ==> HasFirstReturn(entries[idx[k]]) && records[k] == JsRecord(entries[idx[k]], origin, language))
      && (forall i :: 0 <= i < |entries| && JsKept(entries[i]) ==> i in idx)
      && (forall k :: 0 <= k < |idx| ==> !entries[idx[k]].deprecated)
    ensures forall k :: 0 <= k < |records| ==> records[k].name !in DocsConfig.JsPrivateFuncs
  {
    FilterFollowsKeptIndices(entries, JsKept);
  }

  /**
   * A documented entry with one optional string parameter and a number
   * result: the parameter becomes a non-required argument without the
   * `optional` key, and each type-name list collapses to its only name.
   */
  lemma JsOptionalParameterExample()
    ensures
      var p := JsParam(Some("x"), Some("the x"), Some(["string"]), Some(true));
      var e := JsEntry(Some("foo"), Some("does foo"), false, [p], Some([JsReturn(Some("a result"), Some(["number"]))]));
      && JsKept(e) && !JsDefective(e)
      && JsRecord(e, "CommonServerJs", "javascript").arguments
           == [ArgumentRecord(Some("x"), Some("the x"), Some("string"), Some(false), None)]
      && JsRecord(e, "CommonServerJs", "javascript").returnValue == Some(ReturnRecord(Some("a result"), "number"))
  {
  }

  /**
   * When no processed entry has a validation error, every record has a
   * name, a description, and a name and description for each argument.
   */
  lemma JsCleanRecordsDescribed(entries: seq<JsEntry>, records: seq<FunctionRecord>, origin: string, language: string)
    requires EmitsKept(entries, records, origin, language)
    requires !Any(entries, JsKeptDefective)
    ensures forall k :: 0 <= k < |records| ==>
      && Described(records[k]) && records[k].name != ""
      && forall j :: 0 <= j < |records[k].arguments| ==> !MissingOrEmpty(records[k].arguments[j].name)
  {
    FilterFollowsKeptIndices(entries, JsKept);
    var idx := KeptIndices(entries, JsKept);
    forall k | 0 <= k < |records|
      ensures && Described(records[k]) && records[k].name != ""
              && forall j :: 0 <= j < |records[k].arguments| ==> !MissingOrEmpty(records[k].arguments[j].name)
    {
      var e := entries[idx[k]];
      assert !JsKeptDefective(e);
      assert records[k] == JsRecord(e, origin, language);
      forall j | 0 <= j < |records[k].arguments|
        ensures !MissingOrEmpty(records[k].arguments[j].description) && !MissingOrEmpty(records[k].arguments[j].name)
      {
        assert !ParamDefective(e.params[j]);
      }
    }
  }
}
