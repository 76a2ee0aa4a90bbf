/**
 * The PowerShell extractor: turns the comment-based help blocks of the
 * PowerShell library into function records. The blocks are located by a
 * regular expression beforehand; this module starts from its matches.
 */
module PsDocs {
  import opened Options
  import opened PyStrings
  import opened Sequences
  import opened DocModel

  /** One match of the function pattern: the function name and the text of its `<# ... #>` block. */
  datatype PsMatch = PsMatch(name: string, block: string)

  const ParamMarker: string := ".PARAMETER"
  const DescMarker: string := ".DESCRIPTION"
  const RequiredWord: string := "required"
  /** The mark removed from a required parameter's name: ` (required)`. */
  const RequiredSuffix: string := " (" + RequiredWord + ")"
  const LineBreak: string := "\n"

  /** `filter(None, ...)` on strings: the empty string is falsy. */
  predicate NonEmpty(s: string) {
    s != []
  }

  /** `block.split('.PARAMETER')`: the help head, then one chunk per parameter. */
  function Sections(block: string): (r: seq<string>)
    ensures |r| >= 1
  {
    Split(block, ParamMarker)
  }

  /** The part of the block before the first `.PARAMETER`. */
  function HelpHead(block: string): string {
    Sections(block)[0]
  }

  /**
   * The raw description: the text after the first `.DESCRIPTION` of the
   * help head, up to the next `.DESCRIPTION`; `None` when the head has none.
   */
  function DescriptionSection(block: string): (r: Option<string>)
    ensures r.None? <==> !Contains(HelpHead(block), DescMarker)
  {
    var pieces := Split(HelpHead(block), DescMarker);
    SplitPiecesFree(HelpHead(block), DescMarker);
    ContainsFinds(HelpHead(block), DescMarker);
    if |pieces| >= 2 then Some(pieces[1]) else None
  }

  /**
   * Where the description section sits: the block starts with some text
   * free of both markers, the first `.DESCRIPTION`, and the section; the
   * section holds neither marker and ends the block or is followed by one
   * of the markers.
   */
  lemma DescriptionSectionLocated(block: string)
    requires DescriptionSection(block).Some?
    ensures var head := HelpHead(block);
      var pre := Split(head, DescMarker)[0];
      var section := DescriptionSection(block).value;
      var front := pre + DescMarker + section;
      && IsPrefix(front, block)
      && !Contains(pre, DescMarker) && !Contains(pre, ParamMarker)
      && !Contains(section, DescMarker) && !Contains(section, ParamMarker)
      && (|block| == |front| || IsPrefix(front + DescMarker, block) || IsPrefix(front + ParamMarker, block))
  {
    var head := HelpHead(block);
    var pieces := Split(head, DescMarker);
    var pre := pieces[0];
    var section := pieces[1];
    var front := pre + DescMarker + section;
    SplitFirstPiece(block, ParamMarker);
    SplitPiecesFree(block, ParamMarker);
    SplitSecondPiece(head, DescMarker);
    SplitPiecesFree(head, DescMarker);
    assert IsPrefix(head, block) by {
      if head != block {
        PrefixTransitive(head, head + ParamMarker, block);
      }
    }
    assert pre == head[..|pre|];
    SliceWithoutMatch(head, ParamMarker, 0, |pre|);
    assert section == head[|pre| + |DescMarker|..|front|];
    SliceWithoutMatch(head, ParamMarker, |pre| + |DescMarker|, |front|);
    PrefixTransitive(front, head, block);
    if head == front {
      if block != head {
        assert IsPrefix(front + ParamMarker, block);
      }
    } else {
      PrefixTransitive(front + DescMarker, head, block);
    }
  }

  /** The function description: the stripped section; a head without `.DESCRIPTION` raises. */
  function PsDescription(block: string): (r: Outcome<string>)
    ensures r.Crash? <==> DescriptionSection(block).None?
    ensures r.Crash? ==> r.site == PsDescriptionIndex
    ensures r.Ok? ==> r.value == Strip(DescriptionSection(block).value)
    ensures r.Ok? ==> (r.value == "" <==> AllSpace(DescriptionSection(block).value))
  {
    match DescriptionSection(block)
    case None => Crash(PsDescriptionIndex)
    case Some(section) =>
      StripMeaning(section);
      Ok(Strip(section))
  }

  /** The non-empty lines of a parameter chunk, in order. */
  function NonEmptyLines(chunk: string): (r: seq<string>)
    ensures forall k :: 0 <= k < |r| ==> r[k] != ""
  {
    Filter(Split(chunk, LineBreak), NonEmpty)
  }

  /** The parameter on this name line is required: the stripped line mentions `required` anywhere. */
  predicate RequiredLine(line: string) {
    Contains(Strip(line), RequiredWord)
  }

  /**
   * The parameter name on a name line: the stripped line, with every
   * ` (required)` removed when the line mentions `required`.
   */
  function ParamName(line: string): (r: string)
    ensures !RequiredLine(line) ==> r == Strip(line)
    ensures |r| <= |Strip(line)|
  {
    var stripped := Strip(line);
    if Contains(stripped, RequiredWord) then Replace(stripped, RequiredSuffix, "") else stripped
  }

  /**
   * A name line that mentions `required` without the exact mark ` (required)`
   * is required, and keeps its whole stripped text as the name.
   */
  lemma RequiredWithoutMark(line: string)
    requires Contains(Strip(line), RequiredWord) && !Contains(Strip(line), RequiredSuffix)
    ensures RequiredLine(line) && ParamName(line) == Strip(line)
  {
  }

  /**
   * One `.PARAMETER` chunk as an argument: the first non-empty line names
   * it, the second, as it stands, describes it, so the description is never
   * empty. A chunk without a non-empty line raises on the name, one with a
   * single non-empty line on the description.
   */
  function PsArgument(chunk: string): (r: Outcome<ArgumentRecord>)
    ensures r.Crash? <==> |NonEmptyLines(chunk)| < 2
    ensures r.Crash? ==> r.site == (if NonEmptyLines(chunk) == [] then PsParamNameIndex else PsParamDescriptionIndex)
    ensures r.Ok? ==> r.value.description.Some? && r.value.description.value != ""
    ensures r.Ok? ==> r.value.description == Some(NonEmptyLines(chunk)[1])
    ensures r.Ok? ==> r.value.argType.None? && r.value.optional.None?
    ensures r.Ok? ==> r.value.name == Some(ParamName(NonEmptyLines(chunk)[0]))
    ensures r.Ok? ==> r.value.required == Some(RequiredLine(NonEmptyLines(chunk)[0]))
  {
    var lines := NonEmptyLines(chunk);
    if |lines| == 0 then Crash(PsParamNameIndex)
    else if |lines| == 1 then Crash(PsParamDescriptionIndex)
    else Ok(ArgumentRecord(Some(ParamName(lines[0])), Some(lines[1]), None, Some(RequiredLine(lines[0])), None))
  }

  /** A parameter chunk as comment-based help lays it out: indentation, the name, the mark, then the description line. */
  function ParameterChunk(lead: string, name: string, marked: bool, description: string): string {
    NameLine(lead, name, marked) + LineBreak + (description + LineBreak)
  }

  /** The first line of a parameter chunk: indentation, the name, and the mark when the parameter is required. */
  function NameLine(lead: string, name: string, marked: bool): string {
    lead + (name + (if marked then RequiredSuffix else ""))
  }

  /** Two lines, each ended by a line break, are the chunk's non-empty lines when neither is empty. */
  lemma TwoLines(first: string, second: string)
    requires first != [] && '\n' !in first
    requires second != [] && '\n' !in second
    ensures NonEmptyLines(first + LineBreak + (second + LineBreak)) == [first, second]
  {
    SplitTwoTerminated(first, second, LineBreak);
    var pieces: seq<string> := [first, second, []];
    FilterExtend(pieces, 0, NonEmpty);
    FilterExtend(pieces, 1, NonEmpty);
    FilterExtend(pieces, 2, NonEmpty);
    assert pieces[..0] == [] && pieces[..3] == pieces;
  }

  /** A name without white space holds no white-space character. */
  lemma NoSpaceExcludes(name: string, c: char)
    requires forall k :: 0 <= k < |name| ==> !IsSpace(name[k])
    requires IsSpace(c)
    ensures c !in name
  {
    forall k | 0 <= k < |name| ensures name[k] != c {
      assert !IsSpace(name[k]);
    }
  }

  /** The required mark holds no line break. */
  lemma SuffixWithoutLineBreak()
    ensures '\n' !in RequiredSuffix
  {
    assert forall k :: 0 <= k < |RequiredSuffix| ==> RequiredSuffix[k] != '\n';
  }

  /** A name without white space, marked required: the mark is found and removing it leaves the name. */
  lemma RequiredMarkRemoved(name: string)
    requires forall k :: 0 <= k < |name| ==> !IsSpace(name[k])
    ensures Contains(name + RequiredSuffix, RequiredWord)
    ensures Replace(name + RequiredSuffix, RequiredSuffix, "") == name
  {
    MatchesInMiddle(" (", RequiredWord, ")");
    ContainsInSuffix(name, RequiredSuffix, RequiredWord, 2);
    NoSpaceExcludes(name, RequiredSuffix[0]);
    ReplaceTrailingOnce(name, RequiredSuffix);
  }

  /**
   * Reading a well-formed parameter chunk gives back what was written: the
   * name without the indentation or the ` (required)` mark, `required`
   * exactly when the mark was there, and the description line.
   */
  lemma PsArgumentOfParameterChunk(lead: string, name: string, marked: bool, description: string)
    requires AllSpace(lead) && '\n' !in lead
    requires name != [] && forall k :: 0 <= k < |name| ==> !IsSpace(name[k])
    requires !Contains(name, RequiredWord)
    requires description != [] && '\n' !in description
    ensures PsArgument(ParameterChunk(lead, name, marked, description))
      == Ok(ArgumentRecord(Some(name), Some(description), None, Some(marked), None))
  {
    var first := NameLine(lead, name, marked);
    assert NonEmptyLines(ParameterChunk(lead, name, marked, description)) == [first, description] by {
      NoSpaceExcludes(name, '\n');
      assert '\n' !in first by {
        SuffixWithoutLineBreak();
      }
      TwoLines(first, description);
    }
    NameLineRead(lead, name, marked);
  }

  /**
   * A chunk whose first non-empty line is only indentation still yields an
   * argument: its name strips to the empty string and no error is recorded
   * for it, so the record keeps an argument without a name.
   */
  lemma BlankNameLineKept(lead: string, description: string)
    requires lead != [] && AllSpace(lead) && '\n' !in lead
    requires description != [] && '\n' !in description
    ensures PsArgument(lead + LineBreak + (description + LineBreak))
      == Ok(ArgumentRecord(Some(""), Some(description), None, Some(false), None))
  {
    TwoLines(lead, description);
    StripMeaning(lead);
  }

  /** The chunk `"  \nd\n"` gives an argument named `""` described by `"d"`. */
  lemma BlankNameLineExample()
    ensures PsArgument("  \nd\n") == Ok(ArgumentRecord(Some(""), Some("d"), None, Some(false), None))
  {
    assert "  \nd\n" == "  " + LineBreak + ("d" + LineBreak);
    BlankNameLineKept("  ", "d");
  }

  /** The name line gives back the name, and it is required exactly when it carries the mark. */
  lemma NameLineRead(lead: string, name: string, marked: bool)
    requires AllSpace(lead)
    requires name != [] && forall k :: 0 <= k < |name| ==> !IsSpace(name[k])
    requires !Contains(name, RequiredWord)
    ensures RequiredLine(NameLine(lead, name, marked)) == marked
    ensures ParamName(NameLine(lead, name, marked)) == name
  {
    NameLineStrips(lead, name, marked);
    NameFromStripped(NameLine(lead, name, marked), name, marked);
  }

  /** A line that strips to a name, marked or not, is read back as that name. */
  lemma NameFromStripped(line: string, name: string, marked: bool)
    requires forall k :: 0 <= k < |name| ==> !IsSpace(name[k])
    requires !Contains(name, RequiredWord)
    requires Strip(line) == name + (if marked then RequiredSuffix else "")
    ensures RequiredLine(line) == marked && ParamName(line) == name
  {
    if marked {
      RequiredMarkRemoved(name);
    } else {
      assert name + "" == name;
    }
  }

  /** Stripping the name line leaves the name and the mark. */
  lemma NameLineStrips(lead: string, name: string, marked: bool)
    requires AllSpace(lead)
    requires name != [] && forall k :: 0 <= k < |name| ==> !IsSpace(name[k])
    ensures Strip(NameLine(lead, name, marked)) == name + (if marked then RequiredSuffix else "")
  {
    var core := name + (if marked then RequiredSuffix else "");
    assert core[0] == name[0];
    assert core[|core| - 1] == (if marked then ')' else name[|name| - 1]);
    StripOfIndented(lead, core);
  }

  /** The arguments of a block's parameter chunks, in order; the first malformed chunk raises. */
  function PsArguments(chunks: seq<string>): (r: Outcome<seq<ArgumentRecord>>)
    ensures r.Ok? ==> |r.value| == |chunks|
  {
    Traverse(chunks, PsArgument)
  }

  /**
   * The record of one block, or the exception reading it raises: the
   * description first, then the parameter chunks in order.
   */
  function PsBlock(m: PsMatch, origin: string, language: string): Outcome<FunctionRecord> {
    match PsDescription(m.block)
    case Crash(site) => Crash(site)
    case Ok(description) =>
      match PsArguments(Sections(m.block)[1..])
      case Crash(site) => Crash(site)
      case Ok(args) => Ok(FunctionRecord(m.name, description, args, None, language, origin, false, false))
  }

  /** `PsBlock` for a fixed origin and language, as a function of the match. */
  function BlockReader(origin: string, language: string): PsMatch -> Outcome<FunctionRecord> {
    m => PsBlock(m, origin, language)
  }

  /**
   * A block raises exactly when it has no description section or one of
   * its parameter chunks has under two non-empty lines. Otherwise its
   * record carries the match's name, the given language and origin, and
   * the stripped description section; it has one argument per `.PARAMETER`
   * chunk, in order, each with a non-empty description, and neither a
   * return value nor a tag.
   */
  lemma PsBlockMeaning(m: PsMatch, origin: string, language: string)
    ensures var r := PsBlock(m, origin, language);
      var chunks := Sections(m.block)[1..];
      && (r.Crash? <==> DescriptionSection(m.block).None? || exists j :: 0 <= j < |chunks| && |NonEmptyLines(chunks[j])| < 2)
      && (r.Ok? ==>
            && r.value.name == m.name && r.value.language == language && r.value.origin == origin
            && r.value.description == Strip(DescriptionSection(m.block).value)
            && |r.value.arguments| == |chunks|
            && (forall j :: 0 <= j < |chunks| ==> PsArgument(chunks[j]) == Ok(r.value.arguments[j]))
            && (forall j :: 0 <= j < |chunks| ==> r.value.arguments[j].description.Some? && r.value.arguments[j].description.value != "")
            && r.value.returnValue.None? && !r.value.markdown && !r.value.automationOnly)
  {
    var chunks := Sections(m.block)[1..];
    TraverseMeaning(chunks, PsArgument);
    var r := PsBlock(m, origin, language);
    if r.Ok? {
      forall j | 0 <= j < |chunks|
        ensures r.value.arguments[j].description.Some? && r.value.arguments[j].description.value != ""
      {
        assert PsArgument(chunks[j]) == Ok(r.value.arguments[j]);
      }
    }
  }

  /**
   * The parameter loop of `createPsDocumentation` for one block. It
   * checks each description for emptiness, a check the filtering of empty
   * lines makes unable to fail.
   */
  method ConvertParameters(chunks: seq<string>) returns (out: Outcome<seq<ArgumentRecord>>, paramError: bool)
    ensures out == PsArguments(chunks)
    ensures !paramError
  {
    var arguments: seq<ArgumentRecord> := [];
    paramError := false;
    var j := 0;
    while j < |chunks|
      invariant 0 <= j <= |chunks|
      invariant Traverse(chunks[..j], PsArgument) == Ok(arguments)
      invariant !paramError
    {
      TraverseExtend(chunks, j, PsArgument);
      var arg := PsArgument(chunks[j]);
      if arg.Crash? {
        TraversePrefixCrash(chunks, j + 1, PsArgument);
        return Crash(arg.site), paramError;
      }
      var paramDescription := arg.value.description.value;
      if paramDescription == "" {
        paramError := true;
      }
      arguments := arguments + [arg.value];
      j := j + 1;
    }
    assert chunks[..j] == chunks;
    return Ok(arguments), paramError;
  }

  /** The description of the block is present and strips to nothing: an error is recorded. */
  predicate EmptyDescription(m: PsMatch) {
    PsDescription(m.block) == Ok("")
  }

  /**
   * The body of the match loop of `createPsDocumentation`: the record of
   * one block and whether its description is empty.
   */
  method ConvertBlock(m: PsMatch, origin: string, language: string) returns (out: Outcome<FunctionRecord>, blockError: bool)
    ensures out == PsBlock(m, origin, language)
    ensures out.Ok? ==> (blockError <==> EmptyDescription(m))
  {
    var parameters := Sections(m.block);
    var description := PsDescription(m.block);
    if description.Crash? {
      return Crash(description.site), false;
    }
    blockError := description.value == "";
    var arguments, paramError := ConvertParameters(parameters[1..]);
    if paramError {
      blockError := true;
    }
    if arguments.Crash? {
      return Crash(arguments.site), blockError;
    }
    return Ok(FunctionRecord(m.name, description.value, arguments.value, None, language, origin, false, false)), blockError;
  }

  /**
   * `createPsDocumentation` after the regular-expression match: one record
   * per match, in match order, or the exception of the first block that
   * raises; a block with an empty description sets the error flag but
   * keeps its record.
   */
  method CreatePsDocumentation(matches: seq<PsMatch>, origin: string, language: string) returns (out: Outcome<Extracted>)
    ensures out.Crash? <==> Traverse(matches, BlockReader(origin, language)).Crash?
    ensures out.Crash? ==> out.site == Traverse(matches, BlockReader(origin, language)).site
    ensures out.Ok? ==> Ok(out.value.records) == Traverse(matches, BlockReader(origin, language))
    ensures out.Ok? ==> (out.value.isError <==> Any(matches, EmptyDescription))
  {
    var read := BlockReader(origin, language);
    var functionDocList: seq<FunctionRecord> := [];
    var isErrorPS := false;
    var i := 0;
    while i < |matches|
      invariant 0 <= i <= |matches|
      invariant Traverse(matches[..i], read) == Ok(functionDocList)
      invariant isErrorPS <==> Any(matches[..i], EmptyDescription)
    {
      TraverseExtend(matches, i, read);
      AnyExtend(matches, i, EmptyDescription);
      var record, blockError := ConvertBlock(matches[i], origin, language);
      if record.Crash? {
        TraversePrefixCrash(matches, i + 1, read);
        return Crash(record.site);
      }
      if blockError {
        isErrorPS := true;
      }
      functionDocList := functionDocList + [record.value];
      i := i + 1;
    }
    assert matches[..i] == matches;
    return Ok(Extracted(functionDocList, isErrorPS));
  }

  /**
   * What `CreatePsDocumentation` promises, element by element: it raises
   * exactly when some block raises, with the exception of the first one;
   * otherwise the k-th record is the record of the k-th match.
   */
  lemma PsRecordsFollowMatches(matches: seq<PsMatch>, origin: string, language: string)
    ensures var r := Traverse(matches, BlockReader(origin, language));
      && (r.Crash? <==> exists k :: 0 <= k < |matches| && PsBlock(matches[k], origin, language).Crash?)
      && (r.Crash? ==> exists k :: 0 <= k < |matches| && PsBlock(matches[k], origin, language) == Crash(r.site)
                                   && forall j :: 0 <= j < k ==> PsBlock(matches[j], origin, language).Ok?)
      && (r.Ok? ==> |r.value| == |matches| && forall k :: 0 <= k < |matches| ==> PsBlock(matches[k], origin, language) == Ok(r.value[k]))
  {
    TraverseMeaning(matches, BlockReader(origin, language));
  }

  /**
   * When no block has an empty description, every record has a
   * description and so has each of its arguments.
   */
  lemma PsCleanRecordsDescribed(matches: seq<PsMatch>, records: seq<FunctionRecord>, origin: string, language: string)
    requires Traverse(matches, BlockReader(origin, language)) == Ok(records)
    requires !Any(matches, EmptyDescription)
    ensures forall k :: 0 <= k < |records| ==> Described(records[k])
  {
    PsRecordsFollowMatches(matches, origin, language);
    forall k | 0 <= k < |records| ensures Described(records[k]) {
      PsBlockMeaning(matches[k], origin, language);
      assert !EmptyDescription(matches[k]);
    }
  }
}
