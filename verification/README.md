# Common server documentation extraction, in Dafny

This project models the documentation generator for the common server
libraries (`Documentation/common_server_docs.py`). The generator reads
function metadata in three dialects and brings each into one record shape:

- the JavaScript library's doc-comment dump (`createJsDocumentation`);
- the Python library's parsed docstrings (`createPyDocumentation` and
  `reformatPythonOutput`);
- the PowerShell library's comment-based help blocks
  (`createPsDocumentation`).

It then writes the constants list followed by the three record lists, but
only when no extractor recorded a validation error and the constants list
is non-empty (`main`).

Modules, in dependency order:

- `Options`: the `Option` type. An absent dictionary key is `None`.
- `PyStrings`: the Python string operations the extractor uses, over
  `seq<char>`. These are `in`, `str.split`, `str.strip` (white space is every
  code point of Python 3's `str.isspace`), `str.replace` and
  `str.join`. Each is defined directly and tied to its meaning by lemmas.
- `Sequences`: `Filter` (a list comprehension with a condition), the
  positions it keeps, and `Any`.
- `DocModel`: the output records and the places where a run raises. A run
  that raises is `Outcome.Crash(site)`, not a soft error. `Traverse` is a
  `for` loop that appends and stops at the first exception.
- `DocsConfig`: the deny- and allow-lists of lines 17-32, copied exactly.
- `JsDocs`, `PyDocs`, `PsDocs`: the three extractors. Each has a loop
  method that follows the source, plus a declarative definition that its
  contract is proved against.
- `CommonServerDocs`: the end of `main`. It merges the outputs or aborts.

Each extractor method returns `Outcome<...>`. `Crash` stands for an
exception the source does not catch, and such an exception ends the whole
run:

- `JsReturnsIndex`: `a.get("returns", None)[0]` on an entry without
  returns.
- `PyArgumentReused`: a documented name listed twice in `argList`. Its
  argument dictionary has already lost `type_name` the first time it was
  handled, so the second access raises.
- `PsDescriptionIndex`: no `.DESCRIPTION` before the first `.PARAMETER`.
- `PsParamNameIndex`: a `.PARAMETER` chunk with no non-empty line.
- `PsParamDescriptionIndex`: a `.PARAMETER` chunk with only one non-empty
  line.

Validation problems the source only prints become the extractor's boolean
error flag.

The source guards against an empty PowerShell parameter description
(lines 201-204), but that guard can never fire. `PsDocs.PsArgument` states
why: the description is the second element of a list from which
`filter(None, ...)` has already removed every empty string. The model keeps
the emptiness guard in `PsDocs.ConvertParameters` and proves that its flag stays
false.

Some behaviour of the source is easy to misread:

- A PowerShell parameter is required whenever its stripped name line
  contains `required` anywhere, but only the exact text ` (required)` is
  removed from the name (lines 197-199). `PsDocs.PsArgument` states
  both halves, and `PsDocs.RequiredWithoutMark` shows a name line that is
  required yet keeps its whole text.
- A Python argument's `required` key is whatever the docstring parser
  gave; the code adds none when the parser gave none (`PyDocs.PyArgument`).
- Nothing in `createPsDocumentation` checks names: a name line of white
  space only gives an argument named `""` (`PsDocs.BlankNameLineKept`),
  and the function name from line 172 is used as it is, empty or not.
  There is no deprecation check for PowerShell functions either.

## Model

| member | source | states |
|---|---|---|
| PyStrings.ContainsMeaning | Documentation/common_server_docs.py:197 | `pat in s` holds exactly when `pat` occurs at some position of `s` |
| PyStrings.Split | Documentation/common_server_docs.py:182 | `split` yields at least one piece, and joining the pieces with the separator gives back the input |
| PyStrings.SplitPiecesFree | Documentation/common_server_docs.py:182 | no piece of a split contains the separator, and a string without the separator splits into itself |
| PyStrings.SplitCutsLeftmost | Documentation/common_server_docs.py:182 | a string splits into one piece exactly when the separator occurs nowhere; otherwise the first piece ends at the left-most occurrence and the remaining pieces are the split of the text after it, so overlapping separators are handled as Python does |
| PyStrings.StripMeaning | Documentation/common_server_docs.py:184 | `strip` removes exactly the leading and trailing white space: the result is a slice of the input, everything cut off is white space, and the result is empty only for an all-space input |
| PyStrings.StripOfPadded | Documentation/common_server_docs.py:184 | any white-space padding around a core that neither starts nor ends with white space strips to exactly that core |
| PyStrings.Replace | Documentation/common_server_docs.py:199 | replacing a target that does not occur changes nothing, and removing one that occurs shortens the string |
| DocModel.TraverseMeaning | Documentation/common_server_docs.py:174-212 | an appending loop raises exactly when some element raises, with the first such element's exception; otherwise the k-th result belongs to the k-th element |
| JsDocs.TypeText | Documentation/common_server_docs.py:108 | an absent or empty list of type names gives `""`; a single name gives itself; otherwise the text starts with the first name |
| JsDocs.JsArgument | Documentation/common_server_docs.py:107-112 | name and description are kept; `type` is the joined type names; `required` is always set, and is false exactly when `optional` was truthy, in which case `optional` is gone |
| JsDocs.JsRecord | Documentation/common_server_docs.py:97-127 | the record carries the name and description (default `""`), one converted argument per param in order, the first return descriptor with joined type names, `markdown` and `automationOnly` exactly for names on their lists, and the given language and origin |
| JsDocs.ConvertParams | Documentation/common_server_docs.py:107-117 | every param is converted in order, and the flag is set exactly when some param lacks a name or a description |
| JsDocs.ConvertEntry | Documentation/common_server_docs.py:97-129 | a processed entry raises exactly when it has no first return descriptor; otherwise it yields its record; its error flag is set exactly when its name, its description or a param's name or description is missing or empty |
| JsDocs.CreateJsDocumentation | Documentation/common_server_docs.py:89-130 | raises exactly when a processed entry has no first return descriptor; otherwise emits exactly the records of the non-deprecated, non-private entries, in order, and sets the flag exactly when one of them is defective |
| JsDocs.EmitsKeptUnique | Documentation/common_server_docs.py:89-130 | the emitted records are determined by the entries: two record lists that both follow the kept entries are equal |
| JsDocs.JsEmitsKeptEntriesInOrder | Documentation/common_server_docs.py:93-129 | every non-deprecated, non-private entry yields exactly one record, at increasing positions, even when defective; no record comes from a deprecated entry or has a private name |
| JsDocs.JsOptionalParameterExample | Documentation/common_server_docs.py:107-121 | a function with one optional string parameter and a number result yields the argument `x` of type `string`, not required and without `optional`, and the return value of type `number` |
| JsDocs.JsCleanRecordsDescribed | Documentation/common_server_docs.py:97-117 | when no processed entry is defective, every record has a name and a description, and each of its arguments has both |
| PyDocs.ArgListOf | Documentation/common_server_docs.py:154-155 | the argument order is the signature, except for names on the override map; `LOG` uses `["message"]` |
| PyDocs.PyEntryOf | Documentation/common_server_docs.py:152-155 | the collected entry is the parsed docstring (description, arguments and return section) plus the binding's name and its argument order |
| PyDocs.CollectedEntriesMeaning | Documentation/common_server_docs.py:145-157 | the collected entries are those of the bindings that are callable, not the mock, not private, and documented, in namespace order |
| PyDocs.CollectPyEntries | Documentation/common_server_docs.py:143-157 | the loop collects exactly those entries, and sets the flag exactly when an examined binding has no docstring |
| PyDocs.PyArgument | Documentation/common_server_docs.py:63-71 | the output argument is named by its key, its `type` is the former `type_name`, and its description and `required` are the parser's; nothing else is added |
| PyDocs.PyArgumentsMeaning | Documentation/common_server_docs.py:59-73 | the arguments are the names of `argList` that have a parsed entry, in `argList` order, each with its entry |
| PyDocs.PyArgumentsFollowArgList | Documentation/common_server_docs.py:59-73 | the k-th argument comes from the k-th documented position of `argList`, and every documented position appears; undocumented names and names missing from `argList` are dropped |
| PyDocs.ProjectArguments | Documentation/common_server_docs.py:59-73 | the argument loop raises exactly when a documented name is listed twice; otherwise it yields the projected arguments and sets the flag exactly when one of them lacks a description |
| PyDocs.PyRecord | Documentation/common_server_docs.py:73-84 | the record keeps the name and description, carries the projected arguments, takes `return_value` from `return` with `type_name` renamed to `type`, is `markdown` exactly for names on the list, and carries the given language and origin |
| PyDocs.ReformatEntry | Documentation/common_server_docs.py:54-84 | a kept entry raises exactly when it reuses a documented name; otherwise it yields its record, with the flag set exactly when its description is empty or a documented argument lacks one |
| PyDocs.ReformatPythonOutput | Documentation/common_server_docs.py:47-86 | entries whose description contains `deprecated` are dropped; the rest yield their records in order; raises exactly when a kept entry reuses an argument; sets the flag exactly when a kept entry is defective |
| PyDocs.EmitsKeptUnique | Documentation/common_server_docs.py:47-86 | the reformatted records are determined by the entries: two record lists that both follow the kept entries are equal |
| PyDocs.CreatePyDocumentation | Documentation/common_server_docs.py:143-161 | a visible binding without a docstring gives no records and the error flag; otherwise the result is that of reformatting the collected entries |
| PyDocs.PyEmitsOnlyPublicCurrentFunctions | Documentation/common_server_docs.py:143-161 | no record comes from the mock binding or a private name, and no record's description mentions `deprecated` |
| PyDocs.PyArgumentsDescribed | Documentation/common_server_docs.py:62-69 | when no documented argument lacks a description, every projected argument has one |
| PyDocs.PyCleanRecordsDescribed | Documentation/common_server_docs.py:54-69 | when no kept entry is defective, every record and each of its arguments has a description |
| PsDocs.DescriptionSection | Documentation/common_server_docs.py:182-184 | there is a description section exactly when the text before the first `.PARAMETER` contains `.DESCRIPTION` |
| PsDocs.DescriptionSectionLocated | Documentation/common_server_docs.py:182-184 | the section is the text right after the first `.DESCRIPTION`, up to the next marker or the end of the block, and holds neither marker |
| PsDocs.PsDescription | Documentation/common_server_docs.py:184-188 | the description is the stripped section and is empty exactly when the section is all white space; a block without a section raises |
| PsDocs.NonEmptyLines | Documentation/common_server_docs.py:194 | no line survives the filter empty |
| PsDocs.PsArgument | Documentation/common_server_docs.py:194-209 | a chunk raises exactly when it has fewer than two non-empty lines, on the name or on the description index; otherwise the name comes from the first non-empty line, stripped and with ` (required)` removed when the line mentions `required`; `required` holds exactly when the stripped first line contains `required`; the description is the second non-empty line, unstripped and never empty |
| PsDocs.RequiredWithoutMark | Documentation/common_server_docs.py:196-199 | a name line that mentions `required` but lacks the exact mark ` (required)` is still required, and its whole stripped text is the name |
| PsDocs.BlankNameLineKept | Documentation/common_server_docs.py:194-209 | a chunk made of a non-empty white-space-only line and then one description line (no line break inside either) yields an argument with the empty name, not required, described by that line, and raises nothing |
| PsDocs.BlankNameLineExample | Documentation/common_server_docs.py:194-209 | the chunk `"  \nd\n"` yields the argument named `""` with description `"d"` |
| PsDocs.PsArgumentOfParameterChunk | Documentation/common_server_docs.py:192-209 | for a name without white space that does not contain `required`, after indentation without line breaks, optionally followed by ` (required)`, then a non-empty description line: the chunk reads back the name, `required` exactly when the mark was written, and the description |
| PsDocs.NameLineRead | Documentation/common_server_docs.py:196-199 | for a non-empty name without white space that does not contain `required`, after white-space indentation: the name line is required exactly when it carries ` (required)`, and reading it gives back the name |
| PsDocs.PsBlockMeaning | Documentation/common_server_docs.py:176-212 | a block raises exactly when it has no description section or a chunk has fewer than two non-empty lines; otherwise its record has the match's name, the language and origin, the stripped description, one argument per chunk in order, each described, and no return value or tags |
| PsDocs.ConvertParameters | Documentation/common_server_docs.py:190-209 | the parameter loop yields the chunks' arguments or the first chunk's exception, and its description check never sets the flag |
| PsDocs.ConvertBlock | Documentation/common_server_docs.py:176-212 | the loop body yields the block's record or exception, and sets the flag exactly when the description strips to nothing |
| PsDocs.CreatePsDocumentation | Documentation/common_server_docs.py:164-214 | one record per match, in order, or the exception of the first block that raises; the flag is set exactly when some block has an empty description |
| PsDocs.PsRecordsFollowMatches | Documentation/common_server_docs.py:174-212 | the run raises exactly when some block raises, with the first such block's exception; otherwise the k-th record is the k-th match's |
| PsDocs.PsCleanRecordsDescribed | Documentation/common_server_docs.py:184-209 | when no block has an empty description, every record and each of its arguments has a description |
| CommonServerDocs.Merge | Documentation/common_server_docs.py:225-231 | a document exists exactly when no extractor set its flag and the constants list is non-empty; it is then the constants, then the JavaScript, Python and PowerShell records, in that order |
| CommonServerDocs.MergeOfEmptyExtractors | Documentation/common_server_docs.py:225-231 | with empty extractor outputs and no errors, the document is the constants list unchanged |
| CommonServerDocs.WriteDocument | Documentation/common_server_docs.py:223-232 | writes exactly when no flag is set and the constants list is non-empty; the document is then the constants followed by the JavaScript, Python and PowerShell records, and every record after the constants is described |
| CommonServerDocs.GenerateDocs | Documentation/common_server_docs.py:217-232 | the JavaScript, Python and PowerShell exceptions take priority in that order; the document is written exactly when nothing raised, no extractor recorded an error and the constants list is non-empty; it is then the constants followed by the records of the kept JavaScript entries, the kept Python entries and the PowerShell matches, in that order, and every record after the constants is described |
| CommonServerDocs.RecordsAfterConstants | Documentation/common_server_docs.py:229-231 | every item after the constants of a merged document is a function record from one of the three extractors, and is described when theirs are |

## Left out

- The regular expression at line 172 that finds the PowerShell functions is not modelled. The model takes its matches as input, as `(name, block)` pairs.
- Loading the Python library (lines 136-141: reading, cleaning, `compile` and `exec`) is not modelled. `inspect.getdoc`, `getargspec` and the external docstring parser (lines 147-154) are not modelled either. Their results are the input bindings: name, whether the binding is callable, parsed docstring or none, and signature.
- The docstring parser is assumed to always provide a `description` and a `return` section with a `type_name`, and every argument entry to carry a `type_name`. So the `KeyError`s the source would raise without them (lines 51, 66, 74-75) are not modelled.
- File I/O is not modelled: `readJsonFile`, `readYmlFile`, `open` and `json.dump`. Nor is `print`. Diagnostics become the error flags.
- `sys.exit(1)` is the `Aborted` result. Writing the file is the `Written` result, which carries the document.
- Constants-file entries are kept as opaque JSON text (`DocItem.Constant`). Only their number and order matter to `main`. A constants file that is not a list is not modelled.
- JSON `null` values are not told apart from absent keys, except for `deprecated`, where only the key's presence with a non-null value counts. The same holds for the docstring parser's argument and return dictionaries: an argument `description` (or `required`, or the return section's `description`) that is present but `None` is modelled as absent. The source treats a present `None` description as not empty at line 67 (`get` returns `None`, not `""`), so such an argument sets no error flag there, while the model flags it as undescribed.
- The only truthy `optional` value modelled is the boolean `true`. Other truthy JSON values (non-empty strings, numbers) are not modelled.
- A JavaScript `type` object whose `names` is not a list of strings is not modelled.
- The in-place mutation of the input dictionaries is modelled by returning new records. The one visible aliasing effect, an argument dictionary reused within an entry, is modelled as the `PyArgumentReused` exception.
- `Integrations/Exabeam/Exabeam.py` is not part of this model. It is a REST client for the host runtime and is not part of the documentation generator.
- `PyStrings.Replace`: only the properties the extractor needs are stated (no change when the target is absent, shorter when it is removed), plus the exact single-trailing-occurrence case in `ReplaceTrailingOnce`. The general result of `str.replace` is left to its definition.
- `JsDocs.TypeText`: for two or more names, the contract states only that the text starts with the first name. The joining itself is the definition of `JoinWith`.
- JavaScript parameters keep every key the doc-comment dump gave them (line 117 emits the input parameter objects themselves), for example `defaultvalue`, `nullable` or `variable`. `ArgumentRecord` holds only the keys the code reads or writes, so the others are not modelled. The same holds for extra keys the docstring parser puts in a Python argument or return section.
- Names are not promised to be non-empty for PowerShell records or arguments, and deprecated PowerShell functions are not dropped, because the source checks neither (see `PsDocs.BlankNameLineKept`).
