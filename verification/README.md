# Settings and small state of the ProtO-RU applications, verified

The ProtO-RU applications, such as the OCUDU gNB, read their settings through CLI11 (`external/CLI/CLI11.hpp`): a command line, and any number
of config files that overlay each other. This project models that text and config layer, and three
small pieces of state beside it, and proves what they promise.

**Config printer and reader.** `IniPrinter` is the value printer, `ConfigReader` and `ConfigLoop`
the reader `from_config`. Between them stand the escape codec (`Escapes`, `Utf8`), the binary codec
(`BinaryCodec`), the closing-position scanners (`Brackets`) and the splitter (`Splitting`, `Quoting`).
`RoundTrip` reads one printed line back, `TripleQuotes` a value printed between triple quotes over
several lines. `Documents.LineRoundTrip` says exactly when a printed entry comes back, and
`Documents.DocumentRoundTrip` what a whole printed file reads as. `Sections` treats the section
markers `++` and `--`: `MarkersNest` says exactly when they nest, `StackIsSection` what is open at
each line, `ValuesConserved` that no value is ever lost or moved.

**Options.** `OptionState` is the state machine of an option's results with its cached reduction,
`OptionObject` the object itself. `Overlay` shows that reading config files in reverse with the first
writer winning is the documented overlay. `Arithmetic` and `Units` are the checked multiplication
and the numbers with units.

**Argument loop.** `ArgParser` describes what each turn of the loop takes off the command line,
`ArgLoop` is the loop in place, `Bundles` says exactly when bundled short flags do the same as
separate ones.

**Small state.** `BackPressure` is the lazily erased send buffer, `Ownership` the owning handle,
`GnbConfig` the derived slices and tracking areas and their validator.

Text is Dafny `string`; where it matters that a C++ `char` is one byte, the predicate `Text.Octets`
says so. A failed search is the length of the text where C++ has `npos`. A function result `None` or
`Thrown` is an exception of the source. Loops of the source are methods, each proved against a
function; steps of `from_config` that only branch are functions, which the loops call. The laws are
lemmas about those functions.

Properties that are false of the code are stated with their exact condition:

- `binary_escape_string` passes a position as a length to `replace`, and does not escape a spelled-out
  `\xHH`: `BinaryRoundTrip` gives both conditions, `BinaryLoses` an input for each.
- A lone value of over 100 characters with escapable characters is printed between triple quotes. The
  reader does not see them close on the opening line, drops an empty first or last line, joins lines
  at a backslash, closes at inner triple quotes and unquotes the value once more: `Survives` in
  `TripleQuotes` is the exact condition, in `LineRoundTrip`.
- A return to `[default]` from a nested section closes only its innermost level: `MarkersNest`,
  `DefaultLeavesParentOpen`.
- `reduced_results` does not reduce an empty list and fills in no default: `ConstViewAgrees`,
  `EmptyViewsDiffer`.
- Validation and trimming count differently for a type of no values, and for an expected maximum of
  zero: `IndicesLineUp`.
- A flag that allows extra values takes past the letters after it: `BundleMeansSeparate` has the exact
  condition, turn by turn, and `ExtraFlagTakesAcross` a command line. End states alone can agree by
  chance: `AlikeByChance`.
- The pending count of the send buffer wraps at 32 bits: `EraseExactly`; `resize` can leave the buffer
  sparse: `StepDense`, `RunDense`, `ResizeLeavesSparse`.
- `validate_plmn_and_tacs` does not reset its flag from cell to cell, so it certifies all cells exactly
  if they are alike: `AcceptsWhatIsMeant`, `UncoveredCellAccepted`.

## Model

| member | source | states |
|---|---|---|
| Escapes.AddEscapedCharacters | external/CLI/CLI11.hpp:865-878 | the loop writes the escaped form of the string, which `UnescapedEscaped` inverts |
| Escapes.UnescapedEscaped | external/CLI/CLI11.hpp:920-978 | for every string, removing escapes undoes adding them and never throws |
| Escapes.EscapedPlain | external/CLI/CLI11.hpp:861-878 | a string without escapable characters is its own escaped form |
| Escapes.RemoveEscapedCharacters | external/CLI/CLI11.hpp:920-978 | the loop gives the meaning of a text with escapes, or fails exactly where an escape is malformed |
| Escapes.ReadEscape | external/CLI/CLI11.hpp:925-972 | one escape sequence: the bytes it stands for and the characters it takes up, or failure |
| Escapes.HexConvert | external/CLI/CLI11.hpp:880-892 | at most 15 exactly for hexadecimal digits, and always within 32 bits |
| Escapes.ReadHex | external/CLI/CLI11.hpp:938-947 | accumulating digits with a falling multiplier in 32-bit arithmetic gives the positional value; no step wraps |
| Escapes.UnescapedSpelled | external/CLI/CLI11.hpp:933-966 | a text of `\u` and `\U` escapes fails exactly if it spells a surrogate; else it is the UTF-8 of the codes in range and decodes to them |
| Utf8.BitFields | external/CLI/CLI11.hpp:896-918 | the shifts, masks and ors on 32 bits are the sums and remainders of the model |
| Utf8.DecodeOneEncode | external/CLI/CLI11.hpp:896-918 | the bytes of a scalar value are what the byte syntax of section 4 of RFC 3629 reads back, whatever follows |
| Utf8.DecodeEncodeAll | external/CLI/CLI11.hpp:896-918 | encoding any sequence of scalar values decodes to that sequence |
| Brackets.CloseStringQuote | external/CLI/CLI11.hpp:980-992 | the loop finds the closing quote past escaped characters, or ends past the text |
| Brackets.CloseSequenceLoop | external/CLI/CLI11.hpp:999-1044 | the loop with an explicit stack of closers computes the recursive descent, for every closing character |
| Brackets.CloseSequenceMeetsGrammar | external/CLI/CLI11.hpp:1013-1043 | for every closer, a position inside the text is returned if and only if it closes a group of the bracket grammar, so at most one does; the length is returned if none does |
| Splitting.SplitUpLoop | external/CLI/CLI11.hpp:1046-1084 | the loop ends on every text and yields its pieces |
| Splitting.SplitJoined | external/CLI/CLI11.hpp:1046-1084 | splitting at commas undoes joining, for every list of words and quoted texts |
| Splitting.SplitQuoted | external/CLI/CLI11.hpp:1055-1068 | a quoted text is one piece under every delimiter |
| Quoting.QuotedStringRoundTrip | external/CLI/CLI11.hpp:1191-1205 | for every string, the quoted form closes exactly at its last character and processes back to the string |
| BinaryCodec.BinaryEscapeString | external/CLI/CLI11.hpp:1098-1130 | both loops, with the over-long replacement of single quotes as it is |
| BinaryCodec.FixQuotesWeight | external/CLI/CLI11.hpp:1118-1123 | the quote loop loses characters unless every quote is at an end of the text |
| BinaryCodec.ExtractBinaryString | external/CLI/CLI11.hpp:1140-1177 | the loop decodes the framed text; reading ahead stays inside the string |
| BinaryCodec.DecodedAt | external/CLI/CLI11.hpp:1159-1175 | an escape that starts before the tail ends before it, so no tail character is consumed |
| BinaryCodec.DecodedFull | external/CLI/CLI11.hpp:1159-1175 | a fully escaped text decodes to its original, and loses characters exactly if the original spells an escape |
| BinaryCodec.BinaryRoundTrip | external/CLI/CLI11.hpp:1098-1177 | for every string that needs the binary form, decoding inverts encoding if and only if it spells no `\xHH` and has single quotes only at its ends |
| BinaryCodec.BinaryLoses | external/CLI/CLI11.hpp:1118-1123 | two strings that do not come back: one with a quote inside, one that spells an escape |
| IniPrinter.IniJoin | external/CLI/CLI11.hpp:10195-10221 | the loop joins the printed values, in brackets if there are several |
| IniPrinter.ConvertedForm | external/CLI/CLI11.hpp:10136-10193 | every printed value but a lone one in triple quotes is one word or quoted text, and unquotes to what the reader gets |
| IniPrinter.ReadBackFaithful | external/CLI/CLI11.hpp:10156-10185 | what the reader gets is the value itself exactly under the condition of the binary codec |
| Sections.CloseAncestors | external/CLI/CLI11.hpp:10254-10258 | the copying loop closes a section and its ancestors down to the given depth |
| Sections.CloseForSection | external/CLI/CLI11.hpp:10253-10276 | which levels are closed and how many stay open when one section follows another |
| Sections.CheckParentSegments | external/CLI/CLI11.hpp:10248-10295 | the items with the markers for a new section: close down to the common prefix, open the rest |
| Sections.SectionAfterClosing | external/CLI/CLI11.hpp:10253-10282 | after any section left open so far, the markers leave exactly the new section open |
| Sections.MarkersNest | external/CLI/CLI11.hpp:10349-10365 | for every sequence of headers and entries, dotted keys included, the markers replay on a stack, each entry at or below the open path and nothing open at the end, if and only if every return to default from a nested section is tidy |
| Sections.StackIsSection | external/CLI/CLI11.hpp:10248-10295 | in a tidy file the open path is exactly the current section at every line of a section, and exactly an entry's section wherever one is stored |
| Sections.DefaultLeavesParentOpen | external/CLI/CLI11.hpp:10350-10363 | for all names, a header of two levels followed by default does not replay to an empty stack |
| Sections.ValuesConserved | external/CLI/CLI11.hpp:10517-10524 | for every sequence of headers and entries, tidy or not, the values in the items are those written, in order, each under its section and the parents its key names |
| ConfigReader.FindLineStart | external/CLI/CLI11.hpp:10380-10396 | the loop past quoted parts of a key, with the wrap-around of npos |
| ConfigLoop.SkipComment | external/CLI/CLI11.hpp:10334-10348 | the loop skips a block comment |
| ConfigLoop.ReadArray | external/CLI/CLI11.hpp:10471-10475 | the loop joins the lines of an array |
| ConfigLoop.ReadMultiLine | external/CLI/CLI11.hpp:10420-10469 | the loop gathers a value between triple quotes, with line extensions |
| ConfigLoop.RemoveQuotes | external/CLI/CLI11.hpp:1179-1189 | the loop cleans each part of a path, or fails at a malformed escape |
| ConfigLoop.ProcessAll | external/CLI/CLI11.hpp:10497-10499 | the loop unquotes each value, or fails at a malformed one |
| ConfigLoop.CloseFile | external/CLI/CLI11.hpp:10526-10536 | the closing items at the end of the file |
| ConfigLoop.ReadConfig | external/CLI/CLI11.hpp:10307-10538 | the reader as a whole, against the function the round trips are about |
| RoundTrip.SplitDotted | external/CLI/CLI11.hpp:10223-10231 | a dotted path splits into its components |
| RoundTrip.PlainParents | external/CLI/CLI11.hpp:10223-10246 | a dotted key in a section has the parents of the section followed by its own, and its last component as name |
| RoundTrip.SearchPath | external/CLI/CLI11.hpp:10380-10396 | the search for the delimiter passes over all components of a dotted key and stops before the delimiter |
| RoundTrip.ReadKeyLine | external/CLI/CLI11.hpp:10376-10524 | a printed line with a plain or dotted key adds its values under the current section, wherever it stands in a file; deeper than 255 levels it is dropped |
| RoundTrip.PrintedOnOneLine | external/CLI/CLI11.hpp:10183-10193 | a printed list has no line break, except a lone value in triple quotes |
| TripleQuotes.LinesJoined | external/CLI/CLI11.hpp:10428-10430 | joining the lines of a text with line breaks gives the text |
| TripleQuotes.TripledLines | external/CLI/CLI11.hpp:10187-10189 | the lines that a key and a value between triple quotes are printed on |
| TripleQuotes.Gathered | external/CLI/CLI11.hpp:10426-10469 | lines of which none but the last ends in a backslash or triple quotes, and the last is not empty, are gathered unchanged, whatever follows |
| TripleQuotes.GatheredShort | external/CLI/CLI11.hpp:10426-10469 | in every other case the gathered text is shorter than the value |
| TripleQuotes.UnquotedShortens | external/CLI/CLI11.hpp:1191-1211 | processing quotes never makes a text longer, and leaves alone exactly the texts that are not in quotes or binary form |
| TripleQuotes.TwoLinesSurvive | external/CLI/CLI11.hpp:10413-10470 | two lines of text, the first not ending in a backslash, survive if and only if they are not quoted as a whole |
| TripleQuotes.ReadTripled | external/CLI/CLI11.hpp:10413-10524 | a value that survives is read back over its lines, wherever it stands in a file |
| Documents.ReadPrinted | external/CLI/CLI11.hpp:10325-10524 | the lines of a printed entry are read as one entry with what the reader gets for its values, whatever follows |
| Documents.AllMisses | external/CLI/CLI11.hpp:10325-10524 | once the first item has another value, no further lines make the file read as the wanted item alone |
| Documents.LoneMultiLineFails | external/CLI/CLI11.hpp:10413-10470 | a lone value in triple quotes that does not survive never reads back, whatever its own lines are taken for |
| Documents.LineRoundTrip | external/CLI/CLI11.hpp:10307-10538 | for every plain or dotted key and non-empty list of values, the printed lines read back as that key and list if and only if each binary value is faithful, a lone value in triple quotes survives, and the key is at most 256 components deep |
| Documents.DocumentRoundTrip | external/CLI/CLI11.hpp:10307-10538 | for every file of headers and printed entries, dotted keys and surviving triple quotes included, reading gives the items its lines mean, with the values in order under their parents, and markers that nest if and only if the file is tidy |
| Arithmetic.OverflowCheckExact | external/CLI/CLI11.hpp:4022-4033 | at every width, signed or unsigned, for operands other than zero and the most negative value, the check holds exactly if the product is not representable |
| Arithmetic.MinimumOverflows | external/CLI/CLI11.hpp:4041-4043 | no product with the most negative value is representable, other than by zero and one |
| Arithmetic.CheckedMultiply | external/CLI/CLI11.hpp:4036-4049 | true exactly if the product is representable, which is then stored; else the operand is unchanged |
| Units.SplitUnit | external/CLI/CLI11.hpp:4318-4337 | the loop splits off the longest run of letters at the end |
| Units.NumberWithUnit | external/CLI/CLI11.hpp:4315-4377 | a text is accepted exactly if it stands for a number, a unit, or a number times the factor of its unit in range; with a unit it becomes the product, without one the trimmed number |
| Units.InitMapping | external/CLI/CLI11.hpp:4735-4751 | in 64-bit arithmetic every size unit gets its exact power; nothing wraps |
| OptionState.RunKeepsCache | external/CLI/CLI11.hpp:6023-6047 | over every run, the cached reduction is that of the stored results once they count as reduced, is empty where a reduction has failed, and a default has been filled in by then |
| OptionState.ViewsAgreeExactly | external/CLI/CLI11.hpp:6181-6197 | the const view gives or fails as the callback path, if and only if that fills in no default, and there are results, they are reduced already, or the policy is neither Sum nor Throw |
| OptionState.ConstViewAgrees | external/CLI/CLI11.hpp:6181-6197 | the same in every state that any run of the four operations reaches |
| OptionState.EmptyViewsDiffer | external/CLI/CLI11.hpp:6181-6197 | a new option under Throw: the const view gives the empty list, the callback path throws |
| OptionState.ValidatedAt | external/CLI/CLI11.hpp:6267-6290 | validation rewrites each element by the validators of its own index |
| OptionState.IndicesLineUp | external/CLI/CLI11.hpp:6255-6293 | for every number of results, kept elements are validated at their own position and dropped ones at a negative index, if and only if the sizes are at least one or the type takes none and one is expected |
| OptionState.KeptAsValidated | external/CLI/CLI11.hpp:6023-6047 | under TakeLast the element the callback gets at a position is the one that was validated for that position |
| OptionObject.Validate | external/CLI/CLI11.hpp:6373-6393 | the loop over the validators that apply at an index, up to the first failure |
| OptionObject.ValidateResults | external/CLI/CLI11.hpp:6255-6293 | the loop rewrites the results in place, with resets at separators, up to the first failure |
| OptionObject.OptionResults.AddResult | external/CLI/CLI11.hpp:6173-6179 | each text adds its parts to the results, and the state is parsing |
| OptionObject.OptionResults.Clear | external/CLI/CLI11.hpp:5319-5322 | no results, and the state is parsing; the cached reduction stays |
| OptionObject.OptionResults.MultiOptionPolicy | external/CLI/CLI11.hpp:5957-5968 | a new policy resets the state and may fix the expected maximum |
| OptionObject.OptionResults.RunCallback | external/CLI/CLI11.hpp:6023-6047 | the new state and the list the callback gets, or failure with the state as it is then |
| OptionObject.OptionResults.GetReduced | external/CLI/CLI11.hpp:6181-6197 | the const view |
| Overlay.FilesReadInReverse | external/CLI/CLI11.hpp:6313-6321 | the config option hands on the last file names, given or default, as many as expected and in reverse; an empty last name or the marker of an empty list means none |
| Overlay.FirstIsLast | external/CLI/CLI11.hpp:8922-8926 | the first writer backwards is the last writer forwards, for every list of files |
| Overlay.ApplyItemValue | external/CLI/CLI11.hpp:9255-9373 | an entry sets its option only if that is empty, and no other |
| Overlay.OverlayPrecedence | external/CLI/CLI11.hpp:8902-8936 | for every command line and every list of file names, also none or the default, each option ends, unless there is an error, with its command-line values if any, else the first value in the last file that has one; files that were given or are required are all read |
| Overlay.ConfigTarget.ParseItem | external/CLI/CLI11.hpp:9255-9373 | one entry in place: markers, unknown and fixed options, first writer wins |
| Overlay.ConfigTarget.ParseItems | external/CLI/CLI11.hpp:9248-9253 | the loop over the entries of a file |
| Overlay.ConfigTarget.ProcessConfigFiles | external/CLI/CLI11.hpp:8902-8936 | the loop over the files |
| ArgParser.DecideAccounts | external/CLI/CLI11.hpp:9375-9415 | what a turn takes is exactly the tokens it uses up, with the name, attached text and returned letters of its token; values it makes up are a flag text of that occurrence, only where the option takes none or has got none, or one empty filler of an incomplete last value |
| ArgParser.TurnShrinks | external/CLI/CLI11.hpp:9826-9830 | every turn makes the sum of token lengths plus one smaller, letters put back included |
| ArgParser.Conservation | external/CLI/CLI11.hpp:9221-9230 | over every run without error, the turns account for the whole command line in order, and letters put back are the next token; each option ends with exactly the values of its turns, which are tokens, text attached to them, flag texts of the occurrence or one empty filler; the rest is in missing |
| Bundles.BundleMeansSeparate | external/CLI/CLI11.hpp:9753-9756 | flag letters and any other text in one token do, turn by turn, what the flags one by one and that text do, if and only if no letter that allows extra values reaches a mark or a free plain token, or both runs fail; then the end states agree |
| Bundles.SafeBundle | external/CLI/CLI11.hpp:9782-9803 | the condition holds if no letter allows extra values, or if the text after the letters and the next token, if any, are options |
| Bundles.TakenAcrossShows | external/CLI/CLI11.hpp:9782-9803 | a letter that takes values past its bundle makes the end states differ, unless its option gets as many later when the flags stand apart |
| Bundles.ExtraFlagTakesAcross | external/CLI/CLI11.hpp:9782-9803 | `-ab v` gives `v` to a flag `a` that allows extra values, and `-a -b v` leaves it over |
| Bundles.AlikeByChance | external/CLI/CLI11.hpp:9782-9803 | `-aa true` and `-a -a true` end in the same state although the condition is not met |
| ArgLoop.Loop.CountRemaining | external/CLI/CLI11.hpp:9417-9427 | the loop counts what required positionals still lack |
| ArgLoop.Loop.CollectRequired | external/CLI/CLI11.hpp:9769-9776 | the loop gives the option its required values in order, as far as there are any |
| ArgLoop.Loop.CollectMore | external/CLI/CLI11.hpp:9784-9803 | the loop gives the option further values up to its limit, a token of another kind, or one kept for a positional |
| ArgLoop.Loop.TakeHead | external/CLI/CLI11.hpp:9750-9767 | what the option's own token gives it |
| ArgLoop.Loop.TakeOptional | external/CLI/CLI11.hpp:9782-9814 | optional values, an end mark, and a default flag value |
| ArgLoop.Loop.FinishOption | external/CLI/CLI11.hpp:9782-9831 | the rest of an occurrence, with padding and letters put back |
| ArgLoop.Loop.ParseOption | external/CLI/CLI11.hpp:9728-9831 | an occurrence of an option |
| ArgLoop.Loop.ParseArg | external/CLI/CLI11.hpp:9613-9831 | the option a token names and its occurrence, or the token to missing |
| ArgLoop.Loop.FindTaker | external/CLI/CLI11.hpp:9467-9482 | the loop finds the first positional that takes a token |
| ArgLoop.Loop.LeaveToMissing | external/CLI/CLI11.hpp:9542-9550 | a token no option takes, and all after it for a prefix command |
| ArgLoop.Loop.ParsePositional | external/CLI/CLI11.hpp:9439-9553 | a positional token goes to one option, to missing, or fails |
| ArgLoop.Loop.ParseSingle | external/CLI/CLI11.hpp:9375-9415 | one turn of the loop, by the kind of the next token |
| ArgLoop.Loop.Parse | external/CLI/CLI11.hpp:9221-9230 | the loop ends on every command line, in the state the laws are about |
| BackPressure.StepRefines | external/uWebSockets/AsyncSocketData.h:33-63 | each operation does to the live bytes what an eager queue does, for erases within the length and 32 bits |
| BackPressure.EraseExactly | external/uWebSockets/AsyncSocketData.h:36-43 | an erase within the length is right if and only if the pending count stays within 32 bits |
| BackPressure.RefinesQueue | external/uWebSockets/AsyncSocketData.h:33-63 | over every run of such operations the live bytes are those of a queue that erases eagerly, and pending stays within the buffer |
| BackPressure.RunPays | external/uWebSockets/AsyncSocketData.h:36-43 | bytes moved plus 31 times the pending count never exceed 31 times the bytes erased |
| BackPressure.Amortised | external/uWebSockets/AsyncSocketData.h:36-43 | over every run, bytes moved are at most 31 times bytes erased |
| BackPressure.StepDense | external/uWebSockets/AsyncSocketData.h:55-57 | an operation keeps at most a 32nd dead, unless it is a resize below 31 times the pending count |
| BackPressure.RunDense | external/uWebSockets/AsyncSocketData.h:33-67 | from a dense buffer, 31 times the total length is at most 32 times the live length after every operation of a run, if and only if no resize of it goes below 31 times the pending count |
| BackPressure.ResizeLeavesSparse | external/uWebSockets/AsyncSocketData.h:55-57 | a run of append, erase and resize from the empty buffer that ends with a sixth of it dead |
| BackPressure.SendBuffer.Append | external/uWebSockets/AsyncSocketData.h:33-35 | the append step in place |
| BackPressure.SendBuffer.Erase | external/uWebSockets/AsyncSocketData.h:36-43 | the erase step in place, with 32-bit wrap-around |
| BackPressure.SendBuffer.Resize | external/uWebSockets/AsyncSocketData.h:55-57 | the resize step in place |
| BackPressure.SendBuffer.Clear | external/uWebSockets/AsyncSocketData.h:47-51 | the clear step in place |
| BackPressure.SendBuffer.Length | external/uWebSockets/AsyncSocketData.h:44-46 | the number of live bytes |
| BackPressure.SendBuffer.Data | external/uWebSockets/AsyncSocketData.h:58-60 | the live bytes |
| Ownership.StepAccounts | external/Backward/backward.hpp:547-620 | each operation keeps every resource in exactly one place: one owner, deleted once, or released once |
| Ownership.OwnershipHolds | external/Backward/backward.hpp:547-620 | over every run, at most one owner, no deletion while owned, and exactly one deletion or release once all handles are gone |
| Ownership.OwningHandle.constructor | external/Backward/backward.hpp:556-560 | owns the value unless it is null |
| Ownership.OwningHandle.Swap | external/Backward/backward.hpp:614-620 | exchanges two handles, also one with itself |
| Ownership.OwningHandle.Reset | external/Backward/backward.hpp:586-590 | owns the new value; the old one is deleted |
| Ownership.OwningHandle.Release | external/Backward/backward.hpp:609-613 | gives the value away without deleting it |
| Ownership.OwningHandle.Destroy | external/Backward/backward.hpp:548-553 | deletes the value if there is one |
| GnbConfig.CollectSlices | apps/gnb/gnb.cpp:163-171 | the slices of all cells, once each in the order first seen |
| GnbConfig.DeriveSlices | apps/gnb/gnb.cpp:161-180 | the old list followed by exactly the missing slices, once each in the order first seen |
| GnbConfig.DerivedSlicesCover | apps/gnb/gnb.cpp:161-180 | every slice is then served, and a second run adds nothing |
| GnbConfig.DeriveAreas | apps/gnb/gnb_appconfig_cli11_schema.cpp:97-116 | one tracking area per cell; no change without cells |
| GnbConfig.ValidatePlmnAndTacs | apps/gnb/gnb_appconfig_validators.cpp:41-78 | accepts exactly without a core, or if there are cells and the first is covered |
| GnbConfig.AcceptsWhatIsMeant | apps/gnb/gnb_appconfig_validators.cpp:59-77 | acceptance means that all cells are covered, under every config with a core, if and only if all cells have the PLMN and TAC of the first; it rejects covered cells under some such config if and only if there are none |
| GnbConfig.UncoveredCellAccepted | apps/gnb/gnb_appconfig_validators.cpp:59-77 | an uncovered second cell is accepted |
| GnbConfig.DerivedAreasAccepted | apps/gnb/gnb_appconfig_cli11_schema.cpp:97-116 | derived areas cover every cell and the validator accepts, for every non-empty list of cells |

## Left out

- Start-up, logging, gateways, executors and metrics of the applications: wiring over libraries that are not part of this model.
- Subcommands, option groups, fallthrough and dot notation in the app: the argument loop and the overlay are those of an app without subcommands.
- Delimiters, separator injection and trigger on parse in the argument loop; delimiters and bracketed lists are in `OptionState`.
- Ignoring case or underscores in option names, and environment variables.
- Other settings of ConfigBase than the defaults, and the filter for one config section.
- Conversions between text and numbers, validator bodies and callbacks: parameters of the model. "Converts to a double" is an arbitrary predicate in the printer.
- Locale: the classic C locale throughout.
- File input: a config file is the sequence of its lines; opening one is a parameter of `Overlay`.
- An empty component of a dotted path: the source reads the first character of an empty string there; the model leaves the component as it is.
- `handle::update` and `operator&`, which bypass ownership, and the rest of backward.hpp.
- Reserve and capacity in the class of the send buffer: they have no effect on the contents.
- Failure to build a slice differentiator in the gNB: the slices are plain values.
- ArgLoop.Loop.Parse: after an exception it says only that there was one, not what was stored before it.
- Documents.DocumentRoundTrip: does not cover lone values in triple quotes that do not survive, whose lines can be taken for anything.
- Help texts, error classes and messages.
