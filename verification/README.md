# A verified model of teptris

teptris is a TOML library in C: a parser that builds a document tree, an emitter,
a tree builder and a streaming writer, a JSON Schema validator with its own
regular expressions, and the arithmetic of a shortest-digits number printer.
This project models its stateful and arithmetic core in Dafny and proves what
that core promises.

Each part is modelled in the form its source has. The parser's arena is a
sequence of cells that methods change in place; the builder, the emitter, the
writer, the pattern compiler and the validation walk are classes whose methods
update their fields; sorting, closure and search work on arrays; the key index is
a hash table with linear probing. Every such method is proved against a function
of values, and the properties are lemmas about those functions.

| files | part of the source |
|---|---|
| `Document`, `Places`, `Statements` | the tree, what one line does to it, what every run keeps |
| `Safety`, `Landing` | definitions over whole runs; where keys and headers put what they define |
| `Content`, `RoundTrip` | what a document says; emitting and running again |
| `Arena`, `Resolution`, `Insertion`, `Parser` | header resolution and key insertion on shared cells |
| `Tokens`, `Reader`, `Emitter` | text as tokens: the recursive value reader, the line loop, the emitter |
| `Description`, `WriterText`, `Writer`, `Streams` | the streaming writer, and the stream of a document |
| `Builder`, `Growth` | the tree builder, and what it does to its document |
| `KeyIndex` | the open-addressing key index |
| `Ranges`, `Regex`, `Nfa`, `Thompson`, `PatternCompiler` | character classes, patterns, their compilation |
| `PatternMeaning` | patterns by characters, positions and cuts; patterns for a whole text |
| `Reachability`, `Simulation`, `Search`, `LostMatch` | where a program can get to, epsilon closure, the search, a match it loses |
| `Values`, `Schemas`, `Keywords`, `Validator` | equality of values; what a schema accepts, keyword by keyword; the walk that counts pings |
| `Divisibility`, `MultipleOf` | the `multipleOf` decision |
| `MulShift`, `Pow5`, `DigitRemoval` | number kernels |
| `Utf8`, `Strings`, `HeaderText`, `KeyText` | UTF-8, strings, keys and headers as bytes |
| `Numbers`, `Datetimes`, `DatetimeGrammar`, `Dispatch` | numbers, dates and times as bytes, and which of them a value is |
| `Spelling` | escapes, digits, bare keys, separators and the calendar with their characters written out |
| `Arithmetic`, `Counting`, `Sequences` | small facts shared by the others |

## Where the code does less than it might seem to

Properties that turned out not to hold in general are stated with the condition
under which the code meets them, and with an input that fails.

- A sequence whose later piece compiles to no state loses its tail
  (`Regex.SequenceIsFaithfulIff`, `Regex.GroupAfterLetterIsLost`): the pattern
  `a` followed by an empty group matches nothing at all. The compiled program
  means the *lossy* reading of the pattern, in which such a sequence has no match.
- The search stamps states in place while it steps, so a state can be stamped
  away before its turn. The pattern `a?ab` matches "ab", its program takes "ab",
  and the search does not find it (`LostMatch.SearchLosesAMatch`). A success is
  always a match. At every start and position the search carries exactly the
  states that can be reached if and only if every state that reads leads to one
  taken on by a state that has its turn, which is said of the program and the text
  without reference to any search (`Search.CarriesAllIff`). Where that holds the
  search is exact (`Search.SearchIsComplete`); it holds when no state that can be
  reached leads, on the code point at hand, to a later one that also reads it
  (`Reachability.UnhinderedTakesTurns`), and on every text for patterns without
  alternatives, options and loops, such as `hello` or `\d\d` (`Search.SearchPattern`).
- The binary search over a class is exact if and only if every gap between two of
  its probes holds no member, whether or not ranges overlap
  (`Ranges.ExactIffEndsInGaps`); for disjoint ranges that means that they ascend
  (`Ranges.ExactIffAscending`). The ranges of a bare `\w` do not, and so it
  matches capitals and the underscore only (`Ranges.BareWordMissesLetters`).
- Merging an empty list of ranges leaves a count of one (`Ranges.SortMerge`).
- Zero is a multiple of everything, but the decision refuses `0 multipleOf 1e70`
  (`MultipleOf.ZeroIsRefused`); `MultipleOf.ZeroIsRightIff` says exactly when it is
  right about zero.
- The fused multiply-shift computes its lower bound exactly, in the asymmetric
  case, if and only if doubling loses no carry
  (`MulShift.FusedLowerBoundIsExactIff`). That case has powers of two only, so the
  mantissa is 2^52, and then the carry is lost exactly for factors with certain 65
  bits all set (`MulShift.CarryIsLostIff`); `MulShift.CarryCanBeLost` names one of
  the allowed size. Whether a table holds such a factor is not part of this model.
- The fast header path ignores the depth limit, which the general path observes;
  they agree if and only if the header has no more parts than the limit
  (`HeaderText.FastHeaderAgreesIff`), so not on `[a.b]` under a limit of one
  (`HeaderText.FastHeaderIgnoresLimit`). The fast key path needs a limit of one,
  which every limit is (`HeaderText.FastKeyAgreesIff`; a limit of zero stands for 512).
- The empty string is written as two apostrophes, which a third one behind them
  would turn into the start of a multi-line string (`Strings.StringRoundTrip`,
  `Strings.EmptyStringRunsOn`).
  Nothing that the emitter writes behind a value starts with an apostrophe.
- A key with the delete character (0x7F) is written between double quotes as it is,
  and the reader refuses it there; keys are read back if and only if they are
  without it (`KeyText.KeyRoundTripIff`, `KeyText.DeleteIsWrittenRaw`).
- Equality of values is not an equivalence. A date in UTC equals both the string
  with its `Z` and the string with `+00:00`, which differ
  (`Values.DatesAreNotTransitive`), and not-a-number does not equal itself
  (`Values.SameAsItselfIff`). Where neither can happen, values are equal if and only
  if they denote the same (`Values.SameIffDenotesSame`).
- The path stack of the validator stops at 128 segments, but a pop is made for
  every push, so paths drift on deeper documents (`Validator.PushThenPop`,
  `Validator.PathDrifts`); the verdict does not depend on it.
- The comments of the writer say that a key before an array element is refused.
  The code refuses it for inline tables only; the model follows the code.
- A builder call that fails because too much is open leaves the new container
  attached, though not open (`Builder.Builder.OpenTable`).

## Model

| member | source | states |
|---|---|---|
| Places.DefineLift | src/teptris/parse/parser.c:298-418 | a header whose first parts exist does to the document what its remaining parts do to the table those lead to |
| Places.DefineLeads | src/teptris/parse/parser.c:298-418 | after an accepted header its path leads to an explicit table, the one it opened |
| Places.InsertLift | src/teptris/parse/parser.c:230-294 | a dotted key whose first parts exist acts as its remaining parts do on the table those lead to |
| Places.GetPut | src/teptris/parse/parser.c:298-418 | a table put at a path is what the path then leads to |
| Statements.StepKeeps | src/teptris/parse/parser.c:230-418 | every accepted line keeps the document well-formed (distinct sibling keys, arrays of tables non-empty and of tables only, inline territory free of sections) and only grows it |
| Statements.RunKeeps | src/teptris/parse/parser.c:885-964 | over every accepted run the document stays well-formed, and everything it ever held is still there, changed only by growth |
| Safety.AtExtends | src/teptris/parse/parser.c:230-473 | growth keeps every node at its address and keeps every stored value - scalar, plain array, inline table and all below - identical |
| Safety.TargetIsNew | src/teptris/parse/parser.c:355-418 | before the line that opens it, the table a header opens does not exist or is only implicit |
| Safety.HeadersOpenDifferentTables | src/teptris/parse/parser.c:420-473 | over every accepted run no two `[header]` or `[[header]]` lines open the same table |
| Safety.ValuesNeverChange | src/teptris/parse/parser.c:794-881 | over every accepted run a value stored after some line is unchanged, at its address, after every later line |
| Landing.InsertLands | src/teptris/parse/parser.c:230-294 | an accepted dotted key puts its value at the address its parts spell, where nothing was |
| Landing.InsertMovesNothing | src/teptris/parse/parser.c:230-294 | every address that neither leads to that value nor through it holds what it held |
| Landing.InsertMakesTables | src/teptris/parse/parser.c:243-290 | on the way are the tables that were there, with their flags, and new ones made by the dots |
| Landing.InsertIsAcceptedIff | src/teptris/parse/parser.c:230-294 | a dotted key is accepted if and only if nothing is in its place and nothing on the way but tables made by dotted keys |
| Landing.HeaderIsAcceptedIff | src/teptris/parse/parser.c:298-418 | a header is accepted if and only if each part finds nothing or something to go on through, and its last part nothing, a table no line defined, or for `[[ ]]` an array of tables |
| Landing.LineLands | src/teptris/parse/parser.c:670-704 | a `key = value` line puts its value at its key below the current table, where nothing was |
| Landing.LineValueIsKept | src/teptris/parse/parser.c:885-964 | over every accepted run the value of each line is where the line put it after every later line |
| RoundTrip.RunBody | src/teptris/emit/emitter.c:130-148 | running the lines emitted for a table's entries, wherever that table is, gives it its values first and its sections after them, and changes nothing else |
| RoundTrip.RunSections | src/teptris/emit/emitter.c:130-148 | running the emitted section lines appends exactly the sections, in normal form and in order |
| RoundTrip.RunElements | src/teptris/emit/emitter.c:112-118 | running the `[[path]]` lines of an array of tables appends exactly its elements to the array being built |
| RoundTrip.EmitThenRun | src/teptris/emit/emitter.c:150-166 | for every well-formed document the emitted statements are accepted and rebuild it: every lookup gives the same content, every table's entries split stably into values then sections |
| RoundTrip.EmitNormal | src/teptris/emit/emitter.c:72-148 | emitting the rebuilt document gives the same statements again |
| RoundTrip.NormalKeepsContent | src/teptris/emit/emitter.c:72-148 | the normal form of a well-formed tree has the same scalars, items and keys at every lookup, whatever its tables were made by |
| RoundTrip.NormalIsStable | src/teptris/emit/emitter.c:130-148 | values come before sections, and each kind keeps its order |
| RoundTrip.ParseEmitParse | src/teptris/emit/emitter.c:150-166 | whatever document was accepted, emitting and parsing it succeeds, gives its normal form with the same content under the same keys, and a second emission equals the first |
| Arena.FollowsPut | src/teptris/parse/parser.c:298-418 | changing the cell that a path leads to changes the tree in that one place only |
| Arena.FollowsStill | src/teptris/parse/parser.c:298-418 | changing the cell at the end of a path leaves the path leading to it |
| Resolution.EnterOld | src/teptris/parse/parser.c:323-352 | a header goes on through an existing part, or stops at it with the error that the tree-level rule gives |
| Resolution.EnterNew | src/teptris/parse/parser.c:310-322 | making a missing intermediate part leaves the header's whole effect as it was |
| Resolution.HeaderLoopEnd | src/teptris/parse/parser.c:298-418 | what the last part does completes what the whole header does from the state the loop started in; a header that fails has changed nothing |
| Insertion.KeyEnterNew | src/teptris/parse/parser.c:243-255 | making a missing intermediate table leaves the dotted key's whole effect as it was |
| Insertion.KeyLoopEnd | src/teptris/parse/parser.c:230-294 | the last part completes the effect of the whole dotted key on the current table, and nothing outside that table differs |
| Parser.Parser.ResolveHeader | src/teptris/parse/parser.c:298-418 | the loop over shared cells has the effect of the header on the tree, finds the table opened, and leaves the arena untouched on an error |
| Parser.Parser.ResolveLast | src/teptris/parse/parser.c:355-418 | the last part: new table, implicit table made explicit, new or further array element, or the redefinition errors |
| Parser.Parser.InsertDotted | src/teptris/parse/parser.c:230-294 | the loop over shared cells has the effect of `key = value` on the current table, with each of its errors, and leaves the arena untouched on an error |
| Parser.Parser.TryHeaderFast | src/teptris/parse/parser.c:489-608 | when the fused path takes a header it does what the general path does; when it declines, nothing has changed even though parts were walked |
| Parser.Parser.InsertBare | src/teptris/parse/parser.c:615-668 | the single probe and insert has the effect of the general insertion of a one-part key |
| Parser.Parser.HeaderLine | src/teptris/parse/parser.c:420-473 | a header line moves to the table it opens, and has the same effect and status whether or not the fused path was tried |
| Parser.Parser.KeyLine | src/teptris/parse/parser.c:670-704 | a key line changes the table that is current and nothing else, the same with and without the fused path |
| Parser.Parser.Run | src/teptris/parse/parser.c:885-964 | the statement loop on cells refines the run on trees, whichever lines the fused paths take, with the same first error |
| Tokens.ParsedIsValue | src/teptris/parse/parser.c:735-881 | whatever is read as a value is one: distinct keys in inline tables, no section anywhere below |
| Tokens.ReadValue | src/teptris/parse/parser.c:735-881 | a value within the nesting limit is read back from its text as itself, the cursor behind it |
| Tokens.ReadBack | src/teptris/parse/parser.c:670-704 | every line within the limits is read back as itself, the cursor at its line end |
| Tokens.RunTextOf | src/teptris/parse/parser.c:885-964 | running the text of any readable lines is running the lines, errors included |
| Tokens.EmittedTextReadsBack | src/teptris/emit/emitter.c:150-166 | the text emitted for a well-formed document within the depth limit is accepted and gives the same content in normal form |
| Landing.MemberLands | src/teptris/parse/parser.c:794-881 | whatever member of an inline table was read, its value is at the address its key spells, and nothing else has moved |
| Landing.ReadPairTable | src/teptris/parse/parser.c:794-881 | an inline table whose keys have any number of parts is read as its members inserted in order, or gives the first refusal among them |
| Landing.AllLand | src/teptris/parse/parser.c:794-881 | every member of an inline table that was read is found at its key |
| Reader.Reader.ParseArray | src/teptris/parse/parser.c:735-792 | the array loop computes the value reader's result from any position and depth, and restores the depth |
| Reader.Reader.ParseInline | src/teptris/parse/parser.c:794-881 | the inline-table loop computes the value reader's result, each member inserted as a dotted key, and restores the depth |
| Reader.Reader.Run | src/teptris/parse/parser.c:885-964 | reading and running line by line, fused paths included, ends with the document or the first error of the text as a whole |
| Emitter.Emitter.EmitSection | src/teptris/emit/emitter.c:86-128 | the recursive walk appends the text of the section's statements and nothing else |
| Emitter.Emitter.EmitTableChildren | src/teptris/emit/emitter.c:130-148 | the two passes append the text of the values' lines, then of the sections' lines |
| Emitter.Emitter.EmitInlineTable | src/teptris/emit/emitter.c:56-68 | the loop with its comma rule appends the inline text of the members |
| Emitter.Emitter.EmitDocument | src/teptris/emit/emitter.c:150-166 | what comes out for a well-formed document reads back with the same content, in normal form |
| WriterText.AddSectionText | src/teptris/emit/writer.c:412-447 | a section that is complete reads as it did while it was being written, whatever came before it in its table |
| WriterText.CloseText | src/teptris/emit/writer.c:524-542 | closing a container of any kind appends its bracket and line end at most |
| WriterText.StepGood | src/teptris/emit/writer.c:269-563 | every operation that is taken keeps the description sound: distinct keys, values before sections, normal form |
| WriterText.Finished | src/teptris/emit/writer.c:565-595 | a finished description is a well-formed document in normal form, and its text is what the emitter writes for it |
| Writer.Writer.Path | src/teptris/emit/writer.c:194-218 | the walk down the frames collects the keys of the keyed frames from the root, of the top 600 frames |
| Writer.Writer.KeyedPrefix | src/teptris/emit/writer.c:237-258 | a value starts with separator and key in the innermost container, or is refused: without a key, or once `saw_subtable` is set |
| Writer.Writer.SectionHeader | src/teptris/emit/writer.c:430-447 | a section opened under the pending key continues the text of the description |
| Writer.Writer.ElementHeader | src/teptris/emit/writer.c:420-429 | an element of an array of tables continues the text of the description |
| Writer.Writer.CloseOp | src/teptris/emit/writer.c:524-542 | closing continues the text of the description and brings back the frame below, `saw_subtable` as it was |
| Writer.Writer.Take | src/teptris/emit/writer.c:279-561 | every operation either is described, with the output the text of the new description, or is refused with the described status; which operation describes what is fixed by `Streams.StreamDescribes` |
| Writer.Writer.Feed | src/teptris/emit/writer.c:269-563 | over every stream the output, frames and pending key are those of what the stream describes, or the first refusal is reported; after a refusal or the hand-over nothing changes any more |
| Writer.Writer.Finish | src/teptris/emit/writer.c:565-595 | an open container or an earlier refusal is reported and nothing handed over; else the text, handed over once, is what the emitter writes for the described document and reads back as exactly that document |
| Streams.StreamDescribes | src/teptris/emit/writer.c:269-563 | the stream of a document in normal form - key, then scalar, empty container, or begin, contents and close - describes that document and no other |
| Streams.WriteDocument | src/teptris/emit/writer.c:269-595 | fed to a fresh writer and finished, that stream gives text that reads back as the document |
| Builder.BuilderTree | src/teptris/build.c:80-157 | cells as the builder makes them hold well-formed trees: distinct keys, arrays of tables non-empty and of tables only, nothing inline above a section |
| Builder.GrowChain | src/teptris/build.c:80-124 | attaching at the end of the open stack grows every container on the stack, in its last place, and nothing else |
| Builder.AttachSound | src/teptris/build.c:80-124 | an attachment that is not refused keeps the stack a root-to-current path and every container's nature true of its elements |
| Builder.Builder.Attach | src/teptris/build.c:80-124 | either the stated refusal with nothing changed, or the element added to the innermost open container of the document |
| Builder.Builder.PutScalar | src/teptris/build.c:126-138 | a scalar is attached, or refused in an array of sections, without a key, or under a key that is taken |
| Builder.Builder.OpenTable | src/teptris/build.c:263-285 | the new table is a section exactly outside inline territory; at the depth limit it is attached but not opened; the stack gains exactly its frame |
| Builder.Builder.OpenArray | src/teptris/build.c:287-332 | an array is opened undecided, or inline when pinned or in inline territory; at the depth limit it is attached but not opened; the stack gains exactly its frame |
| Builder.Builder.CloseContainer | src/teptris/build.c:334-341 | closing pops one container, never the root, and leaves the document alone |
| Builder.Builder.Finish | src/teptris/build.c:343-355 | what is handed over is well-formed, so that its emitted lines are accepted and rebuild it with the same content |
| Growth.GrowLands | src/teptris/build.c:80-124 | attaching puts the element in the container that last children lead to, at an address where nothing was |
| Growth.GrowMovesNothing | src/teptris/build.c:80-124 | every address that neither leads to the new element nor through it holds what it held |
| Growth.GrowKeepsKind | src/teptris/build.c:80-124 | containers keep their kind, and an array into which a section table goes becomes an array of tables |
| Growth.AttachmentLands | src/teptris/build.c:80-124 | every attachment the builder does not refuse lands so in its document, the open containers being the chain of last children |
| KeyIndex.MeetsFree | src/teptris/dom/dom.c:73-96 | with an empty slot anywhere, every linear probe meets one within one turn |
| KeyIndex.RoomIsLeft | src/teptris/dom/dom.c:47-71 | an index with more slots than entries has an empty one |
| KeyIndex.PutIndexes | src/teptris/dom/dom.c:47-55 | an entry put at the end of its probe leaves every entry, old and new, findable |
| KeyIndex.GrowthRestoresLoad | src/teptris/dom/dom.c:120-168 | growing when crowded restores the load bound for the entry to come, with a slot to spare |
| KeyIndex.KeyTable.FindHash | src/teptris/dom/dom.c:73-103 | lookup answers the position of the unique entry with the key, or that there is none, indexed or not |
| KeyIndex.KeyTable.ProbeSlot | src/teptris/dom/dom.h:74-105 | the same answer, and on a miss the empty slot at which the key's probe ends |
| KeyIndex.KeyTable.IndexInsert | src/teptris/dom/dom.c:47-55 | the probe loop ends and puts the entry into the first empty slot of its walk |
| KeyIndex.KeyTable.IndexRebuild | src/teptris/dom/dom.c:57-71 | a rebuilt index is the one that inserting all entries in order gives |
| KeyIndex.KeyTable.InsertSlot | src/teptris/dom/dom.c:120-168 | inserting at a slot found by a probe gives the same table and index as inserting afresh, also when a rebuild discards the slot |
| KeyIndex.KeyTable.Insert | src/teptris/dom/dom.c:105-118 | a fresh insert appends the entry and keeps the table valid |
| Ranges.ClassMatch | src/teptris/schema/regex.c:1068-1084 | the loop computes the binary search; on ascending ranges it answers membership, negated if asked |
| Ranges.AscendingIsExact | src/teptris/schema/regex.c:1068-1084 | on ascending ranges the search hits exactly the members |
| Ranges.ExactIffAscending | src/teptris/schema/regex.c:1068-1084 | for ranges without a common point the search is exact for every code point if and only if they ascend |
| Ranges.ExactIffEndsInGaps | src/teptris/schema/regex.c:1068-1084 | for any ranges, overlapping or not, the search is exact for every code point if and only if no member lies in a gap where a sequence of probes ends |
| Ranges.BareWordMissesLetters | src/teptris/schema/regex.c:611-618 | the bare `\w` misses every lower-case letter and digit, all of which are among its ranges |
| Ranges.Sort | src/teptris/schema/regex.c:393-401 | the insertion sort orders the ranges and keeps them as a multiset |
| Ranges.Merge | src/teptris/schema/regex.c:402-412 | merging ordered ranges in place leaves canonical ranges with the same members |
| Ranges.SortMerge | src/teptris/schema/regex.c:390-413 | afterwards the search is exact for the class as it was given; an empty list comes out with a count of one |
| Regex.LossyIsSound | src/teptris/schema/regex.c:886-892 | what a pattern matches when sequences may lose their tails, it matches |
| Regex.CleanIsComplete | src/teptris/schema/regex.c:886-892 | if no sequence in the pattern loses its tail, it matches all that it should |
| Regex.SequenceIsFaithfulIff | src/teptris/schema/regex.c:886-892 | a sequence of faithful pieces is faithful at a match if and only if no piece without states stands behind one with states |
| Regex.GroupAfterLetterIsLost | src/teptris/schema/regex.c:886-892 | `a` and an empty group match "a", and their compiled form matches nothing anywhere |
| Regex.AtLeast | src/teptris/schema/regex.c:953-993 | at least `min` repetitions are exactly `min` followed by any number |
| PatternMeaning.CharacterMeans | src/teptris/schema/regex.c:1068-1084 | what letters in one or both cases, any character, ascending classes and anchors match, with code points and positions written out |
| PatternMeaning.SequenceMeans | src/teptris/schema/regex.c:884-894 | a sequence matches what can be cut so that each part matches its piece |
| PatternMeaning.RepetitionMeans | src/teptris/schema/regex.c:948-1014 | a repetition matches what can be cut into an allowed number of turns of its body |
| PatternMeaning.FromStartMeans | src/teptris/schema/regex.c:1107-1108 | `^r` matches what `r` matches at the start of the text, and nothing else |
| PatternMeaning.ToEndMeans | src/teptris/schema/regex.c:1109-1110 | `r$` matches what `r` matches up to the end of the text, and nothing else |
| PatternMeaning.WholeMeans | src/teptris/schema/regex.c:1107-1110 | `^r$` matches if and only if `r` matches the whole text |
| Nfa.PatchComposes | src/teptris/schema/regex.c:795-825 | what a patched fragment matches is what its other slots matched, and what the patched slots matched followed by what is matched from the new target |
| Nfa.ExitsElsewhere | src/teptris/schema/regex.c:817-825 | what a fragment matches depends on its own states and slots only |
| Thompson.Sequenced | src/teptris/schema/regex.c:884-894 | two fragments, the first threaded to the second, match the one followed by the other |
| Thompson.OptionAdded | src/teptris/schema/regex.c:994-1012 | a gate and a body behind a fragment add one optional repetition |
| Thompson.LoopAdded | src/teptris/schema/regex.c:967-993 | a gate that loops over a body adds any number of repetitions, bodies that match the empty text included |
| Thompson.StatedBranch | src/teptris/schema/regex.c:908-944 | hanging an alternative with states into the open slot of the split chain adds exactly that alternative |
| Thompson.EmptyBranch | src/teptris/schema/regex.c:935-942 | an alternative without states leaves by the open slot itself and adds exactly the empty match |
| Thompson.NextSplit | src/teptris/schema/regex.c:922-928 | a further split in the chain leaves what the alternatives so far match |
| PatternCompiler.Compiler.Thread | src/teptris/schema/regex.c:795-825 | every slot of the tail is set to the target, and no other slot changes |
| PatternCompiler.Compiler.EmitNode | src/teptris/schema/regex.c:827-1019 | succeeds exactly if the pattern is compilable and fits; then a fragment behind the old states matches the pattern, and the old states are untouched |
| PatternCompiler.Compiler.EmitSeq | src/teptris/schema/regex.c:884-894 | the loop over the pieces emits a fragment for the sequence |
| PatternCompiler.Compiler.EmitAlt | src/teptris/schema/regex.c:895-947 | the chain of splits with dangling slots emits a fragment for the alternatives |
| PatternCompiler.Compiler.EmitLoop | src/teptris/schema/regex.c:967-993 | an unbounded repetition is refused exactly for a body without states, else emitted |
| PatternCompiler.Compiler.EmitOption | src/teptris/schema/regex.c:994-1012 | one further optional copy raises the upper bound by one |
| PatternCompiler.Compiler.EmitQuant | src/teptris/schema/regex.c:948-1014 | `{n,m}`, `{n,}` and no repetition at all, each with its exact number of states |
| PatternCompiler.Compile | src/teptris/schema/regex.c:1021-1065 | refused exactly when uncompilable or too large; otherwise the program takes the text between two positions exactly when the pattern, read lossily, matches there; no state forks if the pattern has no alternatives, options and loops |
| PatternCompiler.CompiledIsFaithful | src/teptris/schema/regex.c:1021-1065 | a program never takes what the pattern does not match, and takes all of it when no sequence loses its tail |
| Simulation.Closure | src/teptris/schema/regex.c:1093-1129 | terminates; marks exactly the states reachable from the stamped ones without reading at this position; pushes each state at most once; changes no other mark |
| Simulation.WalkEnds | src/teptris/schema/regex.c:1093-1129 | an empty stack means that exactly the closure is marked |
| PatternMeaning.AnchorLeadsOn | src/teptris/schema/regex.c:1107-1118 | the closure passes an anchor state at position zero, at the length of the text, between a letter, digit or underscore and something else, or exactly not there, as the anchor says |
| Search.StepAll | src/teptris/schema/regex.c:1158-1170 | one step in place stamps what the states that are still live read to, in their order |
| Search.RunFrom | src/teptris/schema/regex.c:1152-1172 | a run from one start succeeds exactly if the accepting state is carried at some position |
| Search.Search | src/teptris/schema/regex.c:1131-1177 | the loop with its reused generation stamps succeeds exactly if some start does |
| Search.SearchIsSound | src/teptris/schema/regex.c:1131-1177 | a search that succeeds has found a piece of the text that the program takes, anchors judged in the whole text |
| Reachability.AcceptsIsReached | src/teptris/schema/regex.c:1093-1172 | a program takes a piece of the text if and only if its accepting state can be reached there: plain runs and reached states are one notion |
| Reachability.UnhinderedTakesTurns | src/teptris/schema/regex.c:1159-1169 | if no state that can be reached reads on to a later one that reads the same code point, every state has its turn |
| Reachability.ReadsApartIsUnhindered | src/teptris/schema/regex.c:1159-1169 | that holds, whatever can be reached, where no code point of the text is read both by a state and by the later one it leads to |
| Reachability.StraightIsUnhindered | src/teptris/schema/regex.c:1159-1169 | it holds on every text for a program without forks, where one state at most reads at a time |
| Search.CarriesAllIff | src/teptris/schema/regex.c:1131-1177 | the search carries exactly the states that can be reached, at every start and position, if and only if whatever a reached state reads on to is taken on by a state that has its turn |
| Search.SearchIsComplete | src/teptris/schema/regex.c:1159-1169 | then the search succeeds if and only if the program takes some piece of the text |
| Search.SearchFindsPattern | src/teptris/schema/regex.c:1131-1177 | from pattern to answer: a success means a match somewhere; for a pattern that keeps its tails, where every state has its turn, success and match are equivalent |
| Search.SearchIsExact | src/teptris/schema/regex.c:1159-1169 | exact for every pattern that keeps its tails when the program never forks, or no reached state reads on to a later one that reads too, or no code point is read by both |
| Search.SearchPattern | src/teptris/schema/regex.c:1021-1177 | compiling and searching: every success is a match, and patterns without alternatives, options, loops and lost tails are found exactly when they match, in every text |
| PatternMeaning.WholeIsFoundIff | src/teptris/schema/regex.c:1131-1177 | the search for `^r$` succeeds if and only if `r` matches the whole text, where every state has its turn |
| PatternMeaning.SearchWhole | src/teptris/schema/regex.c:1021-1177 | compiling and searching `^r$` answers whether `r` matches the whole text, for patterns without alternatives, options, loops and lost tails; every success is such a match |
| LostMatch.SearchLosesAMatch | src/teptris/schema/regex.c:1159-1169 | the pattern `a?ab` matches "ab", a program that takes exactly what the pattern matches does not find it there, and a state misses its turn |
| Validator.Then | src/teptris/schema/validate.c:178-202 | judging one thing and then another pings exactly when one of them fails, with one report for each ping up to 256 |
| Validator.ChildJudged | src/teptris/schema/validate.c:112-136 | judging a child between a push and a pop leads reports to the child and leaves the path as it was, if it fits |
| Validator.PushThenPop | src/teptris/schema/validate.c:112-136 | a pop undoes a push if and only if the path had fewer than 128 segments |
| Validator.Tried | src/teptris/schema/validate.c:568-617 | a muted trial with its pings taken back leaves pings, reports, truncation and mute level as they were |
| Validator.Walk.Complain | src/teptris/schema/validate.c:178-202 | one ping; recorded unless muted or full |
| Validator.Walk.Judge | src/teptris/schema/validate.c:861-1312 | for every schema and value the walk pings at least once if and only if the schema rejects the value |
| Validator.Walk.Passes | src/teptris/schema/validate.c:568-617 | a trial answers whether the schema accepts the value, and leaves everything but a possibly shortened path |
| Validator.Walk.JudgeMember | src/teptris/schema/validate.c:1036-1081 | one member: by name, by every pattern, and as an additional one exactly if neither knows it |
| Validator.Walk.CheckUnique | src/teptris/schema/validate.c:1138-1149 | the double loop complains exactly if two items are equal; on items without dates among texts and without not-a-number, exactly if two denote the same |
| Values.Compare | src/teptris/schema/validate.c:488-559 | the recursive comparison: integers and floats by worth, dates against strings, members in any order |
| Values.SameIffDenotesSame | src/teptris/schema/validate.c:488-559 | values with distinct keys, without not-a-number, in which no date meets a text, are equal if and only if they denote the same: texts, numbers, sequences, and records as maps |
| Values.SameAsItselfIff | src/teptris/schema/validate.c:488-559 | a value equals itself if and only if there is no not-a-number in it |
| Values.DatesAreNotTransitive | src/teptris/schema/validate.c:497-529 | a date in UTC equals two strings that do not equal each other |
| Schemas.UniqueMeans | src/teptris/schema/validate.c:1138-1149 | items are unique if and only if no two denote the same |
| Keywords.MemberMeans | src/teptris/schema/validate.c:1035-1081 | a member by the first schema of its name, all patterns it matches, and the additional schema exactly if none of those speaks of it |
| Keywords.ObjectMeans | src/teptris/schema/validate.c:1018-1128 | an object by the number of its members, the set of its keys, each member, the keys as texts, and what keys entail |
| Keywords.ListMeans | src/teptris/schema/validate.c:1130-1220 | a list by the number of its items, no two of which denote the same, each item, and the number that satisfy `contains`, at least one unless another bound is given |
| Validator.Walk.JudgeContains | src/teptris/schema/validate.c:1200-1221 | counts the items that pass, against both bounds with their defaults |
| Validator.Walk.JudgeAny | src/teptris/schema/validate.c:1230-1239 | complains exactly if no branch accepts, all of them tried |
| Validator.Walk.JudgeOne | src/teptris/schema/validate.c:1240-1249 | complains exactly unless one branch and no other accepts |
| Validator.Walk.JudgeNot | src/teptris/schema/validate.c:1250-1254 | complains exactly if the schema accepts |
| Validator.Walk.JudgeIf | src/teptris/schema/validate.c:1255-1269 | judges by `then` or by `else` as the trial of `if` says |
| Validator.PathDrifts | src/teptris/schema/validate.c:112-136 | with 128 segments on the path a push and a pop lose the last of them |
| Schemas.BlamedIsRejected | src/teptris/schema/validate.c:861-1312 | whatever is blamed on a path is rejected as a whole, and the path leads to it in the document |
| Validator.Validate | src/teptris/schema/validate.c:1495-1557 | the result is empty if and only if the schema accepts the document; at most 256 reports; if the document fits the path stack, each leads to a value in it that the schema's part for that place rejects |
| Divisibility.Strip | src/teptris/schema/validate.c:775-830 | powers of two or five compare by their exponents once both cofactors are free of that factor |
| MultipleOf.DecimalsDivide | src/teptris/schema/validate.c:799-830 | for every non-zero number and positive multiplier, true if and only if the one is an integer multiple of the other, powers of ten of either sign included |
| MultipleOf.MultOk | src/teptris/schema/validate.c:775-830 | the whole decision: the remainder for two integers, no for anything without an exact decimal form, else the decimal decision; exact for everything but a zero that meets a double |
| MultipleOf.ZeroIsRefused | src/teptris/schema/validate.c:775-830 | zero, a multiple of 1e70, is refused |
| MultipleOf.ZeroIsRightIff | src/teptris/schema/validate.c:775-830 | the answer for zero is right exactly for two integers, or while the multiplier needs at most 64 twos and 64 fives more |
| MulShift.Umul128 | src/teptris/common/ryu/d2s_intrinsics.h:64-92 | the four partial products give both words of the exact product, with no overflow on the way |
| MulShift.ShiftRight128 | src/teptris/common/ryu/d2s_intrinsics.h:94-99 | the low word of the double word divided by the power of two |
| MulShift.MulShift64 | src/teptris/common/ryu/d2s_intrinsics.h:308-319 | the separate version is exact: the product divided by 2^j, modulo 2^64 |
| MulShift.FusedIsExact | src/teptris/common/ryu/d2s_intrinsics.h:322-353 | the carry-chain version gives the same three exact words, for a symmetric interval; two of them always |
| MulShift.FusedLowerBoundIsExactIff | src/teptris/common/ryu/d2s_intrinsics.h:340-353 | for an asymmetric interval the lower word is exact if and only if doubling loses no carry |
| MulShift.CarryIsLostIff | src/teptris/common/ryu/d2s_intrinsics.h:340-353 | for the mantissa that an asymmetric interval has, the carry is lost if and only if the low eleven bits of the upper word and the high 54 of the lower are all set |
| MulShift.CarryCanBeLost | src/teptris/common/ryu/d2s_intrinsics.h:340-353 | at that mantissa, a factor within the bounds for which the carry is lost and the lower bound wrong whatever the shift |
| Pow5.InverseDivides | src/teptris/common/ryu/d2s_intrinsics.h:191-203 | multiplying by the inverse of five modulo 2^64 stays within a fifth of the range exactly for multiples of five, and divides those |
| Pow5.Pow5Factor | src/teptris/common/ryu/d2s_intrinsics.h:191-203 | terminates and counts exactly the powers of five that divide |
| Pow5.MultipleOfPowerOf5 | src/teptris/common/ryu/d2s_intrinsics.h:206-209 | decides divisibility by the power of five |
| DigitRemoval.LastCutIsHalf | src/teptris/common/ryu/d2s.c:210-260 | the last digit removed says whether at least, and with the zero flag whether exactly, half was removed |
| DigitRemoval.TogetherStays | src/teptris/common/ryu/d2s.c:261-299 | once the bounds have come together no further digit can go |
| DigitRemoval.TwoDigits | src/teptris/common/ryu/d2s.c:262-274 | rounding after two digits at once is rounding by the upper of them |
| DigitRemoval.CommonCase | src/teptris/common/ryu/d2s.c:261-299 | removes the greatest number of digits that keeps the bounds apart, with the exact quotients, and sets `roundUp` for at least half |
| DigitRemoval.CommonCaseIsRight | src/teptris/common/ryu/d2s.c:293-299 | the output is the value rounded to the nearest or the least above the lower bound, and stays within a symmetric interval |
| DigitRemoval.GeneralCase | src/teptris/common/ryu/d2s.c:210-260 | the digits of the common case go, then further zeros of an exact lower bound; ties go to even |
| Utf8.CheckIsGrammar | src/teptris/parse/parser.c:145-201 | the arithmetic on lead byte, tails, minimum and surrogates accepts exactly the sequences that section 4 of RFC 3629 lists |
| Utf8.InvalidAt | src/teptris/parse/parser.c:145-201 | the length exactly if all is well-formed, else the start of the first ill-formed sequence, the eight-byte skip included |
| Utf8.EncodeIsChar | src/teptris/parse/scalars.c:22-39 | a scalar value is encoded as one well-formed character |
| Spelling.EncodeThenDecode | src/teptris/parse/scalars.c:22-39 | the bytes of a code point decode to it, by the bits that mark them |
| Spelling.DecodeThenEncode | src/teptris/parse/scalars.c:22-39 | every well-formed character is what the code point it decodes to is encoded as |
| Strings.ScanBody | src/teptris/parse/scalars.c:59-286 | the scanning loops, basic and literal, single- and multi-line, decode what the grammar of turns gives, the cursor behind the quotes |
| Strings.TryPlainBody | src/teptris/parse/scalars.c:290-333 | when the fast path answers, the slow path gives the same body and cursor; and exactly when it declines |
| Strings.ParseString | src/teptris/parse/scalars.c:335-397 | fast path, slow path and first line end together read the string value at the cursor |
| Strings.EmitBasicBytes | src/teptris/emit/emit_shared.h:261-312 | copying clean runs and escaping the rest appends the escaped string |
| Strings.EmitStringValue | src/teptris/emit/emit_shared.h:314-331 | appends the literal form exactly if nothing in the string forbids it |
| Strings.StringRoundTrip | src/teptris/emit/emit_shared.h:261-331 | every byte string is scanned back from its text with the cursor behind it, if and only if it is not the empty one with an apostrophe behind its text |
| Strings.EmptyStringRunsOn | src/teptris/emit/emit_shared.h:314-331 | two apostrophes and one behind them are not read as the empty string |
| Strings.DecodedIsWellFormed | src/teptris/parse/scalars.c:22-286 | whatever is decoded from well-formed text is well-formed, and so is the rest of the text |
| Spelling.EscapeMeans | src/teptris/parse/scalars.c:128-161 | each letter behind a backslash stands for its control character, quote or backslash |
| Spelling.CodePointEscape | src/teptris/parse/scalars.c:41-57 | `\x`, `\u` and `\U` with two, four and eight digits of either case stand for the UTF-8 of their code point, or are refused for surrogates and beyond |
| Spelling.NoOtherEscape | src/teptris/parse/scalars.c:101-189 | any other byte behind a backslash is refused |
| Spelling.PlainByteIsKept | src/teptris/parse/scalars.c:190-225 | between double quotes on one line any other byte is kept, but control characters save the tab are refused |
| KeyText.WriteKey | src/teptris/emit/emit_shared.h:339-396 | writes a key bare, literal or escaped, as its bytes allow |
| KeyText.KeyRoundTripIff | src/teptris/emit/emit_shared.h:339-396 | a written key is read back, the cursor behind it, if and only if it is without the delete character |
| KeyText.DeleteIsWrittenRaw | src/teptris/emit/emit_shared.h:368-392 | the key of the delete character alone is written so that it cannot be read |
| KeyText.PathRoundTrip | src/teptris/emit/emitter.c:86-111 | keys with dots between them are read back part by part, within the limit |
| KeyText.HeaderRoundTrip | src/teptris/emit/emitter.c:112-124 | written headers of both kinds are read back, the cursor behind the brackets |
| KeyText.KeyPartRoundTrip | src/teptris/emit/emitter.c:60-68 | a key with blanks and an equals sign behind it is read back up to where the value starts |
| Numbers.ScanRun | src/teptris/parse/scalars.c:433-469 | the loop accepts exactly the runs of at most 511 digits with single underscores between digits, and drops those |
| Numbers.MagFrom | src/teptris/parse/scalars.c:471-483 | the magnitude exactly if it fits 64 bits; the overflow check itself never overflows |
| Numbers.ReadDigits | src/teptris/parse/scalars.c:561-571 | the wrapping accumulator is exact up to eighteen digits, and there agrees with the general run |
| Numbers.ParseDecimal | src/teptris/parse/scalars.c:559-845 | short path and overflow-checked path give one decimal reading |
| Numbers.ParseDigitLed | src/teptris/parse/scalars.c:867-893 | the inline digit loop answers what the general number parser would have answered |
| Dispatch.LookAhead | src/teptris/parse/datetime.c:32-53 | the separators and digits looked at are exactly the shapes of a date or a time |
| Dispatch.ParseValue | src/teptris/parse/scalars.c:898-942 | the dispatch on sign, word, shape of a date and digit gives the number or the date at the cursor |
| Dispatch.ParseValueFast | src/teptris/parse/scalars.c:853-896 | the short dispatch gives the same value as the general one: whatever has the shape of a date is read as one first |
| Dispatch.IntegerDispatched | src/teptris/parse/scalars.c:898-942 | every 64-bit integer comes back from its text through the dispatch, never taken for a date |
| Dispatch.StampDispatched | src/teptris/parse/scalars.c:898-942 | every stamp that the parser can produce comes back from its text through the dispatch, never taken for a number |
| Numbers.EmitInt | src/teptris/emit/emit_shared.h:97-117 | the digit loop appends the integer's text, the smallest integer included |
| Numbers.IntRoundTrip | src/teptris/parse/scalars.c:485-845 | every 64-bit integer, the smallest included, is read back from its text before anything that would not go on the number, the cursor behind it |
| Spelling.DigitsMean | src/teptris/parse/scalars.c:409-431 | the digits of all radixes, in both cases, stand for what they look like |
| Spelling.OnlyDigitsAre | src/teptris/parse/scalars.c:409-431 | nothing but those characters is a digit |
| Spelling.RadixRoundTrip | src/teptris/parse/scalars.c:531-557 | `0x`, `0o` and `0b` before the digits of a number below 2^63 read as that number |
| Spelling.DecimalRoundTrip | src/teptris/parse/scalars.c:559-571 | the decimal digits of a number below 2^63 read as that number, and are what is written for it |
| Datetimes.ReadFraction | src/teptris/parse/datetime.c:130-146 | the loop gives the fraction in nanoseconds, further digits dropped |
| Datetimes.ReadClock | src/teptris/parse/datetime.c:104-128 | hours, minutes and optional seconds at the cursor, each within its range |
| Datetimes.ReadZone | src/teptris/parse/datetime.c:148-171 | the `Z` or signed offset at the cursor, or none, or the error |
| Datetimes.ParseStamp | src/teptris/parse/datetime.c:71-218 | the cursor code, field by field, gives the kind, the fields and the length of the stamp at the cursor, or the error |
| DatetimeGrammar.StampIsRight | src/teptris/parse/datetime.c:71-218 | what is read is a stamp of the grammar of section 5.6 of RFC 3339, with the seconds optional and days within their month, and means what it says |
| DatetimeGrammar.StampIsRead | src/teptris/parse/datetime.c:71-218 | every stamp of that grammar is read, to its last byte, before anything that would not go on it |
| DatetimeGrammar.TextIsStamp | src/teptris/emit/emit_shared.h:213-259 | the text written for a stamp is in the grammar and means that stamp |
| Datetimes.EmitFraction | src/teptris/emit/emit_shared.h:234-245 | the buffer loop appends the fraction without trailing zeros |
| Datetimes.EmitStamp | src/teptris/emit/emit_shared.h:213-259 | appends the text of the kind of stamp it is |
| DatetimeGrammar.FractionRoundTrip | src/teptris/parse/datetime.c:130-146 | a trimmed fraction is read back to the same nanoseconds |
| DatetimeGrammar.StampRoundTrip | src/teptris/parse/datetime.c:71-218 | every stamp that the parser can produce is read back from its text before a terminator |
| DatetimeGrammar.ParsedIsProducible | src/teptris/parse/datetime.c:71-218 | only such stamps come out of the parser: fields in range, days within their month, whole-minute offsets |
| Spelling.StampIsSpelled | src/teptris/emit/emit_shared.h:213-259 | the text of a stamp is its fields with hyphens, the letter, colons, the point and the offset between them |
| Spelling.DateIsSpelled | src/teptris/emit/emit_shared.h:213-259 | four digits, hyphen, two digits, hyphen, two digits |
| Spelling.ClockIsSpelled | src/teptris/emit/emit_shared.h:213-259 | three times two digits with colons between them |
| Spelling.ZoneIsSpelled | src/teptris/emit/emit_shared.h:213-259 | `Z`, or the sign, hours, colon and minutes of the offset |
| Spelling.YearIsGregorian | src/teptris/parse/datetime.c:22-30 | the months of every year have together the days that the Gregorian calendar gives it |
| Spelling.MonthsAreSpread | src/teptris/parse/datetime.c:22-30 | every month but February has the days that spreading 153 over five months gives |
| HeaderText.ParseKeyPath | src/teptris/parse/keys.c:52-130 | the loop reads the dotted path at the cursor, or the syntax or depth error |
| Spelling.BareKeyIsRead | src/teptris/parse/keys.c:76-84 | a row of letters, digits, hyphens and underscores is read as a bare key, whatever else follows |
| Spelling.NoKeyElsewhere | src/teptris/parse/keys.c:65-90 | without such a character and without a quote there is no key |
| HeaderText.ParseHeader | src/teptris/parse/parser.c:420-473 | brackets and path together are the header at the cursor |
| HeaderText.ScanFastHeader | src/teptris/parse/parser.c:489-530 | the fused scan finds exactly the headers of up to eight bare parts without white space |
| HeaderText.FastHeaderAgreesIff | src/teptris/parse/parser.c:489-608 | what the fused scan takes the general reader reads alike, cursor included, if and only if the parts keep the depth limit |
| HeaderText.FastHeaderIgnoresLimit | src/teptris/parse/parser.c:489-608 | under a limit of one `[a.b]` is taken by the fused scan and refused by the general reader |
| HeaderText.ParseKeyPart | src/teptris/parse/parser.c:670-704 | path, blanks and equals sign are the key part at the cursor, or the first error among them |
| HeaderText.ScanFastKey | src/teptris/parse/parser.c:615-640 | the fused scan finds exactly the bare keys with an equals sign behind them |
| HeaderText.FastKeyAgreesIff | src/teptris/parse/parser.c:615-704 | what the fused scan takes the general reader reads alike, up to where the value starts, if and only if the limit allows one part |

## Left out

- Statement layer: keys, scalars and headers are single tokens there; their characters are treated in the lexical modules, token by token, and comments, white space inside lines and the byte order mark are not modelled.
- Parser.Parser.InsertDotted: a value that a line stores is put into the arena as one cell; that the C code allocates a node for each part of it is not visible.
- Allocation failures, the bump arena, and widths of counters (generations, pings, capacities): allocation always succeeds and counters are unbounded.
- Reader.Reader.Run: decides by the length of the path alone whether the fused paths are tried, since tokens do not show spelling; `Parser.Parser.Run` covers every choice.
- Documents with an empty array of tables: the emitter writes nothing for them, so they are not well-formed here; neither the parser nor the builder makes one.
- Writer.Writer.Take: says nothing further once an operation describes no tree although the code takes it: a duplicate key, an array of tables closed while empty, a key before an array item, a value or inline container directly in an array of tables, a header below more than 600 frames.
- The decoding of the writer's byte stream and its end marker.
- Builder: the range check of datetimes, copying of strings, and calls after the document was handed over other than their refusal.
- KeyIndex.KeyTable.FindHash: the hash is an arbitrary function of the key; that it is FNV-1a plays no part.
- The regular-expression parser, `\p{...}` tables and UTF-8 decoding of the subject: patterns are given as trees, texts as code points.
- Ranges.SortMerge: ranges end below 2^32 - 1, as code points do.
- DigitRemoval.GeneralCase: the lower bound is positive, as it is for every double; the loop that strips its zeros would not end at zero.
- Search.SearchIsComplete: the condition is exact for what is carried at every position; a search may still answer rightly though a turn was missed, by another match.
- Validator.Walk.Judge: `$ref`, dynamic references, `content*` and `unevaluated*` are left out, and so are annotation frames with their stamped hashes: the two passes functions of the validator differ only in annotations, and `Validator.Walk.Passes` stands for both. The second pass of `contains`, which only annotates, is left out with them.
- Values.Compare: floats are real numbers or infinite or none, integers are compared with them exactly; the width of the type used for that comparison is not modelled.
- Types, numeric ranges, patterns, formats, `enum` and `const` are one opaque test of the value; the depth guard at 512 is kept but cannot fire on a document that fits the path stack; the stack of schema locations is not modelled.
- MultipleOf.MultOk: how a double is converted to its exact decimal form is left out; the number comes as that form, or as having none.
- MulShift.ShiftRight128: the `|` of two parts without a common bit is written as a sum, and a mask as a remainder.
- Dispatch.ParseValue: strings, booleans, arrays and inline tables, which start with other bytes, are one case there; they are read in their own modules.
- Numbers.ParseDecimal: a number that goes on with a point or an exponent is one opaque float token.
- Shortest-digits printing as a whole, its tables, and floating-point values.
- Strings.ScanBody: the two scanners of the source share every rule but escapes, and are one method with the quote as a parameter.
- Stamps with offsets in seconds or days past the end of a month, which only the builder lets in.
- JSON output, edit operations, error texts and positions, file loading and the command line.
